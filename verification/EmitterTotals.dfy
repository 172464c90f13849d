/** What an operation leaves in the emitters it touches: lists, totals, and everything else as it was. */
module EmitterTotals {
  import opened Prelude
  import opened SignalRecords
  import opened EmitterMatch
  import opened EmitterSpec

  /**
   * The totals of an emitter say what its members are: how many, the earliest positive and the latest
   * start, zero when there is none, and every nonempty station name once.
   */
  ghost predicate SummedUp(e: Emit, ss: map<string, Sight>) {
    var ids := e.memberSightingIds;
    && e.sightingCount as int == |ids| % 0x1_0000_0000
    && (forall i :: i in ids && i in ss && 0 < ss[i].startUtc < INT64_MAX ==> 0 < e.firstSeenUtc <= ss[i].startUtc)
    && (e.firstSeenUtc == 0 || StartsAmong(ids, ss, e.firstSeenUtc))
    && (forall i :: i in ids && i in ss ==> ss[i].startUtc <= e.lastSeenUtc)
    && (e.lastSeenUtc == 0 || StartsAmong(ids, ss, e.lastSeenUtc))
    && NoRepeats(e.contributingStations)
    && (forall x :: x in e.contributingStations <==> x != "" && exists i :: i in ids && i in ss && ss[i].station == x)
  }

  /** The same times and places, as far as the members go. */
  ghost predicate SameMembers(e: Emit, ss: map<string, Sight>, tt: map<string, Sight>) {
    forall i :: i in e.memberSightingIds ==>
      (i in ss <==> i in tt) && (i in ss ==> ss[i].startUtc == tt[i].startUtc && ss[i].station == tt[i].station)
  }

  lemma RecomputedSumsUp(e: Emit, ss: map<string, Sight>)
    ensures SummedUp(Recomputed(e, ss), ss)
  {
    hide Recomputed, StartsAmong, NoRepeats;
    RecomputedExact(e, ss);
  }

  lemma SummedElsewhere(e: Emit, ss: map<string, Sight>, tt: map<string, Sight>)
    requires SummedUp(e, ss) && SameMembers(e, ss, tt)
    ensures SummedUp(e, tt)
  {
    hide NoRepeats;
    forall t | StartsAmong(e.memberSightingIds, ss, t)
      ensures StartsAmong(e.memberSightingIds, tt, t)
    {
    }
  }

  /** The two differ at most in their lists and totals. */
  predicate SameButTotals(e: Emit, o: Emit) {
    e.(firstSeenUtc := o.firstSeenUtc, lastSeenUtc := o.lastSeenUtc, sightingCount := o.sightingCount,
       contributingStations := o.contributingStations, memberSightingIds := o.memberSightingIds) == o
  }

  /** An emitter after a step: as it was, or summed up anew with its other fields as they were. */
  ghost predicate Settled(db: Db, d: Db, v: string)
    requires v in d.emitters
  {
    if v in db.emitters then
      d.emitters[v] == db.emitters[v]
      || (SameButTotals(d.emitters[v], db.emitters[v]) && SummedUp(d.emitters[v], d.sightings))
    else SummedUp(d.emitters[v], d.sightings)
  }

  lemma RecomputedSettles(db: Db, d: Db, v: string, e: Emit, ss: map<string, Sight>)
    requires v in d.emitters && d.emitters[v] == Recomputed(e, ss) && SameMembers(e, ss, d.sightings)
    requires v in db.emitters ==> SameButTotals(e, db.emitters[v])
    ensures Settled(db, d, v)
  {
    RecomputedSumsUp(e, ss);
    RecomputedKeeps(e, ss);
    hide Recomputed, SummedUp;
    SummedElsewhere(d.emitters[v], ss, d.sightings);
  }

  lemma RecomputedKeeps(e: Emit, ss: map<string, Sight>)
    ensures SameButTotals(Recomputed(e, ss), e)
  {
  }

  lemma SameSightings(e: Emit, ss: map<string, Sight>)
    ensures SameMembers(e, ss, ss)
  {
  }

  lemma {:induction false} IngestSettles(db: Db, s: Sight, f: Fresh, score: real, best: string, v: string)
    requires ScanFits(db, score, best) && IsFresh(db, f) && v in Ingested(db, s, f, score, best).emitters
    ensures Settled(db, Ingested(db, s, f, score, best), v)
  {
    hide Recomputed, SummedUp, SameMembers, Score;
    var d, i := Ingested(db, s, f, score, best), s.sightingId;
    if i !in db.sightings && s.freqMhz > 0.0 {
      if score >= JOIN_SCORE {
        JoinSettles(db, s, best, if score >= HIGH_SCORE then MS_AUTO_HIGH else MS_PENDING, v);
      } else {
        FoundSettles(db, db, i, s, f, MS_AUTO_LOW, v);
      }
    }
  }

  lemma JoinSettles(db: Db, s: Sight, u: string, status: Uint8, v: string)
    requires u in db.emitters && v in db.emitters
    ensures Settled(db, Joined(db, s, u, status), v)
  {
    hide Recomputed, SummedUp, SameMembers;
    var d := Joined(db, s, u, status);
    if v == u {
      var e := db.emitters[u].(memberSightingIds := db.emitters[u].memberSightingIds + [s.sightingId]);
      SameSightings(e, d.sightings);
      RecomputedSettles(db, d, v, e, d.sightings);
    }
  }

  /** Founding an emitter from an observation whose time and place do not change. */
  lemma FoundSettles(db: Db, l: Db, i: string, s: Sight, f: Fresh, status: Uint8, v: string)
    requires v in l.emitters || v == f.uid
    requires l.emitters.Keys == db.emitters.Keys && f.uid !in db.emitters
    requires v in l.emitters ==>
               l.emitters[v] == db.emitters[v]
               || (SameButTotals(l.emitters[v], db.emitters[v])
                   && SummedUp(l.emitters[v], Founded(l, i, s, f, status).sightings))
    ensures Settled(db, Founded(l, i, s, f, status), v)
  {
    hide Recomputed, SummedUp, SameMembers;
    var d := Founded(l, i, s, f, status);
    if v == f.uid {
      var e := MakeEmitter(s, s.reporter, f).(memberSightingIds := [i]);
      SameSightings(e, d.sightings);
      RecomputedSettles(db, d, v, e, d.sightings);
    }
  }

  /** Leaving an emitter sums it up; later changes to what an observation names do not matter. */
  lemma LeftSettles(db: Db, i: string, v: string, tt: map<string, Sight>)
    requires i in db.sightings && v in db.emitters
    requires forall j :: j in db.sightings <==> j in tt
    requires forall j :: j in tt ==>
               tt[j].startUtc == db.sightings[j].startUtc && tt[j].station == db.sightings[j].station
    ensures var l := Left(db, i);
            && l.sightings == db.sightings && l.emitters.Keys == db.emitters.Keys
            && (l.emitters[v] == db.emitters[v]
                || (SameButTotals(l.emitters[v], db.emitters[v]) && SummedUp(l.emitters[v], tt)))
  {
    hide Recomputed, SummedUp, Without;
    var u := db.sightings[i].emitterUid;
    if u != "" && u in db.emitters && v == u {
      var e := db.emitters[u].(memberSightingIds := Without(db.emitters[u].memberSightingIds, i));
      RecomputedSumsUp(e, db.sightings);
      RecomputedKeeps(e, db.sightings);
      SummedElsewhere(Recomputed(e, db.sightings), db.sightings, tt);
    }
  }

  lemma {:induction false} RelinkSettles(db: Db, i: string, target: string, action: Uint8, f: Fresh, v: string)
    requires IsFresh(db, f) && v in Relinked(db, i, target, action, f).emitters
    ensures Settled(db, Relinked(db, i, target, action, f), v)
  {
    hide Recomputed, SummedUp, Without, SameMembers, Left, Founded, Arrived;
    if i in db.sightings {
      var s := db.sightings[i];
      if action == 1 || action == 3 {
        SplitSettles(db, i, f, v);
      } else if action == 2 {
        var m := Left(db, i).(sightings := db.sightings[i := s.(emitterUid := target, matchStatus := MS_MANUAL)]);
        LeftSightings(db, i);
        ArrivedKeys(m, i, target);
        MoveSettles(db, m, i, target, v);
      }
    }
  }

  lemma ArrivedKeys(m: Db, i: string, u: string)
    ensures Arrived(m, i, u).emitters.Keys == m.emitters.Keys
  {
  }

  lemma LeftSightings(db: Db, i: string)
    requires i in db.sightings
    ensures Left(db, i).sightings == db.sightings && Left(db, i).emitters.Keys == db.emitters.Keys
  {
  }

  lemma SplitSettles(db: Db, i: string, f: Fresh, v: string)
    requires IsFresh(db, f) && i in db.sightings && v in Founded(Left(db, i), i, db.sightings[i], f, MS_MANUAL).emitters
    ensures Settled(db, Founded(Left(db, i), i, db.sightings[i], f, MS_MANUAL), v)
  {
    hide Recomputed, SummedUp, Without, SameMembers, Left;
    var l, s := Left(db, i), db.sightings[i];
    LeftSightings(db, i);
    if v in db.emitters {
      LeftSettles(db, i, v, db.sightings[i := s.(emitterUid := f.uid, matchStatus := MS_MANUAL)]);
    }
    FoundSettles(db, l, i, s, f, MS_MANUAL, v);
  }

  lemma MoveSettles(db: Db, m: Db, i: string, target: string, v: string)
    requires i in db.sightings && v in db.emitters
    requires m == Left(db, i).(sightings := db.sightings[i := db.sightings[i].(emitterUid := target,
                                                                               matchStatus := MS_MANUAL)])
    ensures v in m.emitters && v in Arrived(m, i, target).emitters
    ensures Settled(db, m, v) && Settled(db, Arrived(m, i, target), v)
  {
    hide Recomputed, SummedUp, Without, SameMembers, Left;
    LeftSightings(db, i);
    LeftSettles(db, i, v, m.sightings);
    if v == target {
      var e, d := m.emitters[v], Arrived(m, i, target);
      var ids := if i in e.memberSightingIds then e.memberSightingIds else e.memberSightingIds + [i];
      SameSightings(e.(memberSightingIds := ids), m.sightings);
      RecomputedSettles(db, d, v, e.(memberSightingIds := ids), m.sightings);
    }
  }

  lemma FileSettles(db: Db, r: set<string>, v: string)
    requires v in SetDeleted(db, r).emitters
    ensures Settled(db, SetDeleted(db, r), v)
  {
    hide Recomputed, SummedUp, WithoutAll, SameMembers;
    if Touched(db, r, v) {
      var e := db.emitters[v].(memberSightingIds := WithoutAll(db.emitters[v].memberSightingIds, r));
      SameSightings(e, db.sightings - r);
      RecomputedSettles(db, SetDeleted(db, r), v, e, db.sightings - r);
    }
  }

  /**
   * Apart from writing one, whatever is done leaves an emitter either as it was or summed up anew, with
   * every field that an operator can set as it was; a new one is summed up.
   */
  lemma {:induction false} StepSettles(db: Db, op: Op, d: Db, v: string)
    requires StepTo(db, op, d) && NewUid(db, op) && !op.Upsert? && v in d.emitters
    ensures Settled(db, d, v)
  {
    hide Settled, Ingested, Relinked, SetDeleted;
    match op
    case Ingest(s, f) =>
      var score, best :|
        Scanned(db.emitters, s, score, best) && ScanFits(db, score, best) && d == Ingested(db, s, f, score, best);
      IngestSettles(db, s, f, score, best, v);
    case DeleteEmitter(u) =>
      UntouchedSettles(db, d, v);
    case DeleteFile(name) =>
      FileSettles(db, OfFile(db, name), v);
    case Link(i, target, action, f) =>
      RelinkSettles(db, i, target, action, f, v);
  }

  lemma UntouchedSettles(db: Db, d: Db, v: string)
    requires v in d.emitters && v in db.emitters && d.emitters[v] == db.emitters[v]
    ensures Settled(db, d, v)
  {
  }

  // --------------------------------------------------------------- lists

  /** Taking a name out of a list takes out every occurrence and keeps the order of the rest. */
  lemma {:induction false} WithoutParts(a: seq<string>, b: seq<string>, x: string)
    ensures Without(a + b, x) == Without(a, x) + Without(b, x)
  {
    if a == [] {
      assert a + b == b;
    } else {
      assert (a + b)[1..] == a[1..] + b;
      WithoutParts(a[1..], b, x);
    }
  }

  lemma WithoutOne(y: string, x: string, r: set<string>)
    ensures Without([y], x) == if y == x then [] else [y]
    ensures WithoutAll([y], r) == if y in r then [] else [y]
  {
    assert [y][1..] == [];
    assert Without([], x) == [] && WithoutAll([], r) == [];
  }

  lemma {:induction false} WithoutAllParts(a: seq<string>, b: seq<string>, r: set<string>)
    ensures WithoutAll(a + b, r) == WithoutAll(a, r) + WithoutAll(b, r)
  {
    if a == [] {
      assert a + b == b;
    } else {
      assert (a + b)[1..] == a[1..] + b;
      WithoutAllParts(a[1..], b, r);
    }
  }

  /** An observation moved to an emitter that lists it already is not listed twice. */
  lemma ArrivesOnce(db: Db, i: string, u: string)
    requires u in db.emitters
    ensures var d, ids := Arrived(db, i, u), db.emitters[u].memberSightingIds;
            && d.emitters.Keys == db.emitters.Keys && d.sightings == db.sightings
            && (i in ids ==> d.emitters[u].memberSightingIds == ids)
            && (i !in ids ==> d.emitters[u].memberSightingIds == ids + [i])
            && (forall v :: v in db.emitters && v != u ==> d.emitters[v] == db.emitters[v])
  {
  }

  // ------------------------------------------------------------ deletion

  /** Deleting an emitter leaves its observations, pending and without an emitter, and touches no others. */
  lemma {:induction false} EmitterDeletedOutcome(db: Db, u: string)
    requires Linked(db) && u in db.emitters
    ensures var d := EmitterDeleted(db, u);
            && d.emitters == db.emitters - {u} && d.sightings.Keys == db.sightings.Keys
            && forall i :: i in db.sightings ==>
                 d.sightings[i] == if db.sightings[i].emitterUid == u
                                   then db.sightings[i].(emitterUid := "", matchStatus := 2) else db.sightings[i]
  {
    forall i | i in db.sightings
      ensures i in db.emitters[u].memberSightingIds <==> db.sightings[i].emitterUid == u
    {
      LinkedMeansIff(db, i, u);
    }
  }

  predicate InFile(db: Db, i: string, name: string) {
    i in db.sightings && db.sightings[i].filename == name
  }

  /**
   * Deleting a file deletes exactly its observations. Emitters that lost none are as before; the others
   * list what they have left, and those with nothing left are gone.
   */
  lemma {:induction false} FileDeletedOutcome(db: Db, name: string, u: string)
    requires Linked(db) && u in db.emitters
    ensures var d, ids := SetDeleted(db, OfFile(db, name)), db.emitters[u].memberSightingIds;
            && (forall i :: i in d.sightings <==> i in db.sightings && !InFile(db, i, name))
            && (forall i :: i in d.sightings ==> d.sightings[i] == db.sightings[i])
            && d.emitters.Keys <= db.emitters.Keys
            && ((forall i :: i in ids ==> !InFile(db, i, name)) ==> u in d.emitters && d.emitters[u] == db.emitters[u])
            && ((exists i :: i in ids && InFile(db, i, name)) ==>
                  (u in d.emitters <==> exists i :: i in ids && !InFile(db, i, name)))
            && (u in d.emitters ==>
                  forall i :: i in d.emitters[u].memberSightingIds <==> i in ids && !InFile(db, i, name))
  {
    hide Recomputed, WithoutAll;
    var r := OfFile(db, name);
    assert ListOk(u, db.emitters[u], db.sightings);
    forall i | i in db.sightings
      ensures i in db.emitters[u].memberSightingIds <==> db.sightings[i].emitterUid == u
    {
      LinkedMeansIff(db, i, u);
    }
    var w := WithoutAll(db.emitters[u].memberSightingIds, r);
    if w != [] {
      assert w[0] in w;
    }
  }
}
