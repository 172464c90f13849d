/** What sequences of operations on the signal library amount to. */
module EmitterOutcome {
  import opened SignalRecords
  import opened EmitterMatch
  import opened EmitterSpec

  /** Moving an observation is remembered: ingesting it again, whatever it now scores, leaves the link alone. */
  lemma ManualLinkSurvives(db: Db, i: string, target: string, f: Fresh, s: Sight, g: Fresh, score: real, best: string)
    requires i in db.sightings && s.sightingId == i
    requires ScanFits(Relinked(db, i, target, 2, f), score, best)
    ensures var d := Ingested(Relinked(db, i, target, 2, f), s, g, score, best);
            && d.sightings[i] == s.(emitterUid := target, matchStatus := MS_MANUAL)
            && d.emitters == Relinked(db, i, target, 2, f).emitters
  {
    hide Recomputed, Without;
  }

  /** Deleting an emitter unlinks its observations, and ingesting one again does not match it anew. */
  lemma DeletedStaysUnlinked(db: Db, u: string, s: Sight, g: Fresh, score: real, best: string)
    requires Linked(db) && u in db.emitters && s.sightingId in db.sightings
    requires db.sightings[s.sightingId].emitterUid == u && ScanFits(EmitterDeleted(db, u), score, best)
    ensures var d := Ingested(EmitterDeleted(db, u), s, g, score, best);
            && d.sightings[s.sightingId] == s.(emitterUid := "", matchStatus := MS_PENDING)
            && d.emitters == db.emitters - {u}
            && forall j :: j in d.sightings ==> d.sightings[j].emitterUid != u
  {
    LinkedMeansIff(db, s.sightingId, u);
    forall j | j in db.sightings
      ensures db.sightings[j].emitterUid == u ==> j in db.emitters[u].memberSightingIds
    {
      LinkedMeansIff(db, j, u);
    }
    NoEmptyUid(db);
  }

  /** The emitter an observation names, and how sure that is. */
  function LinkOf(s: Sight): (string, Uint8) {
    (s.emitterUid, s.matchStatus)
  }

  predicate OnlyIngests(ops: seq<Op>) {
    forall k :: 0 <= k < |ops| ==> ops[k].Ingest?
  }

  /** However many observations come in, known ones again among them: a known one keeps its link. */
  lemma {:induction false} IngestsKeepLink(states: seq<Db>, ops: seq<Op>, i: string, n: nat)
    requires IsRun(states, ops) && OnlyIngests(ops) && i in states[0].sightings && n <= |ops|
    ensures i in states[n].sightings && LinkOf(states[n].sightings[i]) == LinkOf(states[0].sightings[i])
  {
    hide StepTo;
    if n > 0 {
      IngestsKeepLink(states, ops, i, n - 1);
      assert StepTo(states[n - 1], ops[n - 1], states[n]);
      IngestKeepsLink(states[n - 1], ops[n - 1], states[n], i);
    }
  }

  lemma IngestKeepsLink(db: Db, op: Op, d: Db, i: string)
    requires StepTo(db, op, d) && op.Ingest? && i in db.sightings
    ensures i in d.sightings && LinkOf(d.sightings[i]) == LinkOf(db.sightings[i])
  {
    hide Recomputed;
  }

  /** So an observation whose emitter is deleted stays unlinked, however often it comes in again. */
  lemma DeletedForGood(db: Db, u: string, i: string, states: seq<Db>, ops: seq<Op>, n: nat)
    requires Linked(db) && u in db.emitters && i in db.sightings && db.sightings[i].emitterUid == u
    requires IsRun(states, ops) && OnlyIngests(ops) && states[0] == EmitterDeleted(db, u) && n <= |ops|
    ensures i in states[n].sightings && LinkOf(states[n].sightings[i]) == ("", MS_PENDING)
  {
    hide IsRun;
    LinkedMeansIff(db, i, u);
    IngestsKeepLink(states, ops, i, n);
  }

  /** And one linked by hand stays with its emitter. */
  lemma ManualForGood(db: Db, i: string, target: string, f: Fresh, states: seq<Db>, ops: seq<Op>, n: nat)
    requires i in db.sightings
    requires IsRun(states, ops) && OnlyIngests(ops) && states[0] == Relinked(db, i, target, 2, f) && n <= |ops|
    ensures i in states[n].sightings && LinkOf(states[n].sightings[i]) == (target, MS_MANUAL)
  {
    hide IsRun, Recomputed, Without;
    IngestsKeepLink(states, ops, i, n);
  }

  lemma NoEmptyUid(db: Db)
    requires Linked(db)
    ensures "" !in db.emitters
  {
  }

  /** Splitting an observation off takes it out of the list it was in, if any, and into a list of its own. */
  lemma SplitOutcome(db: Db, i: string, f: Fresh)
    requires Linked(db) && IsFresh(db, f) && i in db.sightings
    ensures var u, d := db.sightings[i].emitterUid, Relinked(db, i, "", 3, f);
            && d.emitters.Keys == db.emitters.Keys + {f.uid}
            && MadeFrom(d.emitters[f.uid], db.sightings[i], db.sightings[i].reporter, f)
            && (u in db.emitters ==> d.emitters[u].memberSightingIds == Without(db.emitters[u].memberSightingIds, i))
            && (forall v :: v in db.emitters && v != u ==> d.emitters[v] == db.emitters[v])
            && d.sightings == db.sightings[i := db.sightings[i].(emitterUid := f.uid, matchStatus := MS_MANUAL)]
  {
    NoEmptyUid(db);
    IdOf(db, i);
    hide Linked, Without, Founded, MadeFrom;
    FoundedFrom(Left(db, i), i, db.sightings[i], f, MS_MANUAL);
    LeftLists(db, i);
  }

  lemma IdOf(db: Db, i: string)
    requires Linked(db) && i in db.sightings
    ensures db.sightings[i].sightingId == i
    ensures forall v :: v in db.emitters && v != db.sightings[i].emitterUid ==> i !in db.emitters[v].memberSightingIds
  {
    forall v | v in db.emitters && v != db.sightings[i].emitterUid
      ensures i !in db.emitters[v].memberSightingIds
    {
      LinkedMeansIff(db, i, v);
    }
  }

  /** Confirming marks the match and changes nothing else; an observation that names no emitter stays as it is. */
  lemma ConfirmOutcome(db: Db, i: string, target: string, f: Fresh)
    requires i in db.sightings
    ensures var s, d := db.sightings[i], Relinked(db, i, target, 0, f);
            && d.emitters == db.emitters
            && d.sightings == db.sightings[i := if s.emitterUid == "" then s else s.(matchStatus := MS_CONFIRMED)]
  {
  }

  /** Rejecting a match splits the observation off, whatever target was named; other actions do nothing. */
  lemma RejectSplits(db: Db, i: string, target: string, f: Fresh, action: Uint8)
    ensures Relinked(db, i, target, 1, f) == Relinked(db, i, "", 3, f)
    ensures action > 3 ==> Relinked(db, i, target, action, f) == db
    ensures i !in db.sightings ==> Relinked(db, i, target, action, f) == db
  {
  }

  /** The list of v, without i, and with i at its end if v is the target. */
  function ListAfter(db: Db, i: string, target: string, v: string): seq<string>
    requires v in db.emitters
  {
    Without(db.emitters[v].memberSightingIds, i) + if v == target then [i] else []
  }

  /** Moving takes it out of the list it was in, if any, and to the end of the target's, if that is known. */
  lemma MoveOutcome(db: Db, i: string, target: string, f: Fresh)
    requires Linked(db) && i in db.sightings
    ensures var u, d := db.sightings[i].emitterUid, Relinked(db, i, target, 2, f);
            && d.emitters.Keys == db.emitters.Keys
            && (forall v :: v in db.emitters ==> d.emitters[v].memberSightingIds == ListAfter(db, i, target, v))
            && (forall v :: v in db.emitters && v != u && v != target ==> d.emitters[v] == db.emitters[v])
            && d.sightings == db.sightings[i := db.sightings[i].(emitterUid := target, matchStatus := MS_MANUAL)]
  {
    hide Linked, Left, Arrived, Without, Relinked;
    MoveIs(db, i, target, f);
    NoEmptyUid(db);
    forall v | v in db.emitters && v != db.sightings[i].emitterUid
      ensures i !in db.emitters[v].memberSightingIds
    {
      LinkedMeansIff(db, i, v);
    }
    LeftLists(db, i);
    var s := db.sightings[i].(emitterUid := target, matchStatus := MS_MANUAL);
    ArrivedLists(Left(db, i).(sightings := db.sightings[i := s]), i, target);
  }

  lemma MoveIs(db: Db, i: string, target: string, f: Fresh)
    requires i in db.sightings
    ensures var l := Left(db, i);
            var s := db.sightings[i].(emitterUid := target, matchStatus := MS_MANUAL);
            var m := l.(sightings := db.sightings[i := s]);
            Relinked(db, i, target, 2, f) == if target == "" then m else Arrived(m, i, target)
  {
    hide Arrived, Recomputed, Without;
  }

  lemma LeftLists(db: Db, i: string)
    requires i in db.sightings && "" !in db.emitters
    requires forall v :: v in db.emitters && v != db.sightings[i].emitterUid ==> i !in db.emitters[v].memberSightingIds
    ensures var l := Left(db, i);
            && l.sightings == db.sightings && l.emitters.Keys == db.emitters.Keys
            && (forall v :: v in db.emitters ==>
                  l.emitters[v].memberSightingIds == Without(db.emitters[v].memberSightingIds, i))
            && (forall v :: v in db.emitters && v != db.sightings[i].emitterUid ==> l.emitters[v] == db.emitters[v])
  {
    hide Without;
  }

  lemma ArrivedLists(m: Db, i: string, target: string)
    requires forall v :: v in m.emitters ==> i !in m.emitters[v].memberSightingIds
    ensures var d := if target == "" then m else Arrived(m, i, target);
            && d.sightings == m.sightings && d.emitters.Keys == m.emitters.Keys
            && (forall v :: v in m.emitters && v != target ==> d.emitters[v] == m.emitters[v])
            && (target in m.emitters && target != "" ==>
                  d.emitters[target].memberSightingIds == m.emitters[target].memberSightingIds + [i])
  {
  }

  /**
   * Splitting off and moving back undoes the split: the same observations are listed, this one now
   * last, every other emitter is as before, and only the empty emitter made by the split is left over.
   */
  lemma SplitThenMoveBack(db: Db, i: string, f: Fresh, g: Fresh)
    requires Linked(db) && IsFresh(db, f) && i in db.sightings && db.sightings[i].emitterUid in db.emitters
    ensures var u := db.sightings[i].emitterUid;
            var d := Relinked(Relinked(db, i, "", 3, f), i, u, 2, g);
            && d.emitters.Keys == db.emitters.Keys + {f.uid} && d.emitters[f.uid].memberSightingIds == []
            && (forall v :: v in db.emitters && v != u ==> d.emitters[v] == db.emitters[v])
            && d.emitters[u].memberSightingIds == Without(db.emitters[u].memberSightingIds, i) + [i]
            && (forall j :: j in d.emitters[u].memberSightingIds <==> j in db.emitters[u].memberSightingIds)
            && d.sightings == db.sightings[i := db.sightings[i].(matchStatus := MS_MANUAL)]
  {
    hide Relinked, Linked, Without, IsFresh, ListAfter, MadeFrom;
    IdOf(db, i);
    var u, m := db.sightings[i].emitterUid, Relinked(db, i, "", 3, f);
    FreshIsNew(db, f);
    SplitOutcome(db, i, f);
    SplitLinked(db, i, f);
    MoveOutcome(m, i, u, g);
    MadeLists(m.emitters[f.uid], db.sightings[i], db.sightings[i].reporter, f);
    BackInLists(db, m, i, u, f.uid);
    LinkedMeansIff(db, i, u);
    assert db.sightings[i].(emitterUid := f.uid, matchStatus := MS_MANUAL).(emitterUid := u, matchStatus := MS_MANUAL)
        == db.sightings[i].(matchStatus := MS_MANUAL);
  }

  /** The two lists concerned, after moving back. */
  lemma BackInLists(db: Db, m: Db, i: string, u: string, n: string)
    requires u in db.emitters && u in m.emitters && n in m.emitters && n != u && m.emitters[n].memberSightingIds == [i]
    requires m.emitters[u].memberSightingIds == Without(db.emitters[u].memberSightingIds, i)
    ensures ListAfter(m, i, u, n) == []
    ensures ListAfter(m, i, u, u) == Without(db.emitters[u].memberSightingIds, i) + [i]
  {
    hide Without;
    WithoutOnly(i);
    WithoutTwice(db.emitters[u].memberSightingIds, i);
  }

  lemma MadeLists(e: Emit, s: Sight, creator: string, f: Fresh)
    requires MadeFrom(e, s, creator, f)
    ensures e.memberSightingIds == [s.sightingId]
  {
  }

  lemma FreshIsNew(db: Db, f: Fresh)
    requires IsFresh(db, f)
    ensures f.uid !in db.emitters
  {
  }

  lemma WithoutOnly(i: string)
    ensures Without([i], i) == []
  {
    assert [i][1..] == [];
  }

  lemma WithoutTwice(ids: seq<string>, i: string)
    ensures Without(Without(ids, i), i) == Without(ids, i)
  {
  }

  lemma SplitLinked(db: Db, i: string, f: Fresh)
    requires Linked(db) && IsFresh(db, f)
    ensures Linked(Relinked(db, i, "", 3, f))
  {
    hide Relinked, MembersLinked, SightingsLinked;
    RelinkedKeeps(db, i, "", 3, f);
  }
}
