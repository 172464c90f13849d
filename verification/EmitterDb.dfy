/** The signal library as the server holds it: two maps updated in place. */
module EmitterDb {
  import opened SignalRecords
  import opened EmitterMatch
  import opened EmitterSpec

  datatype MatchResult = MatchResult(emitterUid: string, score: real, status: Uint8)

  /** The emitters found to be refreshed, and those found to be emptied. */
  datatype Progress = Progress(affected: seq<string>, orphaned: seq<string>)

  /** One observation has gone: its emitter, if it had one, is now in one of the lists. */
  ghost predicate Removed(s: Db, i: string, p: Progress, t: Db, q: Progress)
    requires i in s.sightings
  {
    var u := s.sightings[i].emitterUid;
    && t == SightingDeleted(s, i) && p.affected <= q.affected
    && (forall v :: v in q.orphaned <==> v in p.orphaned || (v in s.emitters && v !in t.emitters))
    && (forall v :: v in q.affected ==> v in p.affected || (v == u && v in t.emitters))
    && (u != "" && u in t.emitters ==> u in q.affected || u in q.orphaned)
  }

  /** How far the deletion of a file has come, when the observations in gone have gone. */
  ghost predicate Deleting(db: Db, gone: set<string>, s: Db, p: Progress, orphaned0: seq<string>) {
    && s == SetDeleted(db, gone) && s.emitters.Keys <= db.emitters.Keys
    && (forall u :: u in p.orphaned <==> u in orphaned0 || (u in db.emitters && u !in s.emitters))
    && (forall u :: u in s.emitters && Touched(db, gone, u) ==> u in p.affected || u in p.orphaned)
  }

  lemma DeletingStart(db: Db, p: Progress)
    ensures Deleting(db, {}, db, p, p.orphaned)
  {
    hide SetDeleted, Touched;
    SetDeletedNothing(db);
    TouchedNothing(db);
  }

  lemma DeletingHas(db: Db, gone: set<string>, i: string, s: Db, p: Progress, orphaned0: seq<string>)
    requires Deleting(db, gone, s, p, orphaned0) && i in db.sightings && i !in gone
    ensures i in s.sightings && s.sightings[i] == db.sightings[i]
  {
    hide SetDeleted, Touched;
    SetDeletedSightings(db, gone, i);
  }

  lemma DeletingEnd(db: Db, r: set<string>, s: Db, p: Progress, orphaned0: seq<string>)
    requires Deleting(db, r, s, p, orphaned0)
    ensures s == SetDeleted(db, r)
    ensures forall u :: u in p.orphaned <==> u in orphaned0 || (u in db.emitters && u !in s.emitters)
    ensures forall u :: u in s.emitters && Touched(db, r, u) ==> u in p.affected || u in orphaned0
  {
    hide SetDeleted, Touched;
  }

  lemma DeletingStep(db: Db, gone: set<string>, i: string, s: Db, p: Progress, t: Db, q: Progress,
                     orphaned0: seq<string>)
    requires MembersLinked(db) && i in db.sightings && i !in gone && Deleting(db, gone, s, p, orphaned0)
    requires i in s.sightings && s.sightings[i] == db.sightings[i] && Removed(s, i, p, t, q)
    ensures Deleting(db, gone + {i}, t, q, orphaned0)
  {
    hide SetDeleted, SightingDeleted, MembersLinked, Touched;
    DeleteStep(db, gone, i);
    SetDeletedSightings(db, gone, i);
    NoUid(db);
    DeletingOrphans(db, gone, i, s, p, t, q, orphaned0);
    DeletingAffected(db, gone, i, s, p, t, q, orphaned0);
  }

  lemma DeletingOrphans(db: Db, gone: set<string>, i: string, s: Db, p: Progress, t: Db, q: Progress,
                        orphaned0: seq<string>)
    requires Deleting(db, gone, s, p, orphaned0) && i in s.sightings
    requires Removed(s, i, p, t, q) && t.emitters.Keys <= s.emitters.Keys
    ensures forall u :: u in q.orphaned <==> u in orphaned0 || (u in db.emitters && u !in t.emitters)
  {
    hide SetDeleted, SightingDeleted, Touched;
  }

  lemma DeletingAffected(db: Db, gone: set<string>, i: string, s: Db, p: Progress, t: Db, q: Progress,
                         orphaned0: seq<string>)
    requires Deleting(db, gone, s, p, orphaned0) && i in s.sightings
    requires Removed(s, i, p, t, q) && t.emitters.Keys <= s.emitters.Keys
    requires i in db.sightings && s.sightings[i] == db.sightings[i] && "" !in db.emitters
    ensures forall u :: u in t.emitters && Touched(db, gone + {i}, u) ==> u in q.affected || u in q.orphaned
  {
    hide SetDeleted, SightingDeleted, Touched;
    TouchedStep(db, gone, i);
    assert forall u :: u in p.affected ==> u in q.affected;
  }

  class EmitterStore {
    var emitters: map<string, Emit>
    var sightings: map<string, Sight>

    ghost function State(): Db
      reads this
    {
      Db(emitters, sightings)
    }

    constructor ()
      ensures State() == Db(map[], map[])
    {
      emitters := map[];
      sightings := map[];
    }

    /** Walks the members once and refreshes what summarises them. */
    method Recompute(e: Emit) returns (r: Emit)
      ensures r == Recomputed(e, sightings)
    {
      var ids := e.memberSightingIds;
      var first: Int64, last: Int64 := INT64_MAX, 0;
      var stations: seq<string> := [];
      for k := 0 to |ids|
        invariant FirstSeen(ids[k..], sightings, first) == FirstSeen(ids, sightings, INT64_MAX)
        invariant LastSeen(ids[k..], sightings, last) == LastSeen(ids, sightings, 0)
        invariant Stations(ids[k..], sightings, stations) == Stations(ids, sightings, [])
      {
        assert ids[k..][1..] == ids[k + 1..];
        if ids[k] in sightings {
          var s := sightings[ids[k]];
          if s.startUtc > 0 && s.startUtc < first {
            first := s.startUtc;
          }
          if s.startUtc > last {
            last := s.startUtc;
          }
          if s.station != "" && s.station !in stations {
            stations := stations + [s.station];
          }
        }
      }
      if first == INT64_MAX {
        first := 0;
      }
      r := e.(sightingCount := ToUint32(|ids|), firstSeenUtc := first, lastSeenUtc := last,
              contributingStations := stations);
    }

    /** s with the emitter and status it was given; f is used only when a new emitter is made. */
    method IngestSighting(s: Sight, f: Fresh) returns (s': Sight, mr: MatchResult)
      modifies this
      ensures s.sightingId in sightings && s' == sightings[s.sightingId]
      ensures mr.emitterUid == s'.emitterUid && mr.status == s'.matchStatus
      ensures StepTo(old(State()), Ingest(s, f), State())
    {
      var score, best := FindBest(emitters, s);
      ghost var db := State();
      assert Scanned(db.emitters, s, score, best) && ScanFits(db, score, best);
      var id := s.sightingId;
      if id in sightings {
        s' := s.(emitterUid := sightings[id].emitterUid, matchStatus := sightings[id].matchStatus);
        sightings := sightings[id := s'];
        mr := MatchResult(s'.emitterUid, 0.0, s'.matchStatus);
        assert State() == Ingested(db, s, f, score, best);
        return;
      }
      if !(s.freqMhz > 0.0) {
        s' := s.(emitterUid := "", matchStatus := MS_PENDING);
        sightings := sightings[id := s'];
        mr := MatchResult("", 0.0, MS_PENDING);
        assert State() == Ingested(db, s, f, score, best);
        return;
      }
      if score >= JOIN_SCORE {
        var status := if score >= HIGH_SCORE then MS_AUTO_HIGH else MS_PENDING;
        s' := s.(emitterUid := best, matchStatus := status);
        sightings := sightings[id := s'];
        var e := emitters[best];
        e := Recompute(e.(memberSightingIds := e.memberSightingIds + [id]));
        emitters := emitters[best := e];
        mr := MatchResult(best, score, status);
      } else {
        s' := s.(emitterUid := f.uid, matchStatus := MS_AUTO_LOW);
        sightings := sightings[id := s'];
        var e := Recompute(MakeEmitter(s, s.reporter, f).(memberSightingIds := [id]));
        emitters := emitters[f.uid := e];
        mr := MatchResult(f.uid, if score < 0.0 then 0.0 else score, MS_AUTO_LOW);
      }
      assert State() == Ingested(db, s, f, score, best);
    }

    method UpsertEmitter(e: Emit, f: Fresh) returns (e': Emit)
      modifies this
      ensures State() == Upserted(old(State()), e, f)
      ensures e'.emitterUid in emitters && emitters[e'.emitterUid] == e'
    {
      e' := e;
      if e'.emitterUid == "" {
        e' := e'.(emitterUid := f.uid);
        if e'.createdUtc == 0 {
          e' := e'.(createdUtc := f.now);
        }
      } else if e'.emitterUid in emitters {
        var o := emitters[e'.emitterUid];
        e' := e'.(firstSeenUtc := o.firstSeenUtc, lastSeenUtc := o.lastSeenUtc, sightingCount := o.sightingCount,
                  contributingStations := o.contributingStations, memberSightingIds := o.memberSightingIds,
                  createdBy := o.createdBy, createdUtc := o.createdUtc);
      }
      if e'.displayName == "" {
        e' := e'.(displayName := f.name);
      }
      if e'.freqToleranceKhz <= 0.0 {
        e' := e'.(freqToleranceKhz := 1.0);
      }
      emitters := emitters[e'.emitterUid := e'];
    }

    method DeleteEmitter(u: string) returns (ok: bool)
      modifies this
      ensures ok == (u in old(emitters))
      ensures State() == EmitterDeleted(old(State()), u)
    {
      if u !in emitters {
        return false;
      }
      var ids := emitters[u].memberSightingIds;
      for k := 0 to |ids|
        invariant emitters == old(emitters)
        invariant sightings == map i | i in old(sightings) ::
          if i in ids[..k] then Unlinked(old(sightings)[i]) else old(sightings)[i]
      {
        assert ids[..k + 1] == ids[..k] + [ids[k]];
        if ids[k] in sightings {
          sightings := sightings[ids[k] := Unlinked(sightings[ids[k]])];
        }
      }
      assert ids[..|ids|] == ids;
      emitters := emitters - {u};
      ok := true;
    }

    /** One observation goes; the lists of refreshed and of emptied emitters are added to. */
    method DeleteOne(i: string, affected: seq<string>, orphaned: seq<string>)
      returns (affected': seq<string>, orphaned': seq<string>)
      requires i in sightings
      modifies this
      ensures Removed(old(State()), i, Progress(affected, orphaned), State(), Progress(affected', orphaned'))
    {
      affected', orphaned' := affected, orphaned;
      var u := sightings[i].emitterUid;
      sightings := sightings - {i};
      if u == "" || u !in emitters {
        return;
      }
      var e := emitters[u].(memberSightingIds := Without(emitters[u].memberSightingIds, i));
      if e.memberSightingIds == [] {
        emitters := emitters - {u};
        if u !in orphaned' {
          orphaned' := orphaned' + [u];
        }
      } else {
        e := Recompute(e);
        emitters := emitters[u := e];
        if u !in affected' && u !in orphaned' {
          affected' := affected' + [u];
        }
      }
    }

    /** Deletes every observation of a file; orphaned collects exactly the emitters this empties. */
    method DeleteSightingByFilename(filename: string, affected: seq<string>, orphaned: seq<string>)
      returns (ok: bool, affected': seq<string>, orphaned': seq<string>)
      requires MembersLinked(State())
      modifies this
      ensures State() == SetDeleted(old(State()), OfFile(old(State()), filename))
      ensures ok == (OfFile(old(State()), filename) != {})
      ensures forall u :: u in orphaned' <==> u in orphaned || (u in old(emitters) && u !in emitters)
      ensures forall u :: u in emitters && Touched(old(State()), OfFile(old(State()), filename), u) ==>
                u in affected' || u in orphaned
    {
      hide SetDeleted, SightingDeleted, MembersLinked, Touched, Deleting, Removed;
      affected', orphaned' := affected, orphaned;
      ghost var db := State();
      var toRemove := set i | i in sightings && sightings[i].filename == filename;
      ok := toRemove != {};
      ghost var gone: set<string> := {};
      DeletingStart(db, Progress(affected, orphaned));
      while toRemove != {}
        invariant gone + toRemove == OfFile(db, filename) && gone !! toRemove
        invariant Deleting(db, gone, State(), Progress(affected', orphaned'), orphaned)
      {
        ghost var least := LeastExists(toRemove);
        var i :| i in toRemove && forall j :: j in toRemove && j != i ==> Less(i, j);
        ghost var s, p := State(), Progress(affected', orphaned');
        DeletingHas(db, gone, i, s, p, orphaned);
        affected', orphaned' := DeleteOne(i, affected', orphaned');
        DeletingStep(db, gone, i, s, p, State(), Progress(affected', orphaned'), orphaned);
        toRemove := toRemove - {i};
        gone := gone + {i};
      }
      DeletingEnd(db, gone, State(), Progress(affected', orphaned'), orphaned);
    }

    method RemoveFromEmitter(u: string, i: string)
      requires i in sightings && sightings[i].emitterUid == u
      modifies this
      ensures State() == Left(old(State()), i)
    {
      if u == "" || u !in emitters {
        return;
      }
      var e := emitters[u];
      e := Recompute(e.(memberSightingIds := Without(e.memberSightingIds, i)));
      emitters := emitters[u := e];
    }

    method AddToEmitter(u: string, i: string)
      modifies this
      ensures State() == Arrived(old(State()), i, u)
    {
      if u !in emitters {
        return;
      }
      var e := emitters[u];
      if i !in e.memberSightingIds {
        e := e.(memberSightingIds := e.memberSightingIds + [i]);
      }
      e := Recompute(e);
      emitters := emitters[u := e];
    }

    method SplitToNew(i: string, f: Fresh)
      requires i in sightings
      modifies this
      ensures State() == Founded(Left(old(State()), i), i, old(sightings)[i], f, MS_MANUAL)
    {
      var s := sightings[i];
      RemoveFromEmitter(s.emitterUid, i);
      var ne := MakeEmitter(s, s.reporter, f).(memberSightingIds := [i]);
      sightings := sightings[i := s.(emitterUid := f.uid, matchStatus := MS_MANUAL)];
      ne := Recompute(ne);
      emitters := emitters[f.uid := ne];
    }

    /** action: 0 confirm, 1 reject, 2 move to target, 3 split off. */
    method LinkSighting(i: string, target: string, action: Uint8, f: Fresh) returns (ok: bool)
      modifies this
      ensures ok == (i in old(sightings) && action <= 3)
      ensures State() == Relinked(old(State()), i, target, action, f)
    {
      if i !in sightings {
        return false;
      }
      var s := sightings[i];
      if action == 0 {
        if s.emitterUid != "" {
          sightings := sightings[i := s.(matchStatus := MS_CONFIRMED)];
        }
      } else if action == 1 || action == 3 {
        SplitToNew(i, f);
      } else if action == 2 {
        RemoveFromEmitter(s.emitterUid, i);
        sightings := sightings[i := s.(emitterUid := target, matchStatus := MS_MANUAL)];
        if target != "" {
          AddToEmitter(target, i);
        }
      } else {
        return false;
      }
      ok := true;
    }
  }
}
