/** What each operation does to the two maps of the signal library, and what every operation keeps. */
module EmitterSpec {
  import opened Prelude
  import opened SignalRecords
  import opened EmitterMatch

  datatype Db = Db(emitters: map<string, Emit>, sightings: map<string, Sight>)

  /** What the random generator, the name formatting and the clock supply when an emitter is created. */
  datatype Fresh = Fresh(uid: string, name: string, now: Int64)

  const INT64_MAX: Int64 := 0x7fff_ffff_ffff_ffff

  // ------------------------------------------------------------ aggregates

  function FirstSeen(ids: seq<string>, ss: map<string, Sight>, acc: Int64): Int64
    decreases |ids|
  {
    if ids == [] then acc
    else FirstSeen(ids[1..], ss,
      if ids[0] in ss && 0 < ss[ids[0]].startUtc < acc then ss[ids[0]].startUtc else acc)
  }

  function LastSeen(ids: seq<string>, ss: map<string, Sight>, acc: Int64): Int64
    decreases |ids|
  {
    if ids == [] then acc
    else LastSeen(ids[1..], ss, if ids[0] in ss && ss[ids[0]].startUtc > acc then ss[ids[0]].startUtc else acc)
  }

  function Stations(ids: seq<string>, ss: map<string, Sight>, acc: seq<string>): seq<string>
    decreases |ids|
  {
    if ids == [] then acc
    else Stations(ids[1..], ss, WithStation(acc, ids[0], ss))
  }

  /** The names so far, with the station of one more observation if it is new. */
  function WithStation(acc: seq<string>, i: string, ss: map<string, Sight>): seq<string> {
    if i in ss && ss[i].station != "" && ss[i].station !in acc then acc + [ss[i].station] else acc
  }

  /** e with the fields that summarise its members brought up to date. */
  function Recomputed(e: Emit, ss: map<string, Sight>): (r: Emit)
    ensures r.memberSightingIds == e.memberSightingIds && r.emitterUid == e.emitterUid
    ensures r.sightingCount == ToUint32(|e.memberSightingIds|)
  {
    var first := FirstSeen(e.memberSightingIds, ss, INT64_MAX);
    e.(sightingCount := ToUint32(|e.memberSightingIds|),
       firstSeenUtc := if first == INT64_MAX then 0 else first,
       lastSeenUtc := LastSeen(e.memberSightingIds, ss, 0),
       contributingStations := Stations(e.memberSightingIds, ss, []))
  }

  /** Is t the start of some listed observation? */
  ghost predicate StartsAmong(ids: seq<string>, ss: map<string, Sight>, t: int) {
    exists i :: i in ids && i in ss && ss[i].startUtc == t
  }

  lemma {:induction false} FirstSeenExact(ids: seq<string>, ss: map<string, Sight>, acc: Int64)
    ensures var f := FirstSeen(ids, ss, acc);
            && f <= acc && (f == acc || (f > 0 && StartsAmong(ids, ss, f)))
            && forall i :: i in ids && i in ss && ss[i].startUtc > 0 ==> f <= ss[i].startUtc
    decreases |ids|
  {
    if ids != [] {
      FirstSeenExact(ids[1..], ss, if ids[0] in ss && 0 < ss[ids[0]].startUtc < acc then ss[ids[0]].startUtc else acc);
      assert ids == [ids[0]] + ids[1..];
    }
  }

  lemma {:induction false} LastSeenExact(ids: seq<string>, ss: map<string, Sight>, acc: Int64)
    ensures var l := LastSeen(ids, ss, acc);
            && l >= acc && (l == acc || StartsAmong(ids, ss, l))
            && forall i :: i in ids && i in ss ==> ss[i].startUtc <= l
    decreases |ids|
  {
    if ids != [] {
      LastSeenExact(ids[1..], ss, if ids[0] in ss && ss[ids[0]].startUtc > acc then ss[ids[0]].startUtc else acc);
      assert ids == [ids[0]] + ids[1..];
    }
  }

  lemma {:induction false} StationsExact(ids: seq<string>, ss: map<string, Sight>, acc: seq<string>)
    requires NoRepeats(acc)
    ensures var t := Stations(ids, ss, acc);
            && NoRepeats(t)
            && forall x :: x in t <==> x in acc || (x != "" && exists i :: i in ids && i in ss && ss[i].station == x)
    decreases |ids|
  {
    hide WithStation, NoRepeats;
    if ids != [] {
      OneStation(acc, ids[0], ss);
      StationsExact(ids[1..], ss, WithStation(acc, ids[0], ss));
      assert forall i :: i in ids <==> i == ids[0] || i in ids[1..];
    }
  }

  lemma OneStation(acc: seq<string>, i: string, ss: map<string, Sight>)
    requires NoRepeats(acc)
    ensures NoRepeats(WithStation(acc, i, ss))
    ensures forall x :: x in WithStation(acc, i, ss) <==> x in acc || (x != "" && i in ss && ss[i].station == x)
  {
  }

  /**
   * A recomputed emitter is an exact summary: the earliest positive and the latest start of its
   * members, zero when there is none, and every nonempty station name once.
   */
  lemma RecomputedExact(e: Emit, ss: map<string, Sight>)
    ensures var r := Recomputed(e, ss); var ids := e.memberSightingIds;
      && (forall i :: i in ids && i in ss && 0 < ss[i].startUtc < INT64_MAX ==> 0 < r.firstSeenUtc <= ss[i].startUtc)
      && (r.firstSeenUtc == 0 || StartsAmong(ids, ss, r.firstSeenUtc))
      && (forall i :: i in ids && i in ss ==> ss[i].startUtc <= r.lastSeenUtc)
      && (r.lastSeenUtc == 0 || StartsAmong(ids, ss, r.lastSeenUtc))
      && NoRepeats(r.contributingStations)
      && (forall x :: x in r.contributingStations <==> x != "" && exists i :: i in ids && i in ss && ss[i].station == x)
  {
    FirstSeenExact(e.memberSightingIds, ss, INT64_MAX);
    LastSeenExact(e.memberSightingIds, ss, 0);
    StationsExact(e.memberSightingIds, ss, []);
  }

  function MakeEmitter(s: Sight, creator: string, f: Fresh): Emit {
    Emitter(f.uid, f.name, s.freqMhz, 1.0, s.bwKhz, s.modulation, s.protocol, "",
            s.startUtc, s.startUtc, 0, [], "", [], creator, f.now)
  }

  /** ids without x. */
  function Without(ids: seq<string>, x: string): (r: seq<string>)
    ensures forall i :: i in r <==> i in ids && i != x
    ensures |r| <= |ids|
    ensures x !in ids ==> r == ids
  {
    if ids == [] then [] else if ids[0] == x then Without(ids[1..], x) else [ids[0]] + Without(ids[1..], x)
  }

  predicate NoRepeats(ids: seq<string>) {
    forall i, j :: 0 <= i < j < |ids| ==> ids[i] != ids[j]
  }

  lemma {:induction false} WithoutNoRepeats(ids: seq<string>, x: string)
    requires NoRepeats(ids)
    ensures NoRepeats(Without(ids, x))
  {
    if ids != [] {
      WithoutNoRepeats(ids[1..], x);
      assert forall i :: i in Without(ids[1..], x) ==> i in ids[1..];
      assert ids[0] !in ids[1..];
    }
  }

  // ------------------------------------------------------------ invariants

  /** Every observation the emitter lists exists and names it; none is listed twice; the count is right. */
  ghost predicate ListOk(u: string, e: Emit, ss: map<string, Sight>) {
    && e.emitterUid == u && NoRepeats(e.memberSightingIds)
    && e.sightingCount == ToUint32(|e.memberSightingIds|)
    && forall i :: i in e.memberSightingIds ==> i in ss && ss[i].emitterUid == u
  }

  /** The observation is listed by the emitter it names. */
  ghost predicate NameOk(i: string, s: Sight, es: map<string, Emit>) {
    s.emitterUid != "" ==> s.emitterUid in es && i in es[s.emitterUid].memberSightingIds
  }

  ghost predicate MembersLinked(db: Db) {
    && "" !in db.emitters
    && (forall u :: u in db.emitters ==> ListOk(u, db.emitters[u], db.sightings))
    && (forall i :: i in db.sightings ==> db.sightings[i].sightingId == i)
  }

  ghost predicate SightingsLinked(db: Db) {
    forall i :: i in db.sightings ==> NameOk(i, db.sightings[i], db.emitters)
  }

  /** Both directions: an observation names an emitter exactly when that emitter lists it. */
  ghost predicate Linked(db: Db) {
    MembersLinked(db) && SightingsLinked(db)
  }

  lemma LinkedMeansIff(db: Db, i: string, u: string)
    requires Linked(db) && u in db.emitters && i in db.sightings
    ensures db.sightings[i].emitterUid == u <==> i in db.emitters[u].memberSightingIds
  {
  }

  // ------------------------------------------------------------ operations

  /** Observation s enters (or moves to) an existing emitter. */
  function Joined(db: Db, s: Sight, u: string, status: Uint8): Db
    requires u in db.emitters
  {
    var ss := db.sightings[s.sightingId := s.(emitterUid := u, matchStatus := status)];
    var e := db.emitters[u];
    Db(db.emitters[u := Recomputed(e.(memberSightingIds := e.memberSightingIds + [s.sightingId]), ss)], ss)
  }

  /** Observation s, known as i, enters a new emitter made from it. */
  function Founded(db: Db, i: string, s: Sight, f: Fresh, status: Uint8): Db {
    var ss := db.sightings[i := s.(emitterUid := f.uid, matchStatus := status)];
    Db(db.emitters[f.uid := Recomputed(MakeEmitter(s, s.reporter, f).(memberSightingIds := [i]), ss)], ss)
  }

  /** best is the emitter the scan found, with its score; score -1 when there is none. */
  function Ingested(db: Db, s: Sight, f: Fresh, score: real, best: string): Db
    requires ScanFits(db, score, best)
  {
    var id := s.sightingId;
    if id in db.sightings then
      var o := db.sightings[id];
      db.(sightings := db.sightings[id := s.(emitterUid := o.emitterUid, matchStatus := o.matchStatus)])
    else if !(s.freqMhz > 0.0) then
      db.(sightings := db.sightings[id := s.(emitterUid := "", matchStatus := MS_PENDING)])
    else if score >= HIGH_SCORE then Joined(db, s, best, MS_AUTO_HIGH)
    else if score >= JOIN_SCORE then Joined(db, s, best, MS_PENDING)
    else Founded(db, id, s, f, MS_AUTO_LOW)
  }

  function Upserted(db: Db, e: Emit, f: Fresh): Db {
    var e1 :=
      if e.emitterUid == "" then
        e.(emitterUid := f.uid, createdUtc := if e.createdUtc == 0 then f.now else e.createdUtc)
      else if e.emitterUid in db.emitters then
        var o := db.emitters[e.emitterUid];
        e.(firstSeenUtc := o.firstSeenUtc, lastSeenUtc := o.lastSeenUtc, sightingCount := o.sightingCount,
           contributingStations := o.contributingStations, memberSightingIds := o.memberSightingIds,
           createdBy := o.createdBy, createdUtc := o.createdUtc)
      else e;
    var e2 := if e1.displayName == "" then e1.(displayName := f.name) else e1;
    var e3 := if e2.freqToleranceKhz <= 0.0 then e2.(freqToleranceKhz := 1.0) else e2;
    db.(emitters := db.emitters[e3.emitterUid := e3])
  }

  function Unlinked(s: Sight): Sight {
    s.(emitterUid := "", matchStatus := MS_PENDING)
  }

  function EmitterDeleted(db: Db, u: string): Db {
    if u !in db.emitters then db
    else Db(db.emitters - {u},
            map i | i in db.sightings ::
              if i in db.emitters[u].memberSightingIds then Unlinked(db.sightings[i]) else db.sightings[i])
  }

  /** One observation is erased; an emitter left without members goes with it. */
  function SightingDeleted(db: Db, i: string): Db {
    if i !in db.sightings then db
    else
      var u := db.sightings[i].emitterUid;
      var ss := db.sightings - {i};
      if u == "" || u !in db.emitters then Db(db.emitters, ss)
      else
        var e := db.emitters[u].(memberSightingIds := Without(db.emitters[u].memberSightingIds, i));
        if e.memberSightingIds == [] then Db(db.emitters - {u}, ss)
        else Db(db.emitters[u := Recomputed(e, ss)], ss)
  }

  /** The observation leaves the emitter it names. */
  function Left(db: Db, i: string): Db
    requires i in db.sightings
  {
    var u := db.sightings[i].emitterUid;
    if u == "" || u !in db.emitters then db
    else
      var e := db.emitters[u];
      var left := e.(memberSightingIds := Without(e.memberSightingIds, i));
      db.(emitters := db.emitters[u := Recomputed(left, db.sightings)])
  }

  function Arrived(db: Db, i: string, u: string): Db {
    if u !in db.emitters then db
    else
      var e := db.emitters[u];
      var ids := if i in e.memberSightingIds then e.memberSightingIds else e.memberSightingIds + [i];
      db.(emitters := db.emitters[u := Recomputed(e.(memberSightingIds := ids), db.sightings)])
  }

  function Relinked(db: Db, i: string, target: string, action: Uint8, f: Fresh): Db {
    if i !in db.sightings then db
    else if action == 0 then
      var s := db.sightings[i];
      if s.emitterUid == "" then db else db.(sightings := db.sightings[i := s.(matchStatus := MS_CONFIRMED)])
    else if action == 1 || action == 3 then
      Founded(Left(db, i), i, db.sightings[i], f, MS_MANUAL)
    else if action == 2 then
      var l := Left(db, i);
      var m := l.(sightings := l.sightings[i := l.sightings[i].(emitterUid := target, matchStatus := MS_MANUAL)]);
      if target == "" then m else Arrived(m, i, target)
    else db
  }

  // ------------------------------------------- every operation keeps the links

  predicate IsFresh(db: Db, f: Fresh) {
    f.uid != "" && f.uid !in db.emitters
  }

  /** An emitter's list stays right when the observations in it still name it. */
  lemma ListFrame(u: string, e: Emit, ss: map<string, Sight>, tt: map<string, Sight>)
    requires ListOk(u, e, ss)
    requires forall i :: i in e.memberSightingIds && i in ss ==> i in tt && tt[i].emitterUid == ss[i].emitterUid
    ensures ListOk(u, e, tt)
  {
  }

  /** Emitters other than u are untouched and no observation but i changed its emitter. */
  ghost predicate OnlyTouches(db: Db, d: Db, u: string, i: string) {
    && (forall v :: v != u ==>
          (v in d.emitters <==> v in db.emitters) && (v in db.emitters ==> d.emitters[v] == db.emitters[v]))
    && (forall j :: j != i && j in db.sightings ==>
          j in d.sightings && d.sightings[j].emitterUid == db.sightings[j].emitterUid)
    && (forall j :: j != i && j in d.sightings ==> j in db.sightings)
    && (forall j :: j in d.sightings ==> d.sightings[j].sightingId == j)
  }

  /** A step that touches one emitter and one observation keeps the links if these two are right. */
  lemma TouchKeepsMembers(db: Db, d: Db, u: string, i: string)
    requires MembersLinked(db) && OnlyTouches(db, d, u, i)
    requires forall v :: v in db.emitters && v != u ==> i !in db.emitters[v].memberSightingIds
    requires "" !in d.emitters && (u in d.emitters ==> ListOk(u, d.emitters[u], d.sightings))
    ensures MembersLinked(d)
  {
    hide ListOk;
    forall v | v in d.emitters
      ensures ListOk(v, d.emitters[v], d.sightings)
    {
      if v != u {
        ListFrame(v, db.emitters[v], db.sightings, d.sightings);
      }
    }
  }

  lemma TouchKeepsSightings(db: Db, d: Db, u: string, i: string)
    requires SightingsLinked(db) && OnlyTouches(db, d, u, i)
    requires i in d.sightings ==> NameOk(i, d.sightings[i], d.emitters)
    requires u in db.emitters ==>
      forall j :: j in db.emitters[u].memberSightingIds && j != i
                  && j in db.sightings && db.sightings[j].emitterUid == u ==>
        u in d.emitters && j in d.emitters[u].memberSightingIds
    ensures SightingsLinked(d)
  {
  }

  lemma NotListedElsewhere(db: Db, i: string, v: string)
    requires MembersLinked(db) && v in db.emitters
    requires i in db.sightings ==> db.sightings[i].emitterUid != v
    ensures i !in db.emitters[v].memberSightingIds
  {
    assert ListOk(v, db.emitters[v], db.sightings);
  }

  /** An emitter's list stays right when an observation that now names it is added. */
  lemma AppendedList(u: string, e: Emit, ss: map<string, Sight>, tt: map<string, Sight>, i: string)
    requires ListOk(u, e, ss) && i !in e.memberSightingIds && i in tt && tt[i].emitterUid == u
    requires forall j :: j in e.memberSightingIds && j in ss ==> j in tt && tt[j].emitterUid == ss[j].emitterUid
    ensures ListOk(u, Recomputed(e.(memberSightingIds := e.memberSightingIds + [i]), tt), tt)
  {
    hide Recomputed, ToUint32;
  }

  lemma FoundedList(u: string, e: Emit, tt: map<string, Sight>, i: string)
    requires e.emitterUid == u && i in tt && tt[i].emitterUid == u
    ensures ListOk(u, Recomputed(e.(memberSightingIds := [i]), tt), tt)
  {
    hide Recomputed, ToUint32;
  }

  lemma ListOf(db: Db, u: string)
    requires MembersLinked(db) && u in db.emitters
    ensures ListOk(u, db.emitters[u], db.sightings)
  {
  }

  lemma JoinedKeeps(db: Db, s: Sight, u: string, status: Uint8)
    requires MembersLinked(db) && u in db.emitters && s.sightingId !in db.sightings
    ensures MembersLinked(Joined(db, s, u, status))
    ensures SightingsLinked(db) ==> SightingsLinked(Joined(db, s, u, status))
  {
    hide Recomputed, ListOk;
    var i, d := s.sightingId, Joined(db, s, u, status);
    ListOf(db, u);
    forall v | v in db.emitters
      ensures i !in db.emitters[v].memberSightingIds
    {
      NotListedElsewhere(db, i, v);
    }
    AppendedList(u, db.emitters[u], db.sightings, d.sightings, i);
    TouchKeepsMembers(db, d, u, i);
    if SightingsLinked(db) {
      TouchKeepsSightings(db, d, u, i);
    }
  }

  /** Observations other than i are listed by the emitter they name. */
  ghost predicate OthersNamed(db: Db, i: string) {
    forall j :: j in db.sightings && j != i ==> NameOk(j, db.sightings[j], db.emitters)
  }

  lemma FoundedKeeps(db: Db, i: string, s: Sight, f: Fresh, status: Uint8)
    requires MembersLinked(db) && IsFresh(db, f) && s.sightingId == i
    requires forall u :: u in db.emitters ==> i !in db.emitters[u].memberSightingIds
    ensures MembersLinked(Founded(db, i, s, f, status))
    ensures OthersNamed(db, i) ==> SightingsLinked(Founded(db, i, s, f, status))
  {
    hide Recomputed, ListOk;
    var d := Founded(db, i, s, f, status);
    FoundedList(f.uid, MakeEmitter(s, s.reporter, f), d.sightings, i);
    TouchKeepsMembers(db, d, f.uid, i);
  }

  lemma {:induction false} IngestedKeeps(db: Db, s: Sight, f: Fresh, score: real, best: string)
    requires MembersLinked(db) && IsFresh(db, f) && (score >= JOIN_SCORE ==> best in db.emitters)
    ensures MembersLinked(Ingested(db, s, f, score, best))
    ensures SightingsLinked(db) ==> SightingsLinked(Ingested(db, s, f, score, best))
  {
    hide Joined, Founded, ListOk;
    var i, d := s.sightingId, Ingested(db, s, f, score, best);
    if i !in db.sightings {
      forall v | v in db.emitters
        ensures i !in db.emitters[v].memberSightingIds
      {
        NotListedElsewhere(db, i, v);
      }
    }
    if i in db.sightings || !(s.freqMhz > 0.0) {
      forall v | v in db.emitters
        ensures ListOk(v, d.emitters[v], d.sightings)
      {
        ListFrame(v, db.emitters[v], db.sightings, d.sightings);
      }
    } else if score >= JOIN_SCORE {
      JoinedKeeps(db, s, best, if score >= HIGH_SCORE then MS_AUTO_HIGH else MS_PENDING);
    } else {
      FoundedKeeps(db, i, s, f, MS_AUTO_LOW);
    }
  }

  /** What the library works out or has recorded itself about an emitter. */
  function Summary(e: Emit): (Int64, Int64, Uint32, seq<string>, seq<string>) {
    (e.firstSeenUtc, e.lastSeenUtc, e.sightingCount, e.contributingStations, e.memberSightingIds)
  }

  /** What an operator says about an emitter, apart from its name and its tolerance. */
  function Said(e: Emit): (real, real, string, string, string, string) {
    (e.freqCenterMhz, e.bwKhz, e.modulation, e.protocol, e.tagsId, e.operatorNotes)
  }

  /**
   * The emitter as it is written: what the operator says is taken over, with a name and a tolerance
   * where these are missing; its summary and its origin come from the known one, if there is one.
   */
  lemma UpsertedEmitter(db: Db, e: Emit, f: Fresh)
    requires IsFresh(db, f)
    ensures var u := if e.emitterUid == "" then f.uid else e.emitterUid;
            var r, known := Upserted(db, e, f).emitters[u], e.emitterUid != "" && e.emitterUid in db.emitters;
            && Said(r) == Said(e) && Summary(r) == Summary(if known then db.emitters[u] else e)
            && r.createdBy == (if known then db.emitters[u] else e).createdBy
            && (known ==> r.createdUtc == db.emitters[u].createdUtc)
            && (!known ==> r.createdUtc == if e.emitterUid == "" && e.createdUtc == 0 then f.now else e.createdUtc)
            && r.displayName == (if e.displayName == "" then f.name else e.displayName)
            && r.freqToleranceKhz == (if e.freqToleranceKhz <= 0.0 then 1.0 else e.freqToleranceKhz)
    ensures var u := if e.emitterUid == "" then f.uid else e.emitterUid;
            var d := Upserted(db, e, f);
            && d.sightings == db.sightings && d.emitters.Keys == db.emitters.Keys + {u} && d.emitters[u].emitterUid == u
            && (forall v :: v in db.emitters && v != u ==> d.emitters[v] == db.emitters[v])
            && (d.emitters[u].memberSightingIds, d.emitters[u].sightingCount) ==
                 if e.emitterUid in db.emitters && e.emitterUid != ""
                 then (db.emitters[u].memberSightingIds, db.emitters[u].sightingCount)
                 else (e.memberSightingIds, e.sightingCount)
  {
  }

  /** The list that an unknown emitter brings is right: whatever it claims names it already. */
  ghost predicate RightlyClaims(db: Db, e: Emit, u: string) {
    && NoRepeats(e.memberSightingIds) && e.sightingCount == ToUint32(|e.memberSightingIds|)
    && forall i :: i in e.memberSightingIds ==> i in db.sightings && db.sightings[i].emitterUid == u
  }

  /** Writing an emitter keeps the member direction exactly when it is known or claims rightly. */
  lemma UpsertedMembersExactly(db: Db, e: Emit, f: Fresh)
    requires MembersLinked(db) && IsFresh(db, f)
    ensures MembersLinked(Upserted(db, e, f)) <==>
            e.emitterUid in db.emitters || RightlyClaims(db, e, if e.emitterUid == "" then f.uid else e.emitterUid)
  {
    UpsertedEmitter(db, e, f);
    var u := if e.emitterUid == "" then f.uid else e.emitterUid;
    var d := Upserted(db, e, f);
    hide Upserted;
    assert ListOk(u, d.emitters[u], d.sightings) <==> u in db.emitters || RightlyClaims(db, e, u) by {
      assert u in db.emitters ==> ListOk(u, db.emitters[u], db.sightings);
    }
    if u in db.emitters || RightlyClaims(db, e, u) {
      forall v | v in d.emitters
        ensures ListOk(v, d.emitters[v], d.sightings)
      {
        assert v in db.emitters ==> ListOk(v, db.emitters[v], db.sightings);
      }
    }
  }

  /** Where both directions hold, an unknown emitter can claim nothing rightly. */
  lemma NothingToClaim(db: Db, e: Emit, u: string)
    requires SightingsLinked(db) && u !in db.emitters && u != ""
    ensures RightlyClaims(db, e, u) <==> e.memberSightingIds == [] && e.sightingCount == 0
  {
    forall i | i in db.sightings
      ensures db.sightings[i].emitterUid != u
    {
      assert NameOk(i, db.sightings[i], db.emitters);
    }
    assert e.memberSightingIds != [] ==> e.memberSightingIds[0] in e.memberSightingIds;
  }

  /** Writing an emitter keeps the links exactly when it is known or claims no members. */
  lemma UpsertedKeepsExactly(db: Db, e: Emit, f: Fresh)
    requires MembersLinked(db) && IsFresh(db, f)
    ensures SightingsLinked(db) ==>
      (Linked(Upserted(db, e, f)) <==>
        e.emitterUid in db.emitters || (e.memberSightingIds == [] && e.sightingCount == 0))
    ensures e.emitterUid in db.emitters || (e.memberSightingIds == [] && e.sightingCount == 0) ==>
              MembersLinked(Upserted(db, e, f))
  {
    hide Upserted, RightlyClaims, MembersLinked;
    var u := if e.emitterUid == "" then f.uid else e.emitterUid;
    NoUid(db);
    UpsertedMembersExactly(db, e, f);
    ClaimsNothing(db, e, u);
    if SightingsLinked(db) {
      UpsertedKeepsNames(db, e, f);
      if u !in db.emitters {
        NothingToClaim(db, e, u);
      }
    }
  }

  lemma NoUid(db: Db)
    requires MembersLinked(db)
    ensures "" !in db.emitters
  {
  }

  lemma ClaimsNothing(db: Db, e: Emit, u: string)
    ensures e.memberSightingIds == [] && e.sightingCount == 0 ==> RightlyClaims(db, e, u)
  {
  }

  lemma UpsertedKeepsNames(db: Db, e: Emit, f: Fresh)
    requires SightingsLinked(db) && IsFresh(db, f) && "" !in db.emitters
    ensures SightingsLinked(Upserted(db, e, f))
  {
    UpsertedEmitter(db, e, f);
    hide Upserted;
    var d := Upserted(db, e, f);
    forall i | i in d.sightings
      ensures NameOk(i, d.sightings[i], d.emitters)
    {
      assert NameOk(i, db.sightings[i], db.emitters);
    }
  }

  lemma EmitterDeletedKeeps(db: Db, u: string)
    requires MembersLinked(db)
    ensures MembersLinked(EmitterDeleted(db, u))
    ensures SightingsLinked(db) ==> SightingsLinked(EmitterDeleted(db, u))
  {
    var d := EmitterDeleted(db, u);
    forall v | v in d.emitters
      ensures ListOk(v, d.emitters[v], d.sightings)
    {
      assert ListOk(v, db.emitters[v], db.sightings);
      assert u in db.emitters ==> ListOk(u, db.emitters[u], db.sightings);
    }
  }

  lemma SightingDeletedKeeps(db: Db, i: string)
    requires MembersLinked(db)
    ensures MembersLinked(SightingDeleted(db, i))
    ensures SightingsLinked(db) ==> SightingsLinked(SightingDeleted(db, i))
  {
    hide Recomputed;
    if i in db.sightings {
      var u, d := db.sightings[i].emitterUid, SightingDeleted(db, i);
      if u in db.emitters {
        assert ListOk(u, db.emitters[u], db.sightings);
        WithoutNoRepeats(db.emitters[u].memberSightingIds, i);
      }
      forall v | v in db.emitters && v != u
        ensures i !in db.emitters[v].memberSightingIds
      {
        NotListedElsewhere(db, i, v);
      }
      hide Without, ListOk;
      SightingDeletedTouches(db, i);
      TouchKeepsMembers(db, d, u, i);
      if SightingsLinked(db) {
        TouchKeepsSightings(db, d, u, i);
      }
    }
  }

  lemma SightingDeletedTouches(db: Db, i: string)
    requires MembersLinked(db) && i in db.sightings
    ensures var u, d := db.sightings[i].emitterUid, SightingDeleted(db, i);
            && OnlyTouches(db, d, u, i) && i !in d.sightings && "" !in d.emitters
            && (u in d.emitters ==> ListOk(u, d.emitters[u], d.sightings))
            && (u in db.emitters ==> forall j :: j in db.emitters[u].memberSightingIds && j != i ==>
                  u in d.emitters && j in d.emitters[u].memberSightingIds)
  {
    hide Recomputed, Without;
    var u := db.sightings[i].emitterUid;
    if u in db.emitters {
      assert ListOk(u, db.emitters[u], db.sightings);
      WithoutNoRepeats(db.emitters[u].memberSightingIds, i);
    }
  }

  /** After an observation left, no emitter lists it, and nothing else changed sides. */
  lemma LeftKeeps(db: Db, i: string)
    requires MembersLinked(db) && i in db.sightings
    ensures MembersLinked(Left(db, i)) && Left(db, i).sightings == db.sightings
    ensures Left(db, i).emitters.Keys == db.emitters.Keys
    ensures forall u :: u in db.emitters ==> i !in Left(db, i).emitters[u].memberSightingIds
    ensures forall u, j :: u in db.emitters && j != i ==>
      (j in Left(db, i).emitters[u].memberSightingIds <==> j in db.emitters[u].memberSightingIds)
  {
    hide Recomputed, Without;
    var u := db.sightings[i].emitterUid;
    forall v | v in db.emitters
      ensures ListOk(v, Left(db, i).emitters[v], db.sightings) && i !in Left(db, i).emitters[v].memberSightingIds
    {
      assert ListOk(v, db.emitters[v], db.sightings);
      WithoutNoRepeats(db.emitters[v].memberSightingIds, i);
    }
  }

  lemma LeftKeepsNames(db: Db, i: string)
    requires MembersLinked(db) && SightingsLinked(db) && i in db.sightings
    ensures forall j :: j in db.sightings && j != i ==> NameOk(j, db.sightings[j], Left(db, i).emitters)
  {
    hide Left, Recomputed, ListOk;
    LeftKeeps(db, i);
    forall j | j in db.sightings && j != i
      ensures NameOk(j, db.sightings[j], Left(db, i).emitters)
    {
      assert NameOk(j, db.sightings[j], db.emitters);
    }
  }

  /** An observation that no emitter lists arrives at the emitter it now names. */
  lemma ArrivedKeeps(db: Db, m: Db, i: string, target: string)
    requires MembersLinked(db) && i in db.sightings
    requires forall u :: u in db.emitters ==> i !in db.emitters[u].memberSightingIds
    requires m.emitters == db.emitters && m.sightings.Keys == db.sightings.Keys
    requires forall j :: j in db.sightings && j != i ==> m.sightings[j] == db.sightings[j]
    requires m.sightings[i].sightingId == i && m.sightings[i].emitterUid == target
    ensures MembersLinked(Arrived(m, i, target))
    ensures OthersNamed(db, i) && target in db.emitters ==> SightingsLinked(Arrived(m, i, target))
  {
    hide Recomputed, ListOk;
    var d := Arrived(m, i, target);
    if target in db.emitters {
      ListOf(db, target);
      AppendedList(target, db.emitters[target], db.sightings, d.sightings, i);
    }
    TouchKeepsMembers(db, d, target, i);
    ArrivedKeepsNames(db, m, i, target);
  }

  lemma ArrivedKeepsNames(db: Db, m: Db, i: string, target: string)
    requires "" !in db.emitters && m.emitters == db.emitters && m.sightings.Keys == db.sightings.Keys
    requires forall j :: j in db.sightings && j != i ==> m.sightings[j] == db.sightings[j]
    requires i in m.sightings && m.sightings[i].emitterUid == target
    ensures OthersNamed(db, i) && target in db.emitters ==> SightingsLinked(Arrived(m, i, target))
  {
    hide Recomputed;
  }

  lemma {:induction false} RelinkedKeeps(db: Db, i: string, target: string, action: Uint8, f: Fresh)
    requires MembersLinked(db) && IsFresh(db, f)
    ensures MembersLinked(Relinked(db, i, target, action, f))
    ensures SightingsLinked(db) && (action == 2 ==> target == "" || target in db.emitters)
            ==> SightingsLinked(Relinked(db, i, target, action, f))
  {
    hide Left, Founded, Arrived, ListOk;
    if i in db.sightings {
      LeftKeeps(db, i);
      if SightingsLinked(db) {
        LeftKeepsNames(db, i);
      }
      var l := Left(db, i);
      if action == 0 {
        var d := Relinked(db, i, target, action, f);
        forall v | v in d.emitters
          ensures ListOk(v, d.emitters[v], d.sightings)
        {
          ListFrame(v, db.emitters[v], db.sightings, d.sightings);
        }
      } else if action == 1 || action == 3 {
        FoundedKeeps(l, i, db.sightings[i], f, MS_MANUAL);
      } else if action == 2 {
        var m := l.(sightings := l.sightings[i := l.sightings[i].(emitterUid := target, matchStatus := MS_MANUAL)]);
        ArrivedKeeps(l, m, i, target);
        ArrivedNowhere(l, m);
      }
    }
  }

  lemma ArrivedNowhere(l: Db, m: Db)
    requires MembersLinked(l) && m.emitters == l.emitters
    ensures forall i :: Arrived(m, i, "") == m
  {
  }

  /** A move keeps both directions exactly when its target is nothing or a known emitter. */
  lemma MoveKeepsExactly(db: Db, i: string, target: string, f: Fresh)
    requires Linked(db) && IsFresh(db, f) && i in db.sightings
    ensures Linked(Relinked(db, i, target, 2, f)) <==> target == "" || target in db.emitters
  {
    hide Left, Recomputed, ListOk;
    RelinkedKeeps(db, i, target, 2, f);
    LeftKeeps(db, i);
    if target != "" && target !in db.emitters {
      assert !NameOk(i, Relinked(db, i, target, 2, f).sightings[i], Relinked(db, i, target, 2, f).emitters);
    }
  }

  /** The emitter made from one observation: centred on it, a kilohertz wide in tolerance, credited to its creator. */
  ghost predicate MadeFrom(e: Emit, s: Sight, creator: string, f: Fresh) {
    && e.emitterUid == f.uid && e.displayName == f.name && e.createdUtc == f.now && e.createdBy == creator
    && e.freqCenterMhz == s.freqMhz && e.freqToleranceKhz == 1.0 && e.bwKhz == s.bwKhz
    && e.modulation == s.modulation && e.protocol == s.protocol && e.tagsId == "" && e.operatorNotes == ""
    && e.memberSightingIds == [s.sightingId] && e.sightingCount == 1
    && (0 < s.startUtc < INT64_MAX ==> e.firstSeenUtc == e.lastSeenUtc == s.startUtc)
    && e.contributingStations == (if s.station == "" then [] else [s.station])
  }

  lemma FoundedFrom(db: Db, i: string, s: Sight, f: Fresh, status: Uint8)
    requires s.sightingId == i
    ensures var d := Founded(db, i, s, f, status);
            && f.uid in d.emitters && MadeFrom(d.emitters[f.uid], s, s.reporter, f)
            && d.sightings == db.sightings[i := s.(emitterUid := f.uid, matchStatus := status)]
            && (forall v :: v in db.emitters && v != f.uid ==> v in d.emitters && d.emitters[v] == db.emitters[v])
            && (forall v :: v in d.emitters ==> v == f.uid || v in db.emitters)
  {
    var ss := db.sightings[i := s.(emitterUid := f.uid, matchStatus := status)];
    var ids := [i];
    assert ids[1..] == [];
    assert FirstSeen(ids, ss, INT64_MAX) ==
           FirstSeen([], ss, if 0 < ss[i].startUtc < INT64_MAX then ss[i].startUtc else INT64_MAX);
    assert LastSeen(ids, ss, 0) == LastSeen([], ss, if ss[i].startUtc > 0 then ss[i].startUtc else 0);
    assert Stations(ids, ss, []) == Stations([], ss, WithStation([], i, ss));
  }

  /** An emitter made from an observation covers its frequency. */
  lemma MadeCovers(e: Emit, s: Sight, creator: string, f: Fresh)
    requires MadeFrom(e, s, creator, f)
    ensures forall t: Sight :: t.freqMhz == s.freqMhz ==> Covers(t, e)
  {
  }

  /**
   * Where a new observation with a frequency goes: to a new emitter made from it exactly when no window
   * covers it, otherwise to the best one; the match is certain exactly as HighScoreExactly says.
   */
  lemma IngestOutcome(db: Db, s: Sight, f: Fresh, score: real, best: string)
    requires Scanned(db.emitters, s, score, best) && IsFresh(db, f)
    requires s.sightingId !in db.sightings && s.freqMhz > 0.0
    ensures var d := Ingested(db, s, f, score, best);
            s.sightingId in d.sightings &&
            var r := d.sightings[s.sightingId];
            && d.emitters.Keys == db.emitters.Keys + {r.emitterUid}
            && s.sightingId in d.emitters[r.emitterUid].memberSightingIds
            && (r.emitterUid !in db.emitters <==> forall v :: v in db.emitters ==> !Covers(s, db.emitters[v]))
            && (r.emitterUid in db.emitters ==> IsBest(db.emitters, s, r.emitterUid))
            && (r.emitterUid !in db.emitters ==>
                  r.emitterUid == f.uid && MadeFrom(d.emitters[r.emitterUid], s, s.reporter, f))
            && (forall v :: v in db.emitters && v != r.emitterUid ==> d.emitters[v] == db.emitters[v])
            && (r.matchStatus == MS_AUTO_LOW <==> r.emitterUid !in db.emitters)
            && (r.matchStatus == MS_AUTO_HIGH <==>
                  r.emitterUid in db.emitters && Score(s, db.emitters[r.emitterUid]) >= HIGH_SCORE)
  {
    hide Recomputed, Score, MadeFrom, Founded, Joined, Covers;
    forall v | v in db.emitters
      ensures Score(s, db.emitters[v]) >= JOIN_SCORE <==> Covers(s, db.emitters[v])
    {
      ScoreRange(s, db.emitters[v]);
    }
    FoundedFrom(db, s.sightingId, s, f, MS_AUTO_LOW);
    if best in db.emitters {
      JoinedWith(db, s, best, if score >= HIGH_SCORE then MS_AUTO_HIGH else MS_PENDING);
    }
  }

  lemma JoinedWith(db: Db, s: Sight, u: string, status: Uint8)
    requires u in db.emitters
    ensures var d := Joined(db, s, u, status);
            && s.sightingId in d.sightings && d.sightings[s.sightingId] == s.(emitterUid := u, matchStatus := status)
            && d.emitters.Keys == db.emitters.Keys && s.sightingId in d.emitters[u].memberSightingIds
            && (forall v :: v in db.emitters && v != u ==> d.emitters[v] == db.emitters[v])
  {
    hide Recomputed;
  }

  /** What ingesting changes besides: nothing but the observation itself, and the emitter it joins. */
  lemma IngestTouches(db: Db, s: Sight, f: Fresh, score: real, best: string)
    requires Scanned(db.emitters, s, score, best) && IsFresh(db, f)
    ensures var d := Ingested(db, s, f, score, best);
            var u := d.sightings[s.sightingId].emitterUid;
            var was := if s.sightingId in db.sightings then db.sightings[s.sightingId]
                       else s.(emitterUid := "", matchStatus := MS_PENDING);
            && s.sightingId in d.sightings
            && d.sightings[s.sightingId] == s.(emitterUid := u, matchStatus := d.sightings[s.sightingId].matchStatus)
            && d.sightings.Keys == db.sightings.Keys + {s.sightingId}
            && (forall j :: j in db.sightings && j != s.sightingId ==> d.sightings[j] == db.sightings[j])
            && (s.sightingId in db.sightings || !(s.freqMhz > 0.0) ==>
                  d.emitters == db.emitters && u == was.emitterUid
                  && d.sightings[s.sightingId].matchStatus == was.matchStatus)
            && (s.sightingId !in db.sightings && s.freqMhz > 0.0 ==>
                  (forall v :: v in db.emitters && v != u ==> v in d.emitters && d.emitters[v] == db.emitters[v])
                  && (u in db.emitters ==>
                        d.emitters[u].memberSightingIds == db.emitters[u].memberSightingIds + [s.sightingId]
                        && Said(d.emitters[u]) == Said(db.emitters[u])))
  {
    hide Score;
    if s.sightingId !in db.sightings && s.freqMhz > 0.0 && db.emitters != map[] {
      ScoreRange(s, db.emitters[best]);
    }
  }

  /** A second observation at the frequency of one that founded an emitter never founds another. */
  lemma SecondJoins(db: Db, s: Sight, f: Fresh, score: real, best: string, t: Sight, g: Fresh, score': real,
                    best': string)
    requires Scanned(db.emitters, s, score, best) && IsFresh(db, f)
    requires s.sightingId !in db.sightings && s.freqMhz > 0.0
    requires forall v :: v in db.emitters ==> !Covers(s, db.emitters[v])
    requires var d := Ingested(db, s, f, score, best);
             Scanned(d.emitters, t, score', best') && IsFresh(d, g) && t.sightingId !in d.sightings
    requires t.freqMhz == s.freqMhz
    ensures var d := Ingested(db, s, f, score, best);
            Ingested(d, t, g, score', best').emitters.Keys == d.emitters.Keys
            && Ingested(d, t, g, score', best').sightings[t.sightingId].emitterUid == f.uid
  {
    hide Ingested, MadeFrom, Score;
    var d := Ingested(db, s, f, score, best);
    IngestOutcome(db, s, f, score, best);
    var u := d.sightings[s.sightingId].emitterUid;
    MadeCovers(d.emitters[u], s, s.reporter, f);
    IngestOutcome(d, t, g, score', best');
    var w := Ingested(d, t, g, score', best').sightings[t.sightingId].emitterUid;
    ScoreRange(t, d.emitters[u]);
    ScoreRange(t, d.emitters[w]);
    assert w != u ==> d.emitters[w] == db.emitters[w] && !Covers(s, db.emitters[w]);
  }

  // ------------------------------------------------- deleting a whole file

  /** An emitter once the observations of r are gone, as a list of at most one. */
  function AfterSet(db: Db, r: set<string>, u: string): (e: seq<Emit>)
    requires u in db.emitters
    ensures |e| <= 1
  {
    if !Touched(db, r, u) then [db.emitters[u]]
    else
      var ids := WithoutAll(db.emitters[u].memberSightingIds, r);
      if ids == [] then [] else [Recomputed(db.emitters[u].(memberSightingIds := ids), db.sightings - r)]
  }

  /** The observations of r are gone; emitters that named them are refreshed or, when emptied, gone too. */
  function SetDeleted(db: Db, r: set<string>): Db {
    Db(map u | u in db.emitters && AfterSet(db, r, u) != [] :: AfterSet(db, r, u)[0], db.sightings - r)
  }

  predicate Touched(db: Db, r: set<string>, u: string) {
    exists i :: i in r && i in db.sightings && db.sightings[i].emitterUid == u
  }

  lemma TouchedNothing(db: Db)
    ensures forall u :: !Touched(db, {}, u)
  {
  }

  lemma TouchedStep(db: Db, r: set<string>, i: string)
    requires i in db.sightings
    ensures forall u :: Touched(db, r + {i}, u) <==> Touched(db, r, u) || u == db.sightings[i].emitterUid
  {
  }

  function WithoutAll(ids: seq<string>, r: set<string>): (w: seq<string>)
    ensures forall i :: i in w <==> i in ids && i !in r
  {
    if ids == [] then [] else if ids[0] in r then WithoutAll(ids[1..], r) else [ids[0]] + WithoutAll(ids[1..], r)
  }

  lemma {:induction false} WithoutAllStep(ids: seq<string>, r: set<string>, i: string)
    ensures Without(WithoutAll(ids, r), i) == WithoutAll(ids, r + {i})
  {
    if ids != [] {
      WithoutAllStep(ids[1..], r, i);
    }
  }

  lemma {:induction false} WithoutAllSame(ids: seq<string>, r: set<string>, q: set<string>)
    requires forall i :: i in ids ==> (i in r <==> i in q)
    ensures WithoutAll(ids, r) == WithoutAll(ids, q)
  {
    if ids != [] {
      WithoutAllSame(ids[1..], r, q);
    }
  }

  /** A summary depends only on the observations that are listed. */
  lemma {:induction false} SummaryFrame(ids: seq<string>, ss: map<string, Sight>, tt: map<string, Sight>, f: Int64,
                                        l: Int64, st: seq<string>)
    requires forall i :: i in ids ==> (i in ss <==> i in tt) && (i in ss ==> ss[i] == tt[i])
    ensures FirstSeen(ids, ss, f) == FirstSeen(ids, tt, f)
    ensures LastSeen(ids, ss, l) == LastSeen(ids, tt, l)
    ensures Stations(ids, ss, st) == Stations(ids, tt, st)
    decreases |ids|
  {
    if ids != [] {
      assert ids == [ids[0]] + ids[1..];
      SummaryFrame(ids[1..], ss, tt,
        if ids[0] in ss && 0 < ss[ids[0]].startUtc < f then ss[ids[0]].startUtc else f,
        if ids[0] in ss && ss[ids[0]].startUtc > l then ss[ids[0]].startUtc else l,
        WithStation(st, ids[0], ss));
    }
  }

  lemma RecomputedFrame(e: Emit, ss: map<string, Sight>, tt: map<string, Sight>)
    requires forall i :: i in e.memberSightingIds ==> (i in ss <==> i in tt) && (i in ss ==> ss[i] == tt[i])
    ensures Recomputed(e, ss) == Recomputed(e, tt)
  {
    SummaryFrame(e.memberSightingIds, ss, tt, INT64_MAX, 0, []);
  }

  /** Recomputing does not look at the old summary. */
  lemma RecomputedAgain(e: Emit, ids: seq<string>, ss: map<string, Sight>, tt: map<string, Sight>)
    ensures Recomputed(Recomputed(e, ss).(memberSightingIds := ids), tt) == Recomputed(e.(memberSightingIds := ids), tt)
  {
  }

  /** Deleting one more observation of the file, after those of r. */
  lemma {:induction false} DeleteStep(db: Db, r: set<string>, i: string)
    requires MembersLinked(db) && i in db.sightings && i !in r
    ensures SightingDeleted(SetDeleted(db, r), i) == SetDeleted(db, r + {i})
  {
    hide AfterSet, Recomputed, ListOk;
    var q, u := r + {i}, db.sightings[i].emitterUid;
    var d, t := SetDeleted(db, r), SetDeleted(db, q);
    var d' := SightingDeleted(d, i);
    assert (db.sightings - r) - {i} == db.sightings - q;
    NoUid(db);
    hide MembersLinked;
    if u in db.emitters {
      DeleteStepHere(db, r, i);
    }
    forall v | v in db.emitters && v != u
      ensures AfterSet(db, q, v) == AfterSet(db, r, v)
    {
      DeleteStepElsewhere(db, r, i, v);
    }
    assert d'.emitters == t.emitters;
  }

  lemma DeleteStepElsewhere(db: Db, r: set<string>, i: string, v: string)
    requires MembersLinked(db) && i in db.sightings && i !in r && v in db.emitters && db.sightings[i].emitterUid != v
    ensures AfterSet(db, r + {i}, v) == AfterSet(db, r, v)
  {
    hide Recomputed;
    var q := r + {i};
    var ids := db.emitters[v].memberSightingIds;
    assert ListOk(v, db.emitters[v], db.sightings);
    assert Touched(db, q, v) <==> Touched(db, r, v);
    WithoutAllSame(ids, r, q);
    RecomputedFrame(db.emitters[v].(memberSightingIds := WithoutAll(ids, r)), db.sightings - r, db.sightings - q);
  }

  lemma DeleteStepHere(db: Db, r: set<string>, i: string)
    requires MembersLinked(db) && i in db.sightings && i !in r && db.sightings[i].emitterUid in db.emitters
    ensures var u, q := db.sightings[i].emitterUid, r + {i};
            var before, after := AfterSet(db, r, u), AfterSet(db, q, u);
            if before == [] then after == []
            else
              var ids := Without(before[0].memberSightingIds, i);
              after == if ids == [] then [] else [Recomputed(before[0].(memberSightingIds := ids), db.sightings - q)]
  {
    hide Recomputed;
    var u, q := db.sightings[i].emitterUid, r + {i};
    var ids := db.emitters[u].memberSightingIds;
    assert Touched(db, q, u);
    WithoutAllStep(ids, r, i);
    if !Touched(db, r, u) {
      NothingRemoved(db, r, u);
    } else {
      RecomputedAgain(db.emitters[u].(memberSightingIds := WithoutAll(ids, r)), WithoutAll(ids, q),
                      db.sightings - r, db.sightings - q);
    }
  }

  lemma NothingRemoved(db: Db, r: set<string>, v: string)
    requires MembersLinked(db) && v in db.emitters && !Touched(db, r, v)
    ensures WithoutAll(db.emitters[v].memberSightingIds, r) == db.emitters[v].memberSightingIds
  {
    assert ListOk(v, db.emitters[v], db.sightings);
    WithoutAllSame(db.emitters[v].memberSightingIds, r, {});
    WithoutNone(db.emitters[v].memberSightingIds);
  }

  lemma {:induction false} WithoutNone(ids: seq<string>)
    ensures WithoutAll(ids, {}) == ids
  {
    if ids != [] {
      WithoutNone(ids[1..]);
    }
  }

  lemma SetDeletedSightings(db: Db, r: set<string>, i: string)
    ensures SetDeleted(db, r).sightings == db.sightings - r && SetDeleted(db, r).emitters.Keys <= db.emitters.Keys
    ensures SightingDeleted(SetDeleted(db, r), i).emitters.Keys <= SetDeleted(db, r).emitters.Keys
  {
  }

  function OfFile(db: Db, filename: string): set<string> {
    set i | i in db.sightings && db.sightings[i].filename == filename
  }

  lemma SetDeletedNothing(db: Db)
    ensures SetDeleted(db, {}) == db
  {
    var d := SetDeleted(db, {});
    assert d.emitters == db.emitters;
    assert d.sightings == db.sightings;
  }

  /** Deleting a file keeps the links, for any part of the file already gone. */
  lemma {:induction false} SetDeletedKeeps(db: Db, r: set<string>)
    requires MembersLinked(db) && r <= db.sightings.Keys
    ensures MembersLinked(SetDeleted(db, r))
    ensures SightingsLinked(db) ==> SightingsLinked(SetDeleted(db, r))
    decreases r
  {
    hide SetDeleted, SightingDeleted, ListOk, NameOk;
    if r == {} {
      SetDeletedNothing(db);
    } else {
      var i :| i in r;
      SetDeletedKeeps(db, r - {i});
      assert r == r - {i} + {i};
      DeleteStep(db, r - {i}, i);
      SightingDeletedKeeps(SetDeleted(db, r - {i}), i);
    }
  }

  // ------------------------------------------------------------------ runs

  datatype Op =
    | Ingest(s: Sight, f: Fresh)
    | Upsert(e: Emit, f: Fresh)
    | DeleteEmitter(u: string)
    | DeleteFile(filename: string)
    | Link(i: string, target: string, action: Uint8, f: Fresh)

  ghost predicate StepTo(db: Db, op: Op, d: Db) {
    match op
    case Ingest(s, f) =>
      exists score, best ::
        Scanned(db.emitters, s, score, best) && ScanFits(db, score, best) && d == Ingested(db, s, f, score, best)
    case Upsert(e, f) => d == Upserted(db, e, f)
    case DeleteEmitter(u) => d == EmitterDeleted(db, u)
    case DeleteFile(name) => d == SetDeleted(db, OfFile(db, name))
    case Link(i, target, action, f) => d == Relinked(db, i, target, action, f)
  }

  predicate ScanFits(db: Db, score: real, best: string) {
    score >= JOIN_SCORE ==> best in db.emitters
  }

  /** The generated uid is new. */
  predicate NewUid(db: Db, op: Op) {
    op.Ingest? || op.Upsert? || op.Link? ==> IsFresh(db, op.f)
  }

  /** An emitter unknown so far is written with a right list. */
  ghost predicate Claims(db: Db, op: Op) {
    op.Upsert? ==>
      || op.e.emitterUid in db.emitters
      || RightlyClaims(db, op.e, if op.e.emitterUid == "" then op.f.uid else op.e.emitterUid)
  }

  /** A move of a known observation goes to a known emitter or to none. */
  predicate MovesToKnown(db: Db, op: Op) {
    op.Link? && op.action == 2 && op.i in db.sightings ==> op.target == "" || op.target in db.emitters
  }

  ghost predicate IsRun(states: seq<Db>, ops: seq<Op>) {
    && |states| == |ops| + 1
    && forall k :: 0 <= k < |ops| ==> StepTo(states[k], ops[k], states[k + 1])
  }

  /** Of all operations, only writing an emitter can break the member direction, and this says when. */
  lemma {:induction false} StepKeeps(db: Db, op: Op, d: Db)
    requires MembersLinked(db) && StepTo(db, op, d) && NewUid(db, op)
    ensures MembersLinked(d) <==> Claims(db, op)
    ensures SightingsLinked(db) && Claims(db, op) && MovesToKnown(db, op) ==> SightingsLinked(d)
  {
    hide Ingested, Upserted, EmitterDeleted, SetDeleted, Relinked, ListOk, NameOk, RightlyClaims;
    match op
    case Ingest(s, f) =>
      var score, best :|
        Scanned(db.emitters, s, score, best) && ScanFits(db, score, best) && d == Ingested(db, s, f, score, best);
      IngestedKeeps(db, s, f, score, best);
    case Upsert(e, f) =>
      UpsertedMembersExactly(db, e, f);
      UpsertedKeepsExactly(db, e, f);
      if SightingsLinked(db) && e.emitterUid !in db.emitters {
        NothingToClaim(db, e, if e.emitterUid == "" then f.uid else e.emitterUid);
      }
    case DeleteEmitter(u) =>
      EmitterDeletedKeeps(db, u);
    case DeleteFile(name) =>
      SetDeletedKeeps(db, OfFile(db, name));
    case Link(i, target, action, f) =>
      RelinkedKeeps(db, i, target, action, f);
      if i !in db.sightings {
        UnknownStays(db, i, target, action, f);
      }
  }

  lemma UnknownStays(db: Db, i: string, target: string, action: Uint8, f: Fresh)
    requires i !in db.sightings
    ensures Relinked(db, i, target, action, f) == db
  {
  }

  /** And only that and a move to an unknown emitter can break both directions. */
  lemma {:induction false} StepKeepsExactly(db: Db, op: Op, d: Db)
    requires Linked(db) && StepTo(db, op, d) && NewUid(db, op)
    ensures Linked(d) <==> Claims(db, op) && MovesToKnown(db, op)
  {
    hide MembersLinked, SightingsLinked, Relinked, Claims;
    StepKeeps(db, op, d);
    if op.Link? && !MovesToKnown(db, op) {
      MoveKeepsExactly(db, op.i, op.target, op.f);
    }
  }

  /**
   * In a run, whatever moves it contains, listed observations exist and name the emitter that lists
   * them throughout exactly when every unknown emitter is written with a right list.
   */
  lemma {:induction false} RunKeepsMembers(states: seq<Db>, ops: seq<Op>)
    requires IsRun(states, ops) && MembersLinked(states[0])
    requires forall j :: 0 <= j < |ops| ==> NewUid(states[j], ops[j])
    ensures (forall k :: 0 <= k <= |ops| ==> MembersLinked(states[k]))
       <==> (forall j :: 0 <= j < |ops| ==> Claims(states[j], ops[j]))
  {
    MembersUpTo(states, ops, |ops|);
  }

  lemma {:induction false} MembersUpTo(states: seq<Db>, ops: seq<Op>, n: nat)
    requires IsRun(states, ops) && MembersLinked(states[0]) && n <= |ops|
    requires forall j :: 0 <= j < |ops| ==> NewUid(states[j], ops[j])
    ensures (forall k :: 0 <= k <= n ==> MembersLinked(states[k]))
       <==> (forall j :: 0 <= j < n ==> Claims(states[j], ops[j]))
  {
    hide MembersLinked, SightingsLinked, Claims, StepTo, NewUid;
    if n > 0 {
      MembersUpTo(states, ops, n - 1);
      if MembersLinked(states[n - 1]) {
        StepKeeps(states[n - 1], ops[n - 1], states[n]);
      }
    }
  }

  /**
   * In a run, both directions hold throughout exactly when, besides, every move goes to a known
   * emitter or to none.
   */
  lemma {:induction false} RunKeepsLinks(states: seq<Db>, ops: seq<Op>)
    requires IsRun(states, ops) && Linked(states[0])
    requires forall j :: 0 <= j < |ops| ==> NewUid(states[j], ops[j])
    ensures (forall k :: 0 <= k <= |ops| ==> Linked(states[k]))
       <==> (forall j :: 0 <= j < |ops| ==> Claims(states[j], ops[j]) && MovesToKnown(states[j], ops[j]))
  {
    LinksUpTo(states, ops, |ops|);
  }

  lemma {:induction false} LinksUpTo(states: seq<Db>, ops: seq<Op>, n: nat)
    requires IsRun(states, ops) && Linked(states[0]) && n <= |ops|
    requires forall j :: 0 <= j < |ops| ==> NewUid(states[j], ops[j])
    ensures (forall k :: 0 <= k <= n ==> Linked(states[k]))
       <==> (forall j :: 0 <= j < n ==> Claims(states[j], ops[j]) && MovesToKnown(states[j], ops[j]))
  {
    hide Linked, Claims, MovesToKnown, StepTo, NewUid;
    if n > 0 {
      LinksUpTo(states, ops, n - 1);
      if Linked(states[n - 1]) {
        StepKeepsExactly(states[n - 1], ops[n - 1], states[n]);
      }
    }
  }
}
