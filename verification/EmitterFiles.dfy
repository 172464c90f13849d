/** The whole signal library, saved to its two files and loaded again: what becomes of the links. */
module EmitterFiles {
  import opened Prelude
  import opened JsonText
  import opened JsonFiles
  import opened SignalRecords
  import opened EmitterMatch
  import opened EmitterSpec
  import EmitterJson
  import SightingJson

  type EmitText = Emitter<FloatText>
  type SightText = Sighting<FloatText>

  /** How a float is printed and how its text is read. */
  datatype Floats = Floats(show: real -> FloatText, read: FloatText -> real)

  function Written(fl: Floats, e: Emit): EmitText {
    Emitter(e.emitterUid, e.displayName, fl.show(e.freqCenterMhz), fl.show(e.freqToleranceKhz), fl.show(e.bwKhz),
            e.modulation, e.protocol, e.tagsId, e.firstSeenUtc, e.lastSeenUtc, e.sightingCount,
            e.contributingStations, e.operatorNotes, e.memberSightingIds, e.createdBy, e.createdUtc)
  }

  function Reread(fl: Floats, e: EmitText): Emit {
    Emitter(e.emitterUid, e.displayName, fl.read(e.freqCenterMhz), fl.read(e.freqToleranceKhz), fl.read(e.bwKhz),
            e.modulation, e.protocol, e.tagsId, e.firstSeenUtc, e.lastSeenUtc, e.sightingCount,
            e.contributingStations, e.operatorNotes, e.memberSightingIds, e.createdBy, e.createdUtc)
  }

  function WrittenSighting(fl: Floats, s: Sight): SightText {
    Sighting(s.sightingId, s.filename, s.reporter, s.station, fl.show(s.freqMhz), fl.show(s.bwKhz),
             s.modulation, s.protocol, s.target, s.operatorName, s.tags,
             s.startUtc, s.durationS, s.emitterUid, s.matchStatus)
  }

  function RereadSighting(fl: Floats, s: SightText): Sight {
    Sighting(s.sightingId, s.filename, s.reporter, s.station, fl.read(s.freqMhz), fl.read(s.bwKhz),
             s.modulation, s.protocol, s.target, s.operatorName, s.tags,
             s.startUtc, s.durationS, s.emitterUid, s.matchStatus)
  }

  function EmitterTexts(fl: Floats, db: Db): map<string, EmitText> {
    map u | u in db.emitters :: Written(fl, db.emitters[u])
  }

  function SightingTexts(fl: Floats, db: Db): map<string, SightText> {
    map i | i in db.sightings :: WrittenSighting(fl, db.sightings[i])
  }

  /** The two files, with the records in some order. */
  datatype Files = Files(emitters: string, sightings: string)

  ghost predicate Saved(fl: Floats, db: Db, f: Files) {
    && (exists es: seq<EmitText> ::
          Enumerates(es, EmitterTexts(fl, db), EmitterJson.EmitterId)
          && f.emitters == SaveLines(EmitterJson.EmitterLine, es))
    && (exists ss: seq<SightText> ::
          Enumerates(ss, SightingTexts(fl, db), SightingJson.SightingId)
          && f.sightings == SaveLines(SightingJson.SightingLine, ss))
  }

  function LoadEmitters(fl: Floats, text: string): map<string, Emit> {
    var m := LoadLines(EmitterJson.ParseEmitter, EmitterJson.EmitterId, Lines(text), map[]);
    map u | u in m :: Reread(fl, m[u])
  }

  function LoadSightings(fl: Floats, text: string): map<string, Sight> {
    var m := LoadLines(SightingJson.ParseSighting, SightingJson.SightingId, Lines(text), map[]);
    map i | i in m :: RereadSighting(fl, m[i])
  }

  function Loaded(fl: Floats, f: Files): Db {
    Db(LoadEmitters(fl, f.emitters), LoadSightings(fl, f.sightings))
  }

  // ------------------------------------------------------------ survivors

  /** The emitter's line can be read again: it has a uid, and its floats are finite as printed. */
  predicate EmitterKept(fl: Floats, e: Emit) {
    e.emitterUid != "" && EmitterJson.FiniteEmitter(Written(fl, e))
  }

  predicate SightingKept(fl: Floats, s: Sight) {
    s.sightingId != "" && SightingJson.FiniteSighting(WrittenSighting(fl, s))
  }

  /** A record that has been printed and read: its floats as their text gives them, its times as doubles. */
  function Restored(fl: Floats, e: Emit): Emit {
    e.(freqCenterMhz := fl.read(fl.show(e.freqCenterMhz)), freqToleranceKhz := fl.read(fl.show(e.freqToleranceKhz)),
       bwKhz := fl.read(fl.show(e.bwKhz)), firstSeenUtc := KeptInt(e.firstSeenUtc),
       lastSeenUtc := KeptInt(e.lastSeenUtc), createdUtc := KeptInt(e.createdUtc))
  }

  function RestoredSighting(fl: Floats, s: Sight): Sight {
    s.(freqMhz := fl.read(fl.show(s.freqMhz)), bwKhz := fl.read(fl.show(s.bwKhz)), startUtc := KeptInt(s.startUtc))
  }

  /** What a link consists of, on the side of the emitter and on that of the sighting. */
  function ListSide(e: Emit): (string, seq<string>, Uint32) {
    (e.emitterUid, e.memberSightingIds, e.sightingCount)
  }

  function NameSide(s: Sight): (string, string) {
    (s.sightingId, s.emitterUid)
  }

  lemma EmittersLoaded(fl: Floats, db: Db, es: seq<EmitText>)
    requires Enumerates(es, EmitterTexts(fl, db), EmitterJson.EmitterId)
    ensures var m := LoadEmitters(fl, SaveLines(EmitterJson.EmitterLine, es));
            && (forall u :: u in m <==> u in db.emitters && EmitterKept(fl, db.emitters[u]))
            && (forall u :: u in m ==> m[u] == Restored(fl, db.emitters[u]))
  {
    hide Lines, LoadLines, SaveLines, EmitterJson.RereadEmitter, EmitterKept, Written, Reread, Enumerates;
    EmitterJson.EmitterFileRoundTrip(es, EmitterTexts(fl, db));
    forall u | u in db.emitters
      ensures var r := EmitterJson.RereadEmitter(Written(fl, db.emitters[u]));
              (r.Some? <==> EmitterKept(fl, db.emitters[u]))
              && (r.Some? ==> Reread(fl, r.value) == Restored(fl, db.emitters[u]))
    {
      EmitterComesBack(fl, db.emitters[u]);
    }
  }

  lemma EmitterComesBack(fl: Floats, e: Emit)
    ensures var r := EmitterJson.RereadEmitter(Written(fl, e));
            (r.Some? <==> EmitterKept(fl, e)) && (r.Some? ==> Reread(fl, r.value) == Restored(fl, e))
  {
    hide EmitterJson.FiniteEmitter, KeptInt;
  }

  lemma SightingsLoaded(fl: Floats, db: Db, ss: seq<SightText>)
    requires Enumerates(ss, SightingTexts(fl, db), SightingJson.SightingId)
    ensures var m := LoadSightings(fl, SaveLines(SightingJson.SightingLine, ss));
            && (forall i :: i in m <==> i in db.sightings && SightingKept(fl, db.sightings[i]))
            && (forall i :: i in m ==> m[i] == RestoredSighting(fl, db.sightings[i]))
  {
    hide Lines, LoadLines, SaveLines, SightingJson.RereadSighting, SightingKept, WrittenSighting, RereadSighting,
         Enumerates;
    SightingJson.SightingFileRoundTrip(ss, SightingTexts(fl, db));
    forall i | i in db.sightings
      ensures var r := SightingJson.RereadSighting(WrittenSighting(fl, db.sightings[i]));
              (r.Some? <==> SightingKept(fl, db.sightings[i]))
              && (r.Some? ==> RereadSighting(fl, r.value) == RestoredSighting(fl, db.sightings[i]))
    {
      SightingComesBack(fl, db.sightings[i]);
    }
  }

  lemma SightingComesBack(fl: Floats, s: Sight)
    ensures var r := SightingJson.RereadSighting(WrittenSighting(fl, s));
            (r.Some? <==> SightingKept(fl, s)) && (r.Some? ==> RereadSighting(fl, r.value) == RestoredSighting(fl, s))
  {
    hide SightingJson.FiniteSighting, KeptInt;
  }

  /** d holds some of the records of db, with their links as they were. */
  ghost predicate PartOf(d: Db, db: Db) {
    && (forall u :: u in d.emitters ==> u in db.emitters && ListSide(d.emitters[u]) == ListSide(db.emitters[u]))
    && (forall i :: i in d.sightings ==> i in db.sightings && NameSide(d.sightings[i]) == NameSide(db.sightings[i]))
  }

  ghost predicate IsLink(db: Db, u: string, i: string) {
    u in db.emitters && i in db.emitters[u].memberSightingIds
  }

  /** A part of a linked library is linked exactly when of every link both records are there, or none. */
  lemma PartLinkedExactly(d: Db, db: Db)
    requires Linked(db) && PartOf(d, db)
    ensures Linked(d) <==> forall u, i :: IsLink(db, u, i) ==> (u in d.emitters <==> i in d.sightings)
  {
    if Linked(d) {
      forall u, i | IsLink(db, u, i)
        ensures u in d.emitters <==> i in d.sightings
      {
        LinkInPart(d, db, u, i);
      }
    }
    if forall u, i :: IsLink(db, u, i) ==> (u in d.emitters <==> i in d.sightings) {
      forall u | u in d.emitters
        ensures ListOk(u, d.emitters[u], d.sightings)
      {
        ListInPart(d, db, u);
      }
      forall i | i in d.sightings
        ensures NameOk(i, d.sightings[i], d.emitters)
      {
        NameInPart(d, db, i);
      }
    }
  }

  lemma LinkInPart(d: Db, db: Db, u: string, i: string)
    requires Linked(db) && PartOf(d, db) && Linked(d) && IsLink(db, u, i)
    ensures u in d.emitters <==> i in d.sightings
  {
    assert ListOk(u, db.emitters[u], db.sightings);
    if u in d.emitters {
      assert ListOk(u, d.emitters[u], d.sightings);
    }
    if i in d.sightings {
      assert NameOk(i, d.sightings[i], d.emitters);
    }
  }

  lemma ListInPart(d: Db, db: Db, u: string)
    requires Linked(db) && PartOf(d, db) && u in d.emitters
    requires forall v, i :: IsLink(db, v, i) ==> (v in d.emitters <==> i in d.sightings)
    ensures ListOk(u, d.emitters[u], d.sightings)
  {
    assert ListOk(u, db.emitters[u], db.sightings);
    forall i | i in d.emitters[u].memberSightingIds
      ensures i in d.sightings && d.sightings[i].emitterUid == u
    {
      assert IsLink(db, u, i);
    }
  }

  lemma NameInPart(d: Db, db: Db, i: string)
    requires Linked(db) && PartOf(d, db) && i in d.sightings
    requires forall u, j :: IsLink(db, u, j) ==> (u in d.emitters <==> j in d.sightings)
    ensures NameOk(i, d.sightings[i], d.emitters)
  {
    assert NameOk(i, db.sightings[i], db.emitters);
    var u := d.sightings[i].emitterUid;
    assert u != "" ==> IsLink(db, u, i);
  }

  // --------------------------------------------------------------- result

  /** What is loaded: the records whose lines can be read again, each restored, and nothing else. */
  lemma LoadedRecords(fl: Floats, db: Db, f: Files)
    requires Saved(fl, db, f)
    ensures var d := Loaded(fl, f);
            && (forall u :: u in d.emitters <==> u in db.emitters && EmitterKept(fl, db.emitters[u]))
            && (forall i :: i in d.sightings <==> i in db.sightings && SightingKept(fl, db.sightings[i]))
            && (forall u :: u in d.emitters ==> d.emitters[u] == Restored(fl, db.emitters[u]))
            && (forall i :: i in d.sightings ==> d.sightings[i] == RestoredSighting(fl, db.sightings[i]))
  {
    hide EmitterKept, SightingKept, EmitterTexts, SightingTexts, LoadEmitters, LoadSightings, Enumerates, SaveLines,
         Restored, RestoredSighting;
    var es: seq<EmitText> :|
      Enumerates(es, EmitterTexts(fl, db), EmitterJson.EmitterId)
      && f.emitters == SaveLines(EmitterJson.EmitterLine, es);
    var ss: seq<SightText> :|
      Enumerates(ss, SightingTexts(fl, db), SightingJson.SightingId)
      && f.sightings == SaveLines(SightingJson.SightingLine, ss);
    EmittersLoaded(fl, db, es);
    SightingsLoaded(fl, db, ss);
  }

  lemma RestoredIsPart(fl: Floats, d: Db, db: Db)
    requires forall u :: u in d.emitters ==> u in db.emitters && d.emitters[u] == Restored(fl, db.emitters[u])
    requires forall i :: i in d.sightings ==>
               i in db.sightings && d.sightings[i] == RestoredSighting(fl, db.sightings[i])
    ensures PartOf(d, db)
  {
    hide KeptInt;
  }

  predicate SameFloat(fl: Floats, x: real) {
    fl.read(fl.show(x)) == x
  }

  lemma RestoredExactly(fl: Floats, e: Emit)
    ensures Restored(fl, e) == e <==>
            && SameFloat(fl, e.freqCenterMhz) && SameFloat(fl, e.freqToleranceKhz) && SameFloat(fl, e.bwKhz)
            && IsDouble(Magnitude(e.firstSeenUtc)) && IsDouble(Magnitude(e.lastSeenUtc))
            && IsDouble(Magnitude(e.createdUtc))
  {
    hide NumberToInt64, Decimal, IsDouble, Magnitude;
    IntegerRoundTrip(e.firstSeenUtc);
    IntegerRoundTrip(e.lastSeenUtc);
    IntegerRoundTrip(e.createdUtc);
    var r := Restored(fl, e);
    assert r == e <==>
      && r.freqCenterMhz == e.freqCenterMhz && r.freqToleranceKhz == e.freqToleranceKhz && r.bwKhz == e.bwKhz
      && r.firstSeenUtc == e.firstSeenUtc && r.lastSeenUtc == e.lastSeenUtc && r.createdUtc == e.createdUtc;
  }

  lemma RestoredSightingExactly(fl: Floats, s: Sight)
    ensures RestoredSighting(fl, s) == s <==>
            SameFloat(fl, s.freqMhz) && SameFloat(fl, s.bwKhz) && IsDouble(Magnitude(s.startUtc))
  {
    hide NumberToInt64, Decimal, IsDouble, Magnitude;
    IntegerRoundTrip(s.startUtc);
  }

  /** Saving and loading changes nothing exactly when every record can be read again and is restored as it was. */
  lemma {:induction false} LibrarySurvives(fl: Floats, db: Db, f: Files)
    requires Saved(fl, db, f)
    ensures Loaded(fl, f) == db <==>
            && (forall u :: u in db.emitters ==>
                  EmitterKept(fl, db.emitters[u]) && Restored(fl, db.emitters[u]) == db.emitters[u])
            && (forall i :: i in db.sightings ==>
                  SightingKept(fl, db.sightings[i]) && RestoredSighting(fl, db.sightings[i]) == db.sightings[i])
  {
    hide Saved, Loaded, EmitterKept, SightingKept, Restored, RestoredSighting;
    LoadedRecords(fl, db, f);
    var d := Loaded(fl, f);
    assert d == db <==> d.emitters == db.emitters && d.sightings == db.sightings;
  }

  /**
   * A linked library that is saved and loaded holds exactly the records whose lines can be read
   * again. It is linked again exactly when of every link both records come back, or neither.
   */
  lemma SavedAndLoaded(fl: Floats, db: Db, f: Files)
    requires Linked(db) && Saved(fl, db, f)
    ensures var d := Loaded(fl, f);
            && (forall u :: u in d.emitters <==> u in db.emitters && EmitterKept(fl, db.emitters[u]))
            && (forall i :: i in d.sightings <==> i in db.sightings && SightingKept(fl, db.sightings[i]))
            && PartOf(d, db)
            && (Linked(d) <==> forall u, i :: IsLink(db, u, i) ==>
                  (EmitterKept(fl, db.emitters[u]) <==> i in db.sightings && SightingKept(fl, db.sightings[i])))
  {
    hide Linked, EmitterKept, SightingKept, Saved, Loaded, Restored, RestoredSighting, PartOf;
    LoadedRecords(fl, db, f);
    RestoredIsPart(fl, Loaded(fl, f), db);
    PartLinkedExactly(Loaded(fl, f), db);
  }

  /** So it is when no record taking part in a link is lost, and a link with one lost record breaks it. */
  lemma LinksSurvive(fl: Floats, db: Db, f: Files)
    requires Linked(db) && Saved(fl, db, f)
    requires forall u, i :: IsLink(db, u, i) ==>
               i in db.sightings && (EmitterKept(fl, db.emitters[u]) || SightingKept(fl, db.sightings[i]))
    ensures Linked(Loaded(fl, f)) <==>
            forall u, i :: IsLink(db, u, i) ==> EmitterKept(fl, db.emitters[u]) && SightingKept(fl, db.sightings[i])
  {
    hide Linked, EmitterKept, SightingKept, Saved, Loaded;
    SavedAndLoaded(fl, db, f);
  }
}
