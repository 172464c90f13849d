/** The stored AIS log: length-prefixed records, read up to a torn tail. */
module AisLog {
  import opened Prelude
  import opened LittleEndian

  const PREFIX: nat := 24
  const RECORD: nat := 186

  /** A station prefix and a message in the current layout. */
  type Rec = r: seq<Byte> | |r| == RECORD witness seq(186, _ => 0)

  function Signed64(v: nat): (t: int)
    ensures v < 0x1_0000_0000_0000_0000 ==> -0x8000_0000_0000_0000 <= t < 0x8000_0000_0000_0000
  {
    if v >= 0x8000_0000_0000_0000 then v - 0x1_0000_0000_0000_0000 else v
  }

  function Time(r: Rec): int { Signed64(Field(r, PREFIX, 8)) }
  function Mmsi(r: Rec): nat { Field(r, PREFIX + 21, 4) }
  predicate HasPos(r: Rec) { r[PREFIX + 25] != 0 }
  predicate HasName(r: Rec) { r[PREFIX + 58] != 0 }
  function RxCount(r: Rec): nat { Field(r, PREFIX + 91, 4) }

  function WithRxCount(r: Rec, n: nat): Rec { SetField(r, PREFIX + 91, 4, n) }

  /** Where the fields stand in a record of 186 bytes, and how their bytes are read. */
  lemma {:induction false} Layout(r: Rec)
    ensures |r| == 186
    ensures Mmsi(r) == Word(r[45], r[46], r[47], r[48])
    ensures RxCount(r) == Word(r[115], r[116], r[117], r[118])
    ensures HasPos(r) <==> r[49] != 0
    ensures HasName(r) <==> r[82] != 0
    ensures Time(r) == Word(r[24], r[25], r[26], r[27]) + 0x1_0000_0000 * Word(r[28], r[29], r[30], r[31])
                       - if r[31] < 128 then 0 else 0x1_0000_0000_0000_0000
  {
    hide Le, Word, Mmsi;
    MmsiIs(r);
    BytesOf(r[24..32]);
    BytesOf(r[115..119]);
    TopBit(r[24], r[25], r[26], r[27], r[28], r[29], r[30], r[31]);
  }

  lemma MmsiIs(r: Rec)
    ensures Mmsi(r) == Word(r[45], r[46], r[47], r[48])
  {
    hide Le, Word;
    BytesOf(r[45..49]);
  }

  lemma TopBit(a: Byte, b: Byte, c: Byte, d: Byte, e: Byte, f: Byte, g: Byte, h: Byte)
    ensures Word(a, b, c, d) + 0x1_0000_0000 * Word(e, f, g, h) >= 0x8000_0000_0000_0000 <==> h >= 128
  {
  }

  /** The two records differ in nothing but the four bytes of the count. */
  predicate SameButCount(r: Rec, q: Rec) {
    forall i :: 0 <= i < 186 && !(115 <= i < 119) ==> r[i] == q[i]
  }

  lemma CountBytesOnly(r: Rec, n: nat)
    ensures SameButCount(WithRxCount(r, n), r)
  {
    hide ToLe;
  }

  /** Carrying the count changes nothing else that the summary looks at. */
  lemma CountOnly(r: Rec, n: nat)
    ensures Time(WithRxCount(r, n)) == Time(r) && Mmsi(WithRxCount(r, n)) == Mmsi(r)
    ensures n < 0x1_0000_0000 ==> RxCount(WithRxCount(r, n)) == n
  {
    hide Le, ToLe, Pow256;
    SetFieldElsewhere(r, PREFIX + 91, 4, n, PREFIX, 8);
    SetFieldElsewhere(r, PREFIX + 91, 4, n, PREFIX + 21, 4);
    Powers();
    if n < 0x1_0000_0000 {
      SetFieldHere(r, PREFIX + 91, 4, n);
    }
  }

  // --------------------------------------------------------------- reading

  function Zeros(n: nat): (s: seq<Byte>)
    ensures |s| == n
  {
    seq(n, _ => 0)
  }

  /** A stored record of any length, cut or filled with zeros to the current layout; too short ones are refused. */
  function Parsed(s: seq<Byte>): (r: Rec)
    requires |s| >= PREFIX
  {
    if |s| >= RECORD then s[..RECORD] else s + Zeros(RECORD - |s|)
  }

  /** What one stored record contributes: nothing when it is too short or has no MMSI. */
  function Read(s: seq<Byte>): seq<Rec> {
    if |s| < PREFIX || Mmsi(Parsed(s)) == 0 then [] else [Parsed(s)]
  }

  /** One of the four bytes of the MMSI is there and not zero. */
  predicate NamesVessel(s: seq<Byte>) {
    exists i :: 45 <= i < 49 && i < |s| && s[i] != 0
  }

  lemma ParsedBytes(s: seq<Byte>)
    requires |s| >= 24
    ensures forall i :: 0 <= i < 186 ==> Parsed(s)[i] == if i < |s| then s[i] else 0
  {
  }

  lemma {:induction false} ParsedNames(s: seq<Byte>)
    requires |s| >= 24
    ensures Mmsi(Parsed(s)) != 0 <==> NamesVessel(s)
  {
    ParsedBytes(s);
    hide Mmsi, Parsed, NamesVessel;
    NoMmsi(Parsed(s));
    SameNames(s, Parsed(s));
  }

  lemma NoMmsi(p: Rec)
    ensures Mmsi(p) != 0 <==> NamesVessel(p)
  {
    hide Mmsi, Word, NamesVessel;
    MmsiIs(p);
    WordIsZero(p[45], p[46], p[47], p[48]);
    BytesName(p);
  }

  lemma BytesName(p: Rec)
    ensures NamesVessel(p) <==> p[45] != 0 || p[46] != 0 || p[47] != 0 || p[48] != 0
  {
  }

  lemma SameNames(s: seq<Byte>, p: Rec)
    requires forall i :: 0 <= i < 186 ==> p[i] == if i < |s| then s[i] else 0
    ensures NamesVessel(s) <==> NamesVessel(p)
  {
  }

  lemma WordIsZero(a: Byte, b: Byte, c: Byte, d: Byte)
    ensures Word(a, b, c, d) != 0 <==> a != 0 || b != 0 || c != 0 || d != 0
  {
  }

  /**
   * A stored record of fewer than 24 bytes or without an MMSI gives nothing; any other gives one
   * record with the same bytes, as many as there are and at most 186, and zeros behind them.
   */
  lemma ReadIs(s: seq<Byte>)
    ensures |Read(s)| == if |s| >= 24 && NamesVessel(s) then 1 else 0
    ensures Read(s) != [] ==> forall i :: 0 <= i < 186 ==> Read(s)[0][i] == if i < |s| then s[i] else 0
  {
    hide Mmsi, Parsed, NamesVessel;
    if |s| >= 24 {
      ParsedNames(s);
      ParsedBytes(s);
    }
  }

  function Records(body: seq<Byte>): seq<Rec>
    decreases |body|
  {
    if |body| < 4 then []
    else
      var n := Le(body[..4]);
      if 4 + n > |body| then [] else Read(body[4..4 + n]) + Records(body[4 + n..])
  }

  function Stored(s: seq<Byte>): (t: seq<Byte>)
    ensures |t| == 4 + |s|
  {
    ToLe(|s|, 4) + s
  }

  function StoredAll(ss: seq<seq<Byte>>): seq<Byte> {
    if ss == [] then [] else Stored(ss[0]) + StoredAll(ss[1..])
  }

  function ReadAll(ss: seq<seq<Byte>>): seq<Rec> {
    if ss == [] then [] else Read(ss[0]) + ReadAll(ss[1..])
  }

  lemma RecordsStep(s: seq<Byte>, tail: seq<Byte>)
    requires |s| < 0x1_0000_0000
    ensures Records(Stored(s) + tail) == Read(s) + Records(tail)
  {
    hide Read;
    Powers();
    LeRoundTrip(|s|, 4);
    var body := Stored(s) + tail;
    assert body[..4] == ToLe(|s|, 4);
    assert body[4..4 + |s|] == s && body[4 + |s|..] == tail;
  }

  /** A log is read back record by record. */
  lemma {:induction false} RecordsOfStored(ss: seq<seq<Byte>>, tail: seq<Byte>)
    requires forall i :: 0 <= i < |ss| ==> |ss[i]| < 0x1_0000_0000
    ensures Records(StoredAll(ss) + tail) == ReadAll(ss) + Records(tail)
    decreases |ss|
  {
    hide Read, Stored, Records;
    if ss == [] {
      assert StoredAll(ss) + tail == tail;
    } else {
      var rest := StoredAll(ss[1..]) + tail;
      assert StoredAll(ss) + tail == Stored(ss[0]) + rest;
      RecordsStep(ss[0], rest);
      RecordsOfStored(ss[1..], tail);
    }
  }

  /** A tail torn anywhere inside a record is ignored, and nothing before it is. */
  lemma {:induction false} TornTailIgnored(ss: seq<seq<Byte>>, torn: seq<Byte>, k: nat)
    requires forall i :: 0 <= i < |ss| ==> |ss[i]| < 0x1_0000_0000
    requires |torn| < 0x1_0000_0000 && k < |Stored(torn)|
    ensures Records(StoredAll(ss) + Stored(torn)[..k]) == ReadAll(ss)
  {
    var tail := Stored(torn)[..k];
    assert Records(tail) == [] by {
      if k >= 4 {
        Powers();
        LeRoundTrip(|torn|, 4);
        assert tail[..4] == ToLe(|torn|, 4);
      }
    }
    RecordsOfStored(ss, tail);
  }

  // --------------------------------------------------------------- writing

  function EmitAll(rs: seq<Rec>): seq<Byte> {
    if rs == [] then [] else EmitAll(rs[..|rs| - 1]) + Stored(rs[|rs| - 1])
  }

  lemma {:induction false} EmitAppend(rs: seq<Rec>, qs: seq<Rec>)
    ensures EmitAll(rs + qs) == EmitAll(rs) + EmitAll(qs)
    decreases |qs|
  {
    hide Stored;
    if qs == [] {
      assert rs + qs == rs;
    } else {
      var n := |qs| - 1;
      assert (rs + qs)[..|rs + qs| - 1] == rs + qs[..n];
      EmitAppend(rs, qs[..n]);
    }
  }

  /** What is emitted is read back as it was. */
  lemma {:induction false} EmittedReadsBack(rs: seq<Rec>)
    requires forall r :: r in rs ==> Mmsi(r) != 0
    ensures Records(EmitAll(rs)) == rs
    decreases |rs|
  {
    hide Records, Stored, Mmsi;
    if rs == [] {
      assert Records([]) == [] by { NoRecords(); }
    } else {
      EmitAppend([rs[0]], rs[1..]);
      assert rs == [rs[0]] + rs[1..];
      EmitOne(rs[0]);
      RecordsStep(rs[0], EmitAll(rs[1..]));
      ReadOne(rs[0]);
      EmittedReadsBack(rs[1..]);
    }
  }

  lemma NoRecords()
    ensures Records([]) == []
  {
  }

  lemma EmitOne(r: Rec)
    ensures EmitAll([r]) == Stored(r)
  {
    assert [r][..0] == [];
  }

  lemma ReadOne(r: Rec)
    requires Mmsi(r) != 0
    ensures Read(r) == [r]
  {
    assert r[..RECORD] == r;
  }

  // ----------------------------------------------------------- one vessel

  function OfVessel(rs: seq<Rec>, mmsi: nat): seq<Rec> {
    if rs == [] then []
    else OfVessel(rs[..|rs| - 1], mmsi) + if Mmsi(rs[|rs| - 1]) == mmsi then [rs[|rs| - 1]] else []
  }

  lemma {:induction false} OfVesselHas(rs: seq<Rec>, mmsi: nat)
    ensures forall r :: r in OfVessel(rs, mmsi) <==> r in rs && Mmsi(r) == mmsi
    decreases |rs|
  {
    hide Mmsi;
    if rs != [] {
      OfVesselHas(rs[..|rs| - 1], mmsi);
      assert rs == rs[..|rs| - 1] + [rs[|rs| - 1]];
    }
  }

  lemma OfVesselNext(rs: seq<Rec>, r: Rec, mmsi: nat)
    ensures OfVessel(rs + [r], mmsi) == OfVessel(rs, mmsi) + if Mmsi(r) == mmsi then [r] else []
  {
    hide Mmsi;
    assert (rs + [r])[..|rs|] == rs;
  }

  function Vessel(body: seq<Byte>, mmsi: nat): seq<Byte> {
    EmitAll(OfVessel(Records(body), mmsi))
  }

  lemma {:induction false} RecordsHaveMmsi(body: seq<Byte>)
    ensures forall r :: r in Records(body) ==> Mmsi(r) != 0
    decreases |body|
  {
    hide Mmsi, Le;
    if |body| >= 4 && 4 + Le(body[..4]) <= |body| {
      RecordsHaveMmsi(body[4 + Le(body[..4])..]);
    }
  }

  /** A vessel's history holds exactly its records, in the order of the log, in the current layout. */
  lemma {:induction false} VesselReadsBack(body: seq<Byte>, mmsi: nat)
    ensures Records(Vessel(body, mmsi)) == OfVessel(Records(body), mmsi)
  {
    hide Records, Mmsi;
    RecordsHaveMmsi(body);
    OfVesselHas(Records(body), mmsi);
    EmittedReadsBack(OfVessel(Records(body), mmsi));
  }
}
