/** How sightings are printed on a line and read back. */
module SightingJson {
  import opened Prelude
  import opened JsonText
  import opened JsonRecords
  import opened JsonFiles
  import opened SignalRecords

  datatype SightingKey = Sid | File | Reporter | Station | FMhz | BwKhz | Mod | Proto | Target
                       | Op | Tags | Start | Dur | Euid | Status

  function SightingKeys(): seq<SightingKey> {
    [Sid, File, Reporter, Station, FMhz, BwKhz, Mod, Proto, Target, Op, Tags, Start, Dur, Euid, Status]
  }

  function SightingText(k: SightingKey): string {
    match k
    case Sid => "sid"
    case File => "file"
    case Reporter => "reporter"
    case Station => "station"
    case FMhz => "f_mhz"
    case BwKhz => "bw_khz"
    case Mod => "mod"
    case Proto => "proto"
    case Target => "target"
    case Op => "op"
    case Tags => "tags"
    case Start => "start"
    case Dur => "dur"
    case Euid => "euid"
    case Status => "status"
  }

  function GetSighting(x: Sighting<FloatText>, k: SightingKey): Value {
    match k
    case Sid => Str(x.sightingId)
    case File => Str(x.filename)
    case Reporter => Str(x.reporter)
    case Station => Str(x.station)
    case FMhz => Num(x.freqMhz)
    case BwKhz => Num(x.bwKhz)
    case Mod => Str(x.modulation)
    case Proto => Str(x.protocol)
    case Target => Str(x.target)
    case Op => Str(x.operatorName)
    case Tags => Str(x.tags)
    case Start => Int(x.startUtc)
    case Dur => Int(x.durationS)
    case Euid => Str(x.emitterUid)
    case Status => Int(x.matchStatus)
  }

  function SightingKeyKind(k: SightingKey): Kind {
    match k
    case FMhz => KNum
    case BwKhz => KNum
    case Start => KInt
    case Dur => KInt
    case Status => KInt
    case _ => KStr
  }

  function PutSighting(x: Sighting<FloatText>, k: SightingKey, v: Value): Sighting<FloatText> {
    if !Matches(SightingKeyKind(k), v) then x
    else match k
      case Sid => x.(sightingId := v.s)
      case File => x.(filename := v.s)
      case Reporter => x.(reporter := v.s)
      case Station => x.(station := v.s)
      case FMhz => x.(freqMhz := v.text)
      case BwKhz => x.(bwKhz := v.text)
      case Mod => x.(modulation := v.s)
      case Proto => x.(protocol := v.s)
      case Target => x.(target := v.s)
      case Op => x.(operatorName := v.s)
      case Tags => x.(tags := v.s)
      case Start => x.(startUtc := v.v)
      case Dur => x.(durationS := ToUint32(v.v))
      case Euid => x.(emitterUid := v.s)
      case Status => x.(matchStatus := ToUint8(v.v))
  }

  predicate SightingFits(k: SightingKey, v: Value) {
    Matches(SightingKeyKind(k), v) && (k == Dur ==> 0 <= v.v < 0x1_0000_0000) && (k == Status ==> 0 <= v.v < 0x100)
  }

  function SightingSchema(): Schema<Sighting<FloatText>, SightingKey> {
    Schema(SightingKeys(), SightingText, SightingKeyKind, GetSighting, PutSighting, SightingFits)
  }

  /** A line of index.jsonl. */
  function SightingLine(x: Sighting<FloatText>): string {
    Line(SightingSchema(), x)
  }

  function SightingId(x: Sighting<FloatText>): string {
    x.sightingId
  }

  const NO_SIGHTING: Sighting<FloatText> :=
    Sighting("", "", "", "", "0", "0", "", "", "", "", "", 0, 0, "", MS_PENDING)

  /** Reading such a line: a record without an id is refused. */
  function ParseSighting(line: string): Option<Sighting<FloatText>> {
    ParseKeyed(SightingSchema(), SightingId, NO_SIGHTING, line)
  }

  lemma SightingKeysComplete()
    ensures forall k :: k in SightingKeys()
    ensures Distinct(SightingKeys())
  {
    forall k
      ensures k in SightingKeys()
    {
      SightingKeyIsListed(k);
    }
  }

  lemma SightingKeyIsListed(k: SightingKey)
    ensures k in SightingKeys()
  {
    var ks := SightingKeys();
    match k
    case Sid => assert ks[0] == k;
    case File => assert ks[1] == k;
    case Reporter => assert ks[2] == k;
    case Station => assert ks[3] == k;
    case FMhz => assert ks[4] == k;
    case BwKhz => assert ks[5] == k;
    case Mod => assert ks[6] == k;
    case Proto => assert ks[7] == k;
    case Target => assert ks[8] == k;
    case Op => assert ks[9] == k;
    case Tags => assert ks[10] == k;
    case Start => assert ks[11] == k;
    case Dur => assert ks[12] == k;
    case Euid => assert ks[13] == k;
    case Status => assert ks[14] == k;
  }

  lemma SightingTextInjective(k: SightingKey, m: SightingKey)
    requires SightingText(k) == SightingText(m)
    ensures k == m
  {
  }

  lemma SightingGetPut(r: Sighting<FloatText>, k: SightingKey, v: Value)
    requires SightingFits(k, v)
    ensures GetSighting(PutSighting(r, k, v), k) == v
  {
  }

  lemma SightingGetOther(r: Sighting<FloatText>, k: SightingKey, v: Value, m: SightingKey)
    requires m != k
    ensures GetSighting(PutSighting(r, k, v), m) == GetSighting(r, m)
  {
  }

  lemma SightingSchemaValid()
    ensures ValidSchema(SightingSchema())
  {
    hide SightingText, GetSighting, PutSighting, SightingFits, SightingKeys, SightingKeyKind, Matches, IsPlain;
    SightingKeysComplete();
    var sc := SightingSchema();
    forall k, m | sc.text(k) == sc.text(m)
      ensures k == m
    {
      SightingTextInjective(k, m);
    }
    forall k
      ensures IsPlain(sc.text(k))
    {
      SightingTextPlain(k);
    }
    forall r, k
      ensures Matches(sc.kind(k), sc.get(r, k))
    {
      SightingMatches(r, k);
    }
    forall r, k, v | sc.fits(k, v)
      ensures sc.get(sc.put(r, k, v), k) == v
    {
      SightingGetPut(r, k, v);
    }
    forall r, k, v, m | m != k
      ensures sc.get(sc.put(r, k, v), m) == sc.get(r, m)
    {
      SightingGetOther(r, k, v, m);
    }
  }

  lemma SightingMatches(x: Sighting<FloatText>, k: SightingKey)
    ensures Matches(SightingKeyKind(k), GetSighting(x, k))
  {
  }

  lemma SightingAgreesFirst(a: Sighting<FloatText>, b: Sighting<FloatText>)
    requires forall k :: GetSighting(a, k) == GetSighting(b, k)
    ensures a.sightingId == b.sightingId && a.filename == b.filename
    ensures a.reporter == b.reporter && a.station == b.station
    ensures a.freqMhz == b.freqMhz && a.bwKhz == b.bwKhz && a.modulation == b.modulation
  {
    assert GetSighting(a, Sid) == GetSighting(b, Sid);
    assert GetSighting(a, File) == GetSighting(b, File);
    assert GetSighting(a, Reporter) == GetSighting(b, Reporter);
    assert GetSighting(a, Station) == GetSighting(b, Station);
    assert GetSighting(a, FMhz) == GetSighting(b, FMhz);
    assert GetSighting(a, BwKhz) == GetSighting(b, BwKhz);
    assert GetSighting(a, Mod) == GetSighting(b, Mod);
  }

  lemma SightingAgreesLast(a: Sighting<FloatText>, b: Sighting<FloatText>)
    requires forall k :: GetSighting(a, k) == GetSighting(b, k)
    ensures a.protocol == b.protocol && a.target == b.target && a.operatorName == b.operatorName && a.tags == b.tags
    ensures a.startUtc == b.startUtc && a.durationS == b.durationS
    ensures a.emitterUid == b.emitterUid && a.matchStatus == b.matchStatus
  {
    assert GetSighting(a, Proto) == GetSighting(b, Proto);
    assert GetSighting(a, Target) == GetSighting(b, Target);
    assert GetSighting(a, Op) == GetSighting(b, Op);
    assert GetSighting(a, Tags) == GetSighting(b, Tags);
    assert GetSighting(a, Start) == GetSighting(b, Start);
    assert GetSighting(a, Dur) == GetSighting(b, Dur);
    assert GetSighting(a, Euid) == GetSighting(b, Euid);
    assert GetSighting(a, Status) == GetSighting(b, Status);
  }

  lemma SightingAgrees(a: Sighting<FloatText>, b: Sighting<FloatText>)
    requires forall k :: GetSighting(a, k) == GetSighting(b, k)
    ensures a == b
  {
    hide GetSighting;
    SightingAgreesFirst(a, b);
    SightingAgreesLast(a, b);
  }

  predicate FiniteSighting(x: Sighting<FloatText>) {
    IsNumberText(x.freqMhz) && IsNumberText(x.bwKhz)
  }

  /** x with its start time rounded to a double. */
  function RoundedSighting(x: Sighting<FloatText>): Sighting<FloatText> {
    x.(startUtc := KeptInt(x.startUtc))
  }

  lemma {:induction false} RoundedValue(x: Sighting<FloatText>, k: SightingKey)
    ensures Kept(GetSighting(x, k)) == GetSighting(RoundedSighting(x), k)
    ensures SightingFits(k, Kept(GetSighting(x, k)))
  {
    hide NumberToInt64, Decimal;
    SmallIntegersSurvive(x.durationS);
    SmallIntegersSurvive(x.matchStatus);
  }

  lemma SightingTextPlain(k: SightingKey)
    ensures IsPlain(SightingText(k))
  {
  }

  lemma SightingFinite(x: Sighting<FloatText>)
    ensures FiniteSighting(x) <==> forall k :: IsFinite(GetSighting(x, k))
  {
    assert GetSighting(x, FMhz) == Num(x.freqMhz);
    assert GetSighting(x, BwKhz) == Num(x.bwKhz);
  }

  /**
   * A printed sighting reads back as itself with its start time rounded to a double; it is lost
   * exactly when it has no id or a float that is not finite.
   */
  lemma {:induction false} SightingRoundTrip(x: Sighting<FloatText>)
    ensures ParseSighting(SightingLine(x)) ==
      if x.sightingId != "" && FiniteSighting(x) then Some(RoundedSighting(x)) else None
  {
    hide ReadRecord, Line, ValidSchema, GetSighting, Kept, SightingFits, RoundedSighting, FiniteSighting;
    var sc := SightingSchema();
    SightingSchemaValid();
    SightingFinite(x);
    forall k
      ensures sc.fits(k, Kept(sc.get(x, k))) && Kept(sc.get(x, k)) == GetSighting(RoundedSighting(x), k)
    {
      RoundedValue(x, k);
    }
    TableRoundTrip(sc, x, NO_SIGHTING);
    var r := ReadRecord(sc, SightingLine(x), NO_SIGHTING);
    if FiniteSighting(x) {
      SightingAgrees(r.value, RoundedSighting(x));
      RoundedId(x);
    }
  }

  lemma RoundedId(x: Sighting<FloatText>)
    ensures RoundedSighting(x).sightingId == x.sightingId
  {
  }

  /** It reads back as itself exactly when, in addition, its start time is a double. */
  lemma SightingSurvives(x: Sighting<FloatText>)
    ensures ParseSighting(SightingLine(x)) == Some(x) <==>
      && x.sightingId != "" && FiniteSighting(x)
      && IsDouble(Magnitude(x.startUtc))
  {
    hide ParseSighting, SightingLine, NumberToInt64, Decimal, IsDouble, Magnitude;
    SightingRoundTrip(x);
    IntegerRoundTrip(x.startUtc);
  }

  /** What a line leaves out has its default. */
  lemma {:induction false} OnlySid(id: string)
    requires id != ""
    ensures var r: Sighting<FloatText> := Sighting(id, "", "", "", "0", "0", "", "", "", "", "", 0, 0, "", 2);
            ParseSighting("{" + StrField("sid", id) + "}") == Some(r)
  {
    hide ReadRecord, ShowRecord, ShowField, StrField, Schema.KindOf, Schema.Set, SightingText, SightingKeys,
         ValidSchema, Matches;
    var sc, x := SightingSchema(), Str(id);
    SightingSchemaValid();
    SetIsPut(sc, NO_SIGHTING, Sid, x);
    TextSid();
    var fs := [Field("sid", x)];
    RecordRoundTrip(sc, fs, NO_SIGHTING);
    SetOne(sc, NO_SIGHTING, fs[0]);
    FieldIs("sid");
    ShownAlone(fs[0]);
  }

  lemma TextSid()
    ensures SightingText(Sid) == "sid" && forall s: string :: Matches(KStr, Str(s))
  {
  }

  lemma FirstSightingFields(x: Sighting<FloatText>)
    ensures var fs := Fields(SightingSchema(), SightingKeys(), x);
            && ShowField(fs[0]) == StrField("sid", x.sightingId)
            && ShowField(fs[1]) == StrField("file", x.filename)
            && ShowField(fs[2]) == StrField("reporter", x.reporter)
            && ShowField(fs[3]) == StrField("station", x.station)
  {
    hide ShowField, StrField, NumField, ListField, Escaped, Decimal;
    FieldIs("sid");
    FieldIs("file");
    FieldIs("reporter");
    FieldIs("station");
  }

  lemma SecondSightingFields(x: Sighting<FloatText>)
    ensures var fs := Fields(SightingSchema(), SightingKeys(), x);
            && ShowField(fs[4]) == NumField("f_mhz", x.freqMhz)
            && ShowField(fs[5]) == NumField("bw_khz", x.bwKhz)
            && ShowField(fs[6]) == StrField("mod", x.modulation)
            && ShowField(fs[7]) == StrField("proto", x.protocol)
  {
    hide ShowField, StrField, NumField, ListField, Escaped, Decimal;
    FieldIs("f_mhz");
    FieldIs("bw_khz");
    FieldIs("mod");
    FieldIs("proto");
  }

  lemma ThirdSightingFields(x: Sighting<FloatText>)
    ensures var fs := Fields(SightingSchema(), SightingKeys(), x);
            && ShowField(fs[8]) == StrField("target", x.target)
            && ShowField(fs[9]) == StrField("op", x.operatorName)
            && ShowField(fs[10]) == StrField("tags", x.tags)
            && ShowField(fs[11]) == NumField("start", Decimal(x.startUtc))
  {
    hide ShowField, StrField, NumField, ListField, Escaped, Decimal;
    FieldIs("target");
    FieldIs("op");
    FieldIs("tags");
    FieldIs("start");
  }

  lemma LastSightingFields(x: Sighting<FloatText>)
    ensures var fs := Fields(SightingSchema(), SightingKeys(), x);
            && ShowField(fs[12]) == NumField("dur", Decimal(x.durationS))
            && ShowField(fs[13]) == StrField("euid", x.emitterUid)
            && ShowField(fs[14]) == NumField("status", Decimal(x.matchStatus))
  {
    hide ShowField, StrField, NumField, ListField, Escaped, Decimal;
    FieldIs("dur");
    FieldIs("euid");
    FieldIs("status");
  }

  lemma ListedSighting(x: Sighting<FloatText>)
    ensures |Fields(SightingSchema(), SightingKeys(), x)| == 15
  {
  }

  /** The printed line, field by field. */
  lemma {:induction false} SightingLineIs(x: Sighting<FloatText>)
    ensures SightingLine(x) == "{" + Commas([
      StrField("sid", x.sightingId), StrField("file", x.filename), StrField("reporter", x.reporter),
      StrField("station", x.station), NumField("f_mhz", x.freqMhz), NumField("bw_khz", x.bwKhz),
      StrField("mod", x.modulation), StrField("proto", x.protocol), StrField("target", x.target),
      StrField("op", x.operatorName), StrField("tags", x.tags), NumField("start", Decimal(x.startUtc)),
      NumField("dur", Decimal(x.durationS)), StrField("euid", x.emitterUid),
      NumField("status", Decimal(x.matchStatus))]) + "}"
  {
    hide ShowField, ShowRecord, Commas, StrField, NumField, ListField, Decimal, SightingKeys;
    var fs := Fields(SightingSchema(), SightingKeys(), x);
    ListedSighting(x);
    FirstSightingFields(x);
    SecondSightingFields(x);
    ThirdSightingFields(x);
    LastSightingFields(x);
    hide Fields;
    FieldsJoined(fs, [
      StrField("sid", x.sightingId), StrField("file", x.filename), StrField("reporter", x.reporter),
      StrField("station", x.station), NumField("f_mhz", x.freqMhz), NumField("bw_khz", x.bwKhz),
      StrField("mod", x.modulation), StrField("proto", x.protocol), StrField("target", x.target),
      StrField("op", x.operatorName), StrField("tags", x.tags), NumField("start", Decimal(x.startUtc)),
      NumField("dur", Decimal(x.durationS)), StrField("euid", x.emitterUid),
      NumField("status", Decimal(x.matchStatus))]);
  }

  method PrintIdentity(p: Printer, x: Sighting<FloatText>)
    requires p.Valid() && p.fields == Fields(SightingSchema(), SightingKeys()[..0], x)
    modifies p
    ensures p.Valid() && p.fields == Fields(SightingSchema(), SightingKeys()[..4], x)
  {
    hide Fields, Printer.Valid;
    ghost var sc, ks := SightingSchema(), SightingKeys();
    p.AddStr("sid", x.sightingId);
    FieldsStep(sc, ks, x, 0, Field("sid", Str(x.sightingId)));
    p.AddStr("file", x.filename);
    FieldsStep(sc, ks, x, 1, Field("file", Str(x.filename)));
    p.AddStr("reporter", x.reporter);
    FieldsStep(sc, ks, x, 2, Field("reporter", Str(x.reporter)));
    p.AddStr("station", x.station);
    FieldsStep(sc, ks, x, 3, Field("station", Str(x.station)));
  }

  method PrintSignal(p: Printer, x: Sighting<FloatText>)
    requires p.Valid() && p.fields == Fields(SightingSchema(), SightingKeys()[..4], x)
    modifies p
    ensures p.Valid() && p.fields == Fields(SightingSchema(), SightingKeys()[..8], x)
  {
    hide Fields, Printer.Valid;
    ghost var sc, ks := SightingSchema(), SightingKeys();
    p.AddNum("f_mhz", x.freqMhz);
    FieldsStep(sc, ks, x, 4, Field("f_mhz", Num(x.freqMhz)));
    p.AddNum("bw_khz", x.bwKhz);
    FieldsStep(sc, ks, x, 5, Field("bw_khz", Num(x.bwKhz)));
    p.AddStr("mod", x.modulation);
    FieldsStep(sc, ks, x, 6, Field("mod", Str(x.modulation)));
    p.AddStr("proto", x.protocol);
    FieldsStep(sc, ks, x, 7, Field("proto", Str(x.protocol)));
  }

  method PrintTexts(p: Printer, x: Sighting<FloatText>)
    requires p.Valid() && p.fields == Fields(SightingSchema(), SightingKeys()[..8], x)
    modifies p
    ensures p.Valid() && p.fields == Fields(SightingSchema(), SightingKeys()[..11], x)
  {
    hide Fields, Printer.Valid;
    ghost var sc, ks := SightingSchema(), SightingKeys();
    p.AddStr("target", x.target);
    FieldsStep(sc, ks, x, 8, Field("target", Str(x.target)));
    p.AddStr("op", x.operatorName);
    FieldsStep(sc, ks, x, 9, Field("op", Str(x.operatorName)));
    p.AddStr("tags", x.tags);
    FieldsStep(sc, ks, x, 10, Field("tags", Str(x.tags)));
  }

  method PrintLinks(p: Printer, x: Sighting<FloatText>)
    requires p.Valid() && p.fields == Fields(SightingSchema(), SightingKeys()[..11], x)
    modifies p
    ensures p.Valid() && p.fields == Fields(SightingSchema(), SightingKeys()[..15], x)
  {
    hide Fields, Printer.Valid;
    ghost var sc, ks := SightingSchema(), SightingKeys();
    p.AddInt("start", x.startUtc);
    FieldsStep(sc, ks, x, 11, Field("start", Int(x.startUtc)));
    p.AddInt("dur", x.durationS);
    FieldsStep(sc, ks, x, 12, Field("dur", Int(x.durationS)));
    p.AddStr("euid", x.emitterUid);
    FieldsStep(sc, ks, x, 13, Field("euid", Str(x.emitterUid)));
    p.AddInt("status", x.matchStatus);
    FieldsStep(sc, ks, x, 14, Field("status", Int(x.matchStatus)));
  }

  /** Prints a sighting, field by field. */
  method SightingToJsonl(x: Sighting<FloatText>) returns (line: string)
    ensures line == SightingLine(x)
  {
    hide ShowRecord, Fields, Printer.Valid;
    var p := new Printer();
    NoFields(SightingSchema(), SightingKeys(), x);
    PrintIdentity(p, x);
    PrintSignal(p, x);
    PrintTexts(p, x);
    PrintLinks(p, x);
    line := p.Close();
    assert SightingKeys()[..15] == SightingKeys();
  }

  method SightingFromJsonl(line: string) returns (res: Option<Sighting<FloatText>>)
    ensures res == ParseSighting(line)
  {
    res := ParseLine(SightingSchema(), line, NO_SIGHTING);
    if res.Some? && res.value.sightingId == "" {
      res := None;
    }
  }

  lemma {:induction false} SightingLineIsOneLine(x: Sighting<FloatText>)
    ensures '\n' !in SightingLine(x)
  {
    hide Matches;
    SightingSchemaValid();
    FieldsWellFormed(SightingSchema(), x);
    RecordIsOneLine(SightingSchema(), Fields(SightingSchema(), SightingKeys(), x));
  }

  /** What becomes of a sighting that is saved and loaded. */
  function RereadSighting(x: Sighting<FloatText>): Option<Sighting<FloatText>> {
    if x.sightingId != "" && FiniteSighting(x) then Some(RoundedSighting(x)) else None
  }

  /**
   * Loading a saved sighting file rebuilds the map, in whatever order it was written: every sighting with an
   * id and finite floats is back, its 64-bit times rounded to doubles, and nothing else is.
   */
  lemma {:induction false} SightingFileRoundTrip(rs: seq<Sighting<FloatText>>, m: map<string, Sighting<FloatText>>)
    requires Enumerates(rs, m, SightingId)
    ensures LoadLines(ParseSighting, SightingId, Lines(SaveLines(SightingLine, rs)), map[]) ==
      map k | k in m && RereadSighting(m[k]).Some? :: RereadSighting(m[k]).value
  {
    hide ParseSighting, SightingLine, FiniteSighting;
    forall r | r in rs
      ensures '\n' !in SightingLine(r) && ParseSighting(SightingLine(r)) == RereadSighting(r)
    {
      SightingLineIsOneLine(r);
      SightingRoundTrip(r);
    }
    FileRoundTrip(SightingLine, ParseSighting, SightingId, RereadSighting, rs, m);
  }
}
