/** How emitters are printed on a line and read back. */
module EmitterJson {
  import opened Prelude
  import opened JsonText
  import opened JsonRecords
  import opened JsonFiles
  import opened SignalRecords

  datatype EmitterKey = Uid | Name | FMhz | TolKhz | BwKhz | Mod | Proto | TagsId | First | Last | Count | Stations
                      | Notes | Members | Creator | Created

  function EmitterKeys(): seq<EmitterKey> {
    [Uid, Name, FMhz, TolKhz, BwKhz, Mod, Proto, TagsId, First, Last, Count, Stations, Notes, Members, Creator, Created]
  }

  function EmitterText(k: EmitterKey): string {
    match k
    case Uid => "uid"
    case Name => "name"
    case FMhz => "f_mhz"
    case TolKhz => "tol_khz"
    case BwKhz => "bw_khz"
    case Mod => "mod"
    case Proto => "proto"
    case TagsId => "tags_id"
    case First => "first"
    case Last => "last"
    case Count => "count"
    case Stations => "stations"
    case Notes => "notes"
    case Members => "members"
    case Creator => "creator"
    case Created => "created"
  }

  function GetEmitter(e: Emitter<FloatText>, k: EmitterKey): Value {
    match k
    case Uid => Str(e.emitterUid)
    case Name => Str(e.displayName)
    case FMhz => Num(e.freqCenterMhz)
    case TolKhz => Num(e.freqToleranceKhz)
    case BwKhz => Num(e.bwKhz)
    case Mod => Str(e.modulation)
    case Proto => Str(e.protocol)
    case TagsId => Str(e.tagsId)
    case First => Int(e.firstSeenUtc)
    case Last => Int(e.lastSeenUtc)
    case Count => Int(e.sightingCount)
    case Stations => Arr(e.contributingStations)
    case Notes => Str(e.operatorNotes)
    case Members => Arr(e.memberSightingIds)
    case Creator => Str(e.createdBy)
    case Created => Int(e.createdUtc)
  }

  function EmitterKeyKind(k: EmitterKey): Kind {
    match k
    case FMhz => KNum
    case TolKhz => KNum
    case BwKhz => KNum
    case First => KInt
    case Last => KInt
    case Count => KInt
    case Created => KInt
    case Stations => KArr
    case Members => KArr
    case _ => KStr
  }

  function PutEmitter(e: Emitter<FloatText>, k: EmitterKey, v: Value): Emitter<FloatText> {
    if !Matches(EmitterKeyKind(k), v) then e
    else match k
      case Uid => e.(emitterUid := v.s)
      case Name => e.(displayName := v.s)
      case FMhz => e.(freqCenterMhz := v.text)
      case TolKhz => e.(freqToleranceKhz := v.text)
      case BwKhz => e.(bwKhz := v.text)
      case Mod => e.(modulation := v.s)
      case Proto => e.(protocol := v.s)
      case TagsId => e.(tagsId := v.s)
      case First => e.(firstSeenUtc := v.v)
      case Last => e.(lastSeenUtc := v.v)
      case Count => e.(sightingCount := ToUint32(v.v))
      case Stations => e.(contributingStations := v.list)
      case Notes => e.(operatorNotes := v.s)
      case Members => e.(memberSightingIds := v.list)
      case Creator => e.(createdBy := v.s)
      case Created => e.(createdUtc := v.v)
  }

  predicate EmitterFits(k: EmitterKey, v: Value) {
    Matches(EmitterKeyKind(k), v) && (k == Count ==> 0 <= v.v < 0x1_0000_0000)
  }

  function EmitterSchema(): Schema<Emitter<FloatText>, EmitterKey> {
    Schema(EmitterKeys(), EmitterText, EmitterKeyKind, GetEmitter, PutEmitter, EmitterFits)
  }

  /** A line of emitters.jsonl. */
  function EmitterLine(e: Emitter<FloatText>): string {
    Line(EmitterSchema(), e)
  }

  function EmitterId(e: Emitter<FloatText>): string {
    e.emitterUid
  }

  const NO_EMITTER: Emitter<FloatText> :=
    Emitter("", "", "0", "1", "0", "", "", "", 0, 0, 0, [], "", [], "", 0)

  /** Reading such a line: a record without a uid is refused. */
  function ParseEmitter(line: string): Option<Emitter<FloatText>> {
    ParseKeyed(EmitterSchema(), EmitterId, NO_EMITTER, line)
  }

  lemma EmitterKeysComplete()
    ensures forall k :: k in EmitterKeys()
    ensures Distinct(EmitterKeys())
  {
    forall k
      ensures k in EmitterKeys()
    {
      EmitterKeyIsListed(k);
    }
  }

  lemma EmitterKeyIsListed(k: EmitterKey)
    ensures k in EmitterKeys()
  {
    var ks := EmitterKeys();
    match k
    case Uid => assert ks[0] == k;
    case Name => assert ks[1] == k;
    case FMhz => assert ks[2] == k;
    case TolKhz => assert ks[3] == k;
    case BwKhz => assert ks[4] == k;
    case Mod => assert ks[5] == k;
    case Proto => assert ks[6] == k;
    case TagsId => assert ks[7] == k;
    case First => assert ks[8] == k;
    case Last => assert ks[9] == k;
    case Count => assert ks[10] == k;
    case Stations => assert ks[11] == k;
    case Notes => assert ks[12] == k;
    case Members => assert ks[13] == k;
    case Creator => assert ks[14] == k;
    case Created => assert ks[15] == k;
  }

  lemma EmitterTextInjective(k: EmitterKey, m: EmitterKey)
    requires EmitterText(k) == EmitterText(m)
    ensures k == m
  {
  }

  lemma EmitterGetPut(r: Emitter<FloatText>, k: EmitterKey, v: Value)
    requires EmitterFits(k, v)
    ensures GetEmitter(PutEmitter(r, k, v), k) == v
  {
  }

  lemma EmitterGetOther(r: Emitter<FloatText>, k: EmitterKey, v: Value, m: EmitterKey)
    requires m != k
    ensures GetEmitter(PutEmitter(r, k, v), m) == GetEmitter(r, m)
  {
  }

  lemma EmitterSchemaValid()
    ensures ValidSchema(EmitterSchema())
  {
    hide EmitterText, GetEmitter, PutEmitter, EmitterFits, EmitterKeys, EmitterKeyKind, Matches, IsPlain;
    EmitterKeysComplete();
    var sc := EmitterSchema();
    forall k, m | sc.text(k) == sc.text(m)
      ensures k == m
    {
      EmitterTextInjective(k, m);
    }
    forall k
      ensures IsPlain(sc.text(k))
    {
      EmitterTextPlain(k);
    }
    forall r, k
      ensures Matches(sc.kind(k), sc.get(r, k))
    {
      EmitterMatches(r, k);
    }
    forall r, k, v | sc.fits(k, v)
      ensures sc.get(sc.put(r, k, v), k) == v
    {
      EmitterGetPut(r, k, v);
    }
    forall r, k, v, m | m != k
      ensures sc.get(sc.put(r, k, v), m) == sc.get(r, m)
    {
      EmitterGetOther(r, k, v, m);
    }
  }

  lemma EmitterMatches(e: Emitter<FloatText>, k: EmitterKey)
    ensures Matches(EmitterKeyKind(k), GetEmitter(e, k))
  {
  }

  lemma EmitterAgreesFirst(a: Emitter<FloatText>, b: Emitter<FloatText>)
    requires forall k :: GetEmitter(a, k) == GetEmitter(b, k)
    ensures a.emitterUid == b.emitterUid && a.displayName == b.displayName
    ensures a.freqCenterMhz == b.freqCenterMhz && a.freqToleranceKhz == b.freqToleranceKhz
    ensures a.bwKhz == b.bwKhz && a.modulation == b.modulation && a.protocol == b.protocol && a.tagsId == b.tagsId
  {
    assert GetEmitter(a, Uid) == GetEmitter(b, Uid);
    assert GetEmitter(a, Name) == GetEmitter(b, Name);
    assert GetEmitter(a, FMhz) == GetEmitter(b, FMhz);
    assert GetEmitter(a, TolKhz) == GetEmitter(b, TolKhz);
    assert GetEmitter(a, BwKhz) == GetEmitter(b, BwKhz);
    assert GetEmitter(a, Mod) == GetEmitter(b, Mod);
    assert GetEmitter(a, Proto) == GetEmitter(b, Proto);
    assert GetEmitter(a, TagsId) == GetEmitter(b, TagsId);
  }

  lemma EmitterAgreesLast(a: Emitter<FloatText>, b: Emitter<FloatText>)
    requires forall k :: GetEmitter(a, k) == GetEmitter(b, k)
    ensures a.firstSeenUtc == b.firstSeenUtc && a.lastSeenUtc == b.lastSeenUtc && a.sightingCount == b.sightingCount
    ensures a.createdBy == b.createdBy && a.createdUtc == b.createdUtc
  {
    assert GetEmitter(a, First) == GetEmitter(b, First);
    assert GetEmitter(a, Last) == GetEmitter(b, Last);
    assert GetEmitter(a, Count) == GetEmitter(b, Count);
    assert GetEmitter(a, Creator) == GetEmitter(b, Creator);
    assert GetEmitter(a, Created) == GetEmitter(b, Created);
  }

  lemma EmitterAgreesLists(a: Emitter<FloatText>, b: Emitter<FloatText>)
    requires forall k :: GetEmitter(a, k) == GetEmitter(b, k)
    ensures a.contributingStations == b.contributingStations && a.operatorNotes == b.operatorNotes
    ensures a.memberSightingIds == b.memberSightingIds
  {
    assert GetEmitter(a, Stations) == GetEmitter(b, Stations);
    assert GetEmitter(a, Notes) == GetEmitter(b, Notes);
    assert GetEmitter(a, Members) == GetEmitter(b, Members);
  }

  lemma EmitterAgrees(a: Emitter<FloatText>, b: Emitter<FloatText>)
    requires forall k :: GetEmitter(a, k) == GetEmitter(b, k)
    ensures a == b
  {
    hide GetEmitter;
    EmitterAgreesFirst(a, b);
    EmitterAgreesLists(a, b);
    EmitterAgreesLast(a, b);
  }

  predicate FiniteEmitter(e: Emitter<FloatText>) {
    IsNumberText(e.freqCenterMhz) && IsNumberText(e.freqToleranceKhz) && IsNumberText(e.bwKhz)
  }

  /** e with its 64-bit fields rounded to doubles. */
  function RoundedEmitter(e: Emitter<FloatText>): Emitter<FloatText> {
    e.(firstSeenUtc := KeptInt(e.firstSeenUtc), lastSeenUtc := KeptInt(e.lastSeenUtc),
       createdUtc := KeptInt(e.createdUtc))
  }

  lemma {:induction false} RoundedValue(e: Emitter<FloatText>, k: EmitterKey)
    ensures Kept(GetEmitter(e, k)) == GetEmitter(RoundedEmitter(e), k)
    ensures EmitterFits(k, Kept(GetEmitter(e, k)))
  {
    hide NumberToInt64, Decimal;
    SmallIntegersSurvive(e.sightingCount);
  }

  lemma EmitterTextPlain(k: EmitterKey)
    ensures IsPlain(EmitterText(k))
  {
  }

  lemma EmitterFinite(e: Emitter<FloatText>)
    ensures FiniteEmitter(e) <==> forall k :: IsFinite(GetEmitter(e, k))
  {
    assert GetEmitter(e, FMhz) == Num(e.freqCenterMhz);
    assert GetEmitter(e, TolKhz) == Num(e.freqToleranceKhz);
    assert GetEmitter(e, BwKhz) == Num(e.bwKhz);
  }

  /**
   * A printed emitter reads back as itself with its 64-bit times rounded to doubles; it is lost
   * exactly when it has no uid or a float that is not finite.
   */
  lemma {:induction false} EmitterRoundTrip(e: Emitter<FloatText>)
    ensures ParseEmitter(EmitterLine(e)) ==
      if e.emitterUid != "" && FiniteEmitter(e) then Some(RoundedEmitter(e)) else None
  {
    hide ReadRecord, Line, ValidSchema, GetEmitter, Kept, EmitterFits, RoundedEmitter, FiniteEmitter;
    var sc := EmitterSchema();
    EmitterSchemaValid();
    EmitterFinite(e);
    forall k
      ensures sc.fits(k, Kept(sc.get(e, k))) && Kept(sc.get(e, k)) == GetEmitter(RoundedEmitter(e), k)
    {
      RoundedValue(e, k);
    }
    TableRoundTrip(sc, e, NO_EMITTER);
    var r := ReadRecord(sc, EmitterLine(e), NO_EMITTER);
    if FiniteEmitter(e) {
      EmitterAgrees(r.value, RoundedEmitter(e));
      RoundedUid(e);
    }
  }

  lemma RoundedUid(e: Emitter<FloatText>)
    ensures RoundedEmitter(e).emitterUid == e.emitterUid
  {
  }

  /** It reads back as itself exactly when, in addition, its three times are doubles. */
  lemma EmitterSurvives(e: Emitter<FloatText>)
    ensures ParseEmitter(EmitterLine(e)) == Some(e) <==>
      && e.emitterUid != "" && FiniteEmitter(e)
      && IsDouble(Magnitude(e.firstSeenUtc)) && IsDouble(Magnitude(e.lastSeenUtc)) && IsDouble(Magnitude(e.createdUtc))
  {
    hide ParseEmitter, EmitterLine, NumberToInt64, Decimal, IsDouble, Magnitude;
    EmitterRoundTrip(e);
    IntegerRoundTrip(e.firstSeenUtc);
    IntegerRoundTrip(e.lastSeenUtc);
    IntegerRoundTrip(e.createdUtc);
  }

  /** What a line leaves out has its default. */
  lemma {:induction false} OnlyUid(uid: string)
    requires uid != ""
    ensures var r: Emitter<FloatText> := Emitter(uid, "", "0", "1", "0", "", "", "", 0, 0, 0, [], "", [], "", 0);
            ParseEmitter("{" + StrField("uid", uid) + "}") == Some(r)
  {
    hide ReadRecord, ShowRecord, ShowField, StrField, Schema.KindOf, Schema.Set, EmitterText, EmitterKeys,
         ValidSchema, Matches;
    var sc, x := EmitterSchema(), Str(uid);
    EmitterSchemaValid();
    SetIsPut(sc, NO_EMITTER, Uid, x);
    TextUid();
    var fs := [Field("uid", x)];
    RecordRoundTrip(sc, fs, NO_EMITTER);
    SetOne(sc, NO_EMITTER, fs[0]);
    FieldIs("uid");
    ShownAlone(fs[0]);
  }

  lemma TextUid()
    ensures EmitterText(Uid) == "uid" && forall s: string :: Matches(KStr, Str(s))
  {
  }

  lemma FirstEmitterFields(e: Emitter<FloatText>)
    ensures var fs := Fields(EmitterSchema(), EmitterKeys(), e);
            && ShowField(fs[0]) == StrField("uid", e.emitterUid)
            && ShowField(fs[1]) == StrField("name", e.displayName)
            && ShowField(fs[2]) == NumField("f_mhz", e.freqCenterMhz)
            && ShowField(fs[3]) == NumField("tol_khz", e.freqToleranceKhz)
  {
    hide ShowField, StrField, NumField, ListField, Escaped, Decimal;
    FieldIs("uid");
    FieldIs("name");
    FieldIs("f_mhz");
    FieldIs("tol_khz");
  }

  lemma SecondEmitterFields(e: Emitter<FloatText>)
    ensures var fs := Fields(EmitterSchema(), EmitterKeys(), e);
            && ShowField(fs[4]) == NumField("bw_khz", e.bwKhz)
            && ShowField(fs[5]) == StrField("mod", e.modulation)
            && ShowField(fs[6]) == StrField("proto", e.protocol)
            && ShowField(fs[7]) == StrField("tags_id", e.tagsId)
  {
    hide ShowField, StrField, NumField, ListField, Escaped, Decimal;
    FieldIs("bw_khz");
    FieldIs("mod");
    FieldIs("proto");
    FieldIs("tags_id");
  }

  lemma ThirdEmitterFields(e: Emitter<FloatText>)
    ensures var fs := Fields(EmitterSchema(), EmitterKeys(), e);
            && ShowField(fs[8]) == NumField("first", Decimal(e.firstSeenUtc))
            && ShowField(fs[9]) == NumField("last", Decimal(e.lastSeenUtc))
            && ShowField(fs[10]) == NumField("count", Decimal(e.sightingCount))
            && ShowField(fs[11]) == ListField("stations", e.contributingStations)
  {
    hide ShowField, StrField, NumField, ListField, Escaped, Decimal;
    FieldIs("first");
    FieldIs("last");
    FieldIs("count");
    FieldIs("stations");
  }

  lemma LastEmitterFields(e: Emitter<FloatText>)
    ensures var fs := Fields(EmitterSchema(), EmitterKeys(), e);
            && ShowField(fs[12]) == StrField("notes", e.operatorNotes)
            && ShowField(fs[13]) == ListField("members", e.memberSightingIds)
            && ShowField(fs[14]) == StrField("creator", e.createdBy)
            && ShowField(fs[15]) == NumField("created", Decimal(e.createdUtc))
  {
    hide ShowField, StrField, NumField, ListField, Escaped, Decimal;
    FieldIs("notes");
    FieldIs("members");
    FieldIs("creator");
    FieldIs("created");
  }

  lemma ListedEmitter(e: Emitter<FloatText>)
    ensures |Fields(EmitterSchema(), EmitterKeys(), e)| == 16
  {
  }

  /** The printed line, field by field. */
  lemma {:induction false} EmitterLineIs(e: Emitter<FloatText>)
    ensures EmitterLine(e) == "{" + Commas([
      StrField("uid", e.emitterUid), StrField("name", e.displayName), NumField("f_mhz", e.freqCenterMhz),
      NumField("tol_khz", e.freqToleranceKhz), NumField("bw_khz", e.bwKhz), StrField("mod", e.modulation),
      StrField("proto", e.protocol), StrField("tags_id", e.tagsId), NumField("first", Decimal(e.firstSeenUtc)),
      NumField("last", Decimal(e.lastSeenUtc)), NumField("count", Decimal(e.sightingCount)),
      ListField("stations", e.contributingStations), StrField("notes", e.operatorNotes),
      ListField("members", e.memberSightingIds), StrField("creator", e.createdBy),
      NumField("created", Decimal(e.createdUtc))]) + "}"
  {
    hide ShowField, ShowRecord, Commas, StrField, NumField, ListField, Decimal, EmitterKeys;
    var fs := Fields(EmitterSchema(), EmitterKeys(), e);
    ListedEmitter(e);
    FirstEmitterFields(e);
    SecondEmitterFields(e);
    ThirdEmitterFields(e);
    LastEmitterFields(e);
    hide Fields;
    FieldsJoined(fs, [
      StrField("uid", e.emitterUid), StrField("name", e.displayName), NumField("f_mhz", e.freqCenterMhz),
      NumField("tol_khz", e.freqToleranceKhz), NumField("bw_khz", e.bwKhz), StrField("mod", e.modulation),
      StrField("proto", e.protocol), StrField("tags_id", e.tagsId), NumField("first", Decimal(e.firstSeenUtc)),
      NumField("last", Decimal(e.lastSeenUtc)), NumField("count", Decimal(e.sightingCount)),
      ListField("stations", e.contributingStations), StrField("notes", e.operatorNotes),
      ListField("members", e.memberSightingIds), StrField("creator", e.createdBy),
      NumField("created", Decimal(e.createdUtc))]);
  }

  method PrintIdentity(p: Printer, e: Emitter<FloatText>)
    requires p.Valid() && p.fields == Fields(EmitterSchema(), EmitterKeys()[..0], e)
    modifies p
    ensures p.Valid() && p.fields == Fields(EmitterSchema(), EmitterKeys()[..2], e)
  {
    hide Fields, Printer.Valid;
    ghost var sc, ks := EmitterSchema(), EmitterKeys();
    p.AddStr("uid", e.emitterUid);
    FieldsStep(sc, ks, e, 0, Field("uid", Str(e.emitterUid)));
    p.AddStr("name", e.displayName);
    FieldsStep(sc, ks, e, 1, Field("name", Str(e.displayName)));
  }

  method PrintFrequency(p: Printer, e: Emitter<FloatText>)
    requires p.Valid() && p.fields == Fields(EmitterSchema(), EmitterKeys()[..2], e)
    modifies p
    ensures p.Valid() && p.fields == Fields(EmitterSchema(), EmitterKeys()[..5], e)
  {
    hide Fields, Printer.Valid;
    ghost var sc, ks := EmitterSchema(), EmitterKeys();
    p.AddNum("f_mhz", e.freqCenterMhz);
    FieldsStep(sc, ks, e, 2, Field("f_mhz", Num(e.freqCenterMhz)));
    p.AddNum("tol_khz", e.freqToleranceKhz);
    FieldsStep(sc, ks, e, 3, Field("tol_khz", Num(e.freqToleranceKhz)));
    p.AddNum("bw_khz", e.bwKhz);
    FieldsStep(sc, ks, e, 4, Field("bw_khz", Num(e.bwKhz)));
  }

  method PrintDescription(p: Printer, e: Emitter<FloatText>)
    requires p.Valid() && p.fields == Fields(EmitterSchema(), EmitterKeys()[..5], e)
    modifies p
    ensures p.Valid() && p.fields == Fields(EmitterSchema(), EmitterKeys()[..8], e)
  {
    hide Fields, Printer.Valid;
    ghost var sc, ks := EmitterSchema(), EmitterKeys();
    p.AddStr("mod", e.modulation);
    FieldsStep(sc, ks, e, 5, Field("mod", Str(e.modulation)));
    p.AddStr("proto", e.protocol);
    FieldsStep(sc, ks, e, 6, Field("proto", Str(e.protocol)));
    p.AddStr("tags_id", e.tagsId);
    FieldsStep(sc, ks, e, 7, Field("tags_id", Str(e.tagsId)));
  }

  method PrintHistory(p: Printer, e: Emitter<FloatText>)
    requires p.Valid() && p.fields == Fields(EmitterSchema(), EmitterKeys()[..8], e)
    modifies p
    ensures p.Valid() && p.fields == Fields(EmitterSchema(), EmitterKeys()[..12], e)
  {
    hide Fields, Printer.Valid;
    ghost var sc, ks := EmitterSchema(), EmitterKeys();
    p.AddInt("first", e.firstSeenUtc);
    FieldsStep(sc, ks, e, 8, Field("first", Int(e.firstSeenUtc)));
    p.AddInt("last", e.lastSeenUtc);
    FieldsStep(sc, ks, e, 9, Field("last", Int(e.lastSeenUtc)));
    p.AddInt("count", e.sightingCount);
    FieldsStep(sc, ks, e, 10, Field("count", Int(e.sightingCount)));
    p.AddArr("stations", e.contributingStations);
    FieldsStep(sc, ks, e, 11, Field("stations", Arr(e.contributingStations)));
  }

  method PrintMembers(p: Printer, e: Emitter<FloatText>)
    requires p.Valid() && p.fields == Fields(EmitterSchema(), EmitterKeys()[..12], e)
    modifies p
    ensures p.Valid() && p.fields == Fields(EmitterSchema(), EmitterKeys()[..16], e)
  {
    hide Fields, Printer.Valid;
    ghost var sc, ks := EmitterSchema(), EmitterKeys();
    p.AddStr("notes", e.operatorNotes);
    FieldsStep(sc, ks, e, 12, Field("notes", Str(e.operatorNotes)));
    p.AddArr("members", e.memberSightingIds);
    FieldsStep(sc, ks, e, 13, Field("members", Arr(e.memberSightingIds)));
    p.AddStr("creator", e.createdBy);
    FieldsStep(sc, ks, e, 14, Field("creator", Str(e.createdBy)));
    p.AddInt("created", e.createdUtc);
    FieldsStep(sc, ks, e, 15, Field("created", Int(e.createdUtc)));
  }

  /** Prints an emitter, field by field. */
  method EmitterToJsonl(e: Emitter<FloatText>) returns (line: string)
    ensures line == EmitterLine(e)
  {
    hide ShowRecord, Fields, Printer.Valid;
    var p := new Printer();
    NoFields(EmitterSchema(), EmitterKeys(), e);
    PrintIdentity(p, e);
    PrintFrequency(p, e);
    PrintDescription(p, e);
    PrintHistory(p, e);
    PrintMembers(p, e);
    line := p.Close();
    assert EmitterKeys()[..16] == EmitterKeys();
  }

  method EmitterFromJsonl(line: string) returns (res: Option<Emitter<FloatText>>)
    ensures res == ParseEmitter(line)
  {
    res := ParseLine(EmitterSchema(), line, NO_EMITTER);
    if res.Some? && res.value.emitterUid == "" {
      res := None;
    }
  }

  lemma {:induction false} EmitterLineIsOneLine(e: Emitter<FloatText>)
    ensures '\n' !in EmitterLine(e)
  {
    hide Matches;
    EmitterSchemaValid();
    FieldsWellFormed(EmitterSchema(), e);
    RecordIsOneLine(EmitterSchema(), Fields(EmitterSchema(), EmitterKeys(), e));
  }

  /** What becomes of a emitter that is saved and loaded. */
  function RereadEmitter(e: Emitter<FloatText>): Option<Emitter<FloatText>> {
    if e.emitterUid != "" && FiniteEmitter(e) then Some(RoundedEmitter(e)) else None
  }

  /**
   * Loading a saved emitter file rebuilds the map, in whatever order it was written: every emitter with an
   * id and finite floats is back, its 64-bit times rounded to doubles, and nothing else is.
   */
  lemma {:induction false} EmitterFileRoundTrip(rs: seq<Emitter<FloatText>>, m: map<string, Emitter<FloatText>>)
    requires Enumerates(rs, m, EmitterId)
    ensures LoadLines(ParseEmitter, EmitterId, Lines(SaveLines(EmitterLine, rs)), map[]) ==
      map k | k in m && RereadEmitter(m[k]).Some? :: RereadEmitter(m[k]).value
  {
    hide ParseEmitter, EmitterLine, FiniteEmitter;
    forall r | r in rs
      ensures '\n' !in EmitterLine(r) && ParseEmitter(EmitterLine(r)) == RereadEmitter(r)
    {
      EmitterLineIsOneLine(r);
      EmitterRoundTrip(r);
    }
    FileRoundTrip(EmitterLine, ParseEmitter, EmitterId, RereadEmitter, rs, m);
  }
}
