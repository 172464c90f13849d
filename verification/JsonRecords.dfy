/**
 * Records as lists of named values: how one is printed on a line, how a line is read back, and how
 * a file of lines is loaded. The record type, its keys and its update are parameters.
 */
module JsonRecords {
  import opened Prelude
  import opened JsonText

  /** A field value: a string, the text of a float as printf wrote it, an integer, a string list. */
  datatype Value = Absent | Str(s: string) | Num(text: string) | Int(v: int) | Arr(list: seq<string>)

  datatype Kind = KStr | KNum | KInt | KArr | KSkip

  datatype Field = Field(key: string, value: Value)

  /** What "%.6g" prints for infinities and not-a-number. */
  predicate IsNonFinite(t: string) {
    t in ["inf", "-inf", "nan", "-nan"]
  }

  predicate IsFloatText(t: string) {
    IsNumberText(t) || IsNonFinite(t)
  }

  predicate Matches(kind: Kind, v: Value) {
    match v
    case Absent => false
    case Str(_) => kind == KStr
    case Num(t) => kind == KNum && IsFloatText(t)
    case Int(i) => kind == KInt && INT64_MIN <= i <= INT64_MAX
    case Arr(_) => kind == KArr
  }

  ghost predicate Distinct<K>(keys: seq<K>) {
    forall i, j :: 0 <= i < j < |keys| ==> keys[i] != keys[j]
  }

  /** A record type R: its keys in printing order, how each is written, its kind, and access to its value. */
  datatype Schema<!R, !K> = Schema(keys: seq<K>, text: K -> string, kind: K -> Kind, get: (R, K) -> Value,
                                   put: (R, K, Value) -> R, fits: (K, Value) -> bool) {
    function KeyIn(ks: seq<K>, s: string): Option<K> {
      if ks == [] then None else if text(ks[0]) == s then Some(ks[0]) else KeyIn(ks[1..], s)
    }

    function KindOf(s: string): Kind {
      match KeyIn(keys, s)
      case Some(k) => kind(k)
      case None => KSkip
    }

    /** r with the field named s set to v; other names change nothing. */
    function Set(r: R, s: string, v: Value): R {
      match KeyIn(keys, s)
      case Some(k) => put(r, k, v)
      case None => r
    }
  }

  // ------------------------------------------------------------- writing

  function ShowValue(v: Value): string {
    match v
    case Absent => ""
    case Str(s) => Quoted(s)
    case Num(t) => t
    case Int(i) => Decimal(i)
    case Arr(l) => "[" + QuotedList(l) + "]"
  }

  /** A key is written as it is, so it must need no escaping. */
  predicate IsPlain(k: string) {
    forall c :: c in k ==> 'a' <= c <= 'z' || c == '_'
  }

  lemma EscapedStep(s: string)
    requires s != ""
    ensures Escaped(s) == EscapeChar(s[0]) + Escaped(s[1..])
  {
  }

  lemma {:induction false} PlainNeedsNoEscape(k: string)
    requires IsPlain(k)
    ensures Escaped(k) == k
  {
    if k != "" {
      hide Escaped;
      assert k[0] in k && forall c :: c in k[1..] ==> c in k;
      assert Escaped(k) == EscapeChar(k[0]) + Escaped(k[1..]) by {
        EscapedStep(k);
      }
      assert EscapeChar(k[0]) == [k[0]];
      PlainNeedsNoEscape(k[1..]);
    }
  }

  function ShowField(f: Field): string {
    "\"" + f.key + "\":" + ShowValue(f.value)
  }

  function ShowFields(fs: seq<Field>): string {
    if fs == [] then "" else if |fs| == 1 then ShowField(fs[0]) else ShowField(fs[0]) + "," + ShowFields(fs[1..])
  }

  function ShowRecord(fs: seq<Field>): string {
    "{" + ShowFields(fs) + "}"
  }

  /** The keys are complete, distinct and told apart by their text; get and put fit together. */
  ghost predicate ValidSchema<R(!new), K(!new)>(sc: Schema<R, K>) {
    && Distinct(sc.keys) && (forall k :: k in sc.keys)
    && (forall k, m {:trigger sc.text(k), sc.text(m)} :: sc.text(k) == sc.text(m) ==> k == m)
    && (forall k :: IsPlain(sc.text(k)))
    && (forall r, k :: Matches(sc.kind(k), sc.get(r, k)))
    && (forall r, k, v :: sc.fits(k, v) ==> sc.get(sc.put(r, k, v), k) == v)
    && (forall r, k, v, m :: m != k ==> sc.get(sc.put(r, k, v), m) == sc.get(r, m))
  }

  // ------------------------------------------------------------- reading

  datatype Read = Read(value: Value, rest: string)

  /** A value of the kind the key asks for; Absent leaves the field as it was. */
  function ReadValue(kind: Kind, u: string): (r: Read)
    ensures |r.rest| <= |u|
  {
    match kind
    case KStr => if Peek(u, '"') then var s := ReadString(u); Read(Str(s.value), s.rest) else Read(Absent, SkipWs(u))
    case KNum => var n := ReadNumber(u); Read(if n.value == "" then Absent else Num(n.value), n.rest)
    case KInt => var n := ReadNumber(u); Read(if n.value == "" then Absent else Int(NumberToInt64(n.value)), n.rest)
    case KArr => var a := ReadArray(u); Read(Arr(a.value), a.rest)
    case KSkip => Read(Absent, SkipValue(u))
  }

  datatype Parsed<R> = Parsed(record: R, rest: string)

  function AfterComma(u: string): (r: string)
    ensures |r| <= |u|
  {
    if Peek(u, ',') then Consume(u, ',') else SkipWs(u)
  }

  /** The fields up to the closing brace; None as soon as a key or its colon is missing. */
  function ReadFields<R, K>(sc: Schema<R, K>, u: string, r: R): Option<Parsed<R>>
    decreases |u|
  {
    if Peek(u, '}') then Some(Parsed(r, SkipWs(u)))
    else if !Peek(u, '"') then None
    else
      var k := ReadString(u);
      if !Peek(k.rest, ':') then None
      else
        var v := ReadValue(sc.KindOf(k.value), Consume(k.rest, ':'));
        ReadFields(sc, AfterComma(v.rest), if v.value == Absent then r else sc.Set(r, k.value, v.value))
  }

  /** A whole line, starting from an empty record. */
  function ReadRecord<R, K>(sc: Schema<R, K>, line: string, empty: R): Option<R> {
    if !Peek(line, '{') then None
    else match ReadFields(sc, Consume(line, '{'), empty)
      case None => None
      case Some(p) => Some(p.record)
  }

  /** As ReadRecord, but a record without a key is refused. */
  function ParseKeyed<R, K>(sc: Schema<R, K>, key: R -> string, empty: R, line: string): Option<R> {
    match ReadRecord(sc, line, empty)
    case None => None
    case Some(r) => if key(r) == "" then None else Some(r)
  }

  // ---------------------------------------------------------- round trip

  /** What reading gives back for a printed value: integers are rounded to doubles, the rest is exact. */
  function Kept(v: Value): Value {
    match v
    case Int(i) => Int(NumberToInt64(Decimal(i)))
    case _ => v
  }

  predicate IsFinite(v: Value) {
    v.Num? ==> IsNumberText(v.text)
  }

  function SetAll<R, K>(sc: Schema<R, K>, r: R, fs: seq<Field>): R {
    if fs == [] then r else SetAll(sc, sc.Set(r, fs[0].key, Kept(fs[0].value)), fs[1..])
  }

  ghost predicate WellFormed<R, K>(sc: Schema<R, K>, fs: seq<Field>) {
    forall f :: f in fs ==> IsPlain(f.key) && Matches(sc.KindOf(f.key), f.value)
  }

  lemma ValueRoundTrip(kind: Kind, v: Value, rest: string)
    requires Matches(kind, v) && IsFinite(v)
    requires rest != "" && (rest[0] == ',' || rest[0] == '}')
    ensures ReadValue(kind, ShowValue(v) + rest) == Read(Kept(v), rest)
  {
    match v
    case Str(s) =>
      StringRoundTrip(s, rest);
    case Num(t) =>
      NumberRoundTrip(t, rest);
    case Int(i) =>
      NumberRoundTrip(Decimal(i), rest);
    case Arr(l) =>
      ArrayRoundTrip(l, rest);
      assert "[" + QuotedList(l) + "]" + rest == ShowValue(v) + rest;
  }

  /** A number text that "%.6g" uses for a value that is not finite stops the reader. */
  lemma NonFiniteStops<R, K>(sc: Schema<R, K>, t: string, rest: string, r: R)
    requires IsNonFinite(t)
    ensures ReadFields(sc, AfterComma(ReadValue(KNum, t + rest).rest), r) == None
  {
    var u := t + rest;
    var n := if t[0] == '-' then 1 else 0;
    assert u[0] == t[0] && u[n] == t[n] && (t[n] == 'i' || t[n] == 'n');
    StartsWith(u, u[0]);
    assert NumberPrefix(u) == n by {
      if n == 1 {
        assert u[1..][0] == u[1];
        assert NumberPrefix(u[1..]) == 0;
      }
    }
    StartsWith(u[n..], u[n]);
    assert ReadValue(KNum, u).rest == u[n..];
  }

  lemma KeySplit(k: string, v: string, rest: string)
    requires Escaped(k) == k
    ensures ("\"" + k + "\":" + v) + rest == Quoted(k) + (":" + (v + rest))
  {
    hide Escaped;
  }

  /** Reading one printed field, up to its value. */
  lemma KeyRoundTrip(f: Field, rest: string)
    requires IsPlain(f.key)
    ensures var u := ShowField(f) + rest;
            && Peek(u, '"') && !Peek(u, '}')
            && ReadString(u).value == f.key
            && Peek(ReadString(u).rest, ':')
            && Consume(ReadString(u).rest, ':') == ShowValue(f.value) + rest
  {
    hide ReadString, Peek, Consume, ShowValue, Quoted;
    PlainNeedsNoEscape(f.key);
    var u := ShowField(f) + rest;
    var x := ":" + (ShowValue(f.value) + rest);
    KeySplit(f.key, ShowValue(f.value), rest);
    StringRoundTrip(f.key, x);
    StartsWith(u, '"');
    StartsWith(x, ':');
    assert x[1..] == ShowValue(f.value) + rest;
  }

  /** One step of the reader over a printed field. */
  lemma {:induction false} FieldRoundTrip<R, K>(sc: Schema<R, K>, f: Field, rest: string, r: R)
    requires IsPlain(f.key) && Matches(sc.KindOf(f.key), f.value)
    requires rest != "" && (rest[0] == ',' || rest[0] == '}')
    ensures ReadFields(sc, ShowField(f) + rest, r) ==
      if IsFinite(f.value) then ReadFields(sc, AfterComma(rest), sc.Set(r, f.key, Kept(f.value))) else None
  {
    hide ReadString, ShowField, ShowValue, ReadValue, Peek, Consume, AfterComma;
    KeyRoundTrip(f, rest);
    if IsFinite(f.value) {
      ValueRoundTrip(sc.KindOf(f.key), f.value, rest);
    } else {
      var v := ReadValue(KNum, f.value.text + rest);
      NonFiniteStops(sc, f.value.text, rest, if v.value == Absent then r else sc.Set(r, f.key, v.value));
      assert ShowValue(f.value) == f.value.text by {
        ShowNum(f.value);
      }
    }
  }

  lemma ShowNum(v: Value)
    requires v.Num?
    ensures ShowValue(v) == v.text
  {
  }

  lemma AfterCommaIs(rest: string)
    requires rest != "" && (rest[0] == ',' || rest[0] == '}')
    ensures rest[0] == ',' ==> AfterComma(rest) == rest[1..]
    ensures rest[0] == '}' ==> AfterComma(rest) == rest && Peek(rest, '}') && SkipWs(rest) == rest
  {
    StartsWith(rest, rest[0]);
  }

  lemma ReadEnd<R, K>(sc: Schema<R, K>, u: string, r: R)
    requires u != "" && u[0] == '}'
    ensures ReadFields(sc, u, r) == Some(Parsed(r, u))
  {
    StartsWith(u, '}');
  }

  /** Reading printed fields sets them one by one; a value that is not finite loses the record. */
  lemma {:induction false} FieldsRoundTrip<R, K>(sc: Schema<R, K>, fs: seq<Field>, rest: string, r: R)
    requires WellFormed(sc, fs)
    ensures ReadFields(sc, ShowFields(fs) + "}" + rest, r) ==
      if forall f :: f in fs ==> IsFinite(f.value) then Some(Parsed(SetAll(sc, r, fs), "}" + rest)) else None
  {
    hide ReadFields, ShowField, Kept, AfterComma, Peek, SkipWs, IsFinite;
    var u := ShowFields(fs) + "}" + rest;
    if fs == [] {
      assert u == "}" + rest;
      ReadEnd(sc, u, r);
    } else {
      var tail := fs[1..];
      var x := if |fs| == 1 then "}" + rest else "," + (ShowFields(tail) + "}" + rest);
      assert u == ShowField(fs[0]) + x;
      FieldRoundTrip(sc, fs[0], x, r);
      AfterCommaIs(x);
      FieldsRoundTrip(sc, tail, rest, sc.Set(r, fs[0].key, Kept(fs[0].value)));
      if |fs| == 1 {
        assert ShowFields(tail) + "}" + rest == x;
      } else {
        assert x[1..] == ShowFields(tail) + "}" + rest;
      }
      assert fs == [fs[0]] + tail;
    }
  }

  lemma {:induction false} RecordRoundTrip<R, K>(sc: Schema<R, K>, fs: seq<Field>, empty: R)
    requires WellFormed(sc, fs)
    ensures ReadRecord(sc, ShowRecord(fs), empty) ==
      if forall f :: f in fs ==> IsFinite(f.value) then Some(SetAll(sc, empty, fs)) else None
  {
    hide ReadFields, ShowFields;
    var line := ShowRecord(fs);
    StartsWith(line, '{');
    assert line[1..] == ShowFields(fs) + "}" + "";
    FieldsRoundTrip(sc, fs, "", empty);
  }

  // --------------------------------------------------- records as tables

  /** The fields of r, in the order of the keys. */
  function Fields<R, K>(sc: Schema<R, K>, keys: seq<K>, r: R): (fs: seq<Field>)
    ensures |fs| == |keys|
    ensures forall i :: 0 <= i < |keys| ==> fs[i] == Field(sc.text(keys[i]), sc.get(r, keys[i]))
  {
    seq(|keys|, i requires 0 <= i < |keys| => Field(sc.text(keys[i]), sc.get(r, keys[i])))
  }

  /** A line of the file. */
  function Line<R, K>(sc: Schema<R, K>, r: R): string {
    ShowRecord(Fields(sc, sc.keys, r))
  }

  function Commas(parts: seq<string>): string {
    if parts == [] then "" else if |parts| == 1 then parts[0] else parts[0] + "," + Commas(parts[1..])
  }

  /** The three shapes of field. */
  function StrField(key: string, s: string): string {
    "\"" + key + "\":\"" + Escaped(s) + "\""
  }

  function NumField(key: string, t: string): string {
    "\"" + key + "\":" + t
  }

  function ListField(key: string, l: seq<string>): string {
    "\"" + key + "\":[" + Commas(seq(|l|, i requires 0 <= i < |l| => "\"" + Escaped(l[i]) + "\"")) + "]"
  }

  /** What each kind of field is on the line. */
  lemma FieldIs(key: string)
    ensures forall s :: ShowField(Field(key, Str(s))) == StrField(key, s)
    ensures forall t :: ShowField(Field(key, Num(t))) == NumField(key, t)
    ensures forall i :: ShowField(Field(key, Int(i))) == NumField(key, Decimal(i))
    ensures forall l :: ShowField(Field(key, Arr(l))) == ListField(key, l)
  {
    hide Escaped, Decimal, Commas, QuotedList;
    forall l
      ensures ShowField(Field(key, Arr(l))) == ListField(key, l)
    {
      QuotedListIs(l);
    }
  }

  lemma {:induction false} QuotedListIs(l: seq<string>)
    ensures QuotedList(l) == Commas(seq(|l|, i requires 0 <= i < |l| => "\"" + Escaped(l[i]) + "\""))
  {
    hide Escaped;
    var parts := seq(|l|, i requires 0 <= i < |l| => "\"" + Escaped(l[i]) + "\"");
    if |l| > 1 {
      var tail := l[1..];
      QuotedListIs(tail);
      assert parts[1..] == seq(|tail|, i requires 0 <= i < |tail| => "\"" + Escaped(tail[i]) + "\"");
    }
  }

  /** A line is its fields, in order, between braces and with commas between them. */
  lemma {:induction false} FieldsJoined(fs: seq<Field>, parts: seq<string>)
    requires |parts| == |fs| && forall i :: 0 <= i < |fs| ==> parts[i] == ShowField(fs[i])
    ensures ShowRecord(fs) == "{" + Commas(parts) + "}"
  {
    hide ShowField;
    ShownIsJoined(fs, parts);
  }

  lemma {:induction false} ShownIsJoined(fs: seq<Field>, parts: seq<string>)
    requires |parts| == |fs| && forall i :: 0 <= i < |fs| ==> parts[i] == ShowField(fs[i])
    ensures ShowFields(fs) == Commas(parts)
  {
    hide ShowField;
    if |fs| > 1 {
      ShownIsJoined(fs[1..], parts[1..]);
    }
  }

  lemma ShownAlone(f: Field)
    ensures ShowRecord([f]) == "{" + ShowField(f) + "}"
  {
    hide ShowField;
  }

  lemma SetOne<R, K>(sc: Schema<R, K>, r: R, f: Field)
    ensures SetAll(sc, r, [f]) == sc.Set(r, f.key, Kept(f.value))
  {
    hide Kept, Schema.Set;
    assert [f][1..] == [];
  }

  /** Setting the printed values of distinct keys one after the other makes the record agree on all of them. */
  lemma {:induction false} SetAllAgrees<R(!new), K(!new)>(sc: Schema<R, K>, keys: seq<K>, e: R, r: R)
    requires ValidSchema(sc) && Distinct(keys)
    requires forall k :: sc.fits(k, Kept(sc.get(e, k)))
    ensures var r' := SetAll(sc, r, Fields(sc, keys, e));
            && (forall k :: k in keys ==> sc.get(r', k) == Kept(sc.get(e, k)))
            && (forall k :: k !in keys ==> sc.get(r', k) == sc.get(r, k))
    decreases |keys|
  {
    hide Kept, Schema.Set;
    if keys != [] {
      var k, tail := keys[0], keys[1..];
      assert Fields(sc, keys, e)[1..] == Fields(sc, tail, e);
      SetIsPut(sc, r, k, Kept(sc.get(e, k)));
      SetAllAgrees(sc, tail, e, sc.Set(r, sc.text(k), Kept(sc.get(e, k))));
      assert keys == [k] + tail;
      assert k !in tail;
    }
  }

  lemma {:induction false} KeyInFinds<R(!new), K(!new)>(sc: Schema<R, K>, keys: seq<K>, k: K)
    requires ValidSchema(sc) && k in keys
    ensures sc.KeyIn(keys, sc.text(k)) == Some(k)
  {
    if keys[0] != k {
      assert keys == [keys[0]] + keys[1..];
      KeyInFinds(sc, keys[1..], k);
    }
  }

  lemma SetIsPut<R(!new), K(!new)>(sc: Schema<R, K>, r: R, k: K, v: Value)
    requires ValidSchema(sc)
    ensures sc.Set(r, sc.text(k), v) == sc.put(r, k, v)
    ensures sc.KindOf(sc.text(k)) == sc.kind(k)
  {
    KeyInFinds(sc, sc.keys, k);
  }

  /**
   * Printing a record and reading the line gives a record that agrees on every key, up to the
   * rounding of integers; a float that is not finite loses it.
   */
  lemma TableRoundTrip<R(!new), K(!new)>(sc: Schema<R, K>, e: R, empty: R)
    requires ValidSchema(sc) && forall k :: sc.fits(k, Kept(sc.get(e, k)))
    ensures var r := ReadRecord(sc, Line(sc, e), empty);
            if forall k :: IsFinite(sc.get(e, k)) then r.Some? && forall k :: sc.get(r.value, k) == Kept(sc.get(e, k))
            else r == None
  {
    hide ReadRecord, ShowRecord, IsFinite, Kept, Matches, IsPlain, Schema.KindOf;
    var fs := Fields(sc, sc.keys, e);
    FieldsWellFormed(sc, e);
    RecordRoundTrip(sc, fs, empty);
    if forall k :: IsFinite(sc.get(e, k)) {
      SetAllAgrees(sc, sc.keys, e, empty);
    } else {
      var k :| !IsFinite(sc.get(e, k));
      assert k in sc.keys;
      var i :| 0 <= i < |sc.keys| && sc.keys[i] == k;
      assert fs[i] in fs;
    }
  }

  lemma FieldsWellFormed<R(!new), K(!new)>(sc: Schema<R, K>, e: R)
    requires ValidSchema(sc)
    ensures WellFormed(sc, Fields(sc, sc.keys, e))
  {
    hide Schema.KindOf, Matches, IsPlain;
    forall i | 0 <= i < |sc.keys|
      ensures sc.KindOf(sc.text(sc.keys[i])) == sc.kind(sc.keys[i])
    {
      SetIsPut(sc, e, sc.keys[i], Absent);
    }
  }

  // --------------------------------------------------------------- lines

  lemma NoNewlineInQuoted(s: string)
    ensures '\n' !in Quoted(s)
  {
  }

  lemma NoNewlineInDecimal(v: int)
    ensures '\n' !in Decimal(v)
  {
    assert IsNumberText(Decimal(v));
  }

  /** A printed record is one line. */
  lemma {:induction false} RecordIsOneLine<R, K>(sc: Schema<R, K>, fs: seq<Field>)
    requires WellFormed(sc, fs)
    ensures '\n' !in ShowFields(fs)
  {
    hide Schema.KindOf, Escaped, Decimal;
    if fs != [] {
      var f := fs[0];
      assert '\n' !in ShowValue(f.value) by {
        match f.value
        case Str(s) => NoNewlineInQuoted(s);
        case Num(t) => assert IsFloatText(t);
        case Int(i) => NoNewlineInDecimal(i);
        case Arr(l) =>
      }
      assert fs == [f] + fs[1..];
      RecordIsOneLine(sc, fs[1..]);
    }
  }
}
