/**
 * Fields nobody asked for: what the reader makes of them, whatever text of the notation (RFC 8259)
 * they are, with escapes in the key and white space between tokens.
 */
module JsonUnknown {
  import opened Prelude
  import opened JsonText
  import opened JsonRecords

  // ------------------------------------------------------------- strings

  predicate IsBlank(b: string) {
    forall c :: c in b ==> IsWs(c)
  }

  /** What stands between the quotes of a string: no bare quote, and every escape complete. */
  predicate IsBody(b: string)
    decreases |b|
  {
    if b == "" then true
    else if b[0] == '"' then false
    else if b[0] != '\\' then IsBody(b[1..])
    else if |b| < 2 then false
    else if b[1] == 'u' then |b| >= 6 && (forall i :: 2 <= i < 6 ==> HexValue(b[i]) >= 0) && IsBody(b[6..])
    else IsBody(b[2..])
  }

  /** The string a body stands for; an escaped code beyond ASCII is left out. */
  function Decoded(b: string): string
    requires IsBody(b)
    decreases |b|
  {
    if b == "" then ""
    else if b[0] != '\\' then [b[0]] + Decoded(b[1..])
    else if b[1] == 'u' then
      var code := Strtol16(b[2..6]);
      (if code < 0x80 then [LowByte(code)] else "") + Decoded(b[6..])
    else [Unescaped(b[1])] + Decoded(b[2..])
  }

  function Unescaped(e: char): char {
    if e == 'n' then '\n' else if e == 'r' then '\r' else if e == 't' then '\t' else e
  }

  function InQuotes(b: string): string {
    "\"" + b + "\""
  }

  lemma ReadUnicode(h: string, x: string)
    requires |h| == 4
    ensures ReadBody(['\\', 'u'] + h + x) ==
      Text((if Strtol16(h) < 0x80 then [LowByte(Strtol16(h))] else "") + ReadBody(x).value, ReadBody(x).rest)
  {
    hide Strtol16, ReadBody, LowByte;
    var u, w := ['\\', 'u'] + h + x, ['u'] + h + x;
    assert u[1..] == w;
    BodyEscape(u);
    EscapeParts(h, x);
    AnyUnicode(w);
  }

  lemma AnyUnicode(w: string)
    requires |w| > 4 && w[0] == 'u'
    ensures var code, r := Strtol16(w[1..5]), ReadBody(w[5..]);
            ReadEscape(w) == Text((if code < 0x80 then [LowByte(code)] else "") + r.value, r.rest)
  {
    hide Strtol16, ReadBody, LowByte;
  }

  /** The first character or escape of a body, and the rest. */
  lemma BodySplit(b: string, x: string)
    requires IsBody(b) && b != ""
    ensures b[0] != '\\' ==> b + "\"" + x == [b[0]] + (b[1..] + "\"" + x)
    ensures b[0] == '\\' && b[1] == 'u' ==> b + "\"" + x == ['\\', 'u'] + b[2..6] + (b[6..] + "\"" + x)
    ensures b[0] == '\\' && b[1] != 'u' ==> b + "\"" + x == ['\\', b[1]] + (b[2..] + "\"" + x)
  {
  }

  /** A string is read up to its closing quote, whatever follows. */
  lemma {:induction false} BodyReads(b: string, x: string)
    requires IsBody(b)
    ensures ReadBody(b + "\"" + x) == Text(Decoded(b), x)
    decreases |b|
  {
    hide ReadBody, LowByte, Strtol16, HexValue;
    if b == "" {
      assert b + "\"" + x == ['"'] + x;
      BodyEnd(x);
    } else {
      BodySplit(b, x);
      if b[0] != '\\' {
        BodyReads(b[1..], x);
        ReadPlain(b[0], b[1..] + "\"" + x);
      } else if b[1] == 'u' {
        BodyReads(b[6..], x);
        ReadUnicode(b[2..6], b[6..] + "\"" + x);
      } else {
        BodyReads(b[2..], x);
        ReadShortEscape(b[1], b[2..] + "\"" + x);
      }
    }
  }

  /** A plain character or one whole escape. */
  predicate IsUnit(p: string) {
    || (|p| == 1 && p[0] != '"' && p[0] != '\\')
    || (|p| == 2 && p[0] == '\\' && p[1] != 'u')
    || (|p| == 6 && p[0] == '\\' && p[1] == 'u' && forall i :: 2 <= i < 6 ==> HexValue(p[i]) >= 0)
  }

  lemma PrependBody(p: string, b: string)
    requires IsUnit(p) && IsBody(b)
    ensures IsBody(p + b)
  {
    hide HexValue;
    assert (p + b)[|p|..] == b;
  }

  /** What the writer makes of a string is such a body, and stands for that string. */
  lemma {:induction false} EscapedIsBody(s: string)
    ensures IsBody(Escaped(s)) && Decoded(Escaped(s)) == s
  {
    BodyOfEscaped(s);
    hide IsBody, Decoded, Escaped, ReadBody;
    BodyReads(Escaped(s), "");
    BodyRoundTrip(s, "");
  }

  lemma {:induction false} BodyOfEscaped(s: string)
    ensures IsBody(Escaped(s))
  {
    hide IsBody, HexValue, EscapeChar;
    if s != "" {
      EscapedStep(s);
      BodyOfEscaped(s[1..]);
      CharOfEscaped(s[0]);
      PrependBody(EscapeChar(s[0]), Escaped(s[1..]));
    } else {
      EmptyBody();
    }
  }

  lemma EmptyBody()
    ensures IsBody("") && Escaped("") == ""
  {
  }

  lemma CharOfEscaped(c: char)
    ensures IsUnit(EscapeChar(c))
  {
    hide HexValue;
    HexDigit(0);
    if c as int < 0x20 {
      HexDigit(c as int / 16);
      HexDigit(c as int % 16);
    }
  }

  // -------------------------------------------------------------- values

  /** A value, with the white space around its parts. */
  datatype Json =
    | JString(body: string)
    | JNumber(t: string)
    | JLiteral(word: string)
    | JList(blank: string, items: seq<Spaced>)
    | JObject(blank: string, members: seq<Member>)

  datatype Spaced = Spaced(before: string, value: Json, after: string)

  datatype Member = Member(before: string, key: string, between: string, value: Spaced)

  const LITERALS: seq<string> := ["true", "false", "null"]

  predicate Proper(j: Json) {
    match j
    case JString(b) => IsBody(b)
    case JNumber(t) => IsNumberText(t)
    case JLiteral(word) => word in LITERALS
    case JList(blank, items) => IsBlank(blank) && forall s :: s in items ==> ProperSpaced(s)
    case JObject(blank, ms) => IsBlank(blank) && forall m :: m in ms ==> ProperMember(m)
  }

  predicate ProperSpaced(s: Spaced) {
    IsBlank(s.before) && Proper(s.value) && IsBlank(s.after)
  }

  predicate ProperMember(m: Member) {
    IsBlank(m.before) && IsBody(m.key) && IsBlank(m.between) && ProperSpaced(m.value)
  }

  function Show(j: Json): string {
    match j
    case JString(b) => InQuotes(b)
    case JNumber(t) => t
    case JLiteral(word) => word
    case JList(blank, items) => "[" + (blank + ShowItems(items)) + "]"
    case JObject(blank, ms) => "{" + (blank + ShowMembers(ms)) + "}"
  }

  function ShowSpaced(s: Spaced): string {
    s.before + Show(s.value) + s.after
  }

  function ShowMember(m: Member): string {
    m.before + InQuotes(m.key) + m.between + ":" + ShowSpaced(m.value)
  }

  function ShowItems(items: seq<Spaced>): string {
    if items == [] then "" else ShowSpaced(items[0]) + (if |items| == 1 then "" else ",") + ShowItems(items[1..])
  }

  function ShowMembers(ms: seq<Member>): string {
    if ms == [] then "" else ShowMember(ms[0]) + (if |ms| == 1 then "" else ",") + ShowMembers(ms[1..])
  }

  // ------------------------------------------------------------- nesting

  predicate Brackets(open: char, close: char) {
    (open == '[' && close == ']') || (open == '{' && close == '}')
  }

  lemma SkipOne(c: char, x: string, d: nat, open: char, close: char)
    requires Brackets(open, close) && d > 0 && c != '"'
    ensures SkipNested([c] + x, d, open, close) ==
      SkipNested(x, if c == open then d + 1 else if c == close then d - 1 else d, open, close)
  {
    assert ([c] + x)[1..] == x;
  }

  lemma SkipString(b: string, x: string, d: nat, open: char, close: char)
    requires IsBody(b) && d > 0
    ensures SkipNested(InQuotes(b) + x, d, open, close) == SkipNested(x, d, open, close)
  {
    hide IsBody, Decoded, ReadBody;
    var u := InQuotes(b) + x;
    assert u[1..] == b + "\"" + x;
    BodyReads(b, x);
  }

  /** Numbers, literals, white space and separators hold no quote and no bracket. */
  predicate IsBare(t: string) {
    forall c :: c in t ==> c != '"' && c != '[' && c != ']' && c != '{' && c != '}'
  }

  lemma {:induction false} SkipBare(t: string, x: string, d: nat, open: char, close: char)
    requires Brackets(open, close) && d > 0 && IsBare(t)
    ensures SkipNested(t + x, d, open, close) == SkipNested(x, d, open, close)
  {
    if t == "" {
      assert t + x == x;
    } else {
      assert t + x == [t[0]] + (t[1..] + x);
      assert t[0] in t && forall c :: c in t[1..] ==> c in t;
      SkipOne(t[0], t[1..] + x, d, open, close);
      SkipBare(t[1..], x, d, open, close);
    }
  }

  lemma BlankIsBare(b: string)
    requires IsBlank(b)
    ensures IsBare(b)
  {
  }

  lemma BareValues(j: Json)
    requires Proper(j)
    ensures j.JNumber? ==> IsBare(j.t)
    ensures j.JLiteral? ==> IsBare(j.word)
  {
  }

  /** What stands between brackets is passed one level deeper, and the closing bracket comes back up. */
  lemma SkipWrapped(o: char, body: string, c: char, x: string, d: nat, open: char, close: char)
    requires Brackets(open, close) && Brackets(o, c) && d > 0
    requires var d' := if open == o then d + 1 else d;
             SkipNested(body + ([c] + x), d', open, close) == SkipNested([c] + x, d', open, close)
    ensures SkipNested([o] + body + [c] + x, d, open, close) == SkipNested(x, d, open, close)
  {
    hide SkipNested;
    assert [o] + body + [c] + x == [o] + (body + ([c] + x));
    SkipOne(o, body + ([c] + x), d, open, close);
    SkipOne(c, x, if open == o then d + 1 else d, open, close);
  }

  /** A complete value in the middle of a list or an object does not change the nesting depth. */
  lemma {:induction false} SkipKeepsDepth(j: Json, x: string, d: nat, open: char, close: char)
    requires Proper(j) && Brackets(open, close) && d > 0
    ensures SkipNested(Show(j) + x, d, open, close) == SkipNested(x, d, open, close)
    decreases j, 0
  {
    hide SkipNested, InQuotes, IsBare, IsBody, IsBlank, IsNumberText, ShowItems, ShowMembers, ProperSpaced,
         ProperMember;
    BareValues(j);
    match j
    case JString(b) =>
      SkipString(b, x, d, open, close);
    case JNumber(t) =>
      SkipBare(t, x, d, open, close);
    case JLiteral(word) =>
      SkipBare(word, x, d, open, close);
    case JList(blank, items) =>
      SkipItems(blank, items, "]" + x, if open == '[' then d + 1 else d, open, close);
      SkipWrapped('[', blank + ShowItems(items), ']', x, d, open, close);
    case JObject(blank, ms) =>
      SkipMembers(blank, ms, "}" + x, if open == '{' then d + 1 else d, open, close);
      SkipWrapped('{', blank + ShowMembers(ms), '}', x, d, open, close);
  }

  lemma {:induction false} SkipSpaced(s: Spaced, x: string, d: nat, open: char, close: char)
    requires ProperSpaced(s) && Brackets(open, close) && d > 0
    ensures SkipNested(ShowSpaced(s) + x, d, open, close) == SkipNested(x, d, open, close)
    decreases s, 1
  {
    hide SkipNested, Show, IsBlank, Proper, IsBare;
    BlankIsBare(s.before);
    BlankIsBare(s.after);
    assert ShowSpaced(s) + x == s.before + (Show(s.value) + (s.after + x));
    SkipBare(s.before, Show(s.value) + (s.after + x), d, open, close);
    SkipKeepsDepth(s.value, s.after + x, d, open, close);
    SkipBare(s.after, x, d, open, close);
  }

  lemma {:induction false} SkipMember(m: Member, x: string, d: nat, open: char, close: char)
    requires ProperMember(m) && Brackets(open, close) && d > 0
    ensures SkipNested(ShowMember(m) + x, d, open, close) == SkipNested(x, d, open, close)
    decreases m, 2
  {
    hide SkipNested, IsBlank, IsBody, InQuotes, ShowSpaced, ProperSpaced, IsBare;
    BlankIsBare(m.before);
    BlankIsBare(m.between);
    var v := ShowSpaced(m.value) + x;
    MemberText(m, x);
    SkipBare(m.before, InQuotes(m.key) + (m.between + (":" + v)), d, open, close);
    SkipString(m.key, m.between + (":" + v), d, open, close);
    SkipBare(m.between, ":" + v, d, open, close);
    SkipOne(':', v, d, open, close);
    SkipSpaced(m.value, x, d, open, close);
  }

  lemma MemberText(m: Member, x: string)
    ensures ShowMember(m) + x == m.before + (InQuotes(m.key) + (m.between + (":" + (ShowSpaced(m.value) + x))))
  {
    hide InQuotes, ShowSpaced;
  }

  lemma SkipSeparator(more: bool, x: string, d: nat, open: char, close: char)
    requires Brackets(open, close) && d > 0
    ensures SkipNested((if more then "," else "") + x, d, open, close) == SkipNested(x, d, open, close)
  {
    if more {
      SkipOne(',', x, d, open, close);
    } else {
      assert "" + x == x;
    }
  }

  /** The items of a list, after white space. */
  lemma {:induction false} SkipItems(blank: string, items: seq<Spaced>, x: string, d: nat, open: char, close: char)
    requires IsBlank(blank) && (forall s :: s in items ==> ProperSpaced(s)) && Brackets(open, close) && d > 0
    ensures SkipNested((blank + ShowItems(items)) + x, d, open, close) == SkipNested(x, d, open, close)
    decreases items, 2
  {
    hide SkipNested, ShowSpaced, ProperSpaced, IsBlank, IsBare;
    BlankIsBare(blank);
    Regroup2(blank, ShowItems(items), x);
    SkipBare(blank, ShowItems(items) + x, d, open, close);
    if items == [] {
      assert ShowItems(items) + x == x;
    } else {
      var sep := if |items| == 1 then "" else ",";
      var y := ShowItems(items[1..]) + x;
      assert ShowItems(items) + x == ShowSpaced(items[0]) + (sep + y);
      SkipSpaced(items[0], sep + y, d, open, close);
      SkipSeparator(|items| != 1, y, d, open, close);
      EmptyBlank();
      SkipItems("", items[1..], x, d, open, close);
      assert ("" + ShowItems(items[1..])) + x == y;
    }
  }

  lemma {:induction false} SkipMembers(blank: string, ms: seq<Member>, x: string, d: nat, open: char, close: char)
    requires IsBlank(blank) && (forall m :: m in ms ==> ProperMember(m)) && Brackets(open, close) && d > 0
    ensures SkipNested((blank + ShowMembers(ms)) + x, d, open, close) == SkipNested(x, d, open, close)
    decreases ms, 2
  {
    hide SkipNested, ShowMember, ProperMember, IsBlank, IsBare;
    BlankIsBare(blank);
    Regroup2(blank, ShowMembers(ms), x);
    SkipBare(blank, ShowMembers(ms) + x, d, open, close);
    if ms == [] {
      assert ShowMembers(ms) + x == x;
    } else {
      var sep := if |ms| == 1 then "" else ",";
      var y := ShowMembers(ms[1..]) + x;
      assert ShowMembers(ms) + x == ShowMember(ms[0]) + (sep + y);
      SkipMember(ms[0], sep + y, d, open, close);
      SkipSeparator(|ms| != 1, y, d, open, close);
      EmptyBlank();
      SkipMembers("", ms[1..], x, d, open, close);
      assert ("" + ShowMembers(ms[1..])) + x == y;
    }
  }

  lemma Regroup2(a: string, b: string, c: string)
    ensures (a + b) + c == a + (b + c)
  {
  }

  lemma EmptyBlank()
    ensures IsBlank("")
  {
  }

  // ------------------------------------------------------ a value skipped

  lemma {:induction false} BlankSkipped(b: string, u: string)
    requires IsBlank(b)
    ensures SkipWs(b + u) == SkipWs(u)
  {
    if b == "" {
      assert b + u == u;
    } else {
      assert b[0] in b && forall c :: c in b[1..] ==> c in b;
      assert (b + u)[0] == b[0] && (b + u)[1..] == b[1..] + u;
      BlankSkipped(b[1..], u);
    }
  }

  /** White space in front makes no difference to any part of the reader. */
  lemma BlankInFront(b: string, u: string)
    requires IsBlank(b)
    ensures SkipValue(b + u) == SkipValue(u) && AfterComma(b + u) == AfterComma(u)
    ensures forall c :: Peek(b + u, c) == Peek(u, c) && Consume(b + u, c) == Consume(u, c)
    ensures Peek(u, '"') ==> Peek(b + u, '"') && ReadString(b + u) == ReadString(u)
  {
    hide SkipWs, ReadBody, SkipNested, ReadNumber;
    BlankSkipped(b, u);
  }

  /**
   * Skipping a value, with white space before it, leaves exactly what follows it, unless the value
   * is itself a literal: then it is not skipped at all.
   */
  lemma SkipValueRoundTrip(before: string, j: Json, x: string)
    requires IsBlank(before) && Proper(j)
    requires j.JNumber? ==> x == "" || !IsNumberChar(x[0])
    ensures SkipValue(before + (Show(j) + x)) == if j.JLiteral? then Show(j) + x else x
    ensures SkipValue(before + (Show(j) + x)) == x <==> !j.JLiteral?
  {
    hide SkipValue, IsBlank, Proper, Show;
    BlankInFront(before, Show(j) + x);
    ShowNotEmpty(j);
    match j
    case JString(_) => SkipScalar(j, x);
    case JNumber(_) => SkipScalar(j, x);
    case JLiteral(_) => SkipScalar(j, x);
    case JList(blank, items) => SkipList(blank, items, x);
    case JObject(blank, ms) => SkipObject(blank, ms, x);
  }

  lemma ShowNotEmpty(j: Json)
    requires Proper(j)
    ensures Show(j) != ""
  {
    hide IsBody, IsBlank, ShowItems, ShowMembers, ProperSpaced, ProperMember;
  }

  lemma SkipScalar(j: Json, x: string)
    requires Proper(j) && (j.JString? || j.JNumber? || j.JLiteral?)
    requires j.JNumber? ==> x == "" || !IsNumberChar(x[0])
    ensures SkipValue(Show(j) + x) == if j.JLiteral? then Show(j) + x else x
  {
    hide SkipNested, ReadBody, ReadNumber, SkipValue, IsBody, Decoded;
    var u := Show(j) + x;
    match j
    case JString(b) =>
      SkipValueCases(u);
      assert u[1..] == b + "\"" + x;
      BodyReads(b, x);
    case JNumber(t) =>
      assert t[0] in t;
      SkipValueCases(u);
      NumberRoundTrip(t, x);
    case JLiteral(word) =>
      assert u[0] == word[0];
      LiteralIsNotSkipped(u);
  }

  lemma SkipList(blank: string, items: seq<Spaced>, x: string)
    requires Proper(JList(blank, items))
    ensures SkipValue(Show(JList(blank, items)) + x) == x
  {
    hide SkipNested, SkipValue, ShowItems, IsBlank, ProperSpaced;
    var u := Show(JList(blank, items)) + x;
    SkipValueCases(u);
    assert u[1..] == (blank + ShowItems(items)) + ("]" + x);
    SkipItems(blank, items, "]" + x, 1, '[', ']');
    SkipOne(']', x, 1, '[', ']');
    SkipDone(x, '[', ']');
  }

  lemma SkipObject(blank: string, ms: seq<Member>, x: string)
    requires Proper(JObject(blank, ms))
    ensures SkipValue(Show(JObject(blank, ms)) + x) == x
  {
    hide SkipNested, SkipValue, ShowMembers, IsBlank, ProperMember;
    var u := Show(JObject(blank, ms)) + x;
    SkipValueCases(u);
    assert u[1..] == (blank + ShowMembers(ms)) + ("}" + x);
    SkipMembers(blank, ms, "}" + x, 1, '{', '}');
    SkipOne('}', x, 1, '{', '}');
    SkipDone(x, '{', '}');
  }

  lemma SkipValueCases(u: string)
    requires u != "" && !IsWs(u[0])
    ensures SkipValue(u) == if u[0] == '"' then ReadBody(u[1..]).rest
                            else if u[0] == '[' then SkipNested(u[1..], 1, '[', ']')
                            else if u[0] == '{' then SkipNested(u[1..], 1, '{', '}')
                            else ReadNumber(u).rest
  {
    StartsWith(u, u[0]);
  }

  lemma SkipDone(x: string, open: char, close: char)
    ensures SkipNested(x, 0, open, close) == x
  {
  }

  lemma LiteralIsNotSkipped(u: string)
    requires u != "" && (u[0] == 't' || u[0] == 'f' || u[0] == 'n')
    ensures SkipValue(u) == u && AfterComma(u) == u && !Peek(u, '}') && !Peek(u, '"')
  {
    StartsWith(u, u[0]);
    assert NumberPrefix(u) == 0;
  }

  // ------------------------------------------------------- unknown fields

  /** The key of a field, with the white space around it, is read as the string it stands for. */
  lemma KeyReads(m: Member, x: string)
    requires ProperMember(m)
    ensures var u := ShowMember(m) + x;
            && Peek(u, '"') && !Peek(u, '}')
            && ReadString(u).value == Decoded(m.key)
            && Peek(ReadString(u).rest, ':')
            && Consume(ReadString(u).rest, ':') == ShowSpaced(m.value) + x
  {
    hide Peek, Consume, IsBlank, IsBody, Decoded, ShowSpaced, ProperSpaced, ReadString, ShowMember;
    MemberText(m, x);
    var y := ":" + (ShowSpaced(m.value) + x);
    var q := InQuotes(m.key) + (m.between + y);
    BlankInFront(m.before, q);
    BlankInFront(m.between, y);
    StringReads(m.key, m.between + y);
    StartsWith(y, ':');
    assert y[1..] == ShowSpaced(m.value) + x;
  }

  lemma StringReads(b: string, x: string)
    requires IsBody(b)
    ensures Peek(InQuotes(b) + x, '"') && !Peek(InQuotes(b) + x, '}')
    ensures ReadString(InQuotes(b) + x) == Text(Decoded(b), x)
  {
    hide IsBody, Decoded, ReadBody;
    var u := InQuotes(b) + x;
    StartsWith(u, '"');
    assert u[1..] == b + "\"" + x;
    BodyReads(b, x);
  }

  /** Where a field may end. */
  predicate AtEnd(rest: string) {
    rest != "" && (rest[0] == ',' || rest[0] == '}')
  }

  /** What the reader is left with after the value of an unknown field. */
  lemma ValueSkipped(s: Spaced, rest: string)
    requires ProperSpaced(s) && AtEnd(rest)
    ensures var v := SkipValue(ShowSpaced(s) + rest);
            if s.value.JLiteral? then AfterComma(v) == v && !Peek(v, '}') && !Peek(v, '"')
            else AfterComma(v) == AfterComma(rest)
  {
    hide IsBlank, Proper, Show, SkipValue, AfterComma, Peek;
    if s.value.JLiteral? {
      LiteralValueStays(s, rest);
    } else {
      var x := s.after + rest;
      assert ShowSpaced(s) + rest == s.before + (Show(s.value) + x);
      BlankNoNumber(s.after, rest);
      SkipValueRoundTrip(s.before, s.value, x);
      BlankInFront(s.after, rest);
    }
  }

  lemma LiteralValueStays(s: Spaced, rest: string)
    requires ProperSpaced(s) && s.value.JLiteral?
    ensures var v := SkipValue(ShowSpaced(s) + rest); AfterComma(v) == v && !Peek(v, '}') && !Peek(v, '"')
  {
    hide IsBlank, Proper, Show, SkipValue, AfterComma, Peek;
    var x := s.after + rest;
    assert ShowSpaced(s) + rest == s.before + (Show(s.value) + x);
    SkipValueRoundTrip(s.before, s.value, x);
    LiteralStart(s.value, x);
    LiteralIsNotSkipped(Show(s.value) + x);
  }

  lemma BlankNoNumber(b: string, rest: string)
    requires IsBlank(b) && AtEnd(rest)
    ensures b + rest != "" && !IsNumberChar((b + rest)[0])
  {
    assert b != "" ==> b[0] in b;
  }

  lemma LiteralStart(j: Json, x: string)
    requires j.JLiteral? && Proper(j)
    ensures var u := Show(j) + x; u != "" && (u[0] == 't' || u[0] == 'f' || u[0] == 'n')
  {
  }

  /**
   * A field nobody asked for changes nothing, whatever its key and its value, unless the value is
   * itself true, false or null: then the record is lost.
   */
  lemma {:induction false} UnknownKeySkipped<R, K>(sc: Schema<R, K>, m: Member, rest: string, r: R)
    requires ProperMember(m) && sc.KindOf(Decoded(m.key)) == KSkip && AtEnd(rest)
    ensures ReadFields(sc, ShowMember(m) + rest, r) ==
            if m.value.value.JLiteral? then None else ReadFields(sc, AfterComma(rest), r)
  {
    hide ReadString, Peek, Consume, AfterComma, SkipValue, IsBody, Decoded, IsBlank, ShowMember, ShowSpaced,
         ProperSpaced;
    KeyReads(m, rest);
    ValueSkipped(m.value, rest);
  }

  /** The field is skipped exactly when its value is not itself a literal, provided the rest can be read. */
  lemma SkippedExactly<R, K>(sc: Schema<R, K>, m: Member, rest: string, r: R)
    requires ProperMember(m) && sc.KindOf(Decoded(m.key)) == KSkip && AtEnd(rest)
    requires ReadFields(sc, AfterComma(rest), r).Some?
    ensures ReadFields(sc, ShowMember(m) + rest, r) == ReadFields(sc, AfterComma(rest), r) <==> !m.value.value.JLiteral?
  {
    hide ReadFields, AfterComma, ShowMember;
    UnknownKeySkipped(sc, m, rest, r);
  }

  /** true, false and null under an unknown key lose the record, whatever follows them. */
  lemma LiteralStops<R, K>(sc: Schema<R, K>, m: Member, rest: string, r: R)
    requires ProperMember(m) && sc.KindOf(Decoded(m.key)) == KSkip && m.value.value.JLiteral?
    ensures ReadFields(sc, ShowMember(m) + rest, r) == None
  {
    hide ReadString, Peek, Consume, AfterComma, SkipValue, IsBody, Decoded, IsBlank, ShowMember, ShowSpaced,
         ProperSpaced;
    KeyReads(m, rest);
    LiteralValueStays(m.value, rest);
  }

  // ------------------------------------------- records with unknown fields

  /** A field as the writer prints it, or any other one. */
  datatype Part = Known(f: Field) | Unknown(m: Member)

  function ShowPart(p: Part): string {
    match p
    case Known(f) => ShowField(f)
    case Unknown(m) => ShowMember(m)
  }

  function ShowParts(ps: seq<Part>): string {
    if ps == [] then "" else if |ps| == 1 then ShowPart(ps[0]) else ShowPart(ps[0]) + "," + ShowParts(ps[1..])
  }

  function FieldsOf(ps: seq<Part>): seq<Field> {
    if ps == [] then [] else (match ps[0] case Known(f) => [f] case Unknown(_) => []) + FieldsOf(ps[1..])
  }

  ghost predicate ProperPart<R, K>(sc: Schema<R, K>, p: Part) {
    match p
    case Known(f) => IsPlain(f.key) && Matches(sc.KindOf(f.key), f.value)
    case Unknown(m) => ProperMember(m) && sc.KindOf(Decoded(m.key)) == KSkip
  }

  predicate Readable(p: Part) {
    match p
    case Known(f) => IsFinite(f.value)
    case Unknown(m) => !m.value.value.JLiteral?
  }

  lemma PartReads<R, K>(sc: Schema<R, K>, p: Part, x: string, r: R)
    requires ProperPart(sc, p) && AtEnd(x)
    ensures ReadFields(sc, ShowPart(p) + x, r) ==
            if !Readable(p) then None else ReadFields(sc, AfterComma(x), SetAll(sc, r, FieldsOf([p])))
  {
    hide ReadFields, ShowField, ShowMember, AfterComma, IsFinite, Kept, ProperMember, Decoded, IsPlain, Matches;
    match p
    case Known(f) =>
      FieldRoundTrip(sc, f, x, r);
      OneField(sc, r, f);
    case Unknown(m) =>
      UnknownKeySkipped(sc, m, x, r);
  }

  lemma OneField<R, K>(sc: Schema<R, K>, r: R, f: Field)
    ensures SetAll(sc, r, FieldsOf([Known(f)])) == sc.Set(r, f.key, Kept(f.value))
  {
    hide Kept;
    assert [Known(f)][1..] == [] && FieldsOf([Known(f)]) == [f];
    assert [f][1..] == [];
  }

  lemma {:induction false} SetAllAppend<R, K>(sc: Schema<R, K>, r: R, fs: seq<Field>, gs: seq<Field>)
    ensures SetAll(sc, r, fs + gs) == SetAll(sc, SetAll(sc, r, fs), gs)
    decreases |fs|
  {
    hide Kept;
    if fs == [] {
      assert fs + gs == gs;
    } else {
      assert (fs + gs)[1..] == fs[1..] + gs;
      SetAllAppend(sc, sc.Set(r, fs[0].key, Kept(fs[0].value)), fs[1..], gs);
    }
  }

  /** The text after the first part. */
  function Others(ps: seq<Part>, rest: string): string
    requires ps != []
  {
    if |ps| == 1 then "}" + rest else "," + (ShowParts(ps[1..]) + "}" + rest)
  }

  lemma FirstPart(ps: seq<Part>, rest: string)
    requires ps != []
    ensures ShowParts(ps) + "}" + rest == ShowPart(ps[0]) + Others(ps, rest)
    ensures FieldsOf(ps) == FieldsOf([ps[0]]) + FieldsOf(ps[1..])
  {
    hide ShowPart;
    assert [ps[0]][1..] == [];
    Regroup2(ShowPart(ps[0]), "}", rest);
    SeparatedParts(ShowPart(ps[0]), ShowParts(ps[1..]), rest);
  }

  lemma SeparatedParts(p: string, more: string, rest: string)
    ensures p + "," + more + "}" + rest == p + ("," + (more + "}" + rest))
  {
  }

  lemma AfterFirstPart(ps: seq<Part>, rest: string)
    requires ps != []
    ensures AtEnd(Others(ps, rest))
    ensures AfterComma(Others(ps, rest)) == ShowParts(ps[1..]) + "}" + rest
  {
    hide ShowParts, AfterComma;
    var x := Others(ps, rest);
    AfterCommaIs(x);
    if |ps| == 1 {
      NoParts(rest);
      assert ps[1..] == [];
    } else {
      assert x[1..] == ShowParts(ps[1..]) + "}" + rest;
    }
  }

  /** Unknown fields among the known ones are passed over; one holding a literal loses the record. */
  lemma {:induction false} PartsRead<R, K>(sc: Schema<R, K>, ps: seq<Part>, rest: string, r: R)
    requires forall p :: p in ps ==> ProperPart(sc, p)
    ensures ReadFields(sc, ShowParts(ps) + "}" + rest, r) ==
      if forall p :: p in ps ==> Readable(p) then Some(Parsed(SetAll(sc, r, FieldsOf(ps)), "}" + rest)) else None
    decreases |ps|
  {
    hide ReadFields, ShowParts, FieldsOf, AfterComma, Readable, ProperPart, SetAll, Others;
    if ps == [] {
      NoParts(rest);
      ReadEnd(sc, "}" + rest, r);
      SetNone(sc, r);
    } else {
      FirstPart(ps, rest);
      AfterFirstPart(ps, rest);
      PartReads(sc, ps[0], Others(ps, rest), r);
      var q := SetAll(sc, r, FieldsOf([ps[0]]));
      PartsRead(sc, ps[1..], rest, q);
      SetAllAppend(sc, r, FieldsOf([ps[0]]), FieldsOf(ps[1..]));
      assert ps == [ps[0]] + ps[1..];
    }
  }

  lemma NoParts(rest: string)
    ensures ShowParts([]) + "}" + rest == "}" + rest && FieldsOf([]) == []
  {
  }

  lemma SetNone<R, K>(sc: Schema<R, K>, r: R)
    ensures SetAll(sc, r, []) == r
  {
  }

  lemma {:induction false} FieldsWellFormedOf<R, K>(sc: Schema<R, K>, ps: seq<Part>)
    requires forall p :: p in ps ==> ProperPart(sc, p)
    ensures WellFormed(sc, FieldsOf(ps))
    ensures (forall f :: f in FieldsOf(ps) ==> IsFinite(f.value)) <==> (forall p :: p in ps && p.Known? ==> Readable(p))
    decreases |ps|
  {
    hide IsPlain, Matches, ProperMember, Decoded, IsFinite;
    if ps != [] {
      FieldsWellFormedOf(sc, ps[1..]);
      assert ps == [ps[0]] + ps[1..];
      assert ProperPart(sc, ps[0]);
    }
  }

  /**
   * A record to which unknown fields have been added, anywhere and any number of them, is read like
   * the record without them, unless the value of one of them is itself a literal: then it is lost.
   */
  lemma {:induction false} UnknownFieldsIgnored<R, K>(sc: Schema<R, K>, ps: seq<Part>, empty: R)
    requires forall p :: p in ps ==> ProperPart(sc, p)
    ensures ReadRecord(sc, "{" + ShowParts(ps) + "}", empty) ==
      if forall p :: p in ps && p.Unknown? ==> Readable(p) then ReadRecord(sc, ShowRecord(FieldsOf(ps)), empty)
      else None
  {
    hide ReadFields, ShowParts, FieldsOf, Readable, ProperPart, SetAll, ShowRecord;
    var line := "{" + ShowParts(ps) + "}";
    StartsWith(line, '{');
    assert line[1..] == ShowParts(ps) + "}" + "";
    PartsRead(sc, ps, "", empty);
    FieldsWellFormedOf(sc, ps);
    RecordRoundTrip(sc, FieldsOf(ps), empty);
  }
}
