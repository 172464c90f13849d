/**
 * The text of one record: how values are written, how the cursor reads them back.
 * A text still to be read is the suffix after the cursor, so every reader maps a suffix to what
 * it found and the suffix that is left.
 */
module JsonText {
  import opened Prelude

  // ------------------------------------------------------------- writing

  const HEX := "0123456789abcdef"

  function EscapeChar(c: char): (r: string)
    ensures |r| >= 1 && '\n' !in r
  {
    if c == '"' then "\\\""
    else if c == '\\' then "\\\\"
    else if c == '\n' then "\\n"
    else if c == '\r' then "\\r"
    else if c == '\t' then "\\t"
    else if c as int < 0x20 then
      var d := c as int;
      ['\\', 'u', '0', '0', HEX[d / 16], HEX[d % 16]]
    else [c]
  }

  function Escaped(s: string): (r: string)
    ensures '\n' !in r
  {
    if s == "" then "" else EscapeChar(s[0]) + Escaped(s[1..])
  }

  function Quoted(s: string): string {
    "\"" + Escaped(s) + "\""
  }

  function Digits(n: nat): (r: string)
    ensures |r| > 0 && forall c :: c in r ==> '0' <= c <= '9'
  {
    if n < 10 then [HEX[n]] else Digits(n / 10) + [HEX[n % 10]]
  }

  function Decimal(v: int): (r: string)
    ensures IsNumberText(r)
  {
    if v < 0 then "-" + Digits(-v) else Digits(v)
  }

  predicate IsNumberChar(c: char) {
    c == '-' || c == '+' || c == '.' || '0' <= c <= '9' || c == 'e' || c == 'E'
  }

  /** What the number reader accepts whole. */
  predicate IsNumberText(s: string) {
    s != "" && forall c :: c in s ==> IsNumberChar(c)
  }

  function QuotedList(v: seq<string>): (r: string)
    ensures '\n' !in r
  {
    if v == [] then "" else if |v| == 1 then Quoted(v[0]) else Quoted(v[0]) + "," + QuotedList(v[1..])
  }

  // ------------------------------------------------------------- reading

  predicate IsWs(c: char) {
    c == ' ' || c == '\n' || c == '\r' || c == '\t'
  }

  function SkipWs(u: string): (r: string)
    ensures |r| <= |u|
    ensures r == "" || !IsWs(r[0])
  {
    if u != "" && IsWs(u[0]) then SkipWs(u[1..]) else u
  }

  predicate Peek(u: string, c: char) {
    var v := SkipWs(u);
    v != "" && v[0] == c
  }

  /** What is left after an optional c. */
  function Consume(u: string, c: char): (r: string)
    ensures |r| <= |u|
    ensures Peek(u, c) ==> |r| < |u|
  {
    var v := SkipWs(u);
    if v != "" && v[0] == c then v[1..] else v
  }

  predicate IsSpace(c: char) {
    c == ' ' || '\t' <= c <= '\r'
  }

  function HexValue(c: char): int {
    if '0' <= c <= '9' then c as int - '0' as int
    else if 'a' <= c <= 'f' then c as int - 'a' as int + 10
    else if 'A' <= c <= 'F' then c as int - 'A' as int + 10
    else -1
  }

  function HexPrefix(s: string, acc: int): int
    decreases |s|
  {
    if s == "" || HexValue(s[0]) < 0 then acc else HexPrefix(s[1..], acc * 16 + HexValue(s[0]))
  }

  /** strtol with base 16: leading space, a sign, an optional 0x before a digit, then the digits. */
  function Strtol16(s: string): int
    decreases |s|
  {
    if s != "" && IsSpace(s[0]) then Strtol16(s[1..])
    else
      var neg := s != "" && s[0] == '-';
      var t := if s != "" && (s[0] == '-' || s[0] == '+') then s[1..] else s;
      var h := if |t| > 2 && t[0] == '0' && (t[1] == 'x' || t[1] == 'X') && HexValue(t[2]) >= 0 then t[2..] else t;
      if neg then -HexPrefix(h, 0) else HexPrefix(h, 0)
  }

  datatype Text = Text(value: string, rest: string)

  /** The unescaped characters up to the closing quote, or up to the end when there is none. */
  function ReadBody(u: string): (r: Text)
    ensures |r.rest| <= |u|
    decreases |u|
  {
    if u == "" then Text("", "")
    else if u[0] == '"' then Text("", u[1..])
    else if u[0] == '\\' && |u| > 1 then ReadEscape(u[1..])
    else
      var r := ReadBody(u[1..]);
      Text([u[0]] + r.value, r.rest)
  }

  function LowByte(code: int): char {
    (code % 256) as char
  }

  /** What follows a backslash, and then the rest of the body. */
  function ReadEscape(w: string): (r: Text)
    requires w != ""
    ensures |r.rest| <= |w|
    decreases |w|
  {
    if w[0] == 'u' && |w| > 4 then
      var code := Strtol16(w[1..5]);
      var r := ReadBody(w[5..]);
      if code < 0x80 then Text([LowByte(code)] + r.value, r.rest) else r
    else
      var c := if w[0] == 'n' then '\n' else if w[0] == 'r' then '\r' else if w[0] == 't' then '\t' else w[0];
      var r := ReadBody(w[1..]);
      Text([c] + r.value, r.rest)
  }

  /** A string, when one starts here. */
  function ReadString(u: string): (r: Text)
    requires Peek(u, '"')
    ensures |r.rest| < |u|
  {
    ReadBody(SkipWs(u)[1..])
  }

  function NumberPrefix(u: string): (n: nat)
    ensures n <= |u|
    ensures forall i :: 0 <= i < n ==> IsNumberChar(u[i])
    ensures n < |u| ==> !IsNumberChar(u[n])
  {
    if u != "" && IsNumberChar(u[0]) then 1 + NumberPrefix(u[1..]) else 0
  }

  /** The longest number text here, possibly empty. */
  function ReadNumber(u: string): (r: Text)
    ensures |r.rest| <= |u|
  {
    var v := SkipWs(u);
    var n := NumberPrefix(v);
    Text(v[..n], v[n..])
  }

  datatype Strings = Strings(value: seq<string>, rest: string)

  /** The elements after the opening bracket. */
  function ReadElements(u: string): (r: Strings)
    ensures |r.rest| <= |u|
    decreases |u|
  {
    if !Peek(u, ']') && SkipWs(u) != "" && Peek(u, '"') then
      var s := ReadString(u);
      var r := ReadElements(if Peek(s.rest, ',') then Consume(s.rest, ',') else SkipWs(s.rest));
      Strings([s.value] + r.value, r.rest)
    else Strings([], SkipWs(u))
  }

  function ReadArray(u: string): (r: Strings)
    ensures |r.rest| <= |u|
  {
    var r := ReadElements(Consume(u, '['));
    Strings(r.value, Consume(r.rest, ']'))
  }

  /** Past the bracket that brings the depth to zero; strings are skipped whole. */
  function SkipNested(u: string, depth: nat, open: char, close: char): (r: string)
    ensures |r| <= |u|
    decreases |u|
  {
    if u == "" || depth == 0 then u
    else if u[0] == '"' then SkipNested(ReadBody(u[1..]).rest, depth, open, close)
    else if u[0] == open then SkipNested(u[1..], depth + 1, open, close)
    else if u[0] == close then SkipNested(u[1..], depth - 1, open, close)
    else SkipNested(u[1..], depth, open, close)
  }

  function SkipValue(u: string): (r: string)
    ensures |r| <= |u|
  {
    var v := SkipWs(u);
    if v == "" then v
    else if v[0] == '"' then ReadBody(v[1..]).rest
    else if v[0] == '[' then SkipNested(v[1..], 1, '[', ']')
    else if v[0] == '{' then SkipNested(v[1..], 1, '{', '}')
    else ReadNumber(v).rest
  }

  // ------------------------------------------------------------ numbers

  const TWO53: int := 0x20_0000_0000_0000
  const INT64_MIN := -0x8000_0000_0000_0000
  const INT64_MAX := 0x7fff_ffff_ffff_ffff

  /** The distance between neighbouring doubles of this magnitude. */
  function Ulp(m: nat): (u: nat)
    ensures u >= 1
  {
    if m < TWO53 then 1 else 2 * Ulp(m / 2)
  }

  /** The double nearest to m, ties to the even multiple. */
  function RoundToDouble(m: nat): nat {
    var u := Ulp(m);
    var q, r := m / u, m % u;
    if 2 * r < u || (2 * r == u && q % 2 == 0) then q * u else (q + 1) * u
  }

  function DigitPrefix(s: string, acc: nat): nat
    decreases |s|
  {
    if s == "" || !('0' <= s[0] <= '9') then acc else DigitPrefix(s[1..], acc * 10 + (s[0] as int - '0' as int))
  }

  /** (int64_t)atof(s) of a text without an exponent; the cast of a value out of range yields the minimum. */
  function NumberToInt64(s: string): (v: int)
    ensures INT64_MIN <= v <= INT64_MAX
  {
    var neg := s != "" && s[0] == '-';
    var t := if s != "" && (s[0] == '-' || s[0] == '+') then s[1..] else s;
    var m: int := RoundToDouble(DigitPrefix(t, 0));
    var v := if neg then -m else m;
    if INT64_MIN <= v <= INT64_MAX then v else INT64_MIN
  }

  // --------------------------------------------------- strings round trip

  lemma ReadPlain(c: char, x: string)
    requires c != '"' && c != '\\'
    ensures ReadBody([c] + x) == Text([c] + ReadBody(x).value, ReadBody(x).rest)
  {
    assert ([c] + x)[1..] == x;
  }

  lemma ReadShortEscape(e: char, x: string)
    requires e != 'u'
    ensures ReadBody(['\\', e] + x) ==
      Text([if e == 'n' then '\n' else if e == 'r' then '\r' else if e == 't' then '\t' else e] + ReadBody(x).value,
           ReadBody(x).rest)
  {
    var u := ['\\', e] + x;
    assert u[1..] == [e] + x;
    assert u[1..][1..] == x;
  }

  lemma ReadUnicodeEscape(h: string, x: string)
    requires |h| == 4 && 0 <= Strtol16(h) < 0x80
    ensures ReadBody(['\\', 'u'] + h + x) == Text([Strtol16(h) as char] + ReadBody(x).value, ReadBody(x).rest)
  {
    hide Strtol16, ReadBody;
    var u, w := ['\\', 'u'] + h + x, ['u'] + h + x;
    assert u[1..] == w;
    BodyEscape(u);
    EscapeParts(h, x);
    UnicodeStep(w);
  }

  lemma BodyEscape(u: string)
    requires |u| > 1 && u[0] == '\\'
    ensures ReadBody(u) == ReadEscape(u[1..])
  {
    hide ReadEscape;
  }

  lemma EscapeParts(h: string, x: string)
    requires |h| == 4
    ensures var w := ['u'] + h + x; |w| > 4 && w[0] == 'u' && w[1..5] == h && w[5..] == x
  {
  }

  lemma UnicodeStep(w: string)
    requires |w| > 4 && w[0] == 'u' && 0 <= Strtol16(w[1..5]) < 0x80
    ensures ReadEscape(w) == Text([Strtol16(w[1..5]) as char] + ReadBody(w[5..]).value, ReadBody(w[5..]).rest)
  {
    hide Strtol16, ReadBody, LowByte;
    Ascii(Strtol16(w[1..5]));
  }

  lemma Ascii(code: int)
    requires 0 <= code < 0x80
    ensures LowByte(code) == code as char
  {
  }

  lemma HexDigit(d: nat)
    requires d < 16
    ensures HexValue(HEX[d]) == d && !IsSpace(HEX[d]) && HEX[d] != 'x' && HEX[d] != 'X'
    ensures d < 10 ==> '0' <= HEX[d] <= '9' && HEX[d] as int - '0' as int == d
  {
  }

  lemma HexStep(d: nat, s: string, acc: int)
    requires d < 16
    ensures HexPrefix([HEX[d]] + s, acc) == HexPrefix(s, acc * 16 + d)
  {
    HexDigit(d);
    assert ([HEX[d]] + s)[1..] == s;
  }

  lemma HexEnd(acc: int)
    ensures HexPrefix("", acc) == acc
  {
  }

  lemma ControlCode(d: nat)
    requires d < 0x20
    ensures Strtol16(['0', '0', HEX[d / 16], HEX[d % 16]]) == d
  {
    hide HexPrefix;
    var a, b := HEX[d / 16], HEX[d % 16];
    var s := ['0', '0', a, b];
    HexStep(0, [HEX[0], a, b], 0);
    HexStep(0, [a, b], 0);
    HexStep(d / 16, [b], 0);
    HexStep(d % 16, "", d / 16);
    assert s == [HEX[0]] + [HEX[0], a, b];
    assert [HEX[0], a, b] == [HEX[0]] + [a, b];
    assert [a, b] == [a] + [b];
    assert [b] == [b] + "";
    HexEnd(d / 16 * 16 + d % 16);
    assert HexPrefix(s, 0) == d;
  }

  lemma EscapeCharReads(c: char, x: string)
    ensures ReadBody(EscapeChar(c) + x) == Text([c] + ReadBody(x).value, ReadBody(x).rest)
  {
    hide ReadBody, Strtol16;
    if c == '"' || c == '\\' {
      ReadShortEscape(c, x);
    } else if c == '\n' {
      ReadShortEscape('n', x);
    } else if c == '\r' {
      ReadShortEscape('r', x);
    } else if c == '\t' {
      ReadShortEscape('t', x);
    } else if c as int < 0x20 {
      var d := c as int;
      var h := ['0', '0', HEX[d / 16], HEX[d % 16]];
      ControlCode(d);
      ReadUnicodeEscape(h, x);
      assert EscapeChar(c) == ['\\', 'u'] + h;
    } else {
      ReadPlain(c, x);
    }
  }

  /** Unescaping what was escaped gives the string back, whatever follows the closing quote. */
  lemma {:induction false} BodyRoundTrip(s: string, rest: string)
    ensures ReadBody(Escaped(s) + "\"" + rest) == Text(s, rest)
  {
    hide ReadBody, EscapeChar;
    if s == "" {
      assert Escaped(s) + "\"" + rest == ['"'] + rest;
      BodyEnd(rest);
    } else {
      BodyRoundTrip(s[1..], rest);
      AfterFirstChar(EscapeChar(s[0]), Escaped(s[1..]), rest);
      EscapeCharReads(s[0], Escaped(s[1..]) + "\"" + rest);
      assert [s[0]] + s[1..] == s;
    }
  }

  lemma BodyEnd(rest: string)
    ensures ReadBody(['"'] + rest) == Text("", rest)
  {
    assert (['"'] + rest)[1..] == rest;
  }

  lemma AfterFirstChar(e: string, more: string, rest: string)
    ensures (e + more) + "\"" + rest == e + (more + "\"" + rest)
  {
  }

  /** A suffix that starts with a visible character is where skipping white space stops. */
  lemma StartsWith(u: string, c: char)
    requires u != "" && u[0] == c && !IsWs(c)
    ensures SkipWs(u) == u && Peek(u, c) && Consume(u, c) == u[1..]
    ensures forall d :: d != c ==> !Peek(u, d)
  {
  }

  lemma StringRoundTrip(s: string, rest: string)
    ensures Peek(Quoted(s) + rest, '"') && SkipWs(Quoted(s) + rest) == Quoted(s) + rest
    ensures ReadString(Quoted(s) + rest) == Text(s, rest)
  {
    hide ReadBody;
    var u := Quoted(s) + rest;
    StartsWith(u, '"');
    assert u[1..] == Escaped(s) + "\"" + rest;
    BodyRoundTrip(s, rest);
  }

  // ----------------------------------------------------- lists round trip

  /** What follows the first element: a comma and the others, or the closing bracket. */
  function Tail(v: seq<string>, rest: string): string
    requires v != []
  {
    if |v| == 1 then "]" + rest else "," + (QuotedList(v[1..]) + "]" + rest)
  }

  lemma Regroup(q: string, more: string, rest: string)
    ensures q + "," + more + "]" + rest == q + ("," + (more + "]" + rest))
    ensures q + "]" + rest == q + ("]" + rest)
  {
  }

  lemma FirstOf(v: seq<string>, rest: string)
    requires v != []
    ensures QuotedList(v) + "]" + rest == Quoted(v[0]) + Tail(v, rest)
  {
    hide Quoted;
    Regroup(Quoted(v[0]), QuotedList(v[1..]), rest);
  }

  lemma AfterFirst(v: seq<string>, rest: string)
    requires v != []
    ensures var x := Tail(v, rest);
            (if Peek(x, ',') then Consume(x, ',') else SkipWs(x)) == QuotedList(v[1..]) + "]" + rest
  {
    hide Consume, Peek, SkipWs, QuotedList;
    var x := Tail(v, rest);
    if |v| == 1 {
      StartsWith(x, ']');
      NothingQuoted(v[1..]);
      assert QuotedList(v[1..]) + "]" + rest == x;
    } else {
      StartsWith(x, ',');
      assert x[1..] == QuotedList(v[1..]) + "]" + rest;
    }
  }

  lemma NothingQuoted(v: seq<string>)
    requires v == []
    ensures QuotedList(v) == ""
  {
  }

  lemma ElementsStep(u: string, s: string, x: string)
    requires Peek(u, '"') && ReadString(u) == Text(s, x)
    ensures ReadElements(u) ==
            var r := ReadElements(if Peek(x, ',') then Consume(x, ',') else SkipWs(x));
            Strings([s] + r.value, r.rest)
  {
    hide ReadString, SkipWs, Peek, Consume;
    PeekOther(u, '"', ']');
  }

  lemma NoElements(rest: string)
    ensures ReadElements("]" + rest) == Strings([], "]" + rest)
  {
    hide ReadString;
    StartsWith("]" + rest, ']');
  }

  lemma {:induction false} ElementsRoundTrip(v: seq<string>, rest: string)
    ensures ReadElements(QuotedList(v) + "]" + rest) == Strings(v, "]" + rest)
    decreases |v|
  {
    hide ReadString, ReadElements, SkipWs, Peek, Consume, Quoted, Tail;
    if v == [] {
      assert QuotedList(v) + "]" + rest == "]" + rest;
      NoElements(rest);
    } else {
      FirstOf(v, rest);
      AfterFirst(v, rest);
      StringRoundTrip(v[0], Tail(v, rest));
      ElementsStep(QuotedList(v) + "]" + rest, v[0], Tail(v, rest));
      ElementsRoundTrip(v[1..], rest);
      assert v == [v[0]] + v[1..];
    }
  }

  lemma PeekOther(u: string, c: char, d: char)
    requires Peek(u, c) && c != d
    ensures !Peek(u, d) && SkipWs(u) != ""
  {
  }

  lemma ArrayRoundTrip(v: seq<string>, rest: string)
    ensures ReadArray("[" + QuotedList(v) + "]" + rest) == Strings(v, rest)
  {
    hide ReadElements, QuotedList, SkipWs;
    var u := "[" + QuotedList(v) + "]" + rest;
    StartsWith(u, '[');
    assert u[1..] == QuotedList(v) + "]" + rest;
    ElementsRoundTrip(v, rest);
    StartsWith("]" + rest, ']');
    assert ("]" + rest)[1..] == rest;
  }

  // --------------------------------------------------- numbers round trip

  lemma {:induction false} NumberPrefixOf(t: string, rest: string)
    requires forall c :: c in t ==> IsNumberChar(c)
    requires rest == "" || !IsNumberChar(rest[0])
    ensures NumberPrefix(t + rest) == |t|
  {
    if t == "" {
      assert t + rest == rest;
    } else {
      assert (t + rest)[1..] == t[1..] + rest;
      NumberPrefixOf(t[1..], rest);
    }
  }

  lemma NumberRoundTrip(t: string, rest: string)
    requires IsNumberText(t)
    requires rest == "" || !IsNumberChar(rest[0])
    ensures ReadNumber(t + rest) == Text(t, rest)
  {
    assert t[0] in t;
    StartsWith(t + rest, t[0]);
    NumberPrefixOf(t, rest);
  }

  function Pow10(k: nat): nat {
    if k == 0 then 1 else 10 * Pow10(k - 1)
  }

  lemma PowStep()
    ensures Pow10(0) == 1 && Pow10(1) == 10 && forall k: nat :: Pow10(k + 1) == 10 * Pow10(k)
  {
  }

  lemma DigitStep(d: nat, rest: string, acc: nat)
    requires d < 10
    ensures DigitPrefix([HEX[d]] + rest, acc) == DigitPrefix(rest, acc * 10 + d)
  {
    HexDigit(d);
    assert ([HEX[d]] + rest)[1..] == rest;
  }

  /** n written behind a number, p being the power of ten it takes. */
  function Behind(acc: nat, p: nat, n: nat): nat {
    acc * p + n
  }

  lemma ShiftDigits(acc: nat, p: nat, n: nat)
    ensures Behind(acc, p, n / 10) * 10 + n % 10 == Behind(acc, 10 * p, n)
  {
    assert acc * (10 * p) == acc * p * 10;
  }

  /** Reading the digits of n and going on with whatever follows. */
  lemma {:induction false} DigitsRead(n: nat, rest: string, acc: nat)
    ensures DigitPrefix(Digits(n) + rest, acc) == DigitPrefix(rest, Behind(acc, Pow10(|Digits(n)|), n))
  {
    hide DigitPrefix, Pow10, Behind;
    PowStep();
    if n < 10 {
      DigitStep(n, rest, acc);
      OneDigit(acc, n);
    } else {
      var d := [HEX[n % 10]];
      DigitsRead(n / 10, d + rest, acc);
      assert Digits(n) + rest == Digits(n / 10) + (d + rest);
      var p := Pow10(|Digits(n / 10)|);
      DigitStep(n % 10, rest, Behind(acc, p, n / 10));
      ShiftDigits(acc, p, n);
    }
  }

  lemma OneDigit(acc: nat, n: nat)
    ensures acc * 10 + n == Behind(acc, 10, n)
  {
  }

  /** A magnitude is a double exactly when it is a multiple of its spacing. */
  predicate IsDouble(m: nat) {
    m % Ulp(m) == 0
  }

  lemma RoundingIsExact(m: nat)
    ensures RoundToDouble(m) == m <==> IsDouble(m)
  {
    var u := Ulp(m);
    assert m == m / u * u + m % u;
    assert (m / u + 1) * u == m / u * u + u;
  }

  function Magnitude(v: int): nat {
    if v < 0 then -v else v
  }

  lemma {:induction false} UlpAt(k: nat)
    ensures Ulp(TWO53 * Pow2(k)) == 2 * Pow2(k)
  {
    if k == 0 {
      assert Ulp(TWO53 / 2) == 1;
    } else {
      UlpAt(k - 1);
    }
  }

  function Pow2(k: nat): (p: nat)
    ensures p >= 1
  {
    if k == 0 then 1 else 2 * Pow2(k - 1)
  }

  lemma MinimumIsDouble()
    ensures IsDouble(-INT64_MIN)
  {
    UlpAt(10);
    assert Pow2(10) == 1024 by {
      assert Pow2(5) == 32;
      assert Pow2(9) == 16 * Pow2(5);
    }
  }

  lemma DigitsAlone(n: nat)
    ensures DigitPrefix(Digits(n), 0) == n
  {
    hide Digits;
    DigitsRead(n, "", 0);
    assert Digits(n) + "" == Digits(n);
  }

  lemma DecimalReads(v: int)
    ensures var s := Decimal(v); var t := if s[0] == '-' || s[0] == '+' then s[1..] else s;
            (s[0] == '-' <==> v < 0) && DigitPrefix(t, 0) == Magnitude(v)
  {
    hide Digits, DigitPrefix;
    var m := Magnitude(v);
    DigitsAlone(m);
    assert Digits(m)[0] in Digits(m);
    assert v < 0 ==> Decimal(v)[1..] == Digits(m);
  }

  /** A 64-bit integer survives printing and reading exactly when it is a double. */
  lemma IntegerRoundTrip(v: int)
    requires INT64_MIN <= v <= INT64_MAX
    ensures NumberToInt64(Decimal(v)) == v <==> IsDouble(Magnitude(v))
  {
    hide DigitPrefix, RoundToDouble, Ulp, IsDouble, Decimal;
    DecimalReads(v);
    RoundingIsExact(Magnitude(v));
    MinimumIsDouble();
  }

  /** In particular everything below 2^53 does. */
  lemma SmallIntegersSurvive(v: int)
    requires -TWO53 < v < TWO53
    ensures NumberToInt64(Decimal(v)) == v
  {
    IntegerRoundTrip(v);
  }

  /** 2^53 + 1 is the first one that does not. */
  lemma FirstLostInteger()
    ensures NumberToInt64(Decimal(TWO53 + 1)) != TWO53 + 1
  {
    hide NumberToInt64, Decimal;
    IntegerRoundTrip(TWO53 + 1);
    assert Ulp(TWO53 + 1) == 2 * Ulp((TWO53 + 1) / 2);
    assert Ulp((TWO53 + 1) / 2) == 1;
  }
}
