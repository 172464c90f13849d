/**
 * The notation of the JSON files character by character, what is not a record in it, and how its
 * numbers become integers.
 */
module JsonNotation {
  import opened Prelude
  import opened JsonText
  import opened JsonRecords

  // ------------------------------------------------------------- strings

  /** Which characters are escaped and how: RFC 8259, section 7. */
  lemma EscapesAre(c: char)
    ensures var e := EscapeChar(c);
            && (c == '"' ==> e == ['\\', '"']) && (c == '\\' ==> e == ['\\', '\\'])
            && (c == '\n' ==> e == ['\\', 'n']) && (c == '\r' ==> e == ['\\', 'r']) && (c == '\t' ==> e == ['\\', 't'])
            && (c >= ' ' && c != '"' && c != '\\' ==> e == [c])
            && (c < ' ' && c != '\n' && c != '\r' && c != '\t' ==> IsCode(e, c as int))
  {
    hide IsCode;
    if c < ' ' {
      CodeOf(c as int);
    }
  }

  /** The code written out: \u and four digits in lower case, the first two zero. */
  predicate IsCode(e: string, code: int) {
    && |e| == 6 && e[..4] == ['\\', 'u', '0', '0'] && IsLowerHex(e[4]) && IsLowerHex(e[5])
    && 16 * DigitOf(e[4]) + DigitOf(e[5]) == code
  }

  lemma CodeOf(code: nat)
    requires code < 32
    ensures IsCode(['\\', 'u', '0', '0', HEX[code / 16], HEX[code % 16]], code)
  {
    LowerDigit(code / 16);
    LowerDigit(code % 16);
  }

  lemma LowerDigit(d: nat)
    requires d < 16
    ensures IsLowerHex(HEX[d]) && DigitOf(HEX[d]) == d
  {
  }

  /** A hexadecimal digit in lower case. */
  predicate IsLowerHex(c: char) {
    '0' <= c <= '9' || 'a' <= c <= 'f'
  }

  /** The value of a hexadecimal digit. */
  function DigitOf(c: char): int {
    if c <= '9' then c as int - 48 else if c <= 'F' then c as int - 55 else c as int - 87
  }

  predicate IsHex(c: char) {
    '0' <= c <= '9' || 'a' <= c <= 'f' || 'A' <= c <= 'F'
  }

  /** Four hexadecimal digits are read as the number they write, in either case. */
  lemma {:induction false} FourDigits(h: string)
    requires |h| == 4 && IsHex(h[0]) && IsHex(h[1]) && IsHex(h[2]) && IsHex(h[3])
    ensures Strtol16(h) == 4096 * DigitOf(h[0]) + 256 * DigitOf(h[1]) + 16 * DigitOf(h[2]) + DigitOf(h[3])
  {
    hide HexPrefix, DigitOf;
    HexOf(h[0]);
    HexOf(h[1]);
    HexOf(h[2]);
    HexOf(h[3]);
    HexNext(h, 0);
    HexNext(h[1..], DigitOf(h[0]));
    HexNext(h[1..][1..], 16 * DigitOf(h[0]) + DigitOf(h[1]));
    HexNext(h[1..][1..][1..], 16 * (16 * DigitOf(h[0]) + DigitOf(h[1])) + DigitOf(h[2]));
    assert h[1..][1..][1..][1..] == "";
    HexEnd(16 * (16 * (16 * DigitOf(h[0]) + DigitOf(h[1])) + DigitOf(h[2])) + DigitOf(h[3]));
    NoPrefix(h);
  }

  lemma HexOf(c: char)
    ensures IsHex(c) ==> HexValue(c) == DigitOf(c) && 0 <= DigitOf(c) < 16
    ensures !IsHex(c) ==> HexValue(c) < 0
  {
  }

  lemma HexNext(s: string, acc: int)
    requires s != "" && IsHex(s[0])
    ensures HexPrefix(s, acc) == HexPrefix(s[1..], 16 * acc + DigitOf(s[0]))
  {
    HexOf(s[0]);
  }

  lemma NoPrefix(h: string)
    requires |h| == 4 && IsHex(h[0]) && IsHex(h[1])
    ensures Strtol16(h) == HexPrefix(h, 0)
  {
    hide HexPrefix;
  }

  /** White space before the digits is skipped, and what is read becomes one byte. */
  lemma CodeForms(s: string, code: int)
    ensures s != "" && s[0] as int in {9, 10, 11, 12, 13, 32} ==> Strtol16(s) == Strtol16(s[1..])
    ensures LowByte(code) as int < 256 && (code - LowByte(code) as int) % 256 == 0
  {
    hide HexPrefix;
  }

  /** What is skipped between tokens, and what a number is made of. */
  lemma AlphabetsAre(c: char)
    ensures IsWs(c) <==> c in [' ', '\n', '\r', '\t']
    ensures IsNumberChar(c) <==> c in "0123456789+-.eE"
  {
  }

  // ------------------------------------------------------------- records

  /** A line that does not begin with a brace is no record. */
  lemma LineStops<R, K>(sc: Schema<R, K>, line: string, empty: R)
    requires SkipWs(line) == "" || SkipWs(line)[0] != '{'
    ensures ReadRecord(sc, line, empty) == None
  {
    hide ReadFields;
  }

  /**
   * Fields end at a closing brace; before it, anything but a quoted key with a colon behind it makes the
   * line no record, whatever came before.
   */
  lemma FieldStops<R, K>(sc: Schema<R, K>, u: string, r: R)
    ensures var v := SkipWs(u);
            && (v != "" && v[0] == '}' ==> ReadFields(sc, u, r) == Some(Parsed(r, v)))
            && (v == "" || (v[0] != '}' && v[0] != '"') ==> ReadFields(sc, u, r) == None)
            && (v != "" && v[0] == '"' ==>
                  var w := SkipWs(ReadBody(v[1..]).rest);
                  w == "" || w[0] != ':' ==> ReadFields(sc, u, r) == None)
  {
    hide ReadBody, ReadValue, Schema.Set, Schema.KindOf;
  }

  // ------------------------------------------------------------- numbers

  /** Rounding goes to a nearest multiple of the spacing, and between two to the even one. */
  lemma {:induction false} NearestDouble(m: nat)
    ensures var u, d := Ulp(m), RoundToDouble(m);
            && d % u == 0 && 2 * (if d < m then m - d else d - m) <= u
            && (2 * (if d < m then m - d else d - m) == u ==> (d / u) % 2 == 0)
  {
    hide Ulp;
    var u := Ulp(m);
    var q, r := m / u, m % u;
    assert m == q * u + r;
    NextMultiple(q, u);
    MultipleOf(q, u);
    MultipleOf(q + 1, u);
  }

  lemma NextMultiple(q: nat, u: nat)
    ensures (q + 1) * u == q * u + u
  {
  }

  lemma MultipleOf(q: nat, u: nat)
    requires u > 0
    ensures (q * u) / u == q && (q * u) % u == 0
  {
    var a := (q * u) / u;
    assert a * u <= q * u < a * u + u;
    NextMultiple(a, u);
    NextMultiple(q, u);
    if a < q {
      Larger(a + 1, q, u);
    } else if a > q {
      Larger(q + 1, a, u);
    }
  }

  lemma Larger(a: nat, b: nat, u: nat)
    requires a <= b
    ensures a * u <= b * u
  {
  }

  /** The spacing is 1 up to 2^53, and then doubles whenever the magnitude does. */
  lemma {:induction false} SpacingIs(m: nat)
    ensures m < 9_007_199_254_740_992 ==> Ulp(m) == 1
    ensures m >= 9_007_199_254_740_992 ==> Ulp(m) == 2 * Ulp(m / 2)
  {
  }

  /** What a 64-bit integer is after printing and reading: the nearest double, cut off at 2^63. */
  lemma {:induction false} KeptIs(v: int)
    requires -0x8000_0000_0000_0000 <= v < 0x8000_0000_0000_0000
    ensures var d := RoundToDouble(if v < 0 then -v else v);
            && (v < 0 && d <= 0x8000_0000_0000_0000 ==> NumberToInt64(Decimal(v)) + d == 0)
            && (v >= 0 && d < 0x8000_0000_0000_0000 ==> NumberToInt64(Decimal(v)) == d)
            && (d > 0x8000_0000_0000_0000 || (v >= 0 && d == 0x8000_0000_0000_0000) ==>
                  NumberToInt64(Decimal(v)) == -0x8000_0000_0000_0000)
  {
    hide DigitPrefix, RoundToDouble, Decimal;
    DecimalReads(v);
  }
}
