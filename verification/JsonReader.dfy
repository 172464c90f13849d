/** The record reader: a cursor over one line, advanced in place. */
module JsonReader {
  import opened JsonText

  lemma Regroup3(a: string, b: string, c: string)
    ensures a + (b + c) == (a + b) + c
  {
  }

  lemma Uncons(u: string)
    requires u != ""
    ensures u == [u[0]] + u[1..]
  {
  }

  class Reader {
    const data: string
    var p: nat

    ghost predicate Valid()
      reads this
    {
      p <= |data|
    }

    /** The text after the cursor. */
    ghost function Rest(): (r: string)
      requires Valid()
      reads this
      ensures |r| == |data| - p
    {
      data[p..]
    }

    constructor (line: string)
      ensures Valid() && data == line && Rest() == line
    {
      data := line;
      p := 0;
    }

    method Advance() returns (c: char)
      requires Valid() && Rest() != ""
      modifies this
      ensures Valid() && c == old(Rest())[0] && Rest() == old(Rest())[1..]
    {
      c := data[p];
      assert Rest()[1..] == data[p + 1..];
      p := p + 1;
    }

    method SkipWhite()
      requires Valid()
      modifies this
      ensures Valid() && Rest() == SkipWs(old(Rest()))
    {
      while p < |data| && IsWs(data[p])
        invariant Valid() && SkipWs(Rest()) == SkipWs(old(Rest()))
        decreases |data| - p
      {
        var c := Advance();
      }
    }

    method ConsumeChar(c: char) returns (ok: bool)
      requires Valid()
      modifies this
      ensures Valid() && ok == Peek(old(Rest()), c) && Rest() == Consume(old(Rest()), c)
    {
      SkipWhite();
      ok := p < |data| && data[p] == c;
      if ok {
        assert Rest()[1..] == data[p + 1..];
        p := p + 1;
      }
    }

    method PeekChar(c: char) returns (ok: bool)
      requires Valid()
      modifies this
      ensures Valid() && ok == Peek(old(Rest()), c) && Rest() == SkipWs(old(Rest()))
    {
      SkipWhite();
      ok := p < |data| && data[p] == c;
    }

    /** The escape after a backslash, with at least one character left. */
    method ReadEscape() returns (out: string)
      requires Valid() && |Rest()| > 1 && Rest()[0] == '\\'
      modifies this
      ensures Valid() && |Rest()| < |old(Rest())|
      ensures ReadBody(old(Rest())) == Text(out + ReadBody(Rest()).value, ReadBody(Rest()).rest)
    {
      ghost var u := Rest();
      p := p + 1;
      assert Rest() == u[1..];
      var e := data[p];
      if e == 'u' && p + 4 < |data| {
        var hex := data[p + 1..p + 5];
        assert u[1..][1..5] == hex;
        var code := Strtol16(hex);
        out := if code < 0x80 then [LowByte(code)] else "";
        assert u[1..][5..] == data[p + 5..];
        p := p + 5;
      } else {
        out := [if e == 'n' then '\n' else if e == 'r' then '\r' else if e == 't' then '\t' else e];
        assert u[1..][1..] == data[p + 1..];
        p := p + 1;
      }
    }

    /** One character or escape of a string body. */
    method ReadBodyStep() returns (out: string)
      requires Valid() && Rest() != "" && Rest()[0] != '"'
      modifies this
      ensures Valid() && |Rest()| < |old(Rest())|
      ensures ReadBody(old(Rest())) == Text(out + ReadBody(Rest()).value, ReadBody(Rest()).rest)
    {
      if data[p] == '\\' && p + 1 < |data| {
        out := ReadEscape();
      } else {
        var c := Advance();
        out := [c];
      }
    }

    /** The rest of a string whose opening quote was just consumed. */
    method ReadBodyToEnd() returns (out: string)
      requires Valid()
      modifies this
      ensures Valid() && Text(out, Rest()) == ReadBody(old(Rest()))
    {
      BodyEnds(Rest());
      hide ReadBody;
      out := "";
      ghost var body := ReadBody(Rest());
      while p < |data| && data[p] != '"'
        invariant Valid()
        invariant body == Text(out + ReadBody(Rest()).value, ReadBody(Rest()).rest)
        decreases |data| - p
      {
        var c := ReadBodyStep();
        Regroup3(out, c, ReadBody(Rest()).value);
        out := out + c;
      }
      BodyEnds(Rest());
      if p < |data| && data[p] == '"' {
        var q := Advance();
      }
    }

    /** out is only meaningful when a string starts here. */
    method ReadStr() returns (ok: bool, out: string)
      requires Valid()
      modifies this
      ensures Valid() && ok == Peek(old(Rest()), '"')
      ensures if ok then Text(out, Rest()) == ReadString(old(Rest())) else Rest() == SkipWs(old(Rest()))
    {
      hide ReadBody;
      out := "";
      SkipWhite();
      if p >= |data| || data[p] != '"' {
        return false, out;
      }
      var q := Advance();
      out := ReadBodyToEnd();
      ok := true;
    }

    /** The number characters at the cursor, possibly none. */
    method TakeNumber() returns (text: string)
      requires Valid()
      modifies this
      ensures Valid() && old(Rest()) == text + Rest()
      ensures forall c :: c in text ==> IsNumberChar(c)
      ensures Rest() == "" || !IsNumberChar(Rest()[0])
    {
      text := "";
      while p < |data| && IsNumberChar(data[p])
        invariant Valid() && old(Rest()) == text + Rest()
        invariant forall c :: c in text ==> IsNumberChar(c)
        decreases |data| - p
      {
        ghost var u := Rest();
        var c := Advance();
        Uncons(u);
        Regroup3(text, [c], u[1..]);
        text := text + [c];
      }
    }

    /** The number text here; ok when it is not empty. */
    method ReadNum() returns (ok: bool, text: string)
      requires Valid()
      modifies this
      ensures Valid() && Text(text, Rest()) == ReadNumber(old(Rest())) && ok == (text != "")
    {
      hide IsNumberChar, SkipWs;
      SkipWhite();
      text := TakeNumber();
      NumberPrefixOf(text, Rest());
      ok := text != "";
    }

    method ReadArr() returns (v: seq<string>)
      requires Valid()
      modifies this
      ensures Valid() && Strings(v, Rest()) == ReadArray(old(Rest()))
    {
      hide ReadString, SkipWs, Peek, Consume, ReadElements;
      var open := ConsumeChar('[');
      v := [];
      ghost var all := ReadElements(Rest());
      var more := true;
      while more
        invariant Valid()
        invariant var r := ReadElements(Rest());
                  all == if more then Strings(v + r.value, r.rest) else Strings(v, Rest())
        decreases more, |data| - p
      {
        var s: string;
        more, s := ReadElement();
        if more {
          v := v + [s];
        }
      }
      var closed := ConsumeChar(']');
    }

    /** The next element of a list and the comma after it; more is false at the end of the list. */
    method ReadElement() returns (more: bool, s: string)
      requires Valid()
      modifies this
      ensures Valid() && more == (!Peek(old(Rest()), ']') && Peek(old(Rest()), '"'))
      ensures more ==> |Rest()| < |old(Rest())|
      ensures if more then
                ReadElements(old(Rest())) == Strings([s] + ReadElements(Rest()).value, ReadElements(Rest()).rest)
              else ReadElements(old(Rest())) == Strings([], Rest())
    {
      hide ReadString, SkipWs, Peek, Consume;
      ghost var u := Rest();
      SkipTwice(u);
      s := "";
      PeekNotEmpty(u);
      var close := PeekChar(']');
      if close || p >= |data| {
        return false, s;
      }
      more, s := ReadStr();
      if !more {
        return;
      }
      SkipTwice(ReadString(u).rest);
      var comma := PeekChar(',');
      if comma {
        comma := ConsumeChar(',');
      }
    }

    method SkipBrackets(open: char, close: char)
      requires Valid() && open != close
      modifies this
      ensures Valid() && Rest() == SkipNested(old(Rest()), 1, open, close)
    {
      var depth := 1;
      while p < |data| && depth > 0
        invariant Valid() && depth >= 0
        invariant SkipNested(Rest(), depth, open, close) == SkipNested(old(Rest()), 1, open, close)
        decreases |data| - p
      {
        assert Rest()[1..] == data[p + 1..];
        if data[p] == '"' {
          var ok, s := ReadStr();
        } else {
          if data[p] == open {
            depth := depth + 1;
          } else if data[p] == close {
            depth := depth - 1;
          }
          p := p + 1;
        }
      }
    }

    method Skip()
      requires Valid()
      modifies this
      ensures Valid() && Rest() == SkipValue(old(Rest()))
    {
      SkipWhite();
      if p >= |data| {
        return;
      }
      if data[p] == '"' {
        var ok, s := ReadStr();
      } else if data[p] == '[' || data[p] == '{' {
        var list := data[p] == '[';
        assert Rest()[1..] == data[p + 1..];
        p := p + 1;
        if list {
          SkipBrackets('[', ']');
        } else {
          SkipBrackets('{', '}');
        }
      } else {
        SkipTwice(old(Rest()));
        var ok, t := ReadNum();
      }
    }
  }

  lemma BodyEnds(u: string)
    ensures u == "" ==> ReadBody(u) == Text("", "")
    ensures u != "" && u[0] == '"' ==> ReadBody(u) == Text("", u[1..])
  {
  }

  lemma PeekNotEmpty(u: string)
    ensures Peek(u, '"') ==> SkipWs(u) != "" && |SkipWs(u)| > 0
  {
  }

  /** Skipping white space twice is skipping it once. */
  lemma SkipTwice(u: string)
    ensures SkipWs(SkipWs(u)) == SkipWs(u)
    ensures forall c :: Peek(SkipWs(u), c) == Peek(u, c) && Consume(SkipWs(u), c) == Consume(u, c)
    ensures Peek(u, '"') ==> ReadString(SkipWs(u)) == ReadString(u)
  {
  }
}
