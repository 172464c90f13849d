/** Printing and parsing records in place, and whole files of them, one record a line. */
module JsonFiles {
  import opened Prelude
  import opened JsonText
  import opened JsonReader
  import opened JsonRecords

  // ------------------------------------------------------------ printing

  method JsEscape(s: string) returns (out: string)
    ensures out == Escaped(s)
  {
    out := "";
    for i := 0 to |s|
      invariant out + Escaped(s[i..]) == Escaped(s)
    {
      assert s[i..][1..] == s[i + 1..];
      out := out + EscapeChar(s[i]);
    }
  }

  lemma {:induction false} ShowFieldsAppend(fs: seq<Field>, f: Field)
    ensures ShowFields(fs + [f]) == if fs == [] then ShowField(f) else ShowFields(fs) + "," + ShowField(f)
  {
    hide ShowField;
    if fs == [] {
      assert fs + [f] == [f];
    } else {
      assert (fs + [f])[1..] == fs[1..] + [f];
      ShowFieldsAppend(fs[1..], f);
    }
  }

  lemma {:induction false} QuotedListAppend(v: seq<string>, x: string)
    ensures QuotedList(v + [x]) == if v == [] then Quoted(x) else QuotedList(v) + "," + Quoted(x)
  {
    hide Quoted;
    if v == [] {
      assert v + [x] == [x];
    } else {
      assert (v + [x])[1..] == v[1..] + [x];
      QuotedListAppend(v[1..], x);
    }
  }

  method ListText(v: seq<string>) returns (list: string)
    ensures list == QuotedList(v)
  {
    hide Quoted, QuotedList;
    QuotedNothing();
    list := "";
    for i := 0 to |v|
      invariant list == QuotedList(v[..i])
    {
      assert v[..i + 1] == v[..i] + [v[i]];
      QuotedListAppend(v[..i], v[i]);
      var e := JsEscape(v[i]);
      QuotedIs(v[i], e);
      list := list + (if i == 0 then "" else ",") + ("\"" + e + "\"");
    }
    assert v[..|v|] == v;
  }

  lemma QuotedNothing()
    ensures QuotedList([]) == ""
  {
  }

  lemma QuotedIs(s: string, e: string)
    requires e == Escaped(s)
    ensures "\"" + e + "\"" == Quoted(s)
  {
  }

  lemma NoFieldsShown()
    ensures ShowFields([]) == ""
  {
  }

  lemma NoFields<R, K>(sc: Schema<R, K>, keys: seq<K>, r: R)
    ensures Fields(sc, keys[..0], r) == []
  {
  }

  lemma FieldsStep<R, K>(sc: Schema<R, K>, keys: seq<K>, r: R, i: nat, f: Field)
    requires i < |keys| && f == Field(sc.text(keys[i]), sc.get(r, keys[i]))
    ensures Fields(sc, keys[..i], r) + [f] == Fields(sc, keys[..i + 1], r)
  {
    assert forall j :: 0 <= j < i ==> keys[..i + 1][j] == keys[..i][j];
  }

  /** The line under construction. */
  class Printer {
    var out: string
    var first: bool
    ghost var fields: seq<Field>

    ghost predicate Valid()
      reads this
    {
      out == "{" + ShowFields(fields) && first == (fields == [])
    }

    constructor ()
      ensures Valid() && fields == []
    {
      out := "{";
      first := true;
      fields := [];
    }

    /** The comma, the key and the colon; the value is appended by the caller. */
    method AddText(k: string, text: string, ghost v: Value)
      requires Valid() && text == ShowValue(v)
      modifies this
      ensures Valid() && fields == old(fields) + [Field(k, v)]
    {
      NoFieldsShown();
      hide ShowFields, ShowValue;
      ShowFieldsAppend(fields, Field(k, v));
      ghost var shown := ShowFields(fields);
      assert "\"" + k + "\":" + text == ShowField(Field(k, v));
      assert "{" + (shown + "," + ShowField(Field(k, v))) == "{" + shown + "," + ShowField(Field(k, v));
      if !first {
        out := out + ",";
      }
      first := false;
      out := out + "\"" + k + "\":" + text;
      fields := fields + [Field(k, v)];
    }

    method AddStr(k: string, v: string)
      requires Valid()
      modifies this
      ensures Valid() && fields == old(fields) + [Field(k, Str(v))]
    {
      var e := JsEscape(v);
      AddText(k, "\"" + e + "\"", Str(v));
    }

    /** text is what "%.6g" makes of the float. */
    method AddNum(k: string, text: string)
      requires Valid()
      modifies this
      ensures Valid() && fields == old(fields) + [Field(k, Num(text))]
    {
      AddText(k, text, Num(text));
    }

    method AddInt(k: string, v: int)
      requires Valid()
      modifies this
      ensures Valid() && fields == old(fields) + [Field(k, Int(v))]
    {
      AddText(k, Decimal(v), Int(v));
    }

    method AddArr(k: string, v: seq<string>)
      requires Valid()
      modifies this
      ensures Valid() && fields == old(fields) + [Field(k, Arr(v))]
    {
      hide ShowFields;
      var list := ListText(v);
      AddText(k, "[" + list + "]", Arr(v));
    }

    method Close() returns (line: string)
      requires Valid()
      ensures line == ShowRecord(fields)
    {
      line := out + "}";
    }
  }

  // ------------------------------------------------------------- parsing

  method ReadValueAs(jr: Reader, kind: Kind) returns (v: Value)
    requires jr.Valid()
    modifies jr
    ensures jr.Valid() && Read(v, jr.Rest()) == ReadValue(kind, old(jr.Rest()))
  {
    v := Absent;
    match kind
    case KStr =>
      var ok, s := jr.ReadStr();
      if ok {
        v := Str(s);
      }
    case KNum =>
      var ok, t := jr.ReadNum();
      if ok {
        v := Num(t);
      }
    case KInt =>
      var ok, t := jr.ReadNum();
      if ok {
        v := Int(NumberToInt64(t));
      }
    case KArr =>
      var l := jr.ReadArr();
      v := Arr(l);
    case KSkip =>
      jr.Skip();
  }

  /** One "key": value pair and the comma after it. */
  method ReadPair<R, K>(jr: Reader, sc: Schema<R, K>, r: R) returns (ok: bool, r': R)
    requires jr.Valid() && !Peek(jr.Rest(), '}')
    modifies jr
    ensures jr.Valid() && (ok ==> |jr.Rest()| < |old(jr.Rest())|)
    ensures ReadFields(sc, old(jr.Rest()), r) == if ok then ReadFields(sc, jr.Rest(), r') else None
  {
    hide ReadString, ReadValue, Peek, Consume, SkipWs, Schema.KindOf, Schema.Set;
    ghost var u := jr.Rest();
    r' := r;
    var k: string;
    ok, k := jr.ReadStr();
    if !ok {
      return;
    }
    ok := jr.ConsumeChar(':');
    if !ok {
      return;
    }
    var v := ReadValueAs(jr, sc.KindOf(k));
    if v != Absent {
      r' := sc.Set(r, k, v);
    }
    SkipTwice(jr.Rest());
    var comma := jr.PeekChar(',');
    if comma {
      comma := jr.ConsumeChar(',');
    }
    ok := true;
  }

  method ParseLine<R, K>(sc: Schema<R, K>, line: string, empty: R) returns (res: Option<R>)
    ensures res == ReadRecord(sc, line, empty)
  {
    hide ReadFields, Peek, Consume, SkipWs;
    var jr := new Reader(line);
    var ok := jr.ConsumeChar('{');
    if !ok {
      return None;
    }
    var r := empty;
    ghost var all := ReadFields(sc, jr.Rest(), empty);
    var done := false;
    while !done
      invariant jr.Valid()
      invariant if done then all == Some(Parsed(r, jr.Rest())) else all == ReadFields(sc, jr.Rest(), r)
      decreases !done, |jr.data| - jr.p
    {
      ghost var u := jr.Rest();
      SkipTwice(u);
      ReadFieldsSkipsWs(sc, u, r);
      done := jr.PeekChar('}');
      if !done {
        ok, r := ReadPair(jr, sc, r);
        if !ok {
          return None;
        }
      }
    }
    ok := jr.ConsumeChar('}');
    res := Some(r);
  }

  lemma ReadFieldsSkipsWs<R, K>(sc: Schema<R, K>, u: string, r: R)
    ensures ReadFields(sc, SkipWs(u), r) == ReadFields(sc, u, r)
    ensures Peek(u, '}') ==> ReadFields(sc, u, r) == Some(Parsed(r, SkipWs(u)))
  {
    SkipTwice(u);
  }

  // --------------------------------------------------------------- files

  function IndexOfNewline(s: string): (i: nat)
    ensures i <= |s| && '\n' !in s[..i] && (i < |s| ==> s[i] == '\n')
  {
    if s == "" || s[0] == '\n' then 0
    else
      var i := IndexOfNewline(s[1..]);
      assert s[..i + 1] == [s[0]] + s[1..][..i];
      i + 1
  }

  /** The lines getline yields. */
  function Lines(text: string): seq<string>
    decreases |text|
  {
    if text == "" then []
    else
      var i := IndexOfNewline(text);
      if i == |text| then [text] else [text[..i]] + Lines(text[i + 1..])
  }

  /** The records of a file entered into m; a later record replaces an earlier one with the same key. */
  function LoadLines<R>(parse: string -> Option<R>, key: R -> string, lines: seq<string>,
                        m: map<string, R>): map<string, R> {
    if lines == [] then m
    else match parse(lines[0])
      case Some(r) => LoadLines(parse, key, lines[1..], m[key(r) := r])
      case None => LoadLines(parse, key, lines[1..], m)
  }

  function SaveLines<R>(show: R -> string, rs: seq<R>): string {
    if rs == [] then "" else show(rs[0]) + "\n" + SaveLines(show, rs[1..])
  }

  function LoadAll<R>(reread: R -> Option<R>, key: R -> string, rs: seq<R>, m: map<string, R>): map<string, R> {
    if rs == [] then m
    else match reread(rs[0])
      case Some(r) => LoadAll(reread, key, rs[1..], m[key(r) := r])
      case None => LoadAll(reread, key, rs[1..], m)
  }

  lemma IndexOfFirst(s: string, rest: string)
    requires '\n' !in s
    ensures IndexOfNewline(s + "\n" + rest) == |s|
  {
    var u := s + "\n" + rest;
    var i := IndexOfNewline(u);
    assert forall k :: 0 <= k < i ==> u[k] in u[..i];
    assert u[|s|] == '\n' && forall k :: 0 <= k < |s| ==> u[k] == s[k];
  }

  /** Loading a saved file is rereading its records one by one. */
  lemma {:induction false} LoadSaved<R>(show: R -> string, parse: string -> Option<R>, key: R -> string,
                                        reread: R -> Option<R>,
                                        rs: seq<R>, m: map<string, R>)
    requires forall r :: r in rs ==> '\n' !in show(r) && parse(show(r)) == reread(r)
    ensures LoadLines(parse, key, Lines(SaveLines(show, rs)), m) == LoadAll(reread, key, rs, m)
  {
    if rs != [] {
      var s, rest := show(rs[0]), SaveLines(show, rs[1..]);
      var u := s + "\n" + rest;
      assert rs[0] in rs && forall r :: r in rs[1..] ==> r in rs;
      IndexOfFirst(s, rest);
      assert u[..|s|] == s && u[|s| + 1..] == rest;
      assert Lines(u) == [s] + Lines(rest);
      assert ([s] + Lines(rest))[1..] == Lines(rest);
      match reread(rs[0])
      case Some(r) => LoadSaved(show, parse, key, reread, rs[1..], m[key(r) := r]);
      case None => LoadSaved(show, parse, key, reread, rs[1..], m);
    }
  }

  /** rs lists the values of m, each once, under the key they carry. */
  ghost predicate Enumerates<R>(rs: seq<R>, m: map<string, R>, key: R -> string) {
    && (forall i, j :: 0 <= i < j < |rs| ==> key(rs[i]) != key(rs[j]))
    && (forall i :: 0 <= i < |rs| ==> key(rs[i]) in m && m[key(rs[i])] == rs[i])
    && (forall k :: k in m ==> exists i :: 0 <= i < |rs| && key(rs[i]) == k)
  }

  /** Reloading records with distinct keys: those that can be reread are there, under their own key. */
  lemma {:induction false} LoadAllMembers<R>(reread: R -> Option<R>, key: R -> string, rs: seq<R>, m: map<string, R>)
    requires forall i, j :: 0 <= i < j < |rs| ==> key(rs[i]) != key(rs[j])
    requires forall i :: 0 <= i < |rs| && reread(rs[i]).Some? ==> key(reread(rs[i]).value) == key(rs[i])
    ensures var l := LoadAll(reread, key, rs, m);
            && (forall i :: 0 <= i < |rs| && reread(rs[i]).Some? ==>
                  key(rs[i]) in l && l[key(rs[i])] == reread(rs[i]).value)
            && (forall k :: k in m && (forall i :: 0 <= i < |rs| ==> key(rs[i]) != k) ==> k in l && l[k] == m[k])
            && (forall k :: k in l ==> k in m || exists i :: 0 <= i < |rs| && key(rs[i]) == k && reread(rs[i]).Some?)
  {
    if rs != [] {
      var m' := if reread(rs[0]).Some? then m[key(rs[0]) := reread(rs[0]).value] else m;
      LoadAllMembers(reread, key, rs[1..], m');
      assert forall i :: 0 <= i < |rs| - 1 ==> rs[1..][i] == rs[i + 1];
      assert forall i :: 0 <= i < |rs| - 1 ==> key(rs[1..][i]) != key(rs[0]);
      var l := LoadAll(reread, key, rs, m);
      forall i | 0 <= i < |rs| && reread(rs[i]).Some?
        ensures key(rs[i]) in l && l[key(rs[i])] == reread(rs[i]).value
      {
        if i > 0 {
          assert rs[i] == rs[1..][i - 1];
        } else {
          assert key(rs[0]) in m';
        }
      }
      forall k | k in l
        ensures k in m || exists i :: 0 <= i < |rs| && key(rs[i]) == k && reread(rs[i]).Some?
      {
        if k !in m' {
          var i :| 0 <= i < |rs[1..]| && key(rs[1..][i]) == k && reread(rs[1..][i]).Some?;
          assert rs[i + 1] == rs[1..][i];
        }
      }
    }
  }

  /**
   * Saving a map in any order and loading the file rebuilds the map, with every record as it is
   * reread and without those that cannot be.
   */
  lemma FileRoundTrip<R>(show: R -> string, parse: string -> Option<R>, key: R -> string, reread: R -> Option<R>,
                         rs: seq<R>, m: map<string, R>)
    requires Enumerates(rs, m, key)
    requires forall r :: r in rs ==> '\n' !in show(r) && parse(show(r)) == reread(r)
    requires forall r :: r in rs && reread(r).Some? ==> key(reread(r).value) == key(r)
    ensures LoadLines(parse, key, Lines(SaveLines(show, rs)), map[]) ==
      map k | k in m && reread(m[k]).Some? :: reread(m[k]).value
  {
    LoadSaved(show, parse, key, reread, rs, map[]);
    LoadedExactly(key, reread, rs, m);
  }

  lemma LoadedExactly<R>(key: R -> string, reread: R -> Option<R>, rs: seq<R>, m: map<string, R>)
    requires Enumerates(rs, m, key)
    requires forall r :: r in rs && reread(r).Some? ==> key(reread(r).value) == key(r)
    ensures LoadAll(reread, key, rs, map[]) == map k | k in m && reread(m[k]).Some? :: reread(m[k]).value
  {
    hide LoadAll;
    LoadAllMembers(reread, key, rs, map[]);
    var l := LoadAll(reread, key, rs, map[]);
    forall k
      ensures k in l <==> k in m && reread(m[k]).Some?
      ensures k in l ==> l[k] == reread(m[k]).value
    {
      if k in m {
        var i :| 0 <= i < |rs| && key(rs[i]) == k;
      }
    }
  }

  method SaveRecords<R>(show: R -> string, rs: seq<R>) returns (out: string)
    ensures out == SaveLines(show, rs)
  {
    out := "";
    for i := 0 to |rs|
      invariant out + SaveLines(show, rs[i..]) == SaveLines(show, rs)
    {
      assert rs[i..][1..] == rs[i + 1..];
      out := out + show(rs[i]) + "\n";
    }
  }

  /** One record a line; lines that are empty or do not hold a record with a key are passed over. */
  method LoadRecord<R, K>(sc: Schema<R, K>, key: R -> string, empty: R, line: string, m: map<string, R>)
    returns (m': map<string, R>)
    ensures var r := ParseKeyed(sc, key, empty, line); m' == if r.Some? then m[key(r.value) := r.value] else m
  {
    hide ReadRecord;
    EmptyLineHoldsNothing(sc, empty);
    m' := m;
    if line != "" {
      var r := ParseLine(sc, line, empty);
      if r.Some? && key(r.value) != "" {
        m' := m[key(r.value) := r.value];
      }
    }
  }

  method LoadRecords<R, K>(sc: Schema<R, K>, key: R -> string, empty: R, text: string) returns (m: map<string, R>)
    ensures m == LoadLines(line => ParseKeyed(sc, key, empty, line), key, Lines(text), map[])
  {
    hide ReadRecord, ParseKeyed, Lines, LoadLines, IndexOfNewline;
    var parse := (line: string) => ParseKeyed(sc, key, empty, line);
    m := map[];
    var p := 0;
    ghost var all := LoadLines(parse, key, Lines(text), m);
    assert text[0..] == text;
    while p < |text|
      invariant 0 <= p <= |text|
      invariant LoadLines(parse, key, Lines(text[p..]), m) == all
    {
      var u := text[p..];
      var i := IndexOfNewline(u);
      var line := u[..i];
      LoadOneLine(parse, key, u, m);
      m := LoadRecord(sc, key, empty, line, m);
      if i < |u| {
        SliceOfSlice(text, p, |text|, p + i + 1, |text|);
        p := p + i + 1;
      } else {
        p := |text|;
        assert text[p..] == "";
      }
    }
    NoMoreLines(parse, key, m);
    assert text[|text|..] == "";
  }

  lemma NoMoreLines<R>(parse: string -> Option<R>, key: R -> string, m: map<string, R>)
    ensures LoadLines(parse, key, Lines(""), m) == m
  {
  }

  lemma EmptyLineHoldsNothing<R, K>(sc: Schema<R, K>, empty: R)
    ensures ReadRecord(sc, "", empty) == None
  {
  }

  lemma LoadOneLine<R>(parse: string -> Option<R>, key: R -> string, u: string, m: map<string, R>)
    requires u != ""
    ensures var i := IndexOfNewline(u);
            var r := parse(u[..i]);
            LoadLines(parse, key, Lines(u), m) ==
              LoadLines(parse, key, Lines(if i < |u| then u[i + 1..] else ""),
                        if r.Some? then m[key(r.value) := r.value] else m)
  {
    var i := IndexOfNewline(u);
    var rest := Lines(if i < |u| then u[i + 1..] else "");
    assert u[..|u|] == u;
    assert Lines(u) == [u[..i]] + rest;
    assert ([u[..i]] + rest)[1..] == rest;
  }
}
