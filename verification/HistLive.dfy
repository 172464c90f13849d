/**
 * Live recording on the archive side: streams open, take a row per FFT frame, and close. What a step
 * does to the open streams and the files, and what holds after any number of steps.
 */
module HistLive {
  import opened Prelude

  type Key = string
  type Path = string

  /** The dB values of byte 0 and byte 255. */
  datatype Range = Range(dbMin: real, dbMax: real)

  /**
   * A recording: the width, range and start time in its header, and its body. quant says, row by row,
   * the range a row was quantised with; it is not part of the bytes.
   */
  datatype File = File(width: nat, range: Range, start: nat, body: seq<Byte>, quant: seq<Range>)

  datatype Stream = Stream(path: Path, width: nat, rows: nat, start: nat, range: Range, rangeKnown: bool)

  datatype State = State(streams: map<Key, Stream>, disk: map<Path, File>)

  datatype Frame = Frame(row: seq<Byte>, range: Range)

  const STUB_MAX_SECS: nat := 90
  const NAME_BYTES: nat := 64

  predicate ShortStub(start: nat, now: nat) {
    now >= start && now - start < STUB_MAX_SECS
  }

  // --------------------------------------------------------------- folding

  function MaxOf(s: seq<Byte>): (m: Byte)
    requires s != []
    ensures m in s && forall x :: x in s ==> x <= m
  {
    if |s| == 1 then s[0]
    else
      var m := MaxOf(s[..|s| - 1]);
      assert forall x :: x in s ==> x in s[..|s| - 1] || x == s[|s| - 1];
      if s[|s| - 1] > m then s[|s| - 1] else m
  }

  lemma Distributes(a: nat, b: nat, c: nat)
    ensures (a + b) * c == a * c + b * c && 0 <= a * c && 0 <= b * c
  {
  }

  lemma {:induction false} GroupFits(o: nat, w: nat, pad: nat)
    requires o < w
    ensures 0 <= o * pad && o * pad + pad <= w * pad
  {
    Distributes(o, w - o, pad);
    Distributes(1, w - o - 1, pad);
  }

  /** The largest value of each group of pad neighbours. */
  function Fold(row: seq<Byte>, w: nat, pad: nat): (out: seq<Byte>)
    requires |row| == w * pad && pad > 0
    ensures |out| == w
  {
    seq(w, o requires 0 <= o < w => GroupMax(row, w, pad, o))
  }

  function GroupMax(row: seq<Byte>, w: nat, pad: nat, o: nat): Byte
    requires |row| == w * pad && pad > 0 && o < w
  {
    MaxOf(Group(row, w, pad, o))
  }

  function Group(row: seq<Byte>, w: nat, pad: nat, o: nat): (g: seq<Byte>)
    requires |row| == w * pad && pad > 0 && o < w
    ensures |g| == pad
  {
    GroupFits(o, w, pad);
    row[o * pad..o * pad + pad]
  }

  lemma PadOf(n: nat, w: nat)
    requires w > 0 && n % w == 0
    ensures n == w * (n / w)
    ensures n > 0 ==> n / w > 0
  {
  }

  predicate Takes(st: Stream, frame: Frame) {
    st.width != 0 && |frame.row| % st.width == 0 && frame.row != []
  }

  /** The row a stream of width w writes for a frame. */
  function RowFor(frame: Frame, w: nat): (out: seq<Byte>)
    requires w > 0 && |frame.row| % w == 0 && frame.row != []
    ensures |out| == w
  {
    PadOf(|frame.row|, w);
    Fold(frame.row, w, |frame.row| / w)
  }

  /** Unpadded frames are written as they come. */
  lemma FoldOne(row: seq<Byte>)
    ensures Fold(row, |row|, 1) == row
  {
    forall o | 0 <= o < |row|
      ensures GroupMax(row, |row|, 1, o) == row[o]
    {
      assert row[o * 1..o * 1 + 1] == [row[o]];
    }
  }

  /** out is row folded by pad: each byte is one of its group of pad neighbours, and the greatest of them. */
  ghost predicate IsFold(row: seq<Byte>, out: seq<Byte>, w: nat, pad: nat) {
    && |out| == w
    && forall o :: 0 <= o < w ==>
         0 <= o * pad && o * pad + pad <= |row| && IsGreatest(out[o], row[o * pad..o * pad + pad])
  }

  ghost predicate IsGreatest(m: Byte, g: seq<Byte>) {
    m in g && forall x :: x in g ==> x <= m
  }

  lemma FoldIs(row: seq<Byte>, w: nat, pad: nat)
    requires |row| == w * pad && pad > 0
    ensures IsFold(row, Fold(row, w, pad), w, pad)
  {
    hide MaxOf, IsGreatest;
    var out := Fold(row, w, pad);
    forall o | 0 <= o < w
      ensures 0 <= o * pad && o * pad + pad <= |row| && IsGreatest(out[o], row[o * pad..o * pad + pad])
    {
      GroupFits(o, w, pad);
      GreatestIs(row[o * pad..o * pad + pad]);
    }
  }

  lemma GreatestIs(g: seq<Byte>)
    requires g != []
    ensures IsGreatest(MaxOf(g), g)
  {
  }

  /** What a stream writes for a frame: the frame folded to its width, or the frame itself when the widths agree. */
  lemma RowIsFold(frame: Frame, w: nat)
    requires w > 0 && |frame.row| % w == 0 && frame.row != []
    ensures |frame.row| == w * (|frame.row| / w) && IsFold(frame.row, RowFor(frame, w), w, |frame.row| / w)
    ensures w == |frame.row| ==> RowFor(frame, w) == frame.row
  {
    hide Fold, IsFold;
    PadOf(|frame.row|, w);
    FoldIs(frame.row, w, |frame.row| / w);
    if w == |frame.row| {
      FoldOne(frame.row);
    }
  }

  lemma GroupIndex(i: nat, w: nat, pad: nat)
    requires pad > 0 && i < w * pad
    ensures i / pad < w && i == i / pad * pad + i % pad
  {
    var o := i / pad;
    assert o >= w ==> o * pad >= w * pad;
  }

  /** Every peak survives folding, and folding invents nothing: the folded row is as loud as the frame. */
  lemma {:induction false} FoldKeepsPeak(row: seq<Byte>, w: nat, pad: nat, i: nat)
    requires |row| == w * pad && pad > 0 && i < |row|
    ensures i / pad < w && Fold(row, w, pad)[i / pad] >= row[i]
  {
    hide MaxOf;
    GroupIndex(i, w, pad);
    var o := i / pad;
    GroupFits(o, w, pad);
    var g := row[o * pad..o * pad + pad];
    assert g[i % pad] == row[i];
    assert row[i] in g;
  }

  lemma {:induction false} FoldInventsNothing(row: seq<Byte>, w: nat, pad: nat, o: nat)
    requires |row| == w * pad && pad > 0 && o < w
    ensures Fold(row, w, pad)[o] in row
  {
    hide MaxOf;
    GroupFits(o, w, pad);
    var g := row[o * pad..o * pad + pad];
    assert MaxOf(g) in g;
  }

  // ------------------------------------------------------------------ steps

  /** What arrives of a name once it has been through a 64-byte field copied with room for the NUL. */
  function Truncated(k: Key): Key {
    if |k| >= NAME_BYTES then k[..NAME_BYTES - 1] else k
  }

  datatype Start = Start(width: nat, range: Range, start: nat)

  /** A stream of the same name is closed, not finalised; the new file has a header and no rows. */
  function Started(s: State, name: Key, ls: Start, path: Path): State {
    var others := s.streams - {name};
    if path in s.disk then State(others, s.disk)
    else State(others[name := Stream(path, ls.width, 0, ls.start, Range(0.0, 0.0), false)],
               s.disk[path := File(ls.width, ls.range, ls.start, [], [])])
  }

  /** Empty and short files go; others get their final name unless it is taken. */
  function Stopped(s: State, name: Key, now: nat, final: Path): State
    requires name in s.streams ==> s.streams[name].path in s.disk
  {
    if name !in s.streams then s
    else
      var st := s.streams[name];
      var others := s.streams - {name};
      if st.rows == 0 || ShortStub(st.start, now) then State(others, s.disk - {st.path})
      else if final in s.disk then State(others, s.disk)
      else State(others, (s.disk - {st.path})[final := s.disk[st.path]])
  }

  ghost predicate Opened(s: State) {
    && (forall k :: k in s.streams ==>
          s.streams[k].path in s.disk && s.disk[s.streams[k].path].width == s.streams[k].width)
    && (forall k, j :: k in s.streams && j in s.streams && k != j ==> s.streams[k].path != s.streams[j].path)
  }

  /** The streams among ks whose range is not known yet take the frame's, in memory and in the header. */
  ghost function Ranged(s: State, range: Range, ks: set<Key>): State {
    State(map k | k in s.streams ::
            if k in ks && !s.streams[k].rangeKnown then s.streams[k].(range := range, rangeKnown := true)
            else s.streams[k],
          map p | p in s.disk ::
            if exists k :: k in ks && k in s.streams && s.streams[k].path == p && !s.streams[k].rangeKnown
            then s.disk[p].(range := range) else s.disk[p])
  }

  /** Opening a stream: a new file with the header announced and no rows; a name that is taken opens nothing. */
  lemma StartOutcome(s: State, name: Key, ls: Start, path: Path)
    ensures var t := Started(s, name, ls, path);
            && (path in s.disk ==> name !in t.streams && t.disk == s.disk)
            && (path !in s.disk ==>
                  && name in t.streams && path in t.disk
                  && t.streams[name].path == path && t.streams[name].width == ls.width
                  && t.streams[name].start == ls.start && t.streams[name].rows == 0 && !t.streams[name].rangeKnown
                  && t.disk[path].width == ls.width && t.disk[path].range == ls.range
                  && t.disk[path].start == ls.start && t.disk[path].body == [] && t.disk[path].quant == [])
            && (forall k :: k != name ==> (k in t.streams <==> k in s.streams))
            && (forall k :: k != name && k in s.streams ==> t.streams[k] == s.streams[k])
            && (forall p :: p in s.disk ==> p in t.disk && t.disk[p] == s.disk[p])
            && (forall p :: p in t.disk ==> p in s.disk || p == path)
  {
  }

  /**
   * Closing a stream: a recording without rows or shorter than a minute and a half is removed, any
   * other is kept whole under its final name; no other file changes.
   */
  lemma StopOutcome(s: State, name: Key, now: nat, final: Path)
    requires Opened(s) && name in s.streams && final !in s.disk
    ensures var st, t := s.streams[name], Stopped(s, name, now, final);
            && t.streams == s.streams - {name}
            && (final in t.disk <==> st.rows > 0 && (now < st.start || now - st.start >= 90))
            && (final in t.disk ==> t.disk[final] == s.disk[st.path])
            && st.path !in t.disk
            && (forall p :: p in s.disk && p != st.path ==> p in t.disk && t.disk[p] == s.disk[p])
            && (forall p :: p in t.disk && p != final ==> p in s.disk)
  {
  }

  ghost predicate Mismatched(s: State, range: Range, k: Key) {
    k in s.streams && s.streams[k].rangeKnown && s.streams[k].range != range
  }

  /** A name not open stops nothing, and with the final name taken a recording keeps the one it has. */
  lemma StopElse(s: State, name: Key, now: nat, final: Path)
    requires Opened(s)
    ensures name !in s.streams ==> Stopped(s, name, now, final) == s
    ensures name in s.streams && final in s.disk ==>
      var st, t := s.streams[name], Stopped(s, name, now, final);
      && t.streams == s.streams - {name}
      && t.disk == if st.rows == 0 || (st.start <= now < st.start + 90) then s.disk - {st.path} else s.disk
  {
  }

  /** The first frame of a stream fixes its range, in memory and in the header; every later one leaves it. */
  lemma RangeOutcome(s: State, range: Range)
    requires Opened(s)
    ensures var t := Ranged(s, range, s.streams.Keys);
            && t.streams.Keys == s.streams.Keys && t.disk.Keys == s.disk.Keys
            && (forall k :: k in s.streams && s.streams[k].rangeKnown ==>
                  t.streams[k] == s.streams[k] && t.disk[s.streams[k].path] == s.disk[s.streams[k].path])
            && (forall k :: k in s.streams && !s.streams[k].rangeKnown ==>
                  && t.streams[k] == s.streams[k].(range := range, rangeKnown := true)
                  && t.disk[s.streams[k].path] == s.disk[s.streams[k].path].(range := range))
            && (forall p :: p in s.disk && (forall k :: k in s.streams ==> s.streams[k].path != p) ==>
                  t.disk[p] == s.disk[p])
  {
  }

  lemma StopKeepsOpened(s: State, name: Key, now: nat, final: Path)
    requires Opened(s)
    ensures Opened(Stopped(s, name, now, final))
  {
  }

  /** Streams whose range has changed are stopped one after the other. */
  ghost function Rotated(s: State, ks: seq<Key>, now: nat, finals: map<Key, Path>): (t: State)
    requires Opened(s)
    ensures Opened(t)
    decreases |ks|
  {
    if ks == [] then s
    else
      var k := Truncated(ks[0]);
      var final := if ks[0] in finals then finals[ks[0]] else "";
      StopKeepsOpened(s, k, now, final);
      Rotated(Stopped(s, k, now, final), ks[1..], now, finals)
  }

  /** The streams among ks that take the frame write its row. */
  ghost function Appended(s: State, frame: Frame, ks: set<Key>): State {
    State(map k | k in s.streams ::
            if k in ks && Takes(s.streams[k], frame) then s.streams[k].(rows := s.streams[k].rows + 1)
            else s.streams[k],
          map p | p in s.disk ::
            if exists k :: Writes(s, frame, ks, k, p) then WithRow(s.disk[p], frame) else s.disk[p])
  }

  ghost predicate Writes(s: State, frame: Frame, ks: set<Key>, k: Key, p: Path) {
    k in ks && k in s.streams && s.streams[k].path == p && Takes(s.streams[k], frame)
  }

  function WithRow(f: File, frame: Frame): File {
    if f.width == 0 || |frame.row| % f.width != 0 || frame.row == [] then f
    else f.(body := f.body + RowFor(frame, f.width), quant := f.quant + [frame.range])
  }

  /** A rotation list names exactly the streams whose range differs. */
  ghost predicate Lists(ks: seq<Key>, s: State, range: Range) {
    && (forall k :: k in ks <==> Mismatched(s, range, k))
    && (forall i, j :: 0 <= i < j < |ks| ==> ks[i] != ks[j])
  }

  /** One FFT frame: settle the range, rotate, write. */
  ghost function Framed(s: State, frame: Frame, ks: seq<Key>, now: nat, finals: map<Key, Path>): State
    requires Opened(s)
  {
    RangedOpened(s, frame.range, s.streams.Keys);
    var t := Rotated(Ranged(s, frame.range, s.streams.Keys), ks, now, finals);
    Appended(t, frame, t.streams.Keys)
  }

  lemma RangedOpened(s: State, range: Range, ks: set<Key>)
    requires Opened(s)
    ensures Opened(Ranged(s, range, ks))
  {
  }

  // ------------------------------------------------------------- invariants

  /** Whole rows only, all quantised with the range in the header. */
  ghost predicate FileOk(f: File) {
    && |f.body| == |f.quant| * f.width
    && forall i :: 0 <= i < |f.quant| ==> f.quant[i] == f.range
  }

  ghost predicate StreamOk(s: State, k: Key)
    requires k in s.streams
  {
    var st := s.streams[k];
    && st.path in s.disk
    && s.disk[st.path].width == st.width && |s.disk[st.path].quant| == st.rows && s.disk[st.path].start == st.start
    && (if st.rangeKnown then s.disk[st.path].range == st.range else st.rows == 0)
  }

  ghost predicate Inv(s: State) {
    && Opened(s)
    && (forall p :: p in s.disk ==> FileOk(s.disk[p]))
    && (forall k :: k in s.streams ==> StreamOk(s, k))
  }

  lemma StartKeeps(s: State, name: Key, ls: Start, path: Path)
    requires Inv(s)
    ensures Inv(Started(s, name, ls, path))
  {
    var t := Started(s, name, ls, path);
    forall k | k in t.streams
      ensures StreamOk(t, k)
    {
      assert k != name ==> StreamOk(s, k);
    }
    forall p | p in t.disk
      ensures FileOk(t.disk[p])
    {
      assert p != path ==> FileOk(s.disk[p]);
    }
  }

  lemma StopKeeps(s: State, name: Key, now: nat, final: Path)
    requires Inv(s)
    ensures Inv(Stopped(s, name, now, final))
  {
    hide FileOk;
    StopKeepsOpened(s, name, now, final);
    var t := Stopped(s, name, now, final);
    forall k | k in t.streams
      ensures StreamOk(t, k)
    {
      assert StreamOk(s, k);
      assert name in s.streams ==> s.streams[k].path != s.streams[name].path;
    }
    forall p | p in t.disk
      ensures FileOk(t.disk[p])
    {
      assert p in s.disk ==> FileOk(s.disk[p]);
    }
  }

  lemma RangeKeeps(s: State, range: Range)
    requires Inv(s)
    ensures Inv(Ranged(s, range, s.streams.Keys))
  {
    var t := Ranged(s, range, s.streams.Keys);
    RangedOpened(s, range, s.streams.Keys);
    forall k | k in t.streams
      ensures StreamOk(t, k)
    {
      assert StreamOk(s, k);
    }
    forall p | p in t.disk
      ensures FileOk(t.disk[p])
    {
      assert FileOk(s.disk[p]);
      if k :| k in s.streams && s.streams[k].path == p && !s.streams[k].rangeKnown {
        assert StreamOk(s, k);
      }
    }
  }

  /**
   * Every stream knows its range, and it is the given one, unless the stream is still to be stopped
   * or is one of those whose name is too long to be stopped.
   */
  ghost predicate Settled(s: State, range: Range, toStop: seq<Key>, all: seq<Key>) {
    forall k :: k in s.streams && k !in toStop ==>
      s.streams[k].rangeKnown && (s.streams[k].range == range || (k in all && |k| >= NAME_BYTES))
  }

  lemma StopSettles(s: State, ks: seq<Key>, all: seq<Key>, range: Range, t: State)
    requires ks != [] && ks[0] in all && Settled(s, range, ks, all) && t.streams == s.streams - {Truncated(ks[0])}
    requires ks[0] in s.streams ==> s.streams[ks[0]].rangeKnown
    ensures Settled(t, range, ks[1..], all)
  {
    assert forall j :: j in ks <==> j == ks[0] || j in ks[1..];
  }

  lemma {:induction false} RotateKeeps(s: State, ks: seq<Key>, now: nat, finals: map<Key, Path>, range: Range,
                                       all: seq<Key>)
    requires Inv(s) && Settled(s, range, ks, all) && (forall k :: k in ks ==> k in all)
    requires forall k :: k in ks && k in s.streams ==> s.streams[k].rangeKnown
    ensures Opened(s)
    ensures var t := Rotated(s, ks, now, finals); Inv(t) && Settled(t, range, [], all)
    decreases |ks|
  {
    hide Inv, Stopped, Settled;
    InvOpened(s);
    if ks != [] {
      var k := Truncated(ks[0]);
      var final := if ks[0] in finals then finals[ks[0]] else "";
      StopKeeps(s, k, now, final);
      StopRemoves(s, k, now, final);
      var t := Stopped(s, k, now, final);
      StopSettles(s, ks, all, range, t);
      RotateKeeps(t, ks[1..], now, finals, range, all);
    }
  }

  lemma InvOpened(s: State)
    requires Inv(s)
    ensures Opened(s)
  {
  }

  lemma StopRemoves(s: State, name: Key, now: nat, final: Path)
    requires Opened(s)
    ensures Stopped(s, name, now, final).streams == s.streams - {name}
  {
  }

  /** Every stream that takes the frame records with the frame's range. */
  ghost predicate Ready(s: State, frame: Frame) {
    forall k :: k in s.streams ==>
      s.streams[k].rangeKnown && (Takes(s.streams[k], frame) ==> s.streams[k].range == frame.range)
  }

  lemma AppendKeepsStreams(s: State, frame: Frame)
    requires Inv(s) && Ready(s, frame)
    ensures var t := Appended(s, frame, s.streams.Keys); Opened(t) && forall k :: k in t.streams ==> StreamOk(t, k)
  {
    hide RowFor, FileOk;
    var ks, t := s.streams.Keys, Appended(s, frame, s.streams.Keys);
    forall k | k in t.streams
      ensures StreamOk(t, k)
    {
      assert StreamOk(s, k);
      var p := s.streams[k].path;
      assert Takes(s.streams[k], frame) ==> Writes(s, frame, ks, k, p);
      assert forall j :: Writes(s, frame, ks, j, p) ==> j == k;
    }
  }

  lemma AppendKeeps(s: State, frame: Frame)
    requires Inv(s) && Ready(s, frame)
    ensures Inv(Appended(s, frame, s.streams.Keys))
  {
    hide RowFor, FileOk, WithRow;
    AppendKeepsStreams(s, frame);
    var ks, t := s.streams.Keys, Appended(s, frame, s.streams.Keys);
    forall p | p in t.disk
      ensures FileOk(t.disk[p])
    {
      assert FileOk(s.disk[p]);
      if k :| Writes(s, frame, ks, k, p) {
        assert StreamOk(s, k);
        OneMoreRow(s.disk[p], frame);
      }
    }
  }

  /** Exactly the streams whose width divides the frame write a row, each at the end of its own file. */
  lemma RowsWritten(s: State, frame: Frame, p: Path)
    requires Opened(s) && p in s.disk
    ensures var t := Appended(s, frame, s.streams.Keys);
            && p in t.disk
            && (forall k :: k in s.streams && s.streams[k].path == p && Takes(s.streams[k], frame) ==>
                  && |s.disk[p].body| <= |t.disk[p].body| && t.disk[p].body[..|s.disk[p].body|] == s.disk[p].body
                  && OneRow(frame.row, t.disk[p].body[|s.disk[p].body|..], s.streams[k].width)
                  && t.disk[p].quant == s.disk[p].quant + [frame.range]
                  && t.disk[p] == s.disk[p].(body := t.disk[p].body, quant := t.disk[p].quant)
                  && t.streams[k] == s.streams[k].(rows := s.streams[k].rows + 1))
            && (forall k :: k in s.streams && !Takes(s.streams[k], frame) ==> t.streams[k] == s.streams[k])
            && t.streams.Keys == s.streams.Keys && t.disk.Keys == s.disk.Keys
            && ((forall k :: k in s.streams && s.streams[k].path == p ==> !Takes(s.streams[k], frame)) ==>
                  t.disk[p] == s.disk[p])
  {
    hide RowFor, OneRow;
    var t := Appended(s, frame, s.streams.Keys);
    forall k | k in s.streams && s.streams[k].path == p && Takes(s.streams[k], frame)
      ensures Writes(s, frame, s.streams.Keys, k, p)
      ensures OneRow(frame.row, RowFor(frame, s.streams[k].width), s.streams[k].width)
      ensures t.disk[p].body[|s.disk[p].body|..] == RowFor(frame, s.streams[k].width)
    {
      OneRowFor(frame, s.streams[k].width);
      assert Writes(s, frame, s.streams.Keys, k, p);
    }
  }

  /** out is the one row that a frame leaves in a file of width w. */
  ghost predicate OneRow(row: seq<Byte>, out: seq<Byte>, w: nat) {
    && w > 0 && |row| % w == 0 && |row| == w * (|row| / w) && IsFold(row, out, w, |row| / w)
    && (w == |row| ==> out == row)
  }

  lemma OneRowFor(frame: Frame, w: nat)
    requires w > 0 && |frame.row| % w == 0 && frame.row != []
    ensures OneRow(frame.row, RowFor(frame, w), w)
  {
    RowIsFold(frame, w);
  }

  lemma OneMoreRow(f: File, frame: Frame)
    requires FileOk(f) && f.range == frame.range
    ensures FileOk(WithRow(f, frame))
  {
    hide RowFor;
    assert (|f.quant| + 1) * f.width == |f.quant| * f.width + f.width;
  }

  lemma RangedSettles(s: State, range: Range, ks: seq<Key>)
    requires Lists(ks, Ranged(s, range, s.streams.Keys), range)
    ensures Settled(Ranged(s, range, s.streams.Keys), range, ks, ks)
    ensures var t := Ranged(s, range, s.streams.Keys);
            forall k :: k in ks ==>
              && k in s.streams && k in t.streams && t.streams[k] == s.streams[k]
              && s.streams[k].rangeKnown && s.streams[k].range != range
  {
    var t := Ranged(s, range, s.streams.Keys);
    forall k | k in t.streams && k !in ks
      ensures t.streams[k].rangeKnown && t.streams[k].range == range
    {
      assert !Mismatched(t, range, k);
    }
    forall k | k in ks
      ensures k in s.streams && t.streams[k] == s.streams[k] && s.streams[k].rangeKnown && s.streams[k].range != range
    {
      assert Mismatched(t, range, k);
    }
  }

  /** Up to the writing itself. */
  lemma RotatedOk(s: State, frame: Frame, ks: seq<Key>, now: nat, finals: map<Key, Path>)
    requires Inv(s) && Lists(ks, Ranged(s, frame.range, s.streams.Keys), frame.range)
    ensures Opened(s) && Opened(Ranged(s, frame.range, s.streams.Keys))
    ensures var t := Rotated(Ranged(s, frame.range, s.streams.Keys), ks, now, finals);
            Inv(t) && Settled(t, frame.range, [], ks)
  {
    hide Inv, Ranged, Rotated, Lists, Settled;
    InvOpened(s);
    RangedOpened(s, frame.range, s.streams.Keys);
    RangeKeeps(s, frame.range);
    RangedSettles(s, frame.range, ks);
    RotateKeeps(Ranged(s, frame.range, s.streams.Keys), ks, now, finals, frame.range, ks);
  }

  // ----------------------------------------------------------- long names

  /** Of the streams whose range has changed, rotation leaves open exactly those whose name fills its field. */
  lemma {:induction false} RotationMissesExactly(s: State, ks: seq<Key>, now: nat, finals: map<Key, Path>, k: Key)
    requires Opened(s) && k in s.streams && k in ks
    ensures k in Rotated(s, ks, now, finals).streams <==> |k| >= NAME_BYTES
    decreases |ks|
  {
    hide Stopped;
    if |k| >= NAME_BYTES {
      StaysOpen(s, ks, now, finals, k);
    } else {
      var f := Truncated(ks[0]);
      var final := if ks[0] in finals then finals[ks[0]] else "";
      StopKeepsOpened(s, f, now, final);
      StopRemoves(s, f, now, final);
      var t := Stopped(s, f, now, final);
      if k in t.streams {
        assert k in ks[1..];
        RotationMissesExactly(t, ks[1..], now, finals, k);
      } else {
        StaysGone(t, ks[1..], now, finals, k);
      }
    }
  }

  lemma {:induction false} StaysGone(s: State, ks: seq<Key>, now: nat, finals: map<Key, Path>, k: Key)
    requires Opened(s) && k !in s.streams
    ensures k !in Rotated(s, ks, now, finals).streams
    decreases |ks|
  {
    hide Stopped;
    if ks != [] {
      var f := Truncated(ks[0]);
      var final := if ks[0] in finals then finals[ks[0]] else "";
      StopKeepsOpened(s, f, now, final);
      StopRemoves(s, f, now, final);
      StaysGone(Stopped(s, f, now, final), ks[1..], now, finals, k);
    }
  }

  /** A stream that is not stopped keeps its file. */
  lemma StopSpares(s: State, name: Key, now: nat, final: Path, k: Key)
    requires Opened(s) && k in s.streams && k != name
    ensures var t := Stopped(s, name, now, final);
            && k in t.streams && t.streams[k] == s.streams[k]
            && t.streams[k].path in t.disk && t.disk[t.streams[k].path] == s.disk[s.streams[k].path]
  {
  }

  lemma {:induction false} StaysOpen(s: State, ks: seq<Key>, now: nat, finals: map<Key, Path>, k: Key)
    requires Opened(s) && k in s.streams && forall j :: j in ks ==> Truncated(j) != k
    ensures var t := Rotated(s, ks, now, finals);
            && k in t.streams && t.streams[k] == s.streams[k]
            && t.streams[k].path in t.disk && t.disk[t.streams[k].path] == s.disk[s.streams[k].path]
    decreases |ks|
  {
    hide Stopped;
    if ks != [] {
      var f := Truncated(ks[0]);
      var final := if ks[0] in finals then finals[ks[0]] else "";
      StopKeepsOpened(s, f, now, final);
      StopSpares(s, f, now, final, k);
      StaysOpen(Stopped(s, f, now, final), ks[1..], now, finals, k);
    }
  }

  lemma NeverLookedFor(ks: seq<Key>, k: Key)
    requires |k| >= NAME_BYTES
    ensures forall j :: j in ks ==> Truncated(j) != k
  {
  }

  /** A stream left open with another range gets a row that its header misreads. */
  lemma LongNameMixes(s: State, frame: Frame, ks: seq<Key>, now: nat, finals: map<Key, Path>, k: Key)
    requires Inv(s) && Lists(ks, Ranged(s, frame.range, s.streams.Keys), frame.range)
    requires k in ks && k in s.streams && |k| >= NAME_BYTES && Takes(s.streams[k], frame)
    ensures Opened(s) && s.streams[k].path in Framed(s, frame, ks, now, finals).disk
    ensures !FileOk(Framed(s, frame, ks, now, finals).disk[s.streams[k].path])
  {
    hide Rotated, Lists, Settled, RowFor, Truncated;
    RotatedOk(s, frame, ks, now, finals);
    RangedSettles(s, frame.range, ks);
    var r := Ranged(s, frame.range, s.streams.Keys);
    NeverLookedFor(ks, k);
    StaysOpen(r, ks, now, finals, k);
    var t := Rotated(r, ks, now, finals);
    var p := s.streams[k].path;
    assert StreamOk(t, k) && StreamOk(r, k);
    assert Writes(t, frame, t.streams.Keys, k, p);
    var f := WithRow(t.disk[p], frame);
    assert f.quant[|f.quant| - 1] == frame.range && f.range == s.streams[k].range;
  }

  /** The name of a stream of another range, as rotation looks for it. */
  ghost predicate ClosesAt(s: State, range: Range, k: Key) {
    exists j :: Mismatched(s, range, j) && k == if |j| < 64 then j else j[..63]
  }

  /**
   * A frame and one open stream. If rotation looks for its name, it is closed. Otherwise it stays
   * open, its header has its first frame's range, and it gets one row, or none if the frame does not fit.
   */
  lemma FrameOutcome(s: State, frame: Frame, ks: seq<Key>, now: nat, finals: map<Key, Path>, k: Key)
    requires Opened(s) && Lists(ks, Ranged(s, frame.range, s.streams.Keys), frame.range) && k in s.streams
    ensures var t := Framed(s, frame, ks, now, finals);
            var st, p := s.streams[k], s.streams[k].path;
            && (k in t.streams <==> !ClosesAt(s, frame.range, k))
            && (k in t.streams ==>
                  var fits := st.width != 0 && |frame.row| % st.width == 0 && frame.row != [];
                  && p in t.disk && |s.disk[p].body| <= |t.disk[p].body|
                  && t.disk[p].body[..|s.disk[p].body|] == s.disk[p].body
                  && t.disk[p].range == (if st.rangeKnown then s.disk[p].range else frame.range)
                  && (fits ==> OneRow(frame.row, t.disk[p].body[|s.disk[p].body|..], st.width)
                               && t.streams[k].rows == st.rows + 1)
                  && (!fits ==> t.disk[p].body == s.disk[p].body && t.streams[k].rows == st.rows))
  {
    hide Ranged, Rotated, Lists, Appended, OneRow;
    var r := Ranged(s, frame.range, s.streams.Keys);
    RangedOpened(s, frame.range, s.streams.Keys);
    RangeOutcome(s, frame.range);
    var t := Rotated(r, ks, now, finals);
    LooksFor(s, frame.range, ks, k);
    if ClosesAt(s, frame.range, k) {
      var j :| j in ks && Truncated(j) == k;
      RotatedCloses(r, ks, now, finals, j);
      RowsWrittenStreams(t, frame);
    } else {
      StaysOpen(r, ks, now, finals, k);
      RowsWritten(t, frame, s.streams[k].path);
    }
  }

  lemma LooksFor(s: State, range: Range, ks: seq<Key>, k: Key)
    requires Lists(ks, Ranged(s, range, s.streams.Keys), range)
    ensures ClosesAt(s, range, k) <==> exists j :: j in ks && Truncated(j) == k
  {
    hide Ranged, Lists;
    forall j
      ensures j in ks <==> Mismatched(s, range, j)
    {
      ListedExactly(s, range, ks, j);
    }
  }

  lemma {:induction false} RotatedCloses(s: State, ks: seq<Key>, now: nat, finals: map<Key, Path>, j: Key)
    requires Opened(s) && j in ks
    ensures Truncated(j) !in Rotated(s, ks, now, finals).streams
    decreases |ks|
  {
    hide Stopped, Truncated;
    var f := Truncated(ks[0]);
    var final := if ks[0] in finals then finals[ks[0]] else "";
    StopKeepsOpened(s, f, now, final);
    StopRemoves(s, f, now, final);
    var t := Stopped(s, f, now, final);
    if ks[0] == j {
      StaysGone(t, ks[1..], now, finals, f);
    } else {
      assert j in ks[1..];
      RotatedCloses(t, ks[1..], now, finals, j);
    }
  }

  lemma RowsWrittenStreams(s: State, frame: Frame)
    ensures Appended(s, frame, s.streams.Keys).streams.Keys == s.streams.Keys
  {
  }

  /** No stream whose range has changed, and that takes the frame, has a name that fills its field. */
  ghost predicate NamesFit(s: State, frame: Frame) {
    forall k :: Mismatched(s, frame.range, k) && Takes(s.streams[k], frame) ==> |k| < NAME_BYTES
  }

  ghost predicate FilesOk(s: State) {
    forall p :: p in s.disk ==> FileOk(s.disk[p])
  }

  /** The streams listed are those with another range before the frame, too. */
  lemma ListedExactly(s: State, range: Range, ks: seq<Key>, k: Key)
    requires Lists(ks, Ranged(s, range, s.streams.Keys), range)
    ensures k in ks <==> Mismatched(s, range, k)
  {
    assert k in ks <==> Mismatched(Ranged(s, range, s.streams.Keys), range, k);
  }

  /** A frame leaves every file with a single range exactly when the names fit. */
  lemma SingleRangeExactly(s: State, frame: Frame, ks: seq<Key>, now: nat, finals: map<Key, Path>)
    requires Inv(s) && Lists(ks, Ranged(s, frame.range, s.streams.Keys), frame.range)
    ensures Opened(s)
    ensures FilesOk(Framed(s, frame, ks, now, finals)) <==> NamesFit(s, frame)
  {
    hide Inv, Ranged, Rotated, Lists, Appended, FileOk, Takes;
    RotatedOk(s, frame, ks, now, finals);
    if NamesFit(s, frame) {
      FrameKeepsWhenFit(s, frame, ks, now, finals);
      InvFiles(Framed(s, frame, ks, now, finals));
    } else {
      var k :| Mismatched(s, frame.range, k) && Takes(s.streams[k], frame) && |k| >= NAME_BYTES;
      ListedExactly(s, frame.range, ks, k);
      LongNameMixes(s, frame, ks, now, finals, k);
    }
  }

  /** So does it keep the invariant. */
  lemma FrameKeeps(s: State, frame: Frame, ks: seq<Key>, now: nat, finals: map<Key, Path>)
    requires Inv(s) && Lists(ks, Ranged(s, frame.range, s.streams.Keys), frame.range)
    ensures Opened(s)
    ensures Inv(Framed(s, frame, ks, now, finals)) <==> NamesFit(s, frame)
  {
    hide Inv, Ranged, Rotated, Lists, Appended, FilesOk, NamesFit;
    SingleRangeExactly(s, frame, ks, now, finals);
    if NamesFit(s, frame) {
      FrameKeepsWhenFit(s, frame, ks, now, finals);
    }
    if Inv(Framed(s, frame, ks, now, finals)) {
      InvFiles(Framed(s, frame, ks, now, finals));
    }
  }

  lemma FrameKeepsWhenFit(s: State, frame: Frame, ks: seq<Key>, now: nat, finals: map<Key, Path>)
    requires Inv(s) && Lists(ks, Ranged(s, frame.range, s.streams.Keys), frame.range) && NamesFit(s, frame)
    ensures Opened(s) && Inv(Framed(s, frame, ks, now, finals))
  {
    hide Inv, Ranged, Rotated, Lists, Appended, FilesOk;
    RotatedOk(s, frame, ks, now, finals);
    ReadyAfterRotation(s, frame, ks, now, finals);
    AppendKeeps(Rotated(Ranged(s, frame.range, s.streams.Keys), ks, now, finals), frame);
  }

  lemma ReadyAfterRotation(s: State, frame: Frame, ks: seq<Key>, now: nat, finals: map<Key, Path>)
    requires Inv(s) && Lists(ks, Ranged(s, frame.range, s.streams.Keys), frame.range) && NamesFit(s, frame)
    ensures Opened(s) && Opened(Ranged(s, frame.range, s.streams.Keys))
    ensures Ready(Rotated(Ranged(s, frame.range, s.streams.Keys), ks, now, finals), frame)
  {
    hide Inv, Ranged, Rotated, Lists, FileOk;
    RotatedOk(s, frame, ks, now, finals);
    RangedSettles(s, frame.range, ks);
    var r := Ranged(s, frame.range, s.streams.Keys);
    var t := Rotated(r, ks, now, finals);
    forall k | k in t.streams && Takes(t.streams[k], frame)
      ensures t.streams[k].range == frame.range
    {
      if k in ks && |k| >= NAME_BYTES {
        ListedExactly(s, frame.range, ks, k);
        StaysOpen(r, ks, now, finals, k);
      }
    }
  }

  lemma InvFiles(s: State)
    requires Inv(s)
    ensures FilesOk(s)
  {
  }

  // ------------------------------------------------------------------- runs

  datatype Event =
    | LiveStart(name: Key, ls: Start, path: Path)
    | LiveStop(name: Key, now: nat, final: Path)
    | Fft(frame: Frame, order: seq<Key>, at: nat, finals: map<Key, Path>)

  /** A step of the archive: the order of a rotation is up to the container it iterates over. */
  ghost predicate Step(s: State, e: Event, t: State) {
    match e
    case LiveStart(name, ls, path) => t == Started(s, name, ls, path)
    case LiveStop(name, now, final) => Opened(s) && t == Stopped(s, name, now, final)
    case Fft(frame, order, at, finals) =>
      && Opened(s) && Lists(order, Ranged(s, frame.range, s.streams.Keys), frame.range)
      && t == Framed(s, frame, order, at, finals)
  }

  ghost predicate IsRun(ss: seq<State>, es: seq<Event>) {
    && |ss| == |es| + 1
    && ss[0].streams == map[] && FilesOk(ss[0])
    && forall i :: 0 <= i < |es| ==> Step(ss[i], es[i], ss[i + 1])
  }

  ghost predicate Fits(s: State, e: Event) {
    e.Fft? ==> NamesFit(s, e.frame)
  }

  ghost predicate AlwaysFits(ss: seq<State>, es: seq<Event>)
    requires |ss| == |es| + 1
  {
    forall i :: 0 <= i < |es| ==> Fits(ss[i], es[i])
  }

  ghost predicate AlwaysOk(ss: seq<State>) {
    forall i :: 0 <= i < |ss| ==> FilesOk(ss[i])
  }

  lemma StepExactly(s: State, e: Event, t: State)
    requires Inv(s) && Step(s, e, t)
    ensures FilesOk(t) <==> Fits(s, e)
    ensures Inv(t) <==> Fits(s, e)
  {
    hide Inv, FilesOk, NamesFit, Lists, Started, Stopped, Framed, Opened;
    match e
    case LiveStart(name, ls, path) =>
      StartKeeps(s, name, ls, path);
      InvFiles(t);
    case LiveStop(name, now, final) =>
      StopKeeps(s, name, now, final);
      InvFiles(t);
    case Fft(frame, order, at, finals) =>
      FrameKeeps(s, frame, order, at, finals);
      SingleRangeExactly(s, frame, order, at, finals);
  }

  /**
   * In a run, every file of every state holds whole rows, all quantised with the range its header
   * says, exactly when at each frame the names fit; then the row counts in memory are those of the
   * files, too.
   */
  lemma {:induction false} EveryRun(ss: seq<State>, es: seq<Event>)
    requires IsRun(ss, es)
    ensures AlwaysOk(ss) <==> AlwaysFits(ss, es)
    ensures AlwaysFits(ss, es) ==> Inv(ss[|es|])
    decreases |es|
  {
    hide Inv, FilesOk, Fits, Step;
    if es == [] {
      InitialInv(ss[0]);
    } else {
      var n := |es| - 1;
      RunPrefix(ss, es, n);
      EveryRun(ss[..n + 1], es[..n]);
      RunSplit(ss, es);
      assert Step(ss[n], es[n], ss[n + 1]);
      if AlwaysFits(ss[..n + 1], es[..n]) {
        StepExactly(ss[n], es[n], ss[n + 1]);
      }
    }
  }

  lemma RunPrefix(ss: seq<State>, es: seq<Event>, n: nat)
    requires IsRun(ss, es) && n <= |es|
    ensures IsRun(ss[..n + 1], es[..n])
  {
    hide Step, FilesOk;
    forall i | 0 <= i < n
      ensures Step(ss[..n + 1][i], es[..n][i], ss[..n + 1][i + 1])
    {
      assert Step(ss[i], es[i], ss[i + 1]);
    }
  }

  lemma RunSplit(ss: seq<State>, es: seq<Event>)
    requires |ss| == |es| + 1 && es != []
    ensures var n := |es| - 1;
            && (AlwaysOk(ss) <==> AlwaysOk(ss[..n + 1]) && FilesOk(ss[n + 1]))
            && (AlwaysFits(ss, es) <==> AlwaysFits(ss[..n + 1], es[..n]) && Fits(ss[n], es[n]))
  {
    hide FilesOk, Fits;
    var n := |es| - 1;
    assert ss == ss[..n + 1] + [ss[n + 1]];
    assert es == es[..n] + [es[n]];
    if AlwaysOk(ss) {
      assert forall i :: 0 <= i <= n ==> ss[..n + 1][i] == ss[i];
    }
    if AlwaysFits(ss, es) {
      assert forall i :: 0 <= i < n ==> Fits(ss[i], es[i]);
    }
    if AlwaysFits(ss[..n + 1], es[..n]) && Fits(ss[n], es[n]) {
      forall i | 0 <= i < |es|
        ensures Fits(ss[i], es[i])
      {
        assert i < n ==> Fits(ss[..n + 1][i], es[..n][i]);
      }
    }
  }

  lemma InitialInv(s: State)
    requires s.streams == map[] && FilesOk(s)
    ensures Inv(s)
  {
  }

  lemma {:induction false} RotatedOpens(s: State, ks: seq<Key>, now: nat, finals: map<Key, Path>)
    requires Opened(s)
    ensures Rotated(s, ks, now, finals).streams.Keys <= s.streams.Keys
    decreases |ks|
  {
    hide Stopped;
    if ks != [] {
      var k := Truncated(ks[0]);
      var final := if ks[0] in finals then finals[ks[0]] else "";
      StopKeepsOpened(s, k, now, final);
      StopRemoves(s, k, now, final);
      RotatedOpens(Stopped(s, k, now, final), ks[1..], now, finals);
    }
  }

  lemma StepOpens(s: State, e: Event, t: State)
    requires Step(s, e, t)
    ensures forall k :: k in t.streams ==> k in s.streams || (e.LiveStart? && k == e.name)
  {
    hide Lists, Rotated;
    match e
    case LiveStart(name, ls, path) =>
    case LiveStop(name, now, final) => StopRemoves(s, name, now, final);
    case Fft(frame, order, at, finals) =>
      RangedOpened(s, frame.range, s.streams.Keys);
      RotatedOpens(Ranged(s, frame.range, s.streams.Keys), order, at, finals);
  }

  ghost predicate ShortStarts(es: seq<Event>) {
    forall i :: 0 <= i < |es| && es[i].LiveStart? ==> |es[i].name| < NAME_BYTES
  }

  lemma {:induction false} ShortNames(ss: seq<State>, es: seq<Event>)
    requires IsRun(ss, es) && ShortStarts(es)
    ensures forall k :: k in ss[|es|].streams ==> |k| < NAME_BYTES
    decreases |es|
  {
    hide FilesOk, Step;
    if es != [] {
      var n := |es| - 1;
      RunPrefix(ss, es, n);
      ShortNames(ss[..n + 1], es[..n]);
      assert Step(ss[n], es[n], ss[n + 1]);
      StepOpens(ss[n], es[n], ss[n + 1]);
    }
  }

  /** Runs whose names all end inside their field never mix ranges. */
  lemma ShortNamesSuffice(ss: seq<State>, es: seq<Event>)
    requires IsRun(ss, es) && ShortStarts(es)
    ensures AlwaysOk(ss) && Inv(ss[|es|])
  {
    hide FilesOk, Step, Inv;
    forall n | 0 <= n < |es|
      ensures Fits(ss[n], es[n])
    {
      RunPrefix(ss, es, n);
      assert forall i :: 0 <= i < n ==> es[..n][i] == es[i];
      ShortNames(ss[..n + 1], es[..n]);
      assert ss[..n + 1][n] == ss[n];
    }
    EveryRun(ss, es);
  }

  // --------------------------------------------------- whatever the names

  /** Whole rows only, as many as are counted in memory. */
  ghost predicate Counted(s: State) {
    && Opened(s)
    && (forall p :: p in s.disk ==> WholeRowsOnly(s.disk[p]))
    && (forall k :: k in s.streams ==> |s.disk[s.streams[k].path].quant| == s.streams[k].rows)
  }

  predicate WholeRowsOnly(f: File) {
    |f.body| == |f.quant| * f.width
  }

  lemma StopCounted(s: State, name: Key, now: nat, final: Path)
    requires Counted(s)
    ensures Counted(Stopped(s, name, now, final))
  {
    hide WholeRowsOnly;
    StopKeepsOpened(s, name, now, final);
    forall k | k in Stopped(s, name, now, final).streams
      ensures k in s.streams && (name in s.streams ==> s.streams[k].path != s.streams[name].path)
    {
      assert k != name;
    }
  }

  lemma {:induction false} RotateCounted(s: State, ks: seq<Key>, now: nat, finals: map<Key, Path>)
    requires Counted(s)
    ensures Opened(s) && Counted(Rotated(s, ks, now, finals))
    decreases |ks|
  {
    hide Counted, Stopped;
    CountedOpened(s);
    if ks != [] {
      var k := Truncated(ks[0]);
      var final := if ks[0] in finals then finals[ks[0]] else "";
      StopCounted(s, k, now, final);
      RotateCounted(Stopped(s, k, now, final), ks[1..], now, finals);
    }
  }

  lemma CountedOpened(s: State)
    requires Counted(s)
    ensures Opened(s)
  {
  }

  lemma RangedCounted(s: State, range: Range)
    requires Counted(s)
    ensures Counted(Ranged(s, range, s.streams.Keys))
  {
    RangedOpened(s, range, s.streams.Keys);
    var t := Ranged(s, range, s.streams.Keys);
    forall p | p in t.disk
      ensures WholeRowsOnly(t.disk[p])
    {
      assert WholeRowsOnly(s.disk[p]);
    }
  }

  lemma AppendCounted(s: State, frame: Frame)
    requires Counted(s)
    ensures Counted(Appended(s, frame, s.streams.Keys))
  {
    hide RowFor, WholeRowsOnly;
    var ks, t := s.streams.Keys, Appended(s, frame, s.streams.Keys);
    forall k | k in t.streams
      ensures |t.disk[t.streams[k].path].quant| == t.streams[k].rows
    {
      var p := s.streams[k].path;
      assert Takes(s.streams[k], frame) ==> Writes(s, frame, ks, k, p);
      assert forall j :: Writes(s, frame, ks, j, p) ==> j == k;
    }
    forall p | p in t.disk
      ensures WholeRowsOnly(t.disk[p])
    {
      RowCounted(s.disk[p], frame);
    }
  }

  lemma RowCounted(f: File, frame: Frame)
    requires WholeRowsOnly(f)
    ensures WholeRowsOnly(WithRow(f, frame))
  {
    hide RowFor;
    assert (|f.quant| + 1) * f.width == |f.quant| * f.width + f.width;
  }

  lemma StepCounted(s: State, e: Event, t: State)
    requires Counted(s) && Step(s, e, t)
    ensures Counted(t)
  {
    hide Lists, Stopped, Rotated, Ranged, Appended, Counted;
    match e
    case LiveStart(name, ls, path) => StartCounted(s, name, ls, path);
    case LiveStop(name, now, final) => StopCounted(s, name, now, final);
    case Fft(frame, order, at, finals) =>
      RangedCounted(s, frame.range);
      var r := Ranged(s, frame.range, s.streams.Keys);
      RotateCounted(r, order, at, finals);
      AppendCounted(Rotated(r, order, at, finals), frame);
  }

  lemma StartCounted(s: State, name: Key, ls: Start, path: Path)
    requires Counted(s)
    ensures Counted(Started(s, name, ls, path))
  {
    forall p | p in s.disk
      ensures WholeRowsOnly(s.disk[p])
    {
    }
  }

  /** In every run, whatever the names, files hold whole rows, and memory counts them. */
  lemma {:induction false} EveryRunCounts(ss: seq<State>, es: seq<Event>)
    requires IsRun(ss, es)
    ensures Counted(ss[|es|])
    decreases |es|
  {
    hide Counted, FilesOk, Step;
    if es == [] {
      InitialCounted(ss[0]);
    } else {
      var n := |es| - 1;
      RunPrefix(ss, es, n);
      EveryRunCounts(ss[..n + 1], es[..n]);
      assert Step(ss[n], es[n], ss[n + 1]);
      StepCounted(ss[n], es[n], ss[n + 1]);
    }
  }

  lemma InitialCounted(s: State)
    requires s.streams == map[] && FilesOk(s)
    ensures Counted(s)
  {
    forall p | p in s.disk
      ensures WholeRowsOnly(s.disk[p])
    {
      assert FileOk(s.disk[p]);
    }
  }

  // -------------------------------------------------------- a failing run

  /** A name of 64 bytes does mix ranges: two frames whose range differs are enough. */
  lemma LongNameRun(name: Key, ls: Start, path: Path, f: Frame, g: Frame) returns (ss: seq<State>, es: seq<Event>)
    requires |name| == NAME_BYTES && f.range != g.range
    requires ls.width > 0 && f.row != [] && g.row != [] && |f.row| % ls.width == |g.row| % ls.width == 0
    ensures IsRun(ss, es) && |es| == 3 && path in ss[3].disk && !FileOk(ss[3].disk[path])
  {
    hide FileOk, Inv, Framed, Ranged, Lists, Started;
    var s0 := State(map[], map[]);
    InitialInv(s0);
    StartKeeps(s0, name, ls, path);
    var s1 := Started(s0, name, ls, path);
    InvOpened(s1);
    var s2 := FirstFrame(name, ls, path, f);
    InvOpened(s2);
    SecondFrame(s2, name, g);
    LongNameMixes(s2, g, [name], 0, map[], name);
    var s3 := Framed(s2, g, [name], 0, map[]);
    ss := [s0, s1, s2, s3];
    es := [LiveStart(name, ls, path), Fft(f, [], 0, map[]), Fft(g, [name], 0, map[])];
  }

  /** The first frame after a start fixes the range and writes a row. */
  lemma FirstFrame(name: Key, ls: Start, path: Path, f: Frame) returns (t: State)
    requires ls.width > 0 && f.row != [] && |f.row| % ls.width == 0
    ensures var s := Started(State(map[], map[]), name, ls, path);
            Opened(s) && Lists([], Ranged(s, f.range, s.streams.Keys), f.range) && t == Framed(s, f, [], 0, map[])
    ensures Inv(t) && t.streams == map[name := Stream(path, ls.width, 1, ls.start, f.range, true)]
  {
    hide FileOk, Inv, Appended;
    var s0 := State(map[], map[]);
    InitialInv(s0);
    StartKeeps(s0, name, ls, path);
    var s := Started(s0, name, ls, path);
    InvOpened(s);
    var r := Ranged(s, f.range, s.streams.Keys);
    RangedOpened(s, f.range, s.streams.Keys);
    assert r.streams == map[name := Stream(path, ls.width, 0, ls.start, f.range, true)];
    FrameKeepsWhenFit(s, f, [], 0, map[]);
    t := Framed(s, f, [], 0, map[]);
    assert t == Appended(r, f, r.streams.Keys);
    AppendedToOnly(r, f, name);
  }

  lemma AppendedToOnly(r: State, f: Frame, name: Key)
    requires name in r.streams && r.streams.Keys == {name} && Takes(r.streams[name], f)
    ensures Appended(r, f, r.streams.Keys).streams == map[name := r.streams[name].(rows := r.streams[name].rows + 1)]
  {
  }

  lemma SecondFrame(s: State, name: Key, g: Frame)
    requires name in s.streams && s.streams.Keys == {name}
    requires s.streams[name].rangeKnown && s.streams[name].range != g.range
    ensures Lists([name], Ranged(s, g.range, s.streams.Keys), g.range)
  {
  }
}
