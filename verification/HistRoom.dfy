/** A room's open recordings as an object: the handlers for live start, FFT frame and live stop. */
module HistRoom {
  import opened Prelude
  import opened HistLive

  lemma RangedNone(s: State, range: Range)
    ensures Ranged(s, range, {}) == s
  {
    assert Ranged(s, range, {}).streams == s.streams;
    assert Ranged(s, range, {}).disk == s.disk;
  }

  lemma AppendedNone(s: State, frame: Frame)
    ensures Appended(s, frame, {}) == s
  {
    assert Appended(s, frame, {}).streams == s.streams;
    assert Appended(s, frame, {}).disk == s.disk;
  }

  /** Settling the range of one more stream. */
  lemma {:induction false} RangedOne(s: State, range: Range, ks: set<Key>, k: Key)
    requires Opened(s) && k in s.streams && k !in ks
    ensures var t := Ranged(s, range, ks);
            && k in t.streams && t.streams[k] == s.streams[k] && s.streams[k].path in t.disk
            && Ranged(s, range, ks + {k}) ==
               if s.streams[k].rangeKnown then t
               else State(t.streams[k := s.streams[k].(range := range, rangeKnown := true)],
                          t.disk[s.streams[k].path := t.disk[s.streams[k].path].(range := range)])
  {
    var t, u := Ranged(s, range, ks), Ranged(s, range, ks + {k});
    if s.streams[k].rangeKnown {
      assert u.streams == t.streams;
      assert u.disk == t.disk;
    } else {
      assert u.streams == t.streams[k := s.streams[k].(range := range, rangeKnown := true)];
      var p := s.streams[k].path;
      assert forall j :: j in ks && j in s.streams ==> s.streams[j].path != p;
      assert u.disk == t.disk[p := t.disk[p].(range := range)];
    }
  }

  /** Writing the row of one more stream. */
  lemma AppendedOne(s: State, frame: Frame, ks: set<Key>, k: Key)
    requires Opened(s) && k in s.streams && k !in ks
    ensures var t := Appended(s, frame, ks);
            && k in t.streams && t.streams[k] == s.streams[k] && s.streams[k].path in t.disk
            && t.disk[s.streams[k].path] == s.disk[s.streams[k].path]
            && s.disk[s.streams[k].path].width == s.streams[k].width
            && Appended(s, frame, ks + {k}) ==
               if !Takes(s.streams[k], frame) then t
               else State(t.streams[k := s.streams[k].(rows := s.streams[k].rows + 1)],
                          t.disk[s.streams[k].path := WithRow(t.disk[s.streams[k].path], frame)])
  {
    hide Takes, WithRow;
    var t, u, p := Appended(s, frame, ks), Appended(s, frame, ks + {k}), s.streams[k].path;
    assert forall j :: !Writes(s, frame, ks, j, p);
    assert forall j, q :: Writes(s, frame, ks + {k}, j, q) <==>
      Writes(s, frame, ks, j, q) || (j == k && Writes(s, frame, {k}, k, q));
    if !Takes(s.streams[k], frame) {
      assert u.streams == t.streams;
      assert u.disk == t.disk;
    } else {
      assert Writes(s, frame, {k}, k, p) && Writes(s, frame, ks + {k}, k, p);
      assert t.disk[p] == s.disk[p];
      assert u.streams == t.streams[k := s.streams[k].(rows := s.streams[k].rows + 1)];
      assert u.disk == t.disk[p := WithRow(t.disk[p], frame)];
    }
  }

  /** The padded row folded to a stream's width, or as it is when the widths agree. */
  method FoldRow(row: seq<Byte>, w: nat) returns (out: seq<Byte>)
    requires w > 0 && |row| % w == 0 && row != []
    ensures out == RowFor(Frame(row, Range(0.0, 0.0)), w)
    ensures |row| == w * (|row| / w) && IsFold(row, out, w, |row| / w) && (w == |row| ==> out == row)
  {
    RowIsFold(Frame(row, Range(0.0, 0.0)), w);
    if w == |row| {
      FoldOne(row);
      return row;
    }
    PadOf(|row|, w);
    out := FoldGroups(row, w, |row| / w);
  }

  method FoldGroups(row: seq<Byte>, w: nat, pad: nat) returns (out: seq<Byte>)
    requires |row| == w * pad && pad > 0
    ensures out == Fold(row, w, pad)
  {
    hide Group, MaxOf;
    var folded := new Byte[w](_ => 0);
    var o := 0;
    while o < w
      invariant 0 <= o <= w
      invariant forall i :: 0 <= i < o ==> folded[i] == GroupMax(row, w, pad, i)
    {
      folded[o] := Loudest(Group(row, w, pad, o));
      o := o + 1;
    }
    out := folded[..];
  }

  method Loudest(g: seq<Byte>) returns (mx: Byte)
    requires g != []
    ensures mx == MaxOf(g)
  {
    mx := g[0];
    var k := 1;
    while k < |g|
      invariant 1 <= k <= |g| && mx == MaxOf(g[..k])
    {
      assert g[..k + 1][..k] == g[..k];
      if g[k] > mx {
        mx := g[k];
      }
      k := k + 1;
    }
    assert g[..k] == g;
  }

  class Room {
    var streams: map<Key, Stream>
    var disk: map<Path, File>

    ghost function State(): State
      reads this
    {
      HistLive.State(streams, disk)
    }

    constructor (files: map<Path, File>)
      ensures State() == HistLive.State(map[], files)
    {
      streams, disk := map[], files;
    }

    method OnLiveStart(name: Key, ls: Start, path: Path)
      modifies this
      ensures State() == Started(old(State()), name, ls, path)
    {
      if name in streams {
        streams := streams - {name};
      } else {
        assert streams - {name} == streams;
      }
      if path in disk {
        return;
      }
      disk := disk[path := File(ls.width, ls.range, ls.start, [], [])];
      streams := streams[name := Stream(path, ls.width, 0, ls.start, Range(0.0, 0.0), false)];
    }

    method OnLiveStop(name: Key, now: nat, final: Path)
      requires Opened(State())
      modifies this
      ensures State() == Stopped(old(State()), name, now, final) && Opened(State())
    {
      StopKeepsOpened(State(), name, now, final);
      if name !in streams {
        return;
      }
      var st := streams[name];
      streams := streams - {name};
      if st.rows == 0 || ShortStub(st.start, now) {
        disk := disk - {st.path};
        return;
      }
      if final !in disk {
        var f := disk[st.path];
        disk := disk - {st.path};
        disk := disk[final := f];
      }
    }

    /** The first frame fixes the range; a stream with another range is to be rotated. */
    method SettleRanges(range: Range) returns (rotate: seq<Key>)
      requires Opened(State())
      modifies this
      ensures State() == Ranged(old(State()), range, old(streams).Keys) && Opened(State())
      ensures Lists(rotate, State(), range)
    {
      hide Ranged, Opened;
      rotate := [];
      var todo := streams.Keys;
      ghost var s := State();
      ghost var done: set<Key> := {};
      RangedNone(s, range);
      RangedOpened(s, range, {});
      while todo != {}
        invariant todo + done == s.streams.Keys && todo !! done
        invariant State() == Ranged(s, range, done)
        invariant forall k :: k in rotate <==> k in done && Mismatched(s, range, k)
        invariant forall i, j :: 0 <= i < j < |rotate| ==> rotate[i] != rotate[j]
        decreases todo
      {
        var k :| k in todo;
        todo := todo - {k};
        RangedOne(s, range, done, k);
        RangedOpened(s, range, done + {k});
        if !streams[k].rangeKnown {
          disk := disk[streams[k].path := disk[streams[k].path].(range := range)];
          streams := streams[k := streams[k].(range := range, rangeKnown := true)];
        } else if streams[k].range != range {
          rotate := rotate + [k];
        }
        done := done + {k};
      }
      assert done == s.streams.Keys;
      RangedOpened(s, range, done);
      MismatchKept(s, range);
    }

    /** Every open stream that can take the frame writes a row. */
    method WriteRows(frame: Frame)
      requires Opened(State())
      modifies this
      ensures State() == Appended(old(State()), frame, old(streams).Keys)
    {
      hide Appended, Opened, WithRow, RowFor;
      var todo := streams.Keys;
      ghost var s := State();
      ghost var done: set<Key> := {};
      AppendedNone(s, frame);
      while todo != {}
        invariant todo + done == s.streams.Keys && todo !! done
        invariant State() == Appended(s, frame, done)
        decreases todo
      {
        var k :| k in todo;
        todo := todo - {k};
        AppendedOne(s, frame, done, k);
        var st := streams[k];
        if st.width != 0 && |frame.row| % st.width == 0 && frame.row != [] {
          WriteRow(k, frame);
        }
        done := done + {k};
      }
      assert done == s.streams.Keys;
    }

    method WriteRow(k: Key, frame: Frame)
      requires k in streams && streams[k].path in disk && Takes(streams[k], frame)
      requires disk[streams[k].path].width == streams[k].width
      modifies this
      ensures streams == old(streams)[k := old(streams)[k].(rows := old(streams)[k].rows + 1)]
      ensures disk == old(disk)[old(streams)[k].path := WithRow(old(disk)[old(streams)[k].path], frame)]
    {
      var st := streams[k];
      var out := FoldRow(frame.row, st.width);
      var f := disk[st.path];
      disk := disk[st.path := f.(body := f.body + out, quant := f.quant + [frame.range])];
      streams := streams[k := st.(rows := st.rows + 1)];
    }

    /** A frame that carries quantised bytes: settle the range, rotate, write. */
    method OnFft(frame: Frame, now: nat, finals: map<Key, Path>) returns (ghost order: seq<Key>)
      requires Opened(State())
      modifies this
      ensures Lists(order, Ranged(old(State()), frame.range, old(streams).Keys), frame.range)
      ensures State() == Framed(old(State()), frame, order, now, finals)
    {
      var rotate := SettleRanges(frame.range);
      order := rotate;
      ghost var ranged := State();
      var i := 0;
      while i < |rotate|
        invariant 0 <= i <= |rotate| && Opened(State())
        invariant Rotated(ranged, rotate, now, finals) == Rotated(State(), rotate[i..], now, finals)
      {
        var final := if rotate[i] in finals then finals[rotate[i]] else "";
        assert rotate[i..][1..] == rotate[i + 1..];
        OnLiveStop(Truncated(rotate[i]), now, final);
        i := i + 1;
      }
      WriteRows(frame);
    }
  }

  lemma MismatchKept(s: State, range: Range)
    ensures forall k :: Mismatched(Ranged(s, range, s.streams.Keys), range, k) <==> Mismatched(s, range, k)
  {
  }
}
