/**
 * The shared IQ ring: the capture thread writes chunks with a wrap split, a demodulator reads behind
 * it. Seen against the endless stream of captured samples.
 */
module IqRing {

  datatype Iq = Iq(i: int, q: int)

  const CAPACITY: nat := 4194304

  function Slot(k: int): (j: nat)
    ensures j < CAPACITY
  {
    k % CAPACITY
  }

  lemma SlotAdd(a: int, n: int)
    ensures Slot(Slot(a) + n) == Slot(a + n)
  {
  }

  /** How far slot j is ahead of slot wp, going round. */
  function Ahead(wp: nat, j: nat): (i: nat)
    requires wp < CAPACITY && j < CAPACITY
    ensures i < CAPACITY
  {
    if j >= wp then j - wp else j + CAPACITY - wp
  }

  lemma AheadOfStream(n: nat, k: int)
    requires n - CAPACITY <= k < n + CAPACITY
    ensures Ahead(Slot(n), Slot(k)) == if k >= n then k - n else k - n + CAPACITY
  {
    var a, b := n / CAPACITY, k / CAPACITY;
    assert n == a * CAPACITY + Slot(n) && k == b * CAPACITY + Slot(k);
    assert a - 2 < b < a + 2;
  }

  // --------------------------------------------------------- lag limits

  function RingMaxLag(mainSr: nat, burst: nat): (lag: int)
    ensures 0 <= lag <= CAPACITY / 2
  {
    var lag := (mainSr as real * 0.08).Floor;
    var atLeast := if burst != 0 && lag < 2 * burst then 2 * burst else lag;
    if atLeast > CAPACITY / 2 then CAPACITY / 2 else atLeast
  }

  function RingKeepAfterLag(mainSr: nat, burst: nat): (keep: int)
    ensures 0 <= keep
  {
    var keep := (mainSr as real * 0.02).Floor;
    if burst != 0 && keep < burst then burst else keep
  }

  /**
   * The limits in samples: eighty milliseconds, or two bursts if that is more, but at most half of the
   * ring's 2^22; and twenty milliseconds, or one burst if that is more.
   */
  lemma LimitsAre(mainSr: nat, burst: nat)
    ensures var lag := if 2 * burst > mainSr * 8 / 100 then 2 * burst else mainSr * 8 / 100;
            RingMaxLag(mainSr, burst) == if lag > 2_097_152 then 2_097_152 else lag
    ensures RingKeepAfterLag(mainSr, burst) == if burst > mainSr / 50 then burst else mainSr / 50
  {
    FloorOf(mainSr as real * 0.08, mainSr * 8, 100);
    FloorOf(mainSr as real * 0.02, mainSr, 50);
  }

  lemma FloorOf(x: real, a: nat, d: nat)
    requires d == 100 || d == 50
    requires x * d as real == a as real
    ensures x.Floor == a / d
  {
    var q := a / d;
    assert d * q <= a < d * q + d;
    if d == 100 {
      assert 100.0 * q as real <= x * 100.0 < 100.0 * q as real + 100.0;
    } else {
      assert 50.0 * q as real <= x * 50.0 < 50.0 * q as real + 50.0;
    }
  }

  /** What is kept never exceeds what triggers the limiter, exactly as long as it fits half the ring. */
  lemma KeepBelowLimitExactly(mainSr: nat, burst: nat)
    ensures RingKeepAfterLag(mainSr, burst) <= RingMaxLag(mainSr, burst)
       <==> RingKeepAfterLag(mainSr, burst) <= CAPACITY / 2
  {
    assert mainSr as real * 0.02 <= mainSr as real * 0.08;
  }

  /** The radios in use deliver no bursts, or bursts of 2^20 samples; then half the ring is enough. */
  lemma BurstsFit(mainSr: nat, burst: nat)
    requires burst <= 0x10_0000 && mainSr <= 104_857_600
    ensures RingKeepAfterLag(mainSr, burst) <= RingMaxLag(mainSr, burst) <= CAPACITY / 2
  {
    assert mainSr as real * 0.02 <= 2097152.0;
    KeepBelowLimitExactly(mainSr, burst);
  }

  // ---------------------------------------------------------- the stream

  /** The sample at position k; before its beginning the stream is taken to be silent, as the ring is. */
  function SampleAt(stream: seq<Iq>, k: int): Iq {
    if 0 <= k < |stream| then stream[k] else Iq(0, 0)
  }

  /** The n samples from position from on. */
  function Window(stream: seq<Iq>, from: int, n: nat): (w: seq<Iq>)
    ensures |w| == n && forall i :: 0 <= i < n ==> w[i] == SampleAt(stream, from + i)
  {
    seq(n, i requires 0 <= i < n => SampleAt(stream, from + i))
  }

  lemma WindowIsSlice(stream: seq<Iq>, from: int, n: nat)
    requires 0 <= from && from + n <= |stream|
    ensures Window(stream, from, n) == stream[from..from + n]
  {
    forall i | 0 <= i < n
      ensures Window(stream, from, n)[i] == stream[from..from + n][i]
    {
    }
  }

  /** The last CAPACITY samples of the stream are in their slots. */
  ghost predicate Holds(ring: seq<Iq>, stream: seq<Iq>) {
    && |ring| == CAPACITY
    && forall k :: |stream| - CAPACITY <= k < |stream| ==> ring[Slot(k)] == SampleAt(stream, k)
  }

  /** A ring after a chunk has gone in from slot wp on. */
  ghost predicate Written(before: seq<Iq>, after: seq<Iq>, wp: nat, chunk: seq<Iq>) {
    && |before| == |after| == CAPACITY && |chunk| <= CAPACITY && wp < CAPACITY
    && forall j :: 0 <= j < CAPACITY ==>
      after[j] == if Ahead(wp, j) < |chunk| then chunk[Ahead(wp, j)] else before[j]
  }

  lemma WriteHolds(before: seq<Iq>, after: seq<Iq>, stream: seq<Iq>, chunk: seq<Iq>)
    requires Holds(before, stream) && Written(before, after, Slot(|stream|), chunk)
    ensures Holds(after, stream + chunk)
  {
    hide Slot, Ahead;
    var n, s := |stream|, stream + chunk;
    forall k | |s| - CAPACITY <= k < |s|
      ensures after[Slot(k)] == SampleAt(s, k)
    {
      AheadOfStream(n, k);
      assert k < n ==> before[Slot(k)] == SampleAt(stream, k);
    }
  }

  /** after is before, with n samples of the chunk from index from on put in at slot at. */
  ghost predicate Copied(before: seq<Iq>, after: seq<Iq>, at: nat, chunk: seq<Iq>, from: nat, n: nat)
    requires from + n <= |chunk|
  {
    && |after| == |before|
    && forall j :: 0 <= j < |before| ==> after[j] == if at <= j < at + n then chunk[from + (j - at)] else before[j]
  }

  method CopyInto(ring: array<Iq>, at: nat, chunk: seq<Iq>, from: nat, n: nat)
    requires at + n <= ring.Length && from + n <= |chunk|
    modifies ring
    ensures Copied(old(ring[..]), ring[..], at, chunk, from, n)
  {
    var i := 0;
    while i < n
      invariant 0 <= i <= n
      invariant forall j :: 0 <= j < ring.Length ==>
                  ring[j] == if at <= j < at + i then chunk[from + (j - at)] else old(ring[j])
    {
      ring[at + i] := chunk[from + i];
      i := i + 1;
    }
  }

  /** One copy, or two when the chunk runs past the end. */
  lemma OnePiece(before: seq<Iq>, after: seq<Iq>, wp: nat, chunk: seq<Iq>)
    requires |before| == CAPACITY && wp + |chunk| <= CAPACITY && wp < CAPACITY
    requires Copied(before, after, wp, chunk, 0, |chunk|)
    ensures Written(before, after, wp, chunk)
  {
  }

  lemma TwoPieces(before: seq<Iq>, half: seq<Iq>, after: seq<Iq>, wp: nat, chunk: seq<Iq>)
    requires |before| == CAPACITY && |chunk| <= CAPACITY && wp < CAPACITY && wp + |chunk| > CAPACITY
    requires var p1 := CAPACITY - wp;
             Copied(before, half, wp, chunk, 0, p1) && Copied(half, after, 0, chunk, p1, |chunk| - p1)
    ensures Written(before, after, wp, chunk)
  {
  }

  // ---------------------------------------------------------- the reader

  /** What was consumed are the samples of the stream at the positions taken. */
  ghost predicate Consistent(stream: seq<Iq>, pos: int, taken: seq<int>, consumed: seq<Iq>) {
    && |taken| == |consumed| && pos <= |stream|
    && forall i :: 0 <= i < |taken| ==> taken[i] < |stream| && consumed[i] == SampleAt(stream, taken[i])
  }

  /** No sample was consumed twice, out of order, or before the stream began. */
  ghost predicate Onward(taken: seq<int>, pos: int) {
    && 0 <= pos && (forall i :: 0 <= i < |taken| ==> 0 <= taken[i] < pos)
    && (forall i, j :: 0 <= i < j < |taken| ==> taken[i] < taken[j])
  }

  ghost predicate Contiguous(taken: seq<int>, start: int, pos: int) {
    start + |taken| == pos && forall i :: 0 <= i < |taken| ==> taken[i] == start + i
  }

  /** Where reading goes on: where it stopped, unless the lag, as far as the masks show it, is too great. */
  function ResumeAt(length: nat, pos: int, maxLag: nat, keep: nat): int
    requires pos <= length
  {
    var lag := Slot(length - pos);
    if lag > maxLag then length - Slot(keep) else length - lag
  }

  /**
   * Reading steps back exactly when the limiter acts and keeps more than there is to catch up. As long
   * as it keeps no more than triggers it, reading only ever skips forward, and skips exactly when the
   * true lag exceeds the limit.
   */
  lemma ResumeExactly(length: nat, pos: int, maxLag: nat, keep: nat)
    requires pos <= length && maxLag < CAPACITY
    ensures var from := ResumeAt(length, pos, maxLag, keep);
            && length - CAPACITY < from <= length
            && (from < pos <==> Slot(length - pos) > maxLag && Slot(keep) > length - pos)
            && (keep <= maxLag ==>
                  pos <= from && length - from <= maxLag && (from == pos <==> length - pos <= maxLag))
  {
    var lag := length - pos;
    assert lag < CAPACITY ==> Slot(lag) == lag;
    assert lag >= CAPACITY ==> Slot(lag) < lag;
    assert keep < CAPACITY ==> Slot(keep) == keep;
  }

  /**
   * Reading goes on at the latest position that the masked one can stand for; if that is too far
   * behind, it goes on where as much is left as is to be kept.
   */
  lemma ResumeIs(length: nat, pos: int, maxLag: nat, keep: nat)
    requires pos <= length
    ensures var from, behind := ResumeAt(length, pos, maxLag, keep), (length - pos) % 4_194_304;
            && (behind <= maxLag ==> length - 4_194_304 < from <= length && (from - pos) % 4_194_304 == 0)
            && (behind > maxLag && keep < 4_194_304 ==> from == length - keep)
  {
    var q := (length - pos) / 4_194_304;
    if (length - pos) % 4_194_304 <= maxLag {
      assert ResumeAt(length, pos, maxLag, keep) - pos == 4_194_304 * q;
    }
  }

  function Positions(from: int, n: nat): (ps: seq<int>)
    ensures |ps| == n && forall i :: 0 <= i < n ==> ps[i] == from + i
  {
    seq(n, i requires 0 <= i < n => from + i)
  }

  lemma ConsumeMore(stream: seq<Iq>, pos: int, taken: seq<int>, consumed: seq<Iq>, from: int, n: nat)
    requires Consistent(stream, pos, taken, consumed) && from + n <= |stream|
    ensures Consistent(stream, from + n, taken + Positions(from, n), consumed + Window(stream, from, n))
    ensures Onward(taken, pos) && pos <= from ==> Onward(taken + Positions(from, n), from + n)
    ensures forall start :: Contiguous(taken, start, pos) && from == pos ==>
              Contiguous(taken + Positions(from, n), start, from + n)
  {
  }

  /** The first samples consumed are contiguous with themselves. */
  lemma StartsHere(stream: seq<Iq>, pos: int, taken: seq<int>, consumed: seq<Iq>, from: int, n: nat)
    requires Consistent(stream, pos, taken, consumed)
    ensures taken == [] ==> Contiguous(taken + Positions(from, n), from, from + n)
  {
  }

  lemma ConsistentGrows(stream: seq<Iq>, more: seq<Iq>, pos: int, taken: seq<int>, consumed: seq<Iq>)
    requires Consistent(stream, pos, taken, consumed)
    ensures Consistent(stream + more, pos, taken, consumed)
  {
  }

  class Ring {
    const ring: array<Iq>
    var wp: nat
    /** A reader's masked position. */
    var rp: nat
    ghost var stream: seq<Iq>
    /** The stream position the reader has reached, and which samples it has consumed. */
    ghost var pos: int
    ghost var taken: seq<int>
    ghost var consumed: seq<Iq>
    /** Where consumption began, whether nothing has been skipped since, and whether it never stepped back. */
    ghost var start: int
    ghost var unbroken: bool
    ghost var onward: bool

    ghost predicate Valid()
      reads this, ring
    {
      && RingHolds() && wp == Slot(|stream|)
      && rp == Slot(pos) && pos <= |stream| && Tracked()
    }

    ghost predicate Tracked()
      reads `stream, `pos, `taken, `consumed, `start, `unbroken, `onward
    {
      && Consistent(stream, pos, taken, consumed)
      && (unbroken ==> Contiguous(taken, start, pos)) && (onward ==> Onward(taken, pos))
    }

    constructor ()
      ensures Valid() && stream == [] && taken == [] && unbroken && onward && pos == 0 && fresh(ring)
    {
      ring := new Iq[CAPACITY](_ => Iq(0, 0));
      wp, rp, stream, pos, taken, consumed := 0, 0, [], 0, [], [];
      start, unbroken, onward := 0, true, true;
    }

    /** A chunk of captured samples goes into the ring, split where it wraps. */
    method Write(chunk: seq<Iq>)
      requires Valid() && |chunk| <= CAPACITY
      modifies this`wp, this`stream, ring
      ensures Valid() && stream == old(stream) + chunk
    {
      hide Slot, Holds, Written, Consistent, Contiguous;
      ghost var before := ring[..];
      var n := |chunk|;
      CopyChunk(ring, wp, chunk);
      WriteHolds(before, ring[..], stream, chunk);
      SlotAdd(|stream|, n);
      ConsistentGrows(stream, chunk, pos, taken, consumed);
      wp := Slot(wp + n);
      stream := stream + chunk;
    }

    /** The reader has consumed the n samples from position from on. */
    ghost method Advance(from: int, n: nat)
      requires Tracked() && from + n <= |stream|
      modifies this`pos, this`taken, this`consumed, this`start, this`unbroken, this`onward
      ensures pos == from + n && taken == old(taken) + Positions(from, n)
      ensures consumed == old(consumed) + Window(stream, from, n)
      ensures unbroken == (old(unbroken) && (from == old(pos) || old(taken) == []))
      ensures onward == (old(onward) && old(pos) <= from)
      ensures start == (if old(taken) == [] then from else old(start))
      ensures Tracked()
    {
      hide Consistent, Contiguous, Onward;
      ConsumeMore(stream, pos, taken, consumed, from, n);
      StartsHere(stream, pos, taken, consumed, from, n);
      unbroken := unbroken && (from == pos || taken == []);
      onward := onward && pos <= from;
      start := if taken == [] then from else start;
      pos, taken, consumed := from + n, taken + Positions(from, n), consumed + Window(stream, from, n);
    }

    /**
     * One round of the demodulator: resume, then either drop the backlog (squelch closed and nothing
     * being recorded) or consume up to a batch. What it consumes is the stream from the resume point,
     * which is never behind the point reached as long as the limiter keeps at most half the ring.
     */
    method DemStep(mainSr: nat, burst: nat, batch: nat, idle: bool) returns (out: seq<Iq>)
      requires Valid()
      modifies this`rp, this`pos, this`taken, this`consumed, this`start, this`unbroken, this`onward
      ensures Valid()
      ensures var maxLag, keep := RingMaxLag(mainSr, burst), RingKeepAfterLag(mainSr, burst);
              var from := ResumeAt(|stream|, old(pos), maxLag, keep);
              var lag := |stream| - from;
              && 0 <= lag < CAPACITY && (keep <= CAPACITY / 2 ==> old(pos) <= from)
              && consumed == old(consumed) + out
              && (idle ==> out == [] && pos == |stream| && taken == old(taken) && onward == old(onward))
              && (!idle ==> pos == from + |out| && |out| == (if lag < batch then lag else batch)
                            && out == Window(stream, from, |out|) && (0 <= from ==> out == stream[from..pos])
                            && taken == old(taken) + Positions(from, |out|)
                            && unbroken == (old(unbroken) && (from == old(pos) || old(taken) == []))
                            && onward == (old(onward) && old(pos) <= from))
    {
      hide Holds, Tracked, RingMaxLag, RingKeepAfterLag, ResumeAt, Slot, RingHolds, Window, Positions;
      var maxLag, keep := RingMaxLag(mainSr, burst), RingKeepAfterLag(mainSr, burst);
      KeepBelowLimitExactly(mainSr, burst);
      var lag;
      ghost var from;
      lag, from := Resume(maxLag, keep);
      NoSamples(stream, from);
      NoSamples(stream, |stream|);
      if lag == 0 {
        Advance(from, 0);
        return [];
      }
      if idle {
        rp := wp;
        Advance(|stream|, 0);
        return [];
      }
      var avail := if lag < batch then lag else batch;
      out := Consume(avail, from);
      Advance(from, avail);
      SlotAdd(from, avail);
      rp := Slot(rp + avail);
      if 0 <= from {
        WindowIsSlice(stream, from, avail);
      }
    }

    /** The lag as the masks show it; the limiter moves the read position. */
    method Resume(maxLag: nat, keep: nat) returns (lag: nat, ghost from: int)
      requires Valid() && maxLag <= CAPACITY / 2
      modifies this`rp
      ensures from == ResumeAt(|stream|, pos, maxLag, keep) && (keep <= maxLag ==> pos <= from)
      ensures rp == Slot(from) && lag == |stream| - from < CAPACITY
    {
      hide Holds, Tracked, Slot, RingHolds;
      ResumeExactly(|stream|, pos, maxLag, keep);
      from := ResumeAt(|stream|, pos, maxLag, keep);
      LagMasked(|stream|, pos);
      lag := Slot(wp - rp);
      if lag > maxLag {
        rp := Slot(wp - keep);
        RestartMasked(|stream|, keep);
        lag := Slot(wp - rp);
      } else {
        SameSlot(|stream|, pos);
      }
    }

    method Consume(avail: nat, ghost from: int) returns (out: seq<Iq>)
      requires RingHolds() && rp == Slot(from) && from + avail <= |stream| && |stream| - from < CAPACITY
      ensures out == Window(stream, from, avail)
    {
      hide Slot;
      out := [];
      var s := 0;
      while s < avail
        invariant 0 <= s <= avail && out == Window(stream, from, s)
      {
        SlotAdd(from, s);
        var p := Slot(rp + s);
        assert p == Slot(from + s) && ring[..][Slot(from + s)] == SampleAt(stream, from + s);
        out := out + [ring[p]];
        s := s + 1;
      }
    }

    ghost predicate RingHolds()
      reads `stream, ring
    {
      ring.Length == CAPACITY && Holds(ring[..], stream)
    }
  }

  method CopyChunk(ring: array<Iq>, wp: nat, chunk: seq<Iq>)
    requires ring.Length == CAPACITY && wp < CAPACITY && |chunk| <= CAPACITY
    modifies ring
    ensures Written(old(ring[..]), ring[..], wp, chunk)
  {
    hide Written, Copied;
    ghost var before := ring[..];
    var n := |chunk|;
    if wp + n <= CAPACITY {
      CopyInto(ring, wp, chunk, 0, n);
      OnePiece(before, ring[..], wp, chunk);
    } else {
      var p1 := CAPACITY - wp;
      CopyInto(ring, wp, chunk, 0, p1);
      ghost var half := ring[..];
      CopyInto(ring, 0, chunk, p1, n - p1);
      TwoPieces(before, half, ring[..], wp, chunk);
    }
  }

  lemma LagMasked(length: nat, pos: int)
    ensures Slot(Slot(length) - Slot(pos)) == Slot(length - pos)
  {
    var a, b := length / CAPACITY, pos / CAPACITY;
    assert Slot(length) - Slot(pos) == length - pos - (a - b) * CAPACITY;
    SlotShift(length - pos, a - b);
  }

  /** The masked lag is the true lag exactly while the reader is less than a whole ring behind. */
  lemma MaskedLagExactly(length: nat, pos: int)
    requires pos <= length
    ensures Slot(Slot(length) - Slot(pos)) == length - pos <==> length - pos < CAPACITY
  {
    LagMasked(length, pos);
  }

  lemma SlotShift(x: int, m: int)
    ensures Slot(x - m * CAPACITY) == Slot(x)
  {
  }

  lemma SameSlot(length: nat, pos: int)
    requires pos <= length
    ensures Slot(length - Slot(length - pos)) == Slot(pos)
  {
    var m := (length - pos) / CAPACITY;
    assert length - Slot(length - pos) == pos + m * CAPACITY;
    SlotShift(pos, -m);
  }

  /** Where the limiter puts a reader that is to keep some samples, and the lag the masks then show. */
  lemma RestartMasked(length: nat, keep: nat)
    ensures Slot(Slot(length) - keep) == Slot(length - Slot(keep))
    ensures Slot(Slot(length) - Slot(Slot(length) - keep)) == Slot(keep)
  {
    hide Slot;
    SlotMinus(length, keep);
    LagMasked(length, length - keep);
    assert length - (length - keep) == keep;
    SameSlot(length, length - keep);
  }

  lemma SlotMinus(length: nat, keep: nat)
    ensures Slot(Slot(length) - keep) == Slot(length - keep)
  {
    var a := length / CAPACITY;
    assert Slot(length) - keep == length - keep - a * CAPACITY;
    SlotShift(length - keep, a);
  }

  lemma NoSamples(stream: seq<Iq>, from: int)
    ensures Window(stream, from, 0) == [] && Positions(from, 0) == []
  {
  }
}
