/**
 * Detect mode, the search for a burst: one pass over the bins of the search band with a moving
 * notch cursor, against a declarative description of what a run is and which run wins.
 */
module DetectScan {
  import opened Prelude

  /** An inclusive interval of scan indices. */
  datatype KRange = KRange(lo: int, hi: int)

  datatype Run = Run(first: int, last: int, snr: real)

  const MIN_RUN_BINS := 2
  const MARGIN_MIN_DB := 0.0
  const MARGIN_MAX_DB := 40.0
  const GAP_KHZ := 2.0
  const NO_SNR := -999.0

  predicate Covers(ranges: seq<KRange>, k: int) {
    exists r :: r in ranges && r.lo <= k <= r.hi
  }

  /**
   * What the scan looks at: one spectrum row, the baseline of the band, where the band starts in
   * the row (it may wrap), the notched index ranges, the margin and the longest bridged gap.
   */
  datatype Band = Band(row: seq<real>, base: seq<real>, binS: nat, notches: seq<KRange>, margin: real, gap: nat) {
    ghost predicate Valid() {
      && binS < |row| && |base| <= |row|
      && margin > NO_SNR
      && forall r :: r in notches ==> 0 <= r.lo <= r.hi < |base|
    }

    function N(): nat {
      |base|
    }

    function BinAt(k: int): int {
      if binS + k >= |row| then binS + k - |row| else binS + k
    }

    function Snr(k: int): real
      requires Valid() && 0 <= k < N()
    {
      row[BinAt(k)] - base[k]
    }

    /** A usable bin that reaches the margin. */
    ghost predicate Hot(k: int)
      requires Valid()
    {
      0 <= k < N() && !Covers(notches, k) && Snr(k) >= margin
    }

    /** A usable bin that does not. */
    ghost predicate Cold(k: int)
      requires Valid()
    {
      0 <= k < N() && !Covers(notches, k) && Snr(k) < margin
    }

    ghost predicate AllCold(from: int, to: int)
      requires Valid()
    {
      forall m :: from <= m < to ==> Cold(m)
    }

    /** One cold bin more than may be bridged. */
    ghost predicate LongGap(m: int)
      requires Valid()
    {
      AllCold(m, m + gap + 1)
    }

    /** From h one can reach k over nothing but a short enough cold stretch. */
    ghost predicate Bridges(h: int, k: int)
      requires Valid()
    {
      h < k <= h + gap + 1 && AllCold(h + 1, k)
    }

    /** A burst begins at a: no earlier hot bin reaches it. */
    ghost predicate Begins(a: int)
      requires Valid()
    {
      Hot(a) && forall h :: Hot(h) ==> !Bridges(h, a)
    }

    /** a and z are hot, no bin between them is notched and no stretch of more than gap bins is cold. */
    ghost predicate Connected(a: int, z: int)
      requires Valid()
    {
      && a <= z && Hot(a) && Hot(z)
      && (forall k :: a <= k <= z ==> Hot(k) || Cold(k))
      && (forall m :: a <= m && m + gap <= z ==> !LongGap(m))
    }

    /**
     * Where a burst whose last hot bin is z is reported to end: at z when a full cold stretch
     * follows, otherwise at the last bin before the notch or the end of the band that cut it off.
     */
    ghost predicate Ends(z: int, e: int)
      requires Valid()
    {
      if z + gap + 1 < N() && LongGap(z + 1) then e == z
      else z <= e <= z + gap && AllCold(z + 1, e + 1) && (e + 1 == N() || Covers(notches, e + 1))
    }

    /** [a..e] is a reported burst, and z its last hot bin. */
    ghost predicate Burst(a: int, z: int, e: int)
      requires Valid()
    {
      Begins(a) && Connected(a, z) && Ends(z, e)
    }

    ghost predicate IsBurst(a: int, e: int)
      requires Valid()
    {
      exists z :: Burst(a, z, e)
    }

    /** p is the largest value in [a..e]. */
    ghost predicate IsPeak(a: int, e: int, p: real)
      requires Valid()
    {
      && (forall k :: a <= k <= e && 0 <= k < N() ==> Snr(k) <= p)
      && (exists k :: a <= k <= e && 0 <= k < N() && Snr(k) == p)
    }
  }

  /** What a run must satisfy to be taken: long enough and, under a lock, next to the locked band. */
  datatype Lock = Unlocked | Locked(s: real, e: real)

  predicate Adjacent(lock: Lock, lo: real, hi: real) {
    lock.Unlocked? || (hi >= lock.s - GAP_KHZ * 0.001 && lo <= lock.e + GAP_KHZ * 0.001)
  }

  predicate Admissible(b: Band, freq: int -> real, lock: Lock, a: int, e: int) {
    e - a + 1 >= MIN_RUN_BINS && Adjacent(lock, freq(b.BinAt(a)), freq(b.BinAt(e)))
  }

  /** best is the strongest admissible burst that begins before bound, the first one among equals. */
  ghost predicate BestBefore(b: Band, freq: int -> real, lock: Lock, bound: int, best: Option<Run>)
    requires b.Valid()
  {
    match best
    case None =>
      forall a, e :: a < bound && b.IsBurst(a, e) ==> !Admissible(b, freq, lock, a, e)
    case Some(r) =>
      && r.first < bound && b.IsBurst(r.first, r.last) && Admissible(b, freq, lock, r.first, r.last)
      && b.IsPeak(r.first, r.last, r.snr)
      && forall a, e, p :: a < bound && b.IsBurst(a, e) && Admissible(b, freq, lock, a, e) && b.IsPeak(a, e, p)
           ==> p <= r.snr && (a < r.first ==> p < r.snr)
  }

  // -------------------------------------------------------- lemmas on bursts

  lemma PeakUnique(b: Band, a: int, e: int, p: real, q: real)
    requires b.Valid() && b.IsPeak(a, e, p) && b.IsPeak(a, e, q)
    ensures p == q
  {
  }

  /** Along a connected stretch every hot bin but the first is reached from an earlier one. */
  lemma ReachedFromBefore(b: Band, a: int, z: int, k: int)
    requires b.Valid() && b.Connected(a, z) && a < k <= z && b.Hot(k)
    ensures exists h :: a <= h < k && b.Hot(h) && b.Bridges(h, k)
  {
    var h := k - 1;
    while !b.Hot(h)
      invariant a <= h < k
      invariant b.AllCold(h + 1, k)
      invariant k - h <= b.gap + 1
      decreases h
    {
      assert h != a;
      assert h + b.gap <= z ==> !b.LongGap(h);
      h := h - 1;
    }
    assert b.Bridges(h, k);
  }

  /** Nothing begins strictly inside a burst. */
  lemma NoBeginInside(b: Band, a: int, z: int, k: int)
    requires b.Valid() && b.Connected(a, z) && a < k <= z
    ensures !b.Begins(k)
  {
    if b.Hot(k) {
      ReachedFromBefore(b, a, z, k);
    }
  }

  /** A burst cannot stop at a hot bin that reaches a later one. */
  lemma EndsBlocksBridge(b: Band, z: int, e: int, k: int)
    requires b.Valid() && b.Hot(z) && b.Ends(z, e) && b.Hot(k) && z < k
    ensures !b.Bridges(z, k)
  {
    assert b.LongGap(z + 1) && k <= z + b.gap + 1 ==> b.Cold(k);
    assert b.AllCold(z + 1, e + 1) && k <= e ==> b.Cold(k);
    assert b.AllCold(z + 1, k) && z <= e && e + 1 < k ==> b.Cold(e + 1);
  }

  lemma EndNotBefore(b: Band, z: int, e: int, e': int)
    requires b.Valid() && b.Ends(z, e) && b.Ends(z, e')
    ensures e >= e'
  {
    assert b.AllCold(z + 1, e' + 1) && z < e + 1 <= e' ==> b.Cold(e + 1);
  }

  /** A beginning determines the burst. */
  lemma BurstUnique(b: Band, a: int, z: int, e: int, z': int, e': int)
    requires b.Valid() && b.Burst(a, z, e) && b.Burst(a, z', e')
    ensures z == z' && e == e'
  {
    if z < z' {
      var k := NextHot(b, a, z, z');
      EndsBlocksBridge(b, z, e, k);
    } else if z' < z {
      var k := NextHot(b, a, z', z);
      EndsBlocksBridge(b, z', e', k);
    }
    EndNotBefore(b, z, e, e');
    EndNotBefore(b, z, e', e);
  }

  lemma NextHot(b: Band, a: int, z: int, z': int) returns (k: int)
    requires b.Valid() && b.Connected(a, z') && a <= z < z' && b.Hot(z)
    ensures z < k && b.Hot(k) && b.Bridges(z, k)
  {
    k := z + 1;
    while !b.Hot(k)
      invariant z < k <= z'
      invariant b.AllCold(z + 1, k)
      invariant k - z <= b.gap + 1
      decreases z' - k
    {
      assert z + 1 + b.gap <= z' ==> !b.LongGap(z + 1);
      k := k + 1;
    }
  }

  // ------------------------------------------------------------ the scan

  /** No hot bin before k can still be continued at k. */
  ghost predicate NothingOpen(b: Band, k: int)
    requires b.Valid()
  {
    forall h :: b.Hot(h) && h < k ==> !b.Bridges(h, k)
  }

  /** A burst began at a, its last hot bin so far is k - 1 - gap, and it can still go on at k. */
  ghost predicate Open(b: Band, a: int, k: int, gap: int, snr: real)
    requires b.Valid()
  {
    && 0 <= gap <= b.gap
    && b.Begins(a) && b.Connected(a, k - 1 - gap)
    && b.AllCold(k - gap, k)
    && b.IsPeak(a, k - 1 - gap, snr)
  }

  /** The comparison made when a run is closed. */
  function CloseRun(b: Band, freq: int -> real, lock: Lock, best: Option<Run>, run: Run): (r: Option<Run>)
    ensures r == best || (r == Some(run) && Admissible(b, freq, lock, run.first, run.last))
  {
    var bestSnr := if best.Some? then best.value.snr else NO_SNR;
    if run.last - run.first + 1 >= MIN_RUN_BINS && run.snr > bestSnr &&
       Adjacent(lock, freq(b.BinAt(run.first)), freq(b.BinAt(run.last)))
    then Some(run) else best
  }

  /** Cold bins after the last hot one do not change the peak. */
  lemma PeakOverTail(b: Band, a: int, z: int, e: int, p: real)
    requires b.Valid() && b.Hot(z) && a <= z <= e && b.AllCold(z + 1, e + 1) && b.IsPeak(a, z, p)
    ensures b.IsPeak(a, e, p)
  {
    assert b.Snr(z) <= p;
    forall k | a <= k <= e && 0 <= k < b.N()
      ensures b.Snr(k) <= p
    {
      if k > z {
        assert b.Cold(k);
      }
    }
  }

  /** Closing the open burst a extends the bound to anything up to the next possible beginning. */
  lemma {:induction false} CloseExtends(b: Band, freq: int -> real, lock: Lock, best: Option<Run>, a: int, z: int,
                                        e: int, p: real, bound: int)
    requires b.Valid() && BestBefore(b, freq, lock, a, best)
    requires b.Burst(a, z, e) && b.IsPeak(a, e, p)
    requires forall k :: a < k < bound ==> !b.Begins(k)
    requires a < bound
    ensures BestBefore(b, freq, lock, bound, CloseRun(b, freq, lock, best, Run(a, e, p)))
  {
    OnlyBurst(b, a, z, e, bound);
    assert p > NO_SNR by {
      assert b.Snr(a) <= p;
    }
    assert b.IsBurst(a, e);
    BetterOf(b, freq, lock, best, a, e, p, bound);
  }

  lemma OnlyBurst(b: Band, a: int, z: int, e: int, bound: int)
    requires b.Valid() && b.Burst(a, z, e) && forall k :: a < k < bound ==> !b.Begins(k)
    ensures forall a', e' :: a' < bound && b.IsBurst(a', e') ==> a' < a || (a' == a && e' == e)
  {
    forall a', e' | a' < bound && b.IsBurst(a', e')
      ensures a' < a || (a' == a && e' == e)
    {
      var z' :| b.Burst(a', z', e');
      if a' == a {
        BurstUnique(b, a, z, e, z', e');
      }
    }
  }

  /** The comparison keeps the better of the best so far and the one burst that follows. */
  lemma BetterOf(b: Band, freq: int -> real, lock: Lock, best: Option<Run>, a: int, e: int, p: real, bound: int)
    requires b.Valid() && BestBefore(b, freq, lock, a, best) && b.IsBurst(a, e) && b.IsPeak(a, e, p)
    requires forall a', e' :: a' < bound && b.IsBurst(a', e') ==> a' < a || (a' == a && e' == e)
    requires a < bound && p > NO_SNR
    ensures BestBefore(b, freq, lock, bound, CloseRun(b, freq, lock, best, Run(a, e, p)))
  {
    hide Band.IsBurst, Band.IsPeak;
    var r := CloseRun(b, freq, lock, best, Run(a, e, p));
    if r == Some(Run(a, e, p)) {
      forall a', e', q | a' < bound && b.IsBurst(a', e') && Admissible(b, freq, lock, a', e') && b.IsPeak(a', e', q)
        ensures q <= p && (a' < a ==> q < p)
      {
        if a' == a {
          PeakUnique(b, a, e, p, q);
        }
      }
    } else if best.Some? {
      forall a', e', q | a' < bound && b.IsBurst(a', e') && Admissible(b, freq, lock, a', e') && b.IsPeak(a', e', q)
        ensures q <= best.value.snr && (a' < best.value.first ==> q < best.value.snr)
      {
        if a' == a {
          PeakUnique(b, a, e, p, q);
        }
      }
    }
  }

  /** The interval list as the scan needs it. */
  ghost predicate SortedByLo(ranges: seq<KRange>) {
    forall i, j :: 0 <= i < j < |ranges| ==> ranges[i].lo <= ranges[j].lo
  }

  /** Everything that holds when the scan is about to look at bin k. */
  ghost predicate ScanState(b: Band, freq: int -> real, lock: Lock, k: int, cursor: nat,
                            runStart: int, gap: int, runSnr: real, best: Option<Run>)
    requires b.Valid()
  {
    && 0 <= k <= b.N() && cursor <= |b.notches|
    && (forall i :: 0 <= i < cursor ==> b.notches[i].hi < k)
    && if runStart < 0 then NothingOpen(b, k) && BestBefore(b, freq, lock, k, best)
       else runStart < k && Open(b, runStart, k, gap, runSnr) && BestBefore(b, freq, lock, runStart, best)
  }

  /** With the cursor on the first interval that reaches k, one comparison decides whether k is notched. */
  lemma CursorDecides(b: Band, k: int, cursor: nat)
    requires b.Valid() && SortedByLo(b.notches) && cursor <= |b.notches|
    requires forall i :: 0 <= i < cursor ==> b.notches[i].hi < k
    requires cursor < |b.notches| ==> b.notches[cursor].hi >= k
    ensures Covers(b.notches, k) <==> cursor < |b.notches| && k >= b.notches[cursor].lo
  {
    if Covers(b.notches, k) {
      var r :| r in b.notches && r.lo <= k <= r.hi;
      var i :| 0 <= i < |b.notches| && b.notches[i] == r;
      assert cursor <= i;
      assert b.notches[cursor].lo <= b.notches[i].lo;
    }
  }

  /** Skipping to the end of the interval under the cursor skips only notched bins. */
  lemma SkipNotch(b: Band, freq: int -> real, lock: Lock, k: int, cursor: nat, best: Option<Run>)
    requires b.Valid() && cursor < |b.notches| && b.notches[cursor].lo <= k <= b.notches[cursor].hi
    requires BestBefore(b, freq, lock, k, best)
    requires forall i :: 0 <= i < cursor ==> b.notches[i].hi < k
    ensures ScanState(b, freq, lock, b.notches[cursor].hi + 1, cursor, -1, 0, NO_SNR, best)
  {
    var k' := b.notches[cursor].hi + 1;
    assert b.notches[cursor] in b.notches;
    forall j | k <= j < k'
      ensures Covers(b.notches, j)
    {
    }
    forall h | b.Hot(h) && h < k'
      ensures !b.Bridges(h, k')
    {
      assert b.AllCold(h + 1, k') && h < k ==> b.Cold(k);
    }
    forall a, e | a < k' && b.IsBurst(a, e)
      ensures a < k
    {
    }
  }

  /** The run is cut off at k, by a notch or by the end of the band. */
  lemma CutOff(b: Band, freq: int -> real, lock: Lock, k: int, a: int, gap: int, snr: real, best: Option<Run>)
    requires b.Valid() && 0 <= a < k <= b.N()
    requires Open(b, a, k, gap, snr) && BestBefore(b, freq, lock, a, best)
    requires k == b.N() || Covers(b.notches, k)
    ensures BestBefore(b, freq, lock, k, CloseRun(b, freq, lock, best, Run(a, k - 1, snr)))
  {
    hide BestBefore;
    var z := k - 1 - gap;
    assert b.Ends(z, k - 1) by {
      assert z + b.gap + 1 >= k;
      assert b.LongGap(z + 1) && k < b.N() ==> b.Cold(k);
    }
    assert b.Burst(a, z, k - 1);
    PeakOverTail(b, a, z, k - 1, snr);
    forall j | a < j < k
      ensures !b.Begins(j)
    {
      if j <= z {
        NoBeginInside(b, a, z, j);
      } else {
        assert b.Cold(j);
      }
    }
    CloseExtends(b, freq, lock, best, a, z, k - 1, snr, k);
  }

  lemma ConnectTo(b: Band, a: int, z: int, k: int)
    requires b.Valid() && b.Connected(a, z) && b.Hot(k) && z < k <= z + b.gap + 1 && b.AllCold(z + 1, k)
    ensures b.Connected(a, k)
  {
    forall m | a <= m && m + b.gap <= k
      ensures !b.LongGap(m)
    {
      assert b.LongGap(m) ==> b.Cold(m + b.gap);
      assert b.LongGap(m) && m <= z <= m + b.gap ==> b.Cold(z);
    }
    forall j | a <= j <= k
      ensures b.Hot(j) || b.Cold(j)
    {
    }
  }

  lemma ConnectedSelf(b: Band, k: int)
    requires b.Valid() && b.Hot(k)
    ensures b.Connected(k, k)
  {
    forall m | k <= m && m + b.gap <= k
      ensures !b.LongGap(m)
    {
      assert b.LongGap(m) ==> b.Cold(m);
    }
  }

  lemma StartRun(b: Band, k: int)
    requires b.Valid() && b.Hot(k) && NothingOpen(b, k)
    ensures Open(b, k, k + 1, 0, b.Snr(k))
  {
    ConnectedSelf(b, k);
  }

  lemma ContinueRun(b: Band, k: int, a: int, gap: int, snr: real)
    requires b.Valid() && b.Hot(k) && Open(b, a, k, gap, snr)
    ensures Open(b, a, k + 1, 0, if b.Snr(k) > snr then b.Snr(k) else snr)
  {
    hide Band.Begins, Band.LongGap;
    var z := k - 1 - gap;
    PeakOverTail(b, a, z, k - 1, snr);
    ConnectTo(b, a, z, k);
  }

  /** A hot bin starts a run or continues the open one. */
  lemma HotStep(b: Band, freq: int -> real, lock: Lock, k: int, cursor: nat, a: int, gap: int, snr: real,
                best: Option<Run>)
    requires b.Valid() && ScanState(b, freq, lock, k, cursor, a, gap, snr, best) && b.Hot(k)
    ensures var a' := if a < 0 then k else a;
            var snr' := if a < 0 || b.Snr(k) > snr then b.Snr(k) else snr;
            ScanState(b, freq, lock, k + 1, cursor, a', 0, snr', best)
  {
    hide BestBefore, Open, NothingOpen;
    if a < 0 {
      StartRun(b, k);
    } else {
      ContinueRun(b, k, a, gap, snr);
    }
  }

  lemma ColdBeginsNothing(b: Band, freq: int -> real, lock: Lock, k: int, best: Option<Run>)
    requires b.Valid() && b.Cold(k) && BestBefore(b, freq, lock, k, best)
    ensures BestBefore(b, freq, lock, k + 1, best)
  {
    forall a, e | a < k + 1 && b.IsBurst(a, e)
      ensures a < k
    {
    }
  }

  /** The run ends at its last hot bin when one cold bin too many follows it. */
  lemma GapOverflow(b: Band, freq: int -> real, lock: Lock, k: int, a: int, snr: real, best: Option<Run>)
    requires b.Valid() && 0 <= a < k < b.N()
    requires Open(b, a, k, b.gap, snr) && b.Cold(k) && BestBefore(b, freq, lock, a, best)
    ensures BestBefore(b, freq, lock, k + 1, CloseRun(b, freq, lock, best, Run(a, k - (b.gap + 1), snr)))
    ensures NothingOpen(b, k + 1)
  {
    hide BestBefore;
    var z := k - (b.gap + 1);
    assert b.LongGap(z + 1);
    assert b.Burst(a, z, z);
    forall j | a < j < k + 1
      ensures !b.Begins(j)
    {
      if j <= z {
        NoBeginInside(b, a, z, j);
      } else {
        assert b.Cold(j);
      }
    }
    CloseExtends(b, freq, lock, best, a, z, z, snr, k + 1);
    forall h | b.Hot(h) && h < k + 1
      ensures !b.Bridges(h, k + 1)
    {
      assert b.AllCold(h + 1, k + 1) && h < z ==> b.Cold(z);
      assert h > z ==> b.Cold(h);
    }
  }

  /** A cold bin is counted, and the run is closed at its last hot bin when too many were seen. */
  lemma ColdStep(b: Band, freq: int -> real, lock: Lock, k: int, cursor: nat, a: int, gap: int, snr: real,
                 best: Option<Run>)
    requires b.Valid() && ScanState(b, freq, lock, k, cursor, a, gap, snr, best) && b.Cold(k)
    ensures if a < 0 then ScanState(b, freq, lock, k + 1, cursor, a, gap, snr, best)
            else if gap + 1 > b.gap then
              ScanState(b, freq, lock, k + 1, cursor, -1, gap + 1, NO_SNR,
                        CloseRun(b, freq, lock, best, Run(a, k - (gap + 1), snr)))
            else ScanState(b, freq, lock, k + 1, cursor, a, gap + 1, snr, best)
  {
    hide BestBefore;
    if a < 0 {
      ColdBeginsNothing(b, freq, lock, k, best);
      forall h | b.Hot(h) && h < k + 1
        ensures !b.Bridges(h, k + 1)
      {
        assert !b.Bridges(h, k);
        assert b.AllCold(h + 1, k + 1) ==> b.AllCold(h + 1, k);
      }
    } else if gap + 1 > b.gap {
      GapOverflow(b, freq, lock, k, a, snr, best);
    }
  }

  lemma ScanStart(b: Band, freq: int -> real, lock: Lock)
    requires b.Valid()
    ensures ScanState(b, freq, lock, 0, 0, -1, 0, NO_SNR, None)
  {
    BestAtStart(b, freq, lock);
  }

  /** Behind a notch that lies before k the cursor may move on. */
  lemma CursorStep(b: Band, freq: int -> real, lock: Lock, k: int, cursor: nat, a: int, gap: int, snr: real,
                   best: Option<Run>)
    requires b.Valid() && ScanState(b, freq, lock, k, cursor, a, gap, snr, best)
    ensures cursor <= |b.notches|
    ensures cursor < |b.notches| && b.notches[cursor].hi < k ==>
              ScanState(b, freq, lock, k, cursor + 1, a, gap, snr, best)
  {
    hide BestBefore, Open, NothingOpen;
  }

  /** Where the cursor stands, it decides whether bin k is usable. */
  lemma StateDecides(b: Band, freq: int -> real, lock: Lock, k: int, cursor: nat, a: int, gap: int, snr: real,
                     best: Option<Run>)
    requires b.Valid() && SortedByLo(b.notches) && ScanState(b, freq, lock, k, cursor, a, gap, snr, best) && k < b.N()
    requires cursor < |b.notches| ==> b.notches[cursor].hi >= k
    ensures 0 <= k && cursor <= |b.notches|
    ensures if cursor < |b.notches| && k >= b.notches[cursor].lo then Covers(b.notches, k)
            else if b.Snr(k) >= b.margin then b.Hot(k) else b.Cold(k)
  {
    hide BestBefore, Open, NothingOpen;
    CursorDecides(b, k, cursor);
  }

  /** At a notch the open run is cut off, and the scan goes on behind the notch. */
  lemma NotchStep(b: Band, freq: int -> real, lock: Lock, k: int, cursor: nat, a: int, gap: int, snr: real,
                  best: Option<Run>)
    requires b.Valid() && ScanState(b, freq, lock, k, cursor, a, gap, snr, best) && k < b.N()
    requires cursor < |b.notches| && b.notches[cursor].lo <= k <= b.notches[cursor].hi
    ensures var best' := if a < 0 then best else CloseRun(b, freq, lock, best, Run(a, k - 1, snr));
            ScanState(b, freq, lock, b.notches[cursor].hi + 1, cursor, -1, 0, if a < 0 then snr else NO_SNR, best')
    ensures k < b.notches[cursor].hi + 1 <= b.N()
  {
    hide BestBefore, Open, CloseRun;
    if a >= 0 {
      CutOff(b, freq, lock, k, a, gap, snr, best);
    }
    SkipNotch(b, freq, lock, k, cursor, if a < 0 then best else CloseRun(b, freq, lock, best, Run(a, k - 1, snr)));
  }

  lemma ScanEnd(b: Band, freq: int -> real, lock: Lock, k: int, cursor: nat, a: int, gap: int, snr: real,
                best: Option<Run>)
    requires b.Valid() && ScanState(b, freq, lock, k, cursor, a, gap, snr, best) && k >= b.N()
    ensures var end := if a < 0 then best else CloseRun(b, freq, lock, best, Run(a, b.N() - 1, snr));
            BestBefore(b, freq, lock, b.N(), end)
  {
    hide BestBefore, Open, CloseRun;
    if a >= 0 {
      CutOff(b, freq, lock, k, a, gap, snr, best);
    }
  }

  /**
   * The scan as the host runs it: notches are skipped with a cursor that only moves forward, short
   * cold stretches are bridged, and the strongest admissible run is kept.
   */
  method ScanBand(b: Band, freq: int -> real, lock: Lock) returns (best: Option<Run>)
    requires b.Valid() && SortedByLo(b.notches)
    ensures BestBefore(b, freq, lock, b.N(), best)
  {
    hide BestBefore, Open, CloseRun, ScanState, SortedByLo, Covers, Band.Hot, Band.Cold;
    best := None;
    var runStart, gap, runSnr := -1, 0, NO_SNR;
    var cursor := 0;
    var k := 0;
    ScanStart(b, freq, lock);
    while k < b.N()
      invariant -1 <= runStart && ScanState(b, freq, lock, k, cursor, runStart, gap, runSnr, best)
      decreases b.N() - k
    {
      CursorStep(b, freq, lock, k, cursor, runStart, gap, runSnr, best);
      while cursor < |b.notches| && b.notches[cursor].hi < k
        invariant cursor <= |b.notches| && ScanState(b, freq, lock, k, cursor, runStart, gap, runSnr, best)
      {
        CursorStep(b, freq, lock, k, cursor, runStart, gap, runSnr, best);
        cursor := cursor + 1;
      }
      StateDecides(b, freq, lock, k, cursor, runStart, gap, runSnr, best);
      if cursor < |b.notches| && k >= b.notches[cursor].lo {
        NotchStep(b, freq, lock, k, cursor, runStart, gap, runSnr, best);
        if runStart >= 0 {
          best := CloseRun(b, freq, lock, best, Run(runStart, k - 1, runSnr));
          runStart, runSnr := -1, NO_SNR;
        }
        gap := 0;
        k := b.notches[cursor].hi + 1;
      } else {
        var snr := b.Snr(k);
        if snr >= b.margin {
          HotStep(b, freq, lock, k, cursor, runStart, gap, runSnr, best);
          if runStart < 0 {
            runStart, runSnr := k, NO_SNR;
          }
          if snr > runSnr {
            runSnr := snr;
          }
          gap := 0;
        } else {
          ColdStep(b, freq, lock, k, cursor, runStart, gap, runSnr, best);
          if runStart >= 0 {
            gap := gap + 1;
            if gap > b.gap {
              best := CloseRun(b, freq, lock, best, Run(runStart, k - gap, runSnr));
              runStart, runSnr := -1, NO_SNR;
            }
          }
        }
        k := k + 1;
      }
    }
    ScanEnd(b, freq, lock, k, cursor, runStart, gap, runSnr, best);
    if runStart >= 0 {
      best := CloseRun(b, freq, lock, best, Run(runStart, b.N() - 1, runSnr));
    }
  }

  lemma BestAtStart(b: Band, freq: int -> real, lock: Lock)
    requires b.Valid()
    ensures BestBefore(b, freq, lock, 0, None)
  {
  }

  // ----------------------------------------------- what the bursts look like

  /** Back from a hot bin to where its burst began. */
  lemma {:induction false} BackToBegin(b: Band, k: int) returns (a: int)
    requires b.Valid() && b.Hot(k)
    ensures b.Begins(a) && b.Connected(a, k)
    decreases k
  {
    hide Band.Connected;
    if b.Begins(k) {
      a := k;
      ConnectedSelf(b, k);
    } else {
      var h :| b.Hot(h) && b.Bridges(h, k);
      a := BackToBegin(b, h);
      ConnectTo(b, a, h, k);
    }
  }

  /** Forward from a hot bin to where its burst is reported to end. */
  lemma {:induction false} ForwardToEnd(b: Band, a: int, k: int) returns (z: int, e: int)
    requires b.Valid() && b.Connected(a, k)
    ensures k <= z && b.Connected(a, z) && b.Ends(z, e)
    decreases b.N() - k
  {
    var j := k + 1;
    while j < b.N() && b.Cold(j) && j <= k + b.gap
      invariant k < j <= b.N() && j <= k + b.gap + 1
      invariant b.AllCold(k + 1, j)
      decreases b.N() - j
    {
      j := j + 1;
    }
    if j < b.N() && b.Hot(j) {
      ConnectTo(b, a, k, j);
      z, e := ForwardToEnd(b, a, j);
    } else {
      z := k;
      e := if j < b.N() && b.Cold(j) then k else j - 1;
      if k + b.gap + 1 < b.N() && b.LongGap(k + 1) {
        assert j < b.N() ==> b.Cold(j);
        assert e == k;
      }
    }
  }

  /** Every bin above the margin and outside the notches belongs to exactly one burst. */
  lemma EveryHotBinInOneBurst(b: Band, k: int)
    requires b.Valid() && b.Hot(k)
    ensures exists a, z, e :: b.Burst(a, z, e) && a <= k <= z
    ensures forall a, z, e, a', z', e' :: b.Burst(a, z, e) && a <= k <= z && b.Burst(a', z', e') && a' <= k <= z'
              ==> a == a' && z == z' && e == e'
  {
    var a := BackToBegin(b, k);
    var z, e := ForwardToEnd(b, a, k);
    assert b.Burst(a, z, e);
    forall a1, z1, e1, a2, z2, e2 | b.Burst(a1, z1, e1) && a1 <= k <= z1 && b.Burst(a2, z2, e2) && a2 <= k <= z2
      ensures a1 == a2 && z1 == z2 && e1 == e2
    {
      if a1 < a2 {
        NoBeginInside(b, a1, z1, a2);
      } else if a2 < a1 {
        NoBeginInside(b, a2, z2, a1);
      }
      BurstUnique(b, a1, z1, e1, z2, e2);
    }
  }

  /** A reported burst holds no notched bin; after its last hot bin come at most gap cold ones. */
  lemma BurstShape(b: Band, a: int, z: int, e: int)
    requires b.Valid() && b.Burst(a, z, e)
    ensures 0 <= a <= z <= e < b.N() && e <= z + b.gap
    ensures forall k :: a <= k <= e ==> !Covers(b.notches, k)
    ensures b.Hot(a) && b.Hot(z) && forall k :: z < k <= e ==> b.Cold(k)
    ensures e > z ==> e + 1 == b.N() || Covers(b.notches, e + 1)
  {
    forall k | a <= k <= e
      ensures !Covers(b.notches, k)
    {
      assert k <= z ==> b.Hot(k) || b.Cold(k);
      assert k > z ==> b.Cold(k);
    }
  }

  // ------------------------------------------------------- notches as bins

  /** A notched frequency interval, low edge first. */
  datatype Notch = Notch(lo: real, hi: real)

  function Floor(x: real): int {
    x.Floor
  }

  function Ceil(x: real): int {
    -((-x).Floor)
  }

  /** Where frequency y falls on the scan axis. */
  function Position(lo: real, perMhz: real, y: real): real {
    (y - lo) * perMhz
  }

  /** The bins a notch takes out of the band [lo, lo + (n-1)/perMhz]; empty when lo > hi. */
  function NotchBins(nb: Notch, lo: real, hi: real, perMhz: real, n: nat): KRange {
    if nb.hi < lo || nb.lo > hi then KRange(0, -1)
    else
      var k0 := Floor(Position(lo, perMhz, nb.lo));
      var k1 := Ceil(Position(lo, perMhz, nb.hi));
      KRange(if k0 < 0 then 0 else k0, if k1 > n - 1 then n - 1 else k1)
  }

  method InsertByLo(ranges: seq<KRange>, r: KRange) returns (out: seq<KRange>)
    requires SortedByLo(ranges)
    ensures SortedByLo(out)
    ensures forall x :: x in out <==> x in ranges || x == r
  {
    var i := 0;
    while i < |ranges| && ranges[i].lo <= r.lo
      invariant 0 <= i <= |ranges|
      invariant forall j :: 0 <= j < i ==> ranges[j].lo <= r.lo
    {
      i := i + 1;
    }
    out := ranges[..i] + [r] + ranges[i..];
    forall x, y | 0 <= x < y < |out|
      ensures out[x].lo <= out[y].lo
    {
      assert out[x] == if x < i then ranges[x] else if x == i then r else ranges[x - 1];
      assert out[y] == if y < i then ranges[y] else if y == i then r else ranges[y - 1];
      assert y > i && i < |ranges| ==> ranges[i].lo <= ranges[y - 1].lo;
    }
    assert ranges == ranges[..i] + ranges[i..];
  }

  /** Scan bins per MHz. */
  function PerMhz(scanS: real, scanE: real, n: nat): real {
    if scanS == scanE then 0.0 else (n - 1) as real / (Max(scanS, scanE) - Min(scanS, scanE))
  }

  /** ranges are exactly the nonempty bin intervals of the notches, in order; a one-bin band has none. */
  ghost predicate NotchedAs(ranges: seq<KRange>, notches: seq<Notch>, scanS: real, scanE: real, n: nat) {
    && SortedByLo(ranges)
    && (forall r :: r in ranges ==> 0 <= r.lo <= r.hi < n)
    && if n > 1 && scanS != scanE then
         var lo, hi := Min(scanS, scanE), Max(scanS, scanE);
         forall r :: r in ranges <==>
           r.lo <= r.hi && exists nb :: nb in notches && r == NotchBins(nb, lo, hi, PerMhz(scanS, scanE, n), n)
       else ranges == []
  }

  /** The notch list as sorted bin intervals, as the scan wants it. */
  method NotchRanges(notches: seq<Notch>, scanS: real, scanE: real, n: nat) returns (ranges: seq<KRange>)
    requires forall nb :: nb in notches ==> nb.lo <= nb.hi
    ensures NotchedAs(ranges, notches, scanS, scanE, n)
  {
    ranges := [];
    if n > 1 {
      var lo, hi := Min(scanS, scanE), Max(scanS, scanE);
      var span := hi - lo;
      if span > 0.0 {
        var perMhz := (n - 1) as real / span;
        for i := 0 to |notches|
          invariant SortedByLo(ranges)
          invariant forall r :: r in ranges ==> 0 <= r.lo <= r.hi < n
          invariant forall r :: r in ranges <==>
            r.lo <= r.hi && exists nb :: nb in notches[..i] && r == NotchBins(nb, lo, hi, perMhz, n)
        {
          var kr := NotchBins(notches[i], lo, hi, perMhz, n);
          if kr.lo <= kr.hi {
            NotchBinsInBand(notches[i], lo, hi, perMhz, n);
            ranges := InsertByLo(ranges, kr);
          }
          assert notches[..i + 1] == notches[..i] + [notches[i]];
        }
        assert notches[..|notches|] == notches;
      }
    }
  }

  lemma NotchBinsInBand(nb: Notch, lo: real, hi: real, perMhz: real, n: nat)
    requires nb.lo <= nb.hi && lo < hi && perMhz > 0.0 && n > 1
    ensures var r := NotchBins(nb, lo, hi, perMhz, n); r.lo <= r.hi ==> 0 <= r.lo && r.hi < n
  {
  }

  /** The frequency of scan bin k. */
  function BinFreq(lo: real, perMhz: real, k: int): real {
    if perMhz == 0.0 then lo else lo + k as real / perMhz
  }

  /** A bin whose frequency lies in a notch is taken out; nothing a full bin away from it is. */
  lemma NotchBinsCoverFrequencies(nb: Notch, lo: real, hi: real, perMhz: real, n: nat, k: int)
    requires nb.lo <= nb.hi && lo < hi && n > 1 && 0 <= k < n && perMhz == (n - 1) as real / (hi - lo)
    ensures var r := NotchBins(nb, lo, hi, perMhz, n);
            && (nb.lo <= BinFreq(lo, perMhz, k) <= nb.hi ==> r.lo <= k <= r.hi)
            && (r.lo <= k <= r.hi ==> nb.lo < BinFreq(lo, perMhz, k + 1) && BinFreq(lo, perMhz, k - 1) < nb.hi)
  {
    SpanPositions(lo, hi, n);
    hide NotchBins, BinFreq, Position, Floor, Ceil;
    NotchBinsCover(nb, lo, hi, perMhz, n, k);
    FloorCeil(Position(lo, perMhz, nb.lo), k);
    FloorCeil(Position(lo, perMhz, nb.hi), k);
    BinOrder(lo, perMhz, nb.lo, k);
    BinOrder(lo, perMhz, nb.hi, k);
    BinOrder(lo, perMhz, nb.lo, k + 1);
    BinOrder(lo, perMhz, nb.hi, k - 1);
    BinOrder(lo, perMhz, lo, k);
    BinOrder(lo, perMhz, hi, k);
  }

  lemma SpanPositions(lo: real, hi: real, n: nat)
    requires lo < hi && n > 1
    ensures var perMhz := (n - 1) as real / (hi - lo);
            perMhz > 0.0 && Position(lo, perMhz, hi) == (n - 1) as real && Position(lo, perMhz, lo) == 0.0
  {
  }

  lemma FloorCeil(x: real, k: int)
    ensures Floor(x) <= k <==> x < (k + 1) as real
    ensures k <= Ceil(x) <==> (k - 1) as real < x
  {
  }

  lemma NotchBinsCover(nb: Notch, lo: real, hi: real, perMhz: real, n: nat, k: int)
    requires 0 <= k < n
    ensures var r := NotchBins(nb, lo, hi, perMhz, n);
            r.lo <= k <= r.hi <==>
              lo <= nb.hi && nb.lo <= hi && Floor(Position(lo, perMhz, nb.lo)) <= k <= Ceil(Position(lo, perMhz, nb.hi))
  {
  }

  /** Comparing a frequency with that of a bin is comparing scan positions. */
  lemma BinOrder(lo: real, perMhz: real, y: real, k: int)
    requires perMhz > 0.0
    ensures Position(lo, perMhz, y) <= k as real <==> y <= BinFreq(lo, perMhz, k)
    ensures Position(lo, perMhz, y) < k as real <==> y < BinFreq(lo, perMhz, k)
  {
    var d := y - lo;
    var q := k as real / perMhz;
    assert q * perMhz == k as real;
    if d < q {
      assert (q - d) * perMhz > 0.0;
    } else if q < d {
      assert (d - q) * perMhz > 0.0;
    }
  }

  // ------------------------------------------------------ the whole search

  /** The width of a bin in hertz, taken as one hertz when it is less. */
  function BinHz(sampleRate: nat, fftSize: nat): real {
    Max(1.0, sampleRate as real / (if fftSize < 1 then 1 else fftSize) as real)
  }

  /** The longest bridged gap in bins: as many as fit GAP_KHZ, but at least one. */
  function GapBins(sampleRate: nat, fftSize: nat): (g: nat)
    ensures IsGap(g, BinHz(sampleRate, fftSize))
  {
    var hz := BinHz(sampleRate, fftSize);
    var g: int := Floor(GAP_KHZ * 1000.0 / hz);
    FloorQuotient(GAP_KHZ * 1000.0, hz);
    GapOf(g, hz);
    if g < 1 then 1 else g
  }

  /** g bins are the most that are no wider than 2 kHz, or one bin if even that is wider. */
  predicate IsGap(g: nat, hz: real) {
    g >= 1 && (g > 1 ==> Width(g, hz) <= 2000.0) && Width(g + 1, hz) > 2000.0
  }

  /** n bins, in hertz. */
  function Width(n: nat, hz: real): real {
    n as real * hz
  }

  lemma WidthGrows(m: nat, n: nat, hz: real)
    requires m <= n && hz > 0.0
    ensures Width(m, hz) <= Width(n, hz)
  {
    assert (n as real - m as real) * hz >= 0.0;
  }

  lemma FloorQuotient(x: real, y: real)
    requires x > 0.0 && y > 0.0
    ensures var q := (x / y).Floor; q >= 0 && Width(q, y) <= x < Width(q + 1, y)
  {
    hide Width;
    QuotientTimes(x, y);
    AroundFloor(x / y, (x / y).Floor, y);
  }

  lemma QuotientTimes(x: real, y: real)
    requires x > 0.0 && y > 0.0
    ensures x / y > 0.0 && x / y * y == x
  {
  }

  lemma AroundFloor(q: real, f: nat, y: real)
    requires f as real <= q < f as real + 1.0 && y > 0.0
    ensures Width(f, y) <= q * y && q * y < Width(f + 1, y)
  {
    var g := f + 1;
    var above := g as real;
    Scaled(f as real, q, y);
    assert above == f as real + 1.0;
    Scaled(q, above, y);
    assert q * y < above * y;
    assert Width(g, y) == above * y;
    assert q * y < Width(f + 1, y);
    assert Width(f, y) == f as real * y;
  }

  lemma Scaled(a: real, b: real, y: real)
    requires a <= b && y > 0.0
    ensures a * y <= b * y && (a < b ==> a * y < b * y)
  {
    assert b * y - a * y == (b - a) * y;
  }

  lemma GapOf(q: nat, hz: real)
    requires hz > 0.0 && Width(q, hz) <= GAP_KHZ * 1000.0 < Width(q + 1, hz)
    ensures IsGap(if q < 1 then 1 else q, hz)
  {
    hide Width;
    WidthGrows(1, 2, hz);
  }

  lemma GapMeans(g: nat, hz: real, n: nat)
    requires IsGap(g, hz) && hz > 0.0
    ensures n <= g <==> n <= 1 || Width(n, hz) <= 2000.0
  {
    hide Width;
    if n <= g {
      WidthGrows(n, g, hz);
    } else {
      WidthGrows(g + 1, n, hz);
    }
  }

  function Margin(threshold: real): real {
    Max(MARGIN_MIN_DB, Min(MARGIN_MAX_DB, threshold))
  }

  function SearchBand(row: seq<real>, base: seq<real>, binS: nat, ranges: seq<KRange>, threshold: real,
                      sampleRate: nat): Band {
    Band(row, base, binS, ranges, Margin(threshold), GapBins(sampleRate, |row|))
  }

  /**
   * b is what one frame of the search looks at: bin k of the band is bin binS + k of the row, going
   * round; a bin is above the margin when it exceeds its baseline by the threshold, taken between 0
   * and 40 dB; gaps up to 2 kHz wide are bridged.
   */
  ghost predicate LooksAt(b: Band, row: seq<real>, base: seq<real>, binS: nat, notches: seq<Notch>, scanS: real,
                          scanE: real, threshold: real, sampleRate: nat)
    requires binS < |row| && |base| <= |row|
  {
    && b.Valid() && b.N() == |base| && NotchedAs(b.notches, notches, scanS, scanE, |base|)
    && (forall k :: 0 <= k < |base| ==>
          b.BinAt(k) == (binS + k) % |row| && b.Snr(k) == row[(binS + k) % |row|] - base[k])
    && (0.0 <= threshold <= 40.0 ==> b.margin == threshold)
    && (threshold < 0.0 ==> b.margin == 0.0) && (threshold > 40.0 ==> b.margin == 40.0)
    && IsGap(b.gap, Max(1.0, sampleRate as real / |row| as real))
  }

  lemma SearchLooksAt(row: seq<real>, base: seq<real>, binS: nat, ranges: seq<KRange>, notches: seq<Notch>,
                      scanS: real, scanE: real, threshold: real, sampleRate: nat)
    requires binS < |row| && |base| <= |row| && NotchedAs(ranges, notches, scanS, scanE, |base|)
    ensures LooksAt(SearchBand(row, base, binS, ranges, threshold, sampleRate),
                    row, base, binS, notches, scanS, scanE, threshold, sampleRate)
  {
    hide NotchedAs, GapBins, IsGap;
    RangesInBand(ranges, notches, scanS, scanE, |base|);
    var b := SearchBand(row, base, binS, ranges, threshold, sampleRate);
    forall k | 0 <= k < |base|
      ensures b.BinAt(k) == (binS + k) % |row|
    {
      Wraps(binS + k, |row|);
    }
  }

  lemma Wraps(i: nat, n: nat)
    requires 0 < n && i < 2 * n
    ensures i % n == if i >= n then i - n else i
  {
  }

  lemma RangesInBand(ranges: seq<KRange>, notches: seq<Notch>, scanS: real, scanE: real, n: nat)
    requires NotchedAs(ranges, notches, scanS, scanE, n)
    ensures forall r :: r in ranges ==> 0 <= r.lo <= r.hi < n
  {
  }

  /** Two hot bins with only cold ones between them are in one burst exactly when the gap may be bridged. */
  lemma OneBurstExactly(b: Band, h: int, k: int)
    requires b.Valid() && b.Hot(h) && b.Hot(k) && h < k && b.AllCold(h + 1, k)
    ensures (exists a, z, e :: b.Burst(a, z, e) && a <= h && k <= z) <==> k - h - 1 <= b.gap
  {
    if k - h - 1 <= b.gap {
      assert b.Bridges(h, k);
      EveryHotBinInOneBurst(b, h);
      var a, z, e :| b.Burst(a, z, e) && a <= h <= z;
      if z < k {
        assert h < z ==> b.Cold(z);
        EndsBlocksBridge(b, z, e, k);
      }
    } else {
      assert b.LongGap(h + 1);
    }
  }

  /** That is: when it is one bin, or its width in hertz is at most 2000. */
  lemma BridgedExactly(b: Band, h: int, k: int, hz: real)
    requires b.Valid() && IsGap(b.gap, hz) && hz > 0.0
    requires b.Hot(h) && b.Hot(k) && h < k && b.AllCold(h + 1, k)
    ensures (exists a, z, e :: b.Burst(a, z, e) && a <= h && k <= z) <==>
              k - h - 1 <= 1 || (k - h - 1) as real * hz <= 2000.0
  {
    hide Band.Burst, Band.Hot, Band.AllCold, IsGap;
    OneBurstExactly(b, h, k);
    GapMeans(b.gap, hz, k - h - 1);
  }

  /** A burst counts when it is two bins long and, under a lock, within 2 kHz of the locked band. */
  lemma AdmissibleMeans(b: Band, freq: int -> real, lock: Lock, a: int, e: int)
    ensures Admissible(b, freq, lock, a, e) <==>
              a < e && (lock.Locked? ==> freq(b.BinAt(a)) - lock.e <= 0.002 && lock.s - freq(b.BinAt(e)) <= 0.002)
  {
  }

  /** A run of at least two bins avoids every notch, in hertz as well as in bins. */
  lemma RunAvoidsNotches(b: Band, notches: seq<Notch>, scanS: real, scanE: real, a: int, e: int, k: int, nb: Notch)
    requires b.Valid() && NotchedAs(b.notches, notches, scanS, scanE, b.N()) && scanS != scanE
    requires b.IsBurst(a, e) && e - a + 1 >= MIN_RUN_BINS && a <= k <= e
    requires nb in notches && nb.lo <= nb.hi
    ensures b.N() > 1
    ensures !(nb.lo <= BinFreq(Min(scanS, scanE), PerMhz(scanS, scanE, b.N()), k) <= nb.hi)
  {
    var z :| b.Burst(a, z, e);
    BurstShape(b, a, z, e);
    var lo, hi, perMhz := Min(scanS, scanE), Max(scanS, scanE), PerMhz(scanS, scanE, b.N());
    NotchBinsCoverFrequencies(nb, lo, hi, perMhz, b.N(), k);
    var r := NotchBins(nb, lo, hi, perMhz, b.N());
    assert r.lo <= r.hi ==> r in b.notches;
    assert !Covers(b.notches, k);
  }

  /** One frame of the search: the strongest admissible burst of the band, if there is one. */
  method FindBurst(row: seq<real>, base: seq<real>, binS: nat, notches: seq<Notch>, scanS: real, scanE: real,
                   threshold: real, sampleRate: nat, freq: int -> real, lock: Lock) returns (best: Option<Run>)
    requires binS < |row| && |base| <= |row|
    requires forall nb :: nb in notches ==> nb.lo <= nb.hi
    ensures exists b: Band ::
              LooksAt(b, row, base, binS, notches, scanS, scanE, threshold, sampleRate)
              && BestBefore(b, freq, lock, |base|, best)
  {
    hide LooksAt, BestBefore;
    var ranges := NotchRanges(notches, scanS, scanE, |base|);
    var b := SearchBand(row, base, binS, ranges, threshold, sampleRate);
    SearchLooksAt(row, base, binS, ranges, notches, scanS, scanE, threshold, sampleRate);
    RangesInBand(ranges, notches, scanS, scanE, |base|);
    best := ScanBand(b, freq, lock);
    assert BestBefore(b, freq, lock, |base|, best);
  }
}
