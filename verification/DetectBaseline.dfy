/**
 * The per-bin baseline of a detect channel: collected for a second after arming, then drawn slowly
 * toward the present spectrum while nothing is being received.
 */
module DetectBaseline {

  const BASE_MS: int := 1000
  const TAU_MS: int := 8000

  /** The capture settings and band a baseline belongs to. */
  datatype Config = Config(scanS: real, scanE: real, cf: nat, sr: nat, fftSize: nat)

  /** The n bins of a row from bin s on, wrapping at the end. */
  function Slice(row: seq<real>, s: nat, n: nat): (w: seq<real>)
    requires s < |row| && n <= |row|
    ensures |w| == n && w == (row + row)[s..s + n]
  {
    seq(n, k requires 0 <= k < n => row[if s + k >= |row| then s + k - |row| else s + k])
  }

  ghost predicate Widths(seen: seq<seq<real>>, n: nat) {
    forall i :: 0 <= i < |seen| ==> |seen[i]| == n
  }

  function Sum(seen: seq<seq<real>>, k: nat, n: nat): real
    requires k < n && forall i :: 0 <= i < |seen| ==> |seen[i]| == n
  {
    if seen == [] then 0.0 else Sum(seen[..|seen| - 1], k, n) + seen[|seen| - 1][k]
  }

  /** Every row seen has bin k between lo and hi. */
  ghost predicate Bounds(seen: seq<seq<real>>, k: nat, lo: real, hi: real) {
    forall i :: 0 <= i < |seen| ==> k < |seen[i]| && lo <= seen[i][k] <= hi
  }

  /** No baseline bin has ever left the range that bin has had in the rows seen. */
  ghost predicate InRange(base: seq<real>, seen: seq<seq<real>>) {
    forall k, lo, hi :: 0 <= k < |base| && Bounds(seen, k, lo, hi) ==> lo <= base[k] <= hi
  }

  lemma {:induction false} SumInRange(seen: seq<seq<real>>, k: nat, n: nat, lo: real, hi: real)
    requires k < n && Widths(seen, n) && Bounds(seen, k, lo, hi)
    ensures |seen| as real * lo <= Sum(seen, k, n) <= |seen| as real * hi
    decreases |seen|
  {
    if seen != [] {
      var front := seen[..|seen| - 1];
      SumInRange(front, k, n, lo, hi);
      assert |seen| as real * lo == |front| as real * lo + lo;
      assert |seen| as real * hi == |front| as real * hi + hi;
    }
  }

  lemma Quotient(sum: real, n: real, lo: real, hi: real)
    requires n > 0.0 && n * lo <= sum <= n * hi
    ensures lo <= sum * (1.0 / n) <= hi
  {
    var q := sum * (1.0 / n);
    assert q * n == sum;
    assert q < lo ==> q * n < lo * n;
    assert q > hi ==> q * n > hi * n;
  }

  lemma MeanInRange(base: seq<real>, seen: seq<seq<real>>, n: nat)
    requires seen != [] && |base| == n && Widths(seen, n)
    requires forall k :: 0 <= k < n ==> base[k] == Sum(seen, k, n) * (1.0 / |seen| as real)
    ensures InRange(base, seen)
  {
    hide Sum;
    forall k, lo, hi | 0 <= k < |base| && Bounds(seen, k, lo, hi)
      ensures lo <= base[k] <= hi
    {
      SumInRange(seen, k, n, lo, hi);
      Quotient(Sum(seen, k, n), |seen| as real, lo, hi);
    }
  }

  // ------------------------------------------------------------- tracking

  /** The given share of a distance. */
  function ShareOf(a: real, d: real): real {
    a * d
  }

  /** One step of the slow average. */
  function Drawn(b: real, r: real, a: real): real {
    b + ShareOf(a, r - b)
  }

  lemma ShareBetween(a: real, d: real)
    requires 0.0 <= a <= 1.0
    ensures d >= 0.0 ==> 0.0 <= ShareOf(a, d) <= d
    ensures d <= 0.0 ==> d <= ShareOf(a, d) <= 0.0
  {
  }

  lemma Remaining(a: real, d: real)
    ensures ShareOf(1.0 - a, d) == d - ShareOf(a, d)
    ensures ShareOf(a, -d) == -ShareOf(a, d)
  {
  }

  /** It moves toward the row, by the given share of the distance, and never past it. */
  lemma DrawnToward(b: real, r: real, a: real)
    requires 0.0 <= a <= 1.0
    ensures Drawn(b, r, a) - r == ShareOf(1.0 - a, b - r)
    ensures b <= r ==> b <= Drawn(b, r, a) <= r
    ensures r <= b ==> r <= Drawn(b, r, a) <= b
  {
    hide ShareOf;
    ShareBetween(a, r - b);
    Remaining(a, b - r);
    assert -(b - r) == r - b;
  }

  /** A step covers an eighth of the distance for every second since the last one, and all of it after eight. */
  lemma StepExactly(b: real, r: real, dt: int)
    requires dt > 0
    ensures dt < 8000 ==> (Drawn(b, r, Share(dt)) - b) * 8000.0 == (r - b) * dt as real
    ensures dt >= 8000 ==> Drawn(b, r, Share(dt)) == r
  {
    if dt < 8000 {
      ShareTimes(dt as real, r - b);
    }
  }

  lemma ShareTimes(dt: real, d: real)
    ensures ShareOf(dt / 8000.0, d) * 8000.0 == d * dt
  {
  }

  function Share(dt: int): (a: real)
    requires dt > 0
    ensures 0.0 < a <= 1.0
    ensures dt >= TAU_MS ==> a == 1.0
  {
    if dt > TAU_MS then 1.0 else dt as real / TAU_MS as real
  }

  lemma DrawnInRange(base: seq<real>, next: seq<real>, seen: seq<seq<real>>, row: seq<real>, a: real)
    requires |base| == |next| == |row| && 0.0 <= a <= 1.0 && InRange(base, seen)
    requires forall k :: 0 <= k < |base| ==> next[k] == Drawn(base[k], row[k], a)
    ensures InRange(next, seen + [row])
  {
    hide Drawn;
    var all := seen + [row];
    forall k, lo, hi | 0 <= k < |next| && Bounds(all, k, lo, hi)
      ensures lo <= next[k] <= hi
    {
      assert forall i :: 0 <= i < |seen| ==> all[i] == seen[i];
      assert Bounds(seen, k, lo, hi);
      assert all[|seen|] == row;
      DrawnToward(base[k], row[k], a);
    }
  }

  lemma SumNext(seen: seq<seq<real>>, row: seq<real>, k: nat, n: nat)
    requires k < n && Widths(seen, n) && |row| == n
    ensures Widths(seen + [row], n) && Sum(seen + [row], k, n) == Sum(seen, k, n) + row[k]
  {
    assert (seen + [row])[..|seen|] == seen;
  }

  // ------------------------------------------------------------- baseline

  class Baseline {
    var base: seq<real>
    var acc: seq<real>
    var rows: nat
    var t0: int
    var ready: bool
    var config: Config
    var trackMs: int
    /** The rows that have gone into the baseline since it was last reset. */
    ghost var seen: seq<seq<real>>

    ghost predicate Valid()
      reads this
    {
      if ready then seen != [] && base != [] && InRange(base, seen)
      else |seen| == rows && Widths(seen, |acc|) && forall k :: 0 <= k < |acc| ==> acc[k] == Sum(seen, k, |acc|)
    }

    constructor ()
      ensures Valid() && !ready && seen == []
    {
      base, acc, rows, t0, ready, config, trackMs := [], [], 0, 0, false, Config(0.0, 0.0, 0, 0, 0), 0;
      seen := [];
    }

    method Reset()
      modifies this
      ensures Valid() && !ready && seen == []
    {
      base, acc, rows, t0, ready, trackMs := [], [], 0, 0, false, 0;
      config := Config(0.0, 0.0, 0, 0, 0);
      seen := [];
    }

    /** The baseline is ready and was taken under these settings. */
    predicate ValidFor(c: Config, n: nat)
      reads this
    {
      ready && config == c && |base| == n
    }

    /** Add one row to the running sums. */
    method AddRow(row: seq<real>, s: nat, n: nat)
      requires !ready && Valid() && |acc| == n && s < |row| && n <= |row|
      modifies this`acc, this`rows, this`seen
      ensures Valid() && |acc| == n && rows == old(rows) + 1 && seen == old(seen) + [Slice(row, s, n)]
    {
      hide Sum;
      ghost var w := Slice(row, s, n);
      var next: seq<real> := [];
      var k := 0;
      while k < n
        invariant 0 <= k == |next| <= n
        invariant forall i :: 0 <= i < k ==> next[i] == acc[i] + w[i]
      {
        var b := s + k;
        if b >= |row| {
          b := b - |row|;
        }
        next := next + [acc[k] + row[b]];
        k := k + 1;
      }
      forall i | 0 <= i < n
        ensures Widths(seen + [w], n) && next[i] == Sum(seen + [w], i, n)
      {
        SumNext(seen, w, i, n);
      }
      assert Widths(seen + [w], n);
      acc := next;
      rows := rows + 1;
      seen := seen + [w];
    }

    /**
     * A row is collected; once a second has passed the mean of the rows collected becomes the
     * baseline. A baseline that is ready is never overwritten.
     */
    method Accumulate(row: seq<real>, s: nat, n: nat, c: Config, now: int) returns (done: bool)
      requires Valid() && s < |row| && n <= |row|
      modifies this
      ensures Valid()
      ensures old(ready) || n == 0 ==> !done && base == old(base) && ready == old(ready) && seen == old(seen)
      ensures !old(ready) && n > 0 ==>
        && seen == (if |old(acc)| != n || old(rows) == 0 then [] else old(seen)) + [Slice(row, s, n)]
        && t0 == (if |old(acc)| != n || old(rows) == 0 then now else old(t0))
        && done == ready == (now - t0 >= 1000)
      ensures forall d, m :: old(ValidFor(d, m)) ==> ValidFor(d, m)
      ensures done ==> ValidFor(c, n) && Widths(seen, n)
                       && forall k :: 0 <= k < n ==> base[k] == Sum(seen, k, n) * (1.0 / |seen| as real)
    {
      hide Sum, InRange, Slice;
      if n == 0 || ready {
        return false;
      }
      if |acc| != n || rows == 0 {
        acc := seq(n, _ => 0.0);
        rows := 0;
        t0 := now;
        seen := [];
        EmptySums(n);
      }
      AddRow(row, s, n);
      if now - t0 < BASE_MS {
        return false;
      }
      var inv := 1.0 / rows as real;
      base := Scaled(acc, inv);
      ready := true;
      config := c;
      MeanInRange(base, seen, n);
      acc := [];
      return true;
    }

    /** Nothing moves while a signal is held; otherwise every bin is drawn toward the row. */
    method Track(row: seq<real>, s: nat, n: nat, locked: bool, hold: int, now: int)
      requires Valid() && s < |row| && n <= |row|
      modifies this
      ensures forall d, m :: old(ValidFor(d, m)) <==> ValidFor(d, m)
      ensures Valid() && ready == old(ready) && |base| == |old(base)| && config == old(config)
      ensures locked || hold > 0 || !old(ready) || |old(base)| != n ==> base == old(base) && trackMs == old(trackMs)
      ensures old(ready) && |old(base)| == n && !locked && hold <= 0 ==>
        && trackMs == now
        && (old(trackMs) == 0 || now <= old(trackMs) ==> base == old(base))
        && (old(trackMs) != 0 && now > old(trackMs) ==>
              forall k :: 0 <= k < n ==> base[k] == Drawn(old(base)[k], Slice(row, s, n)[k], Share(now - old(trackMs))))
    {
      hide Sum, InRange, Drawn;
      if !ready || |base| != n || locked || hold > 0 {
        return;
      }
      var last := trackMs;
      trackMs := now;
      if last == 0 || now - last <= 0 {
        return;
      }
      var a := Share(now - last);
      ghost var w := Slice(row, s, n);
      var next: seq<real> := [];
      var k := 0;
      while k < n
        invariant 0 <= k == |next| <= n
        invariant forall i :: 0 <= i < k ==> next[i] == Drawn(base[i], w[i], a)
      {
        var b := s + k;
        if b >= |row| {
          b := b - |row|;
        }
        next := next + [Drawn(base[k], row[b], a)];
        k := k + 1;
      }
      DrawnInRange(base, next, seen, w, a);
      base := next;
      seen := seen + [w];
    }
  }

  method Scaled(acc: seq<real>, inv: real) returns (out: seq<real>)
    ensures |out| == |acc| && forall k :: 0 <= k < |acc| ==> out[k] == acc[k] * inv
  {
    out := [];
    var k := 0;
    while k < |acc|
      invariant 0 <= k == |out| <= |acc|
      invariant forall i :: 0 <= i < k ==> out[i] == acc[i] * inv
    {
      out := out + [acc[k] * inv];
      k := k + 1;
    }
  }

  lemma EmptySums(n: nat)
    ensures forall k :: 0 <= k < n ==> Sum([], k, n) == 0.0
  {
  }
}
