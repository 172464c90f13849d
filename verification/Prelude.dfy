/** What several modules share. */
module Prelude {

  datatype Option<+T> = None | Some(value: T)

  type Byte = x: int | 0 <= x < 256

  function Abs(x: real): real {
    if x < 0.0 then -x else x
  }

  function Min(a: real, b: real): real { if a <= b then a else b }

  function Max(a: real, b: real): real { if a >= b then a else b }

  /** Slicing a slice is slicing the whole. */
  lemma SliceOfSlice<T>(a: seq<T>, l: nat, h: nat, i: nat, j: nat)
    requires l <= i <= j <= h <= |a|
    ensures a[l..h][i - l..j - l] == a[i..j]
  {
    var u, v := a[l..h][i - l..j - l], a[i..j];
    forall k | 0 <= k < j - i
      ensures u[k] == v[k]
    {
      assert u[k] == a[l..h][i - l + k];
    }
  }
}
