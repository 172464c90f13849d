/**
 * Solving linear systems in place: Crout's LU decomposition with implicit partial pivoting,
 * substitution through the packed factors, and the inverse built from them.
 * Arithmetic is exact; a division by zero stops the computation and is reported as `false`.
 */
module LuDecomposition {
  import opened Prelude
  import opened Matrices
  import opened LuTheory
  import opened LuSubstitution

  /** The value of a matrix buffer. */
  ghost function Rows(a: array2<real>): (m: Mat)
    reads a
    ensures |m| == a.Length0
    ensures forall i :: 0 <= i < a.Length0 ==> |m[i]| == a.Length1
    ensures forall i, j :: 0 <= i < a.Length0 && 0 <= j < a.Length1 ==> m[i][j] == a[i, j]
  {
    seq(a.Length0, i requires 0 <= i < a.Length0 reads a =>
      seq(a.Length1, j requires 0 <= j < a.Length1 reads a => a[i, j]))
  }

  lemma RowsAre(a: array2<real>, m: Mat)
    requires |m| == a.Length0 && forall i :: 0 <= i < |m| ==> |m[i]| == a.Length1
    requires forall i, j :: 0 <= i < a.Length0 && 0 <= j < a.Length1 ==> a[i, j] == m[i][j]
    ensures Rows(a) == m
  {
    assert forall i :: 0 <= i < |m| ==> Rows(a)[i] == m[i];
  }

  /** The scaled magnitude that implicit pivoting compares. */
  function Weight(s: real, x: real): real {
    s * Abs(x)
  }

  lemma WeightIsPositive(s: real, x: real)
    requires s > 0.0
    ensures Weight(s, x) >= 0.0
    ensures x != 0.0 ==> Weight(s, x) > 0.0
    ensures x == 0.0 ==> Weight(s, x) == 0.0
  {
  }

  method Store(lu: array2<real>, i: nat, j: nat, x: real)
    requires i < lu.Length0 && j < lu.Length1
    modifies lu
    ensures Rows(lu) == SetAt(old(Rows(lu)), i, j, x)
    ensures forall r, c :: 0 <= r < lu.Length0 && 0 <= c < lu.Length1 ==>
      lu[r, c] == if r == i && c == j then x else old(lu[r, c])
  {
    lu[i, j] := x;
    RowsAre(lu, SetAt(old(Rows(lu)), i, j, x));
  }

  method SubtractProducts(lu: array2<real>, i: nat, j: nat, m: nat) returns (sum: real)
    requires lu.Length0 == lu.Length1
    requires i < lu.Length0 && j < lu.Length0 && m <= i && m <= j
    ensures sum == lu[i, j] - Dot(Rows(lu), i, j, m)
  {
    sum := lu[i, j];
    for k := 0 to m
      invariant sum == lu[i, j] - Dot(Rows(lu), i, j, k)
    {
      sum := sum - lu[i, k] * lu[k, j];
    }
  }

  /** Subtracts the products from row i of column j: one more reduced row. */
  method ReduceEntry(lu: array2<real>, n: nat, i: nat, j: nat, ghost b: Mat)
    requires lu.Length0 == lu.Length1 == n && i < n
    requires Reducing(Rows(lu), b, n, j, i)
    modifies lu
    ensures Reducing(Rows(lu), b, n, j, i + 1)
    ensures forall r, c :: 0 <= r < n && 0 <= c < n && !(r == i && c == j) ==> lu[r, c] == old(lu[r, c])
  {
    hide Fact, Reduced, Dot, Sum;
    ghost var f := Rows(lu);
    var sum := SubtractProducts(lu, i, j, if i < j then i else j);
    ReduceStep(f, b, n, j, i);
    Store(lu, i, j, sum);
  }

  method ExchangeRows(lu: array2<real>, p: nat, q: nat)
    requires p < lu.Length0 && q < lu.Length0
    modifies lu
    ensures Rows(lu) == Swapped(old(Rows(lu)), p, q)
  {
    for k := 0 to lu.Length1
      invariant forall i, c :: 0 <= i < lu.Length0 && k <= c < lu.Length1 ==> lu[i, c] == old(lu[i, c])
      invariant forall i, c :: 0 <= i < lu.Length0 && 0 <= c < k ==>
        lu[i, c] == old(lu[if i == p then q else if i == q then p else i, c])
    {
      var dum := lu[p, k];
      lu[p, k] := lu[q, k];
      lu[q, k] := dum;
    }
    RowsAre(lu, Swapped(old(Rows(lu)), p, q));
  }

  /** m is the largest magnitude in a row, zero for a row of zeros. */
  ghost predicate IsLargest(m: real, row: Vec) {
    && m >= 0.0 && (forall c :: 0 <= c < |row| ==> Abs(row[c]) <= m)
    && (m != 0.0 ==> exists c :: 0 <= c < |row| && Abs(row[c]) == m)
  }

  /** s brings the largest magnitude of a row to one. */
  ghost predicate ScalesToOne(s: real, row: Vec) {
    && s > 0.0 && (forall c :: 0 <= c < |row| ==> Weight(s, row[c]) <= 1.0)
    && exists c :: 0 <= c < |row| && Weight(s, row[c]) == 1.0
  }

  lemma WeightOfReciprocal(m: real, x: real)
    requires m > 0.0 && Abs(x) <= m
    ensures 1.0 / m > 0.0 && Weight(1.0 / m, x) <= 1.0
    ensures Abs(x) == m ==> Weight(1.0 / m, x) == 1.0
  {
    var q := 1.0 / m;
    assert q * m == 1.0;
    assert q * (m - Abs(x)) >= 0.0;
  }

  lemma ReciprocalScales(m: real, row: Vec)
    requires IsLargest(m, row) && m != 0.0
    ensures ScalesToOne(1.0 / m, row)
  {
    hide Weight;
    forall c | 0 <= c < |row|
      ensures Weight(1.0 / m, row[c]) <= 1.0
    {
      WeightOfReciprocal(m, row[c]);
    }
    var c :| 0 <= c < |row| && Abs(row[c]) == m;
    WeightOfReciprocal(m, row[c]);
  }

  lemma ScaleIsPositive(s: real, row: Vec)
    requires ScalesToOne(s, row)
    ensures s > 0.0
  {
  }

  method LargestInRow(lu: array2<real>, i: nat) returns (amax: real)
    requires i < lu.Length0
    ensures IsLargest(amax, Rows(lu)[i])
  {
    amax := 0.0;
    ghost var row := Rows(lu)[i];
    for j := 0 to lu.Length1
      invariant amax >= 0.0 && forall c :: 0 <= c < j ==> Abs(row[c]) <= amax
      invariant amax != 0.0 ==> exists c :: 0 <= c < j && Abs(row[c]) == amax
    {
      if Abs(lu[i, j]) > amax {
        amax := Abs(lu[i, j]);
        assert Abs(row[j]) == amax;
      }
    }
  }

  /** The reciprocal of the largest magnitude of each row; a zero row has none. */
  method RowScales(lu: array2<real>, order: nat) returns (ok: bool, scale: array<real>)
    requires lu.Length0 == lu.Length1 == order
    ensures fresh(scale) && scale.Length == order
    ensures ok ==> forall i :: 0 <= i < order ==> ScalesToOne(scale[i], Rows(lu)[i])
    ensures !ok ==> !Invertible(Rows(lu), order)
  {
    hide ScalesToOne, Invertible;
    scale := new real[order];
    for i := 0 to order
      invariant forall r :: 0 <= r < i ==> ScalesToOne(scale[r], Rows(lu)[r])
    {
      var amax := LargestInRow(lu, i);
      if amax == 0.0 {
        assert forall j :: 0 <= j < order ==> Abs(Rows(lu)[i][j]) <= 0.0;
        ZeroRowSingular(Rows(lu), order, i);
        return false, scale;
      }
      ReciprocalScales(amax, Rows(lu)[i]);
      scale[i] := 1.0 / amax;
    }
    ok := true;
  }

  /**
   * Reduces column j from the diagonal down and finds the row with the largest scaled entry
   * (the last one among equals).
   */
  method ReduceAndPivot(lu: array2<real>, scale: array<real>, n: nat, j: nat, ghost b: Mat) returns (imax: nat)
    requires lu.Length0 == lu.Length1 == n == scale.Length
    requires Reducing(Rows(lu), b, n, j, j)
    requires forall i :: 0 <= i < n ==> scale[i] > 0.0
    modifies lu
    ensures Reducing(Rows(lu), b, n, j, n)
    ensures forall k :: 0 <= k < j ==> lu[k, k] == old(lu[k, k])
    ensures j <= imax < n
    ensures forall i :: j <= i < n ==> Weight(scale[i], lu[i, j]) <= Weight(scale[imax], lu[imax, j])
    ensures forall i :: imax < i < n ==> Weight(scale[i], lu[i, j]) < Weight(scale[imax], lu[imax, j])
  {
    hide Fact, Reduced, Dot, Sum, Weight;

    imax := j;
    var amax := 0.0;
    for i := j to n
      invariant Reducing(Rows(lu), b, n, j, i)
      invariant forall k :: 0 <= k < j ==> lu[k, k] == old(lu[k, k])
      invariant if i == j then amax == 0.0 else j <= imax < i && amax == Weight(scale[imax], lu[imax, j])
      invariant forall r :: j <= r < i ==> Weight(scale[r], lu[r, j]) <= amax
      invariant forall r :: imax < r < i ==> Weight(scale[r], lu[r, j]) < amax
    {
      ReduceEntry(lu, n, i, j, b);
      WeightIsPositive(scale[i], lu[i, j]);
      var dum := Weight(scale[i], lu[i, j]);
      if dum >= amax {
        imax := i;
        amax := dum;
      }
    }
  }

  /** Divides the entries below the pivot of column j. */
  method DivideColumn(lu: array2<real>, order: nat, j: nat, ghost b: Mat)
    requires lu.Length0 == lu.Length1 == order
    requires Reducing(Rows(lu), b, order, j, order) && lu[j, j] != 0.0
    modifies lu
    ensures Partial(Rows(lu), b, order, j + 1)
    ensures forall k :: 0 <= k <= j ==> lu[k, k] == old(lu[k, k])
  {
    hide Fact, Reduced, Dot, Sum;
    StartDividing(Rows(lu), b, order, j);
    if j != order - 1 {
      var dum := 1.0 / lu[j, j];
      for i := j + 1 to order
        invariant Dividing(Rows(lu), b, order, j, i)
        invariant forall k :: 0 <= k <= j ==> lu[k, k] == old(lu[k, k])
      {
        ghost var f := Rows(lu);
        var q := dum * lu[i, j];
        assert q * lu[j, j] == lu[i, j];
        DivideStep(f, b, order, j, i, q);
        Store(lu, i, j, q);
      }
    }
    FinishColumn(Rows(lu), b, order, j);
  }

  /** Reduces the part of column j above the diagonal. */
  method ReduceAbove(lu: array2<real>, n: nat, j: nat, ghost b: Mat)
    requires lu.Length0 == lu.Length1 == n && j < n
    requires Partial(Rows(lu), b, n, j)
    modifies lu
    ensures Reducing(Rows(lu), b, n, j, j)
    ensures forall k :: 0 <= k < j ==> lu[k, k] == old(lu[k, k])
  {
    hide Fact, Reduced, Dot, Sum;
    for i := 0 to j
      invariant Reducing(Rows(lu), b, n, j, i)
      invariant forall k :: 0 <= k < j ==> lu[k, k] == old(lu[k, k])
    {
      ReduceEntry(lu, n, i, j, b);
    }
  }

  /** Brings the chosen row to the diagonal; a zero there means there was nothing to choose. */
  method BringPivot(lu: array2<real>, scale: array<real>, n: nat, j: nat, imax: nat, ghost b: Mat)
    requires lu.Length0 == lu.Length1 == n == scale.Length
    requires Reducing(Rows(lu), b, n, j, n) && j <= imax < n
    requires forall i :: 0 <= i < n ==> scale[i] > 0.0
    requires forall i :: j <= i < n ==> Weight(scale[i], lu[i, j]) <= Weight(scale[imax], lu[imax, j])
    modifies lu, scale
    ensures Reducing(Rows(lu), Swapped(b, j, imax), n, j, n)
    ensures forall i :: 0 <= i < n ==> scale[i] > 0.0
    ensures forall k :: 0 <= k < j ==> lu[k, k] == old(lu[k, k])
    ensures lu[j, j] == 0.0 ==> Partial(Rows(lu), Swapped(b, j, imax), n, j + 1)
  {
    hide Fact, Reduced, Dot, Sum;
    ghost var f := Rows(lu);
    forall i | j <= i < n && lu[imax, j] == 0.0
      ensures lu[i, j] == 0.0
    {
      WeightIsPositive(scale[i], lu[i, j]);
      WeightIsPositive(scale[imax], lu[imax, j]);
    }
    SwapStep(f, b, n, j, imax);
    if j != imax {
      ExchangeRows(lu, imax, j);
      scale[imax] := scale[j];
    }
    assert Rows(lu) == Swapped(f, j, imax);
    assert forall i, c :: 0 <= i < n && 0 <= c < n ==> lu[i, c] == Swapped(f, j, imax)[i][c];
    if lu[j, j] == 0.0 {
      ZeroColumn(Rows(lu), Swapped(b, j, imax), n, j);
    }
  }

  /** All of column j up to the division: reduce, choose a pivot row, bring it to the diagonal. */
  method PivotColumn(lu: array2<real>, scale: array<real>, n: nat, j: nat, ghost b: Mat) returns (imax: nat)
    requires lu.Length0 == lu.Length1 == n == scale.Length && j < n
    requires Partial(Rows(lu), b, n, j)
    requires forall i :: 0 <= i < n ==> scale[i] > 0.0
    modifies lu, scale
    ensures j <= imax < n
    ensures Reducing(Rows(lu), Swapped(b, j, imax), n, j, n)
    ensures forall i :: 0 <= i < n ==> scale[i] > 0.0
    ensures forall k :: 0 <= k < j ==> lu[k, k] == old(lu[k, k])
    ensures lu[j, j] == 0.0 ==> Partial(Rows(lu), Swapped(b, j, imax), n, j + 1)
  {
    hide Fact, Reduced, Dot, Sum, Weight, Partial, Reducing;
    ReduceAbove(lu, n, j, b);
    imax := ReduceAndPivot(lu, scale, n, j, b);
    BringPivot(lu, scale, n, j, imax, b);
  }

  /** The first j columns of lu are factored, with the row exchanges of indexx. */
  ghost predicate Columns(f: Mat, idx: seq<int>, a: Mat, n: nat, j: nat) {
    && IsMat(f, n) && IsMat(a, n) && j <= n
    && ValidSwaps(idx, j, n)
    && Partial(f, Permuted(a, idx, j), n, j)
    && PivotsNonzero(f, j)
  }

  /** One round of the outer loop; it fails when nothing in the column can serve as a pivot. */
  method FactorColumn(lu: array2<real>, indexx: array<int>, scale: array<real>, n: nat, j: nat, ghost a: Mat)
    returns (ok: bool)
    requires lu.Length0 == lu.Length1 == n == indexx.Length == scale.Length && j < n
    requires Columns(Rows(lu), indexx[..], a, n, j)
    requires forall i :: 0 <= i < n ==> scale[i] > 0.0
    modifies lu, indexx, scale
    ensures forall i :: 0 <= i < n ==> scale[i] > 0.0
    ensures ok ==> Columns(Rows(lu), indexx[..], a, n, j + 1)
    ensures !ok ==> !Invertible(a, n)
  {
    hide Fact, Reduced, Dot, Sum, Weight, Partial, Reducing, Swapped, Mul, Invertible;
    ghost var b := Permuted(a, indexx[..], j);
    assert forall k :: 0 <= k < j ==> At(Rows(lu), k, k) == lu[k, k];
    var imax := PivotColumn(lu, scale, n, j, b);
    ghost var idx := indexx[..];
    indexx[j] := imax;
    PermutedPrefix(a, idx, indexx[..], j);
    b := Swapped(b, j, imax);
    if lu[j, j] == 0.0 {
      ZeroPivotSingular(Rows(lu), a, indexx[..], n, j);
      return false;
    }
    DivideColumn(lu, n, j, b);
    return true;
  }

  /**
   * Factors lu in place and records the row exchanges. It succeeds on exactly the invertible
   * matrices.
   */
  method LuDecompose(lu: array2<real>, indexx: array<int>, order: nat) returns (ok: bool)
    requires lu.Length0 == lu.Length1 == order == indexx.Length
    modifies lu, indexx
    ensures ok ==> Factored(Rows(lu), indexx[..], old(Rows(lu)), order)
    ensures ok <==> Invertible(old(Rows(lu)), order)
  {
    hide Partial, Mul, Invertible, ScalesToOne;
    ghost var a := Rows(lu);
    StartPartial(a, order);
    var scale;
    ok, scale := RowScales(lu, order);
    if !ok {
      return;
    }
    forall i | 0 <= i < order
      ensures scale[i] > 0.0
    {
      ScaleIsPositive(scale[i], a[i]);
    }
    for j := 0 to order
      invariant Columns(Rows(lu), indexx[..], a, order, j)
      invariant forall i :: 0 <= i < order ==> scale[i] > 0.0
    {
      ok := FactorColumn(lu, indexx, scale, order, j, a);
      if !ok {
        return;
      }
    }
    FullProduct(Rows(lu), Permuted(a, indexx[..], order), order);
    FactoredInvertible(Rows(lu), indexx[..], a, order);
    return true;
  }
}
