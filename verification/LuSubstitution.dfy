/**
 * Substitution through a packed LU factorisation, one entry at a time: what it has done so far, that
 * it solves the system, and that a factored matrix therefore has an inverse.
 */
module LuSubstitution {
  import opened Matrices
  import opened LuTheory

  // ------------------------------------------------- forward substitution

  /** The first i entries solve the lower system for w, the rest still hold w. */
  ghost predicate Forward(f: Mat, x: Vec, w: Vec, n: nat, i: nat) {
    && |x| == |w| == n && i <= n
    && (forall k {:trigger x[k]} :: 0 <= k < i ==> x[k] + Sum(k, RowTerm(f, k, x)) == w[k])
    && (forall k :: i <= k < n ==> x[k] == w[k])
  }

  lemma RowSumFrame(f: Mat, k: nat, x: Vec, y: Vec)
    requires k <= |x| && k <= |y| && forall t :: 0 <= t < k ==> x[t] == y[t]
    ensures Sum(k, RowTerm(f, k, x)) == Sum(k, RowTerm(f, k, y))
  {
    SumEq(k, RowTerm(f, k, x), RowTerm(f, k, y));
  }

  lemma ForwardStep(f: Mat, x: Vec, w: Vec, n: nat, i: nat, p: nat)
    requires Forward(f, x, w, n, i) && i <= p < n
    ensures Forward(f, Swapped(x, i, p)[i := x[p] - Sum(i, RowTerm(f, i, x))], Swapped(w, i, p), n, i + 1)
  {
    var y := Swapped(x, i, p)[i := x[p] - Sum(i, RowTerm(f, i, x))];
    assert forall k :: 0 <= k < i ==> y[k] == x[k];
    forall k | 0 <= k < i + 1
      ensures y[k] + Sum(k, RowTerm(f, k, y)) == Swapped(w, i, p)[k]
    {
      RowSumFrame(f, k, x, y);
    }
  }

  lemma ForwardDone(f: Mat, x: Vec, w: Vec, n: nat)
    requires IsMat(f, n) && Forward(f, x, w, n, n)
    ensures MatVec(Lower(f, n), x, n) == w
  {
    forall i | 0 <= i < n
      ensures MatVec(Lower(f, n), x, n)[i] == w[i]
    {
      LowerRow(f, x, n, i);
      assert x[i] + Sum(i, RowTerm(f, i, x)) == w[i];
    }
  }

  // ---------------------------------------------------- back-substitution

  /** The entries after i solve the upper system for y, the rest still hold y. */
  ghost predicate Backward(f: Mat, x: Vec, y: Vec, n: nat, i: int) {
    && |x| == |y| == n && -1 <= i < n
    && (forall k {:trigger x[k]} :: i < k < n ==> At(f, k, k) * x[k] + Tail(f, k, x, n) == y[k])
    && (forall k :: 0 <= k <= i ==> x[k] == y[k])
  }

  /** Entry i of the solution, when the entries after it are solved. */
  ghost function Solved(f: Mat, x: Vec, i: nat, n: nat): real
    requires i < |x| && At(f, i, i) != 0.0
  {
    (x[i] - Tail(f, i, x, n)) / At(f, i, i)
  }

  lemma SolvedIs(f: Mat, x: Vec, i: nat, n: nat, sum: real, p: real)
    requires i < |x| && p == At(f, i, i) != 0.0 && sum == x[i] - Tail(f, i, x, n)
    ensures Solved(f, x, i, n) == sum / p && At(f, i, i) * Solved(f, x, i, n) + Tail(f, i, x, n) == x[i]
  {
  }

  lemma BackwardStep(f: Mat, x: Vec, y: Vec, n: nat, i: nat)
    requires Backward(f, x, y, n, i) && At(f, i, i) != 0.0
    ensures Backward(f, x[i := Solved(f, x, i, n)], y, n, i - 1)
  {
    hide Sum, Tail, RowTerm, Solved;
    SolvedIs(f, x, i, n, x[i] - Tail(f, i, x, n), At(f, i, i));
    var z := x[i := Solved(f, x, i, n)];
    forall k | i - 1 < k < n
      ensures At(f, k, k) * z[k] + Tail(f, k, z, n) == y[k]
    {
      TailFrame(f, k, z, x, n);
      assert k > i ==> z[k] == x[k];
    }
  }

  lemma BackwardDone(f: Mat, x: Vec, y: Vec, n: nat)
    requires IsMat(f, n) && Backward(f, x, y, n, -1)
    ensures MatVec(Upper(f, n), x, n) == y
  {
    forall i | 0 <= i < n
      ensures MatVec(Upper(f, n), x, n)[i] == y[i]
    {
      UpperRow(f, x, n, i);
      assert At(f, i, i) * x[i] + Tail(f, i, x, n) == y[i];
    }
  }

  // ------------------------------------------------------------- solutions

  lemma {:induction false} ForwardFrom(f: Mat, w: Vec, n: nat, i: nat) returns (x: Vec)
    requires IsVec(w, n) && i <= n
    ensures Forward(f, x, w, n, i)
  {
    hide Sum, RowTerm;
    if i == 0 {
      x := w;
    } else {
      var z := ForwardFrom(f, w, n, i - 1);
      ForwardStep(f, z, w, n, i - 1, i - 1);
      assert Swapped(z, i - 1, i - 1) == z && Swapped(w, i - 1, i - 1) == w;
      x := z[i - 1 := z[i - 1] - Sum(i - 1, RowTerm(f, i - 1, z))];
    }
  }

  lemma {:induction false} BackwardFrom(f: Mat, y: Vec, n: nat, i: int) returns (x: Vec)
    requires IsVec(y, n) && PivotsNonzero(f, n) && -1 <= i < n
    ensures Backward(f, x, y, n, i)
    decreases n - i
  {
    hide Sum, Tail, RowTerm, Solved;
    if i == n - 1 {
      x := y;
    } else {
      var z := BackwardFrom(f, y, n, i + 1);
      BackwardStep(f, z, y, n, i + 1);
      x := z[i + 1 := Solved(f, z, i + 1, n)];
    }
  }

  /** Systems with a factored matrix have a solution for every right-hand side. */
  lemma Solution(f: Mat, idx: seq<int>, a: Mat, b: Vec, n: nat) returns (x: Vec)
    requires Factored(f, idx, a, n) && IsVec(b, n)
    ensures IsVec(x, n) && MatVec(a, x, n) == b
  {
    hide Sum, Tail, RowTerm, MatVec, Mul;
    var w := Permuted(b, idx, n);
    var y := ForwardFrom(f, w, n, n);
    ForwardDone(f, y, w, n);
    x := BackwardFrom(f, y, n, -1);
    BackwardDone(f, x, y, n);
    SolveOriginal(f, idx, a, x, y, b, n);
  }

  lemma {:induction false} Solutions(f: Mat, idx: seq<int>, a: Mat, n: nat, m: nat) returns (cols: seq<Vec>)
    requires Factored(f, idx, a, n) && m <= n
    ensures |cols| == m
    ensures forall c :: 0 <= c < m ==> IsVec(cols[c], n) && MatVec(a, cols[c], n) == Unit(n, c)
  {
    hide Factored, MatVec;
    if m == 0 {
      cols := [];
    } else {
      var front := Solutions(f, idx, a, n, m - 1);
      var x := Solution(f, idx, a, Unit(n, m - 1), n);
      cols := front + [x];
    }
  }

  // --------------------------------------------------------------- inverse

  /** A matrix whose columns solve a x = e_c is a right inverse. */
  lemma ColumnsGiveInverse(a: Mat, inv: Mat, n: nat)
    requires IsMat(a, n) && IsMat(inv, n)
    requires forall c :: 0 <= c < n ==> MatVec(a, Column(inv, n, c), n) == Unit(n, c)
    ensures Mul(a, inv, n) == Identity(n)
  {
    var p := Mul(a, inv, n);
    forall i, c | 0 <= i < n && 0 <= c < n
      ensures p[i][c] == Identity(n)[i][c]
    {
      MulColumn(a, inv, n, c);
      assert Column(p, n, c)[i] == Unit(n, c)[i];
    }
    assert forall i :: 0 <= i < n ==> p[i] == Identity(n)[i];
  }

  lemma FactoredInverse(f: Mat, idx: seq<int>, a: Mat, inv: Mat, n: nat)
    requires Factored(f, idx, a, n) && IsMat(inv, n)
    requires forall c :: 0 <= c < n ==> MatVec(a, Column(inv, n, c), n) == Unit(n, c)
    ensures Mul(a, inv, n) == Identity(n) && Mul(inv, a, n) == Identity(n)
  {
    ColumnsGiveInverse(a, inv, n);
    forall y: Vec | IsVec(y, n) && MatVec(a, y, n) == Zeros(n)
      ensures y == Zeros(n)
    {
      FactoredInjective(f, idx, a, y, n);
    }
    RightInverseIsLeft(a, inv, n);
  }

  /** What can be factored can be inverted. */
  lemma FactoredInvertible(f: Mat, idx: seq<int>, a: Mat, n: nat)
    requires Factored(f, idx, a, n)
    ensures Invertible(a, n)
  {
    hide Factored, MatVec, Mul;
    var cols := Solutions(f, idx, a, n, n);
    var inv: Mat := seq(n, i requires 0 <= i < n => seq(n, c requires 0 <= c < n => cols[c][i]));
    assert IsMat(inv, n);
    forall c | 0 <= c < n
      ensures MatVec(a, Column(inv, n, c), n) == Unit(n, c)
    {
      assert Column(inv, n, c) == cols[c];
    }
    FactoredInverse(f, idx, a, inv, n);
  }
}
