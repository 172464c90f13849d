/** What an in-place LU factorisation means, independently of the loops that produce it. */
module LuTheory {
  import opened Matrices

  /** The unit lower triangular factor packed strictly below the diagonal of f. */
  ghost function Lower(f: Mat, n: nat): (l: Mat)
    ensures IsMat(l, n)
    ensures forall i, k :: 0 <= i < n && 0 <= k < n ==>
      l[i][k] == if k < i then At(f, i, k) else if k == i then 1.0 else 0.0
  {
    seq(n, i => seq(n, k => if k < i then At(f, i, k) else if k == i then 1.0 else 0.0))
  }

  /** The upper triangular factor packed on and above the diagonal of f. */
  ghost function Upper(f: Mat, n: nat): (u: Mat)
    ensures IsMat(u, n)
    ensures forall k, c :: 0 <= k < n && 0 <= c < n ==> u[k][c] == if k <= c then At(f, k, c) else 0.0
  {
    seq(n, k => seq(n, c => if k <= c then At(f, k, c) else 0.0))
  }

  function Swapped<T>(s: seq<T>, p: nat, q: nat): (r: seq<T>)
    requires p < |s| && q < |s|
    ensures |r| == |s|
  {
    s[p := s[q]][q := s[p]]
  }

  /** Step k of a pivot record exchanges row k with a row at or below it. */
  ghost predicate ValidSwaps(idx: seq<int>, m: nat, n: nat) {
    m <= |idx| && forall k :: 0 <= k < m ==> k <= idx[k] < n
  }

  /** s after the first m recorded exchanges, in order. */
  ghost function Permuted<T>(s: seq<T>, idx: seq<int>, m: nat): (r: seq<T>)
    requires m <= |s| && ValidSwaps(idx, m, |s|)
    ensures |r| == |s|
  {
    if m == 0 then s else Swapped(Permuted(s, idx, m - 1), m - 1, idx[m - 1])
  }

  ghost predicate PivotsNonzero(f: Mat, m: nat) {
    forall k :: 0 <= k < m ==> At(f, k, k) != 0.0
  }

  /** f and idx hold an LU factorisation of a with its rows exchanged as idx records. */
  ghost predicate Factored(f: Mat, idx: seq<int>, a: Mat, n: nat) {
    && IsMat(f, n) && IsMat(a, n)
    && ValidSwaps(idx, n, n)
    && PivotsNonzero(f, n)
    && Mul(Lower(f, n), Upper(f, n), n) == Permuted(a, idx, n)
  }

  // -------------------------------------------------------- permutations

  lemma {:induction false} PermutedInjective<T>(s: seq<T>, t: seq<T>, idx: seq<int>, m: nat)
    requires |s| == |t| && m <= |s| && ValidSwaps(idx, m, |s|)
    requires Permuted(s, idx, m) == Permuted(t, idx, m)
    ensures s == t
  {
    if m > 0 {
      var s', t' := Permuted(s, idx, m - 1), Permuted(t, idx, m - 1);
      var p := idx[m - 1];
      forall k | 0 <= k < |s|
        ensures s'[k] == t'[k]
      {
        assert Swapped(s', m - 1, p)[k] == Swapped(t', m - 1, p)[k];
        assert Swapped(s', m - 1, p)[p] == Swapped(t', m - 1, p)[p];
        assert Swapped(s', m - 1, p)[m - 1] == Swapped(t', m - 1, p)[m - 1];
      }
      PermutedInjective(s, t, idx, m - 1);
    }
  }

  /** Later entries of the pivot record do not matter. */
  lemma {:induction false} PermutedPrefix<T>(s: seq<T>, idx: seq<int>, idx': seq<int>, m: nat)
    requires m <= |s| && ValidSwaps(idx, m, |s|) && m <= |idx'| && idx[..m] == idx'[..m]
    ensures ValidSwaps(idx', m, |s|) && Permuted(s, idx, m) == Permuted(s, idx', m)
  {
    assert forall k :: 0 <= k < m ==> idx'[k] == idx'[..m][k] == idx[..m][k] == idx[k];
    if m > 0 {
      assert idx[..m - 1] == idx[..m][..m - 1] == idx'[..m][..m - 1] == idx'[..m - 1];
      PermutedPrefix(s, idx, idx', m - 1);
    }
  }

  lemma {:induction false} PermutedIsMat(a: Mat, idx: seq<int>, m: nat, n: nat)
    requires IsMat(a, n) && m <= n && ValidSwaps(idx, m, n)
    ensures IsMat(Permuted(a, idx, m), n)
  {
    if m > 0 {
      PermutedIsMat(a, idx, m - 1, n);
    }
  }

  lemma SwappedMatVec(b: Mat, x: Vec, p: nat, q: nat, n: nat)
    requires |b| == n && p < n && q < n
    ensures MatVec(Swapped(b, p, q), x, n) == Swapped(MatVec(b, x, n), p, q)
  {
    var lhs, rhs := MatVec(Swapped(b, p, q), x, n), Swapped(MatVec(b, x, n), p, q);
    forall i | 0 <= i < n
      ensures lhs[i] == rhs[i]
    {
      var from := if i == p then q else if i == q then p else i;
      SumEq(n, RowTerm(Swapped(b, p, q), i, x), RowTerm(b, from, x));
    }
  }

  lemma {:induction false} PermutedMatVec(a: Mat, x: Vec, idx: seq<int>, m: nat, n: nat)
    requires IsMat(a, n) && m <= n && ValidSwaps(idx, m, n)
    ensures MatVec(Permuted(a, idx, m), x, n) == Permuted(MatVec(a, x, n), idx, m)
  {
    if m > 0 {
      PermutedMatVec(a, x, idx, m - 1, n);
      SwappedMatVec(Permuted(a, idx, m - 1), x, m - 1, idx[m - 1], n);
    }
  }

  lemma {:induction false} PermutedZeros(idx: seq<int>, m: nat, n: nat)
    requires m <= n && ValidSwaps(idx, m, n)
    ensures Permuted(Zeros(n), idx, m) == Zeros(n)
  {
    if m > 0 {
      PermutedZeros(idx, m - 1, n);
    }
  }

  // --------------------------------------------------- entries of L times U

  /** The products that Crout's loops subtract from entry (i,c). */
  ghost function Dot(f: Mat, i: int, c: int, m: nat): real {
    Sum(m, ProductTerm(f, f, i, c))
  }

  /** How many products entry (i,j) loses. */
  ghost function Depth(a: int, b: int): int {
    if a <= b then a else b
  }

  /** Entry (i,c) of L times U, read off the packed matrix. */
  ghost function Fact(f: Mat, i: nat, c: nat): real {
    if i <= c then Dot(f, i, c, i) + At(f, i, c) else Dot(f, i, c, c + 1)
  }

  /** Entry (i,j) of L times U before column j is divided by its pivot. */
  ghost function Reduced(f: Mat, i: nat, j: nat): real {
    Dot(f, i, j, Depth(i, j)) + At(f, i, j)
  }

  lemma DotFrame(f: Mat, g: Mat, i: int, i': int, c: int, m: nat)
    requires forall k :: 0 <= k < m ==> At(f, i, k) == At(g, i', k) && At(f, k, c) == At(g, k, c)
    ensures Dot(f, i, c, m) == Dot(g, i', c, m)
  {
    SumEq(m, ProductTerm(f, f, i, c), ProductTerm(g, g, i', c));
  }

  lemma FactTerm(f: Mat, n: nat, i: nat, c: nat, k: nat)
    requires IsMat(f, n) && i < n && c < n && k < n
    ensures ProductTerm(Lower(f, n), Upper(f, n), i, c)(k) ==
            if k < i && k <= c then ProductTerm(f, f, i, c)(k) else if k == i && k <= c then At(f, i, c) else 0.0
  {
    assert At(Lower(f, n), i, k) == if k < i then At(f, i, k) else if k == i then 1.0 else 0.0;
    assert At(Upper(f, n), k, c) == if k <= c then At(f, k, c) else 0.0;
  }

  lemma FactIsProduct(f: Mat, n: nat, i: nat, c: nat)
    requires IsMat(f, n) && i < n && c < n
    ensures Mul(Lower(f, n), Upper(f, n), n)[i][c] == Fact(f, i, c)
  {
    hide Sum, ProductTerm, Lower, Upper, At;
    var g, h := ProductTerm(Lower(f, n), Upper(f, n), i, c), ProductTerm(f, f, i, c);
    forall k | 0 <= k < n
      ensures g(k) == if k < i && k <= c then h(k) else if k == i && k <= c then At(f, i, c) else 0.0
    {
      FactTerm(f, n, i, c, k);
    }
    if i <= c {
      SumTruncate(i + 1, n, g);
      SumEq(i, g, h);
      SumLast(i, g);
    } else {
      SumTruncate(c + 1, n, g);
      SumEq(c + 1, g, h);
    }
  }

  // ------------------------------------------------ progress of the columns

  /** Columns before j are factored, the others still equal b. */
  ghost predicate Partial(f: Mat, b: Mat, n: nat, j: nat) {
    && IsMat(f, n) && IsMat(b, n)
    && (forall i, c {:trigger Fact(f, i, c)} :: 0 <= i < n && 0 <= c < j && c < n ==> Fact(f, i, c) == At(b, i, c))
    && (forall i, c :: 0 <= i < n && j <= c < n ==> f[i][c] == b[i][c])
  }

  /** As Partial, with the first t rows of column j reduced. */
  ghost predicate Reducing(f: Mat, b: Mat, n: nat, j: nat, t: nat) {
    && IsMat(f, n) && IsMat(b, n) && j < n && t <= n
    && (forall i, c {:trigger Fact(f, i, c)} :: 0 <= i < n && 0 <= c < j ==> Fact(f, i, c) == At(b, i, c))
    && (forall i {:trigger Reduced(f, i, j)} :: 0 <= i < t ==> Reduced(f, i, j) == At(b, i, j))
    && (forall i :: t <= i < n ==> f[i][j] == b[i][j])
    && (forall i, c :: 0 <= i < n && j < c < n ==> f[i][c] == b[i][c])
  }

  /** As Reducing to the end, with the rows below the pivot divided up to row t. */
  ghost predicate Dividing(f: Mat, b: Mat, n: nat, j: nat, t: nat) {
    && IsMat(f, n) && IsMat(b, n) && j < n && j < t <= n
    && (forall i, c {:trigger Fact(f, i, c)} :: 0 <= i < n && 0 <= c < j ==> Fact(f, i, c) == At(b, i, c))
    && (forall i {:trigger Fact(f, i, j)} :: 0 <= i < t ==> Fact(f, i, j) == At(b, i, j))
    && (forall i {:trigger Reduced(f, i, j)} :: t <= i < n ==> Reduced(f, i, j) == At(b, i, j))
    && (forall i, c :: 0 <= i < n && j < c < n ==> f[i][c] == b[i][c])
  }

  function SetAt<T>(m: seq<seq<T>>, i: nat, j: nat, v: T): (r: seq<seq<T>>)
    requires i < |m| && j < |m[i]|
    ensures |r| == |m|
  {
    m[i := m[i][j := v]]
  }

  lemma FactFrame(f: Mat, g: Mat, i: nat, i': nat, c: nat)
    requires (i <= c && i' == i) || (i > c && i' > c)
    requires forall k :: 0 <= k <= c ==> At(f, i, k) == At(g, i', k)
    requires forall k :: 0 <= k < i && k <= c ==> At(f, k, c) == At(g, k, c)
    ensures Fact(f, i, c) == Fact(g, i', c)
  {
    if i <= c {
      DotFrame(f, g, i, i', c, i);
    } else {
      DotFrame(f, g, i, i', c, c + 1);
    }
  }

  /** Subtracting the products from entry (t,j) extends the reduced part of column j by a row. */
  lemma ReduceStep(f: Mat, b: Mat, n: nat, j: nat, t: nat)
    requires Reducing(f, b, n, j, t) && t < n
    ensures Reducing(SetAt(f, t, j, At(f, t, j) - Dot(f, t, j, Depth(t, j))), b, n, j, t + 1)
  {
    hide Fact, Reduced, Dot;
    var g := SetAt(f, t, j, At(f, t, j) - Dot(f, t, j, Depth(t, j)));
    forall i, c | 0 <= i < n && 0 <= c < j
      ensures Fact(g, i, c) == At(b, i, c)
    {
      FactFrame(f, g, i, i, c);
    }
    forall i | 0 <= i < t + 1
      ensures Reduced(g, i, j) == At(b, i, j)
    {
      if i == t {
        DotFrame(f, g, t, t, j, Depth(t, j));
        ReducedIs(g, t, j);
      } else {
        ReducedFrame(f, g, i, i, j);
        assert Reduced(f, i, j) == At(b, i, j);
      }
    }
  }

  lemma ReducedIs(f: Mat, i: nat, j: nat)
    ensures Reduced(f, i, j) == Dot(f, i, j, Depth(i, j)) + At(f, i, j)
  {
  }

  lemma ReducedFrame(f: Mat, g: Mat, i: nat, i': nat, j: nat)
    requires Depth(i, j) == Depth(i', j) && At(f, i, j) == At(g, i', j)
    requires forall k :: 0 <= k < Depth(i, j) ==> At(f, i, k) == At(g, i', k) && At(f, k, j) == At(g, k, j)
    ensures Reduced(f, i, j) == Reduced(g, i', j)
  {
    DotFrame(f, g, i, i', j, Depth(i, j));
  }

  /** Exchanging two rows at or below the pivot in both matrices keeps them related. */
  lemma SwapStep(f: Mat, b: Mat, n: nat, j: nat, p: nat)
    requires Reducing(f, b, n, j, n) && j <= p < n
    ensures Reducing(Swapped(f, j, p), Swapped(b, j, p), n, j, n)
  {
    hide Fact, Reduced, Dot;
    var g, d := Swapped(f, j, p), Swapped(b, j, p);
    forall i, c | 0 <= i < n && 0 <= c < j
      ensures Fact(g, i, c) == At(d, i, c)
    {
      SwapFact(f, b, n, j, p, i, c);
    }
    forall i | 0 <= i < n
      ensures Reduced(g, i, j) == At(d, i, j)
    {
      SwapReduced(f, b, n, j, p, i);
    }
  }

  /** Where row i comes from when rows j and p change places. */
  function From(i: nat, j: nat, p: nat): nat {
    if i == j then p else if i == p then j else i
  }

  lemma SwapFact(f: Mat, b: Mat, n: nat, j: nat, p: nat, i: nat, c: nat)
    requires Reducing(f, b, n, j, n) && j <= p < n && i < n && c < j
    ensures Fact(Swapped(f, j, p), i, c) == At(Swapped(b, j, p), i, c)
  {
    hide Fact, Reduced, Dot;
    FactFrame(Swapped(f, j, p), f, i, From(i, j, p), c);
    assert Fact(f, From(i, j, p), c) == At(b, From(i, j, p), c);
  }

  lemma SwapReduced(f: Mat, b: Mat, n: nat, j: nat, p: nat, i: nat)
    requires Reducing(f, b, n, j, n) && j <= p < n && i < n
    ensures Reduced(Swapped(f, j, p), i, j) == At(Swapped(b, j, p), i, j)
  {
    hide Fact, Reduced, Dot;
    ReducedFrame(Swapped(f, j, p), f, i, From(i, j, p), j);
    assert Reduced(f, From(i, j, p), j) == At(b, From(i, j, p), j);
  }

  lemma StartDividing(f: Mat, b: Mat, n: nat, j: nat)
    requires Reducing(f, b, n, j, n)
    ensures Dividing(f, b, n, j, j + 1)
  {
    forall i | 0 <= i < j + 1
      ensures Fact(f, i, j) == At(b, i, j)
    {
      assert Reduced(f, i, j) == At(b, i, j);
    }
  }

  /** Dividing entry (t,j) by the pivot turns it into the multiplier of row t. */
  lemma DivideStep(f: Mat, b: Mat, n: nat, j: nat, t: nat, q: real)
    requires Dividing(f, b, n, j, t) && t < n && q * At(f, j, j) == At(f, t, j)
    ensures Dividing(SetAt(f, t, j, q), b, n, j, t + 1)
  {
    var g := SetAt(f, t, j, q);
    forall i, c | 0 <= i < n && 0 <= c < j
      ensures Fact(g, i, c) == At(b, i, c)
    {
      FactFrame(f, g, i, i, c);
    }
    forall i | 0 <= i < t
      ensures Fact(g, i, j) == At(b, i, j)
    {
      FactFrame(f, g, i, i, j);
      assert Fact(f, i, j) == At(b, i, j);
    }
    DotFrame(f, g, t, t, j, j);
    assert Reduced(f, t, j) == At(b, t, j);
    assert At(g, t, j) * At(g, j, j) == At(f, t, j);
    assert Fact(g, t, j) == At(b, t, j);
    forall i | t + 1 <= i < n
      ensures Reduced(g, i, j) == At(b, i, j)
    {
      DotFrame(f, g, i, i, j, j);
      assert Reduced(f, i, j) == At(b, i, j);
    }
  }

  lemma FinishColumn(f: Mat, b: Mat, n: nat, j: nat)
    requires Dividing(f, b, n, j, n)
    ensures Partial(f, b, n, j + 1)
  {
  }

  /** A column whose entries from the diagonal down are all zero needs no division. */
  lemma ZeroColumn(f: Mat, b: Mat, n: nat, j: nat)
    requires Reducing(f, b, n, j, n)
    requires forall i :: j <= i < n ==> At(f, i, j) == 0.0
    ensures Partial(f, b, n, j + 1)
  {
    forall i, c | 0 <= i < n && 0 <= c < j + 1
      ensures Fact(f, i, c) == At(b, i, c)
    {
      if c == j {
        assert Reduced(f, i, j) == At(b, i, j);
      }
    }
  }

  lemma StartPartial(a: Mat, n: nat)
    requires IsMat(a, n)
    ensures Partial(a, a, n, 0)
  {
  }

  lemma FullProduct(f: Mat, b: Mat, n: nat)
    requires Partial(f, b, n, n)
    ensures Mul(Lower(f, n), Upper(f, n), n) == b
  {
    var p := Mul(Lower(f, n), Upper(f, n), n);
    forall i, c | 0 <= i < n && 0 <= c < n
      ensures p[i][c] == b[i][c]
    {
      FactIsProduct(f, n, i, c);
    }
    assert forall i :: 0 <= i < n ==> p[i] == b[i];
  }

  // ------------------------------------------------------ triangular systems

  /** The products right of the diagonal in row i. */
  ghost function Tail(f: Mat, i: nat, x: Vec, n: nat): real {
    Sum(n, RowTerm(f, i, x)) - Sum(i + 1, RowTerm(f, i, x))
  }

  lemma {:induction false} SumSuffixEq(m: nat, n: nat, f: int -> real, g: int -> real)
    requires m <= n
    requires forall k :: m <= k < n ==> f(k) == g(k)
    ensures Sum(n, f) - Sum(m, f) == Sum(n, g) - Sum(m, g)
  {
    if m < n {
      SumSuffixEq(m, n - 1, f, g);
    }
  }

  lemma TailFrame(f: Mat, i: nat, x: Vec, y: Vec, n: nat)
    requires i < n
    requires forall k :: i < k < n ==> Val(x, k) == Val(y, k)
    ensures Tail(f, i, x, n) == Tail(f, i, y, n)
  {
    SumSuffixEq(i + 1, n, RowTerm(f, i, x), RowTerm(f, i, y));
  }

  lemma TailLast(f: Mat, x: Vec, n: nat)
    requires n > 0
    ensures Tail(f, n - 1, x, n) == 0.0
  {
  }

  lemma UpperRow(f: Mat, x: Vec, n: nat, i: nat)
    requires IsMat(f, n) && IsVec(x, n) && i < n
    ensures MatVec(Upper(f, n), x, n)[i] == At(f, i, i) * x[i] + Tail(f, i, x, n)
  {
    hide Sum, RowTerm, Upper;
    var g := RowTerm(Upper(f, n), i, x);
    forall k | 0 <= k < n
      ensures g(k) == if k < i then 0.0 else RowTerm(f, i, x)(k)
    {
      UpperTerm(f, x, n, i, k);
    }
    DiagonalTerm(f, x, i);
    SumZero(i, g);
    SumLast(i, g);
    SumSuffixEq(i + 1, n, g, RowTerm(f, i, x));
  }

  lemma UpperTerm(f: Mat, x: Vec, n: nat, i: nat, k: nat)
    requires IsMat(f, n) && IsVec(x, n) && i < n && k < n
    ensures RowTerm(Upper(f, n), i, x)(k) == if k < i then 0.0 else RowTerm(f, i, x)(k)
  {
    assert At(Upper(f, n), i, k) == if i <= k then At(f, i, k) else 0.0;
  }

  lemma DiagonalTerm(f: Mat, x: Vec, i: nat)
    requires i < |x|
    ensures RowTerm(f, i, x)(i) == At(f, i, i) * x[i]
  {
  }

  lemma LowerTerm(f: Mat, x: Vec, n: nat, i: nat, k: nat)
    requires IsMat(f, n) && IsVec(x, n) && i < n && k < n
    ensures RowTerm(Lower(f, n), i, x)(k) == if k < i then RowTerm(f, i, x)(k) else if k == i then x[i] else 0.0
  {
    assert At(Lower(f, n), i, k) == if k < i then At(f, i, k) else if k == i then 1.0 else 0.0;
  }

  lemma LowerRow(f: Mat, x: Vec, n: nat, i: nat)
    requires IsMat(f, n) && IsVec(x, n) && i < n
    ensures MatVec(Lower(f, n), x, n)[i] == x[i] + Sum(i, RowTerm(f, i, x))
  {
    hide Sum, RowTerm, Lower;
    var g := RowTerm(Lower(f, n), i, x);
    forall k | 0 <= k < n
      ensures g(k) == if k < i then RowTerm(f, i, x)(k) else if k == i then x[i] else 0.0
    {
      LowerTerm(f, x, n, i, k);
    }
    SumTruncate(i + 1, n, g);
    SumEq(i, g, RowTerm(f, i, x));
    SumLast(i, g);
  }

  /** A unit lower triangular system with zero right-hand side has only the zero solution. */
  lemma {:induction false} LowerInjective(f: Mat, x: Vec, n: nat, m: nat)
    requires IsMat(f, n) && IsVec(x, n) && m <= n
    requires MatVec(Lower(f, n), x, n) == Zeros(n)
    ensures forall k :: 0 <= k < m ==> x[k] == 0.0
  {
    if m > 0 {
      LowerInjective(f, x, n, m - 1);
      LowerRow(f, x, n, m - 1);
      SumZero(m - 1, RowTerm(f, m - 1, x));
      assert MatVec(Lower(f, n), x, n)[m - 1] == 0.0;
    }
  }

  /** So has an upper triangular one with nonzero diagonal. */
  lemma {:induction false} UpperInjective(f: Mat, x: Vec, n: nat, m: nat)
    requires IsMat(f, n) && IsVec(x, n) && m <= n
    requires PivotsNonzero(f, n) && MatVec(Upper(f, n), x, n) == Zeros(n)
    ensures forall k :: m <= k < n ==> x[k] == 0.0
    decreases n - m
  {
    if m < n {
      UpperInjective(f, x, n, m + 1);
      UpperRow(f, x, n, m);
      TailFrame(f, m, x, Zeros(n), n);
      SumZero(n, RowTerm(f, m, Zeros(n)));
      SumZero(m + 1, RowTerm(f, m, Zeros(n)));
      assert MatVec(Upper(f, n), x, n)[m] == 0.0;
      assert At(f, m, m) * x[m] == 0.0;
    }
  }

  /** Solving with the two factors solves the original system. */
  lemma SolveOriginal(f: Mat, idx: seq<int>, a: Mat, x: Vec, y: Vec, b: Vec, n: nat)
    requires Factored(f, idx, a, n)
    requires IsVec(x, n) && IsVec(y, n) && IsVec(b, n)
    requires MatVec(Upper(f, n), x, n) == y
    requires MatVec(Lower(f, n), y, n) == Permuted(b, idx, n)
    ensures MatVec(a, x, n) == b
  {
    MatVecAssoc(Lower(f, n), Upper(f, n), x, n);
    PermutedMatVec(a, x, idx, n, n);
    PermutedInjective(MatVec(a, x, n), b, idx, n);
  }

  /** A factored matrix sends only zero to zero. */
  lemma FactoredInjective(f: Mat, idx: seq<int>, a: Mat, x: Vec, n: nat)
    requires Factored(f, idx, a, n) && IsVec(x, n) && MatVec(a, x, n) == Zeros(n)
    ensures x == Zeros(n)
  {
    PermutedMatVec(a, x, idx, n, n);
    PermutedZeros(idx, n, n);
    MatVecAssoc(Lower(f, n), Upper(f, n), x, n);
    var y := MatVec(Upper(f, n), x, n);
    LowerInjective(f, y, n, n);
    assert y == Zeros(n);
    UpperInjective(f, x, n, 0);
  }

  // --------------------------------------------------------- a zero pivot

  /** Back-substitution from a zero pivot j builds a vector that U sends to zero in rows t..n. */
  lemma {:induction false} NullVectorFrom(f: Mat, n: nat, j: nat, t: nat) returns (x: Vec)
    requires IsMat(f, n) && t <= j < n
    requires PivotsNonzero(f, j) && At(f, j, j) == 0.0
    ensures IsVec(x, n) && x[j] == 1.0
    ensures forall k :: j < k < n ==> x[k] == 0.0
    ensures forall k :: t <= k < n ==> At(f, k, k) * x[k] + Tail(f, k, x, n) == 0.0
    decreases j - t
  {
    hide Tail;
    if t == j {
      x := Unit(n, j);
      forall k | j <= k < n
        ensures At(f, k, k) * x[k] + Tail(f, k, x, n) == 0.0
      {
        TailFrame(f, k, x, Zeros(n), n);
        TailOfZeros(f, k, n);
        assert x[k] == if k == j then 1.0 else 0.0;
      }
    } else {
      var z := NullVectorFrom(f, n, j, t + 1);
      x := z[t := -Tail(f, t, z, n) / At(f, t, t)];
      Cancels(At(f, t, t), Tail(f, t, z, n));
      forall k | t <= k < n
        ensures At(f, k, k) * x[k] + Tail(f, k, x, n) == 0.0
      {
        TailFrame(f, k, x, z, n);
        assert k > t ==> x[k] == z[k];
      }
    }
  }

  lemma Cancels(p: real, s: real)
    requires p != 0.0
    ensures p * (-s / p) + s == 0.0
  {
  }

  lemma TailOfZeros(f: Mat, k: nat, n: nat)
    requires k < n
    ensures Tail(f, k, Zeros(n), n) == 0.0
  {
    SumZero(n, RowTerm(f, k, Zeros(n)));
    SumZero(k + 1, RowTerm(f, k, Zeros(n)));
  }

  /** On vectors that vanish from entry j on, L times U acts like the matrix being factored. */
  lemma PartialMatVec(f: Mat, b: Mat, x: Vec, n: nat, j: nat)
    requires Partial(f, b, n, j) && IsVec(x, n) && j <= n
    requires forall k :: j <= k < n ==> x[k] == 0.0
    ensures MatVec(b, x, n) == MatVec(Mul(Lower(f, n), Upper(f, n), n), x, n)
  {
    var lu := Mul(Lower(f, n), Upper(f, n), n);
    var lhs, rhs := MatVec(b, x, n), MatVec(lu, x, n);
    forall i | 0 <= i < n
      ensures lhs[i] == rhs[i]
    {
      forall c | 0 <= c < n
        ensures RowTerm(b, i, x)(c) == RowTerm(lu, i, x)(c)
      {
        PartialEntry(f, b, n, j, i, c);
      }
      SumEq(n, RowTerm(b, i, x), RowTerm(lu, i, x));
    }
  }

  lemma PartialEntry(f: Mat, b: Mat, n: nat, j: nat, i: nat, c: nat)
    requires Partial(f, b, n, j) && i < n && c < n
    ensures c < j ==> At(Mul(Lower(f, n), Upper(f, n), n), i, c) == At(b, i, c)
  {
    FactIsProduct(f, n, i, c);
    if c < j {
      assert Fact(f, i, c) == At(b, i, c);
    }
  }

  lemma PartialIsMat(f: Mat, b: Mat, n: nat, j: nat)
    requires Partial(f, b, n, j)
    ensures IsMat(f, n) && IsMat(b, n)
  {
  }

  /** Columns up to a zero pivot depend on each other, so the matrix was singular. */
  lemma {:induction false} ZeroPivotSingular(f: Mat, a: Mat, idx: seq<int>, n: nat, j: nat)
    requires IsMat(a, n) && j < n && ValidSwaps(idx, j + 1, n)
    requires Partial(f, Permuted(a, idx, j + 1), n, j + 1)
    requires PivotsNonzero(f, j) && At(f, j, j) == 0.0
    ensures !Invertible(a, n)
  {
    hide Tail, Sum, MatVec, Mul, Partial, Upper, Lower, Invertible, Permuted;
    var b := Permuted(a, idx, j + 1);
    PartialIsMat(f, b, n, j + 1);
    var x := NullVectorFrom(f, n, j, 0);
    assert MatVec(Upper(f, n), x, n) == Zeros(n) by {
      forall i | 0 <= i < n
        ensures MatVec(Upper(f, n), x, n)[i] == 0.0
      {
        UpperRow(f, x, n, i);
      }
    }
    MatVecAssoc(Lower(f, n), Upper(f, n), x, n);
    MatVecZeros(Lower(f, n), n);
    PartialMatVec(f, b, x, n, j + 1);
    PermutedMatVec(a, x, idx, j + 1, n);
    PermutedZeros(idx, j + 1, n);
    PermutedInjective(MatVec(a, x, n), Zeros(n), idx, j + 1);
    NullVectorSingular(a, x, n);
  }
}
