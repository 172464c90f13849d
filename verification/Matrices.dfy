/** Finite sums, square matrices and vectors over the exact reals. */
module Matrices {

  type Vec = seq<real>
  type Mat = seq<seq<real>>

  // ---------------------------------------------------------------- sums

  /** f(0) + ... + f(n-1) */
  ghost function Sum(n: nat, f: int -> real): real {
    if n == 0 then 0.0 else Sum(n - 1, f) + f(n - 1)
  }

  lemma SumLast(n: nat, f: int -> real)
    ensures Sum(n + 1, f) == Sum(n, f) + f(n)
  {
  }

  lemma {:induction false} SumEq(n: nat, f: int -> real, g: int -> real)
    requires forall k :: 0 <= k < n ==> f(k) == g(k)
    ensures Sum(n, f) == Sum(n, g)
  {
    if n > 0 {
      SumEq(n - 1, f, g);
    }
  }

  lemma {:induction false} SumZero(n: nat, f: int -> real)
    requires forall k :: 0 <= k < n ==> f(k) == 0.0
    ensures Sum(n, f) == 0.0
  {
    if n > 0 {
      SumZero(n - 1, f);
    }
  }

  /** Terms from m on that vanish do not contribute. */
  lemma {:induction false} SumTruncate(m: nat, n: nat, f: int -> real)
    requires m <= n
    requires forall k :: m <= k < n ==> f(k) == 0.0
    ensures Sum(n, f) == Sum(m, f)
  {
    if m < n {
      SumTruncate(m, n - 1, f);
    }
  }

  /** A sum with a single nonzero term is that term. */
  lemma {:induction false} SumSingle(n: nat, c: nat, f: int -> real)
    requires c < n
    requires forall k :: 0 <= k < n && k != c ==> f(k) == 0.0
    ensures Sum(n, f) == f(c)
  {
    if c == n - 1 {
      SumZero(n - 1, f);
    } else {
      SumSingle(n - 1, c, f);
    }
  }

  lemma {:induction false} SumAdd(n: nat, f: int -> real, g: int -> real, h: int -> real)
    requires forall k :: 0 <= k < n ==> h(k) == f(k) + g(k)
    ensures Sum(n, h) == Sum(n, f) + Sum(n, g)
  {
    if n > 0 {
      SumAdd(n - 1, f, g, h);
    }
  }

  lemma {:induction false} SumScale(n: nat, a: real, f: int -> real, h: int -> real)
    requires forall k :: 0 <= k < n ==> h(k) == a * f(k)
    ensures Sum(n, h) == a * Sum(n, f)
  {
    if n > 0 {
      SumScale(n - 1, a, f, h);
    }
  }

  /** f with its first argument fixed. */
  ghost function Row(f: (int, int) -> real, i: int): int -> real {
    j => f(i, j)
  }

  /** f with its second argument fixed. */
  ghost function Col(f: (int, int) -> real, j: int): int -> real {
    i => f(i, j)
  }

  /** The order of a double sum over a rectangle does not matter. */
  lemma {:induction false} SumSwap(m: nat, n: nat, f: (int, int) -> real, r: int -> real, c: int -> real)
    requires forall i :: 0 <= i < m ==> r(i) == Sum(n, Row(f, i))
    requires forall j :: 0 <= j < n ==> c(j) == Sum(m, Col(f, j))
    ensures Sum(m, r) == Sum(n, c)
  {
    if m == 0 {
      SumZero(n, c);
    } else {
      var c' := (j: int) => Sum(m - 1, Col(f, j));
      SumSwap(m - 1, n, f, r, c');
      SumAdd(n, c', Row(f, m - 1), c);
    }
  }

  // ------------------------------------------------- matrices and vectors

  ghost predicate IsVec(x: Vec, n: nat) {
    |x| == n
  }

  ghost predicate IsMat(a: Mat, n: nat) {
    |a| == n && forall i :: 0 <= i < n ==> |a[i]| == n
  }

  /** Entry (i,j), zero outside the matrix, so that it can be used under a lambda. */
  ghost function At(a: Mat, i: int, j: int): real {
    if 0 <= i < |a| && 0 <= j < |a[i]| then a[i][j] else 0.0
  }

  ghost function Val(x: Vec, i: int): real {
    if 0 <= i < |x| then x[i] else 0.0
  }

  /** The summands of entry (i,j) of the product of a and b. */
  ghost function ProductTerm(a: Mat, b: Mat, i: int, j: int): int -> real {
    k => At(a, i, k) * At(b, k, j)
  }

  /** The summands of entry i of a applied to x. */
  ghost function RowTerm(a: Mat, i: int, x: Vec): int -> real {
    k => At(a, i, k) * Val(x, k)
  }

  ghost function Mul(a: Mat, b: Mat, n: nat): (c: Mat)
    ensures IsMat(c, n)
    ensures forall i, j :: 0 <= i < n && 0 <= j < n ==> c[i][j] == Sum(n, ProductTerm(a, b, i, j))
  {
    seq(n, i => seq(n, j => Sum(n, ProductTerm(a, b, i, j))))
  }

  ghost function MatVec(a: Mat, x: Vec, n: nat): (y: Vec)
    ensures IsVec(y, n)
    ensures forall i :: 0 <= i < n ==> y[i] == Sum(n, RowTerm(a, i, x))
  {
    seq(n, i => Sum(n, RowTerm(a, i, x)))
  }

  ghost function Identity(n: nat): (c: Mat)
    ensures IsMat(c, n)
    ensures forall i, j :: 0 <= i < n && 0 <= j < n ==> c[i][j] == if i == j then 1.0 else 0.0
  {
    seq(n, i => seq(n, j => if i == j then 1.0 else 0.0))
  }

  /** The c-th unit vector. */
  ghost function Unit(n: nat, c: nat): (x: Vec)
    ensures IsVec(x, n)
    ensures forall i :: 0 <= i < n ==> x[i] == if i == c then 1.0 else 0.0
  {
    seq(n, i => if i == c then 1.0 else 0.0)
  }

  ghost function Column(a: Mat, n: nat, c: nat): (x: Vec)
    ensures IsVec(x, n)
    ensures forall i :: 0 <= i < n ==> x[i] == At(a, i, c)
  {
    seq(n, i => At(a, i, c))
  }

  ghost function Zeros(n: nat): (x: Vec)
    ensures IsVec(x, n)
    ensures forall i :: 0 <= i < n ==> x[i] == 0.0
  {
    seq(n, _ => 0.0)
  }

  ghost function Minus(x: Vec, y: Vec, n: nat): (z: Vec)
    ensures IsVec(z, n)
    ensures forall i :: 0 <= i < n ==> z[i] == Val(x, i) - Val(y, i)
  {
    seq(n, i => Val(x, i) - Val(y, i))
  }

  /** The textbook notion: some matrix undoes a from both sides. */
  ghost predicate Invertible(a: Mat, n: nat) {
    exists b: Mat :: IsMat(b, n) && Mul(a, b, n) == Identity(n) && Mul(b, a, n) == Identity(n)
  }

  // ---------------------------------------------------------- linear laws

  /** The summands of the triple product, row i. */
  ghost function Triple(a: Mat, b: Mat, x: Vec, i: int): (int, int) -> real {
    (k, c) => At(a, i, k) * At(b, k, c) * Val(x, c)
  }

  /** Applying a product is applying one factor after the other. */
  lemma MatVecAssoc(a: Mat, b: Mat, x: Vec, n: nat)
    ensures MatVec(Mul(a, b, n), x, n) == MatVec(a, MatVec(b, x, n), n)
  {
    forall i | 0 <= i < n
      ensures MatVec(Mul(a, b, n), x, n)[i] == MatVec(a, MatVec(b, x, n), n)[i]
    {
      MatVecAssocAt(a, b, x, n, i);
    }
  }

  lemma MatVecAssocAt(a: Mat, b: Mat, x: Vec, n: nat, i: nat)
    requires i < n
    ensures MatVec(Mul(a, b, n), x, n)[i] == MatVec(a, MatVec(b, x, n), n)[i]
  {
    var f := Triple(a, b, x, i);
    var r := (k: int) => At(a, i, k) * Val(MatVec(b, x, n), k);
    var c := (c: int) => At(Mul(a, b, n), i, c) * Val(x, c);
    forall k | 0 <= k < n
      ensures r(k) == Sum(n, Row(f, k))
    {
      SumScale(n, At(a, i, k), RowTerm(b, k, x), Row(f, k));
    }
    forall j | 0 <= j < n
      ensures c(j) == Sum(n, Col(f, j))
    {
      SumScale(n, Val(x, j), ProductTerm(a, b, i, j), Col(f, j));
    }
    SumSwap(n, n, f, r, c);
  }

  /** Column c of a product is the first factor applied to column c of the second. */
  lemma MulColumn(a: Mat, b: Mat, n: nat, c: nat)
    requires c < n
    ensures Column(Mul(a, b, n), n, c) == MatVec(a, Column(b, n, c), n)
  {
    forall i | 0 <= i < n
      ensures Column(Mul(a, b, n), n, c)[i] == MatVec(a, Column(b, n, c), n)[i]
    {
      SumEq(n, ProductTerm(a, b, i, c), RowTerm(a, i, Column(b, n, c)));
    }
  }

  lemma MatVecUnit(a: Mat, n: nat, c: nat)
    requires c < n
    ensures MatVec(a, Unit(n, c), n) == Column(a, n, c)
  {
    forall i | 0 <= i < n
      ensures MatVec(a, Unit(n, c), n)[i] == At(a, i, c)
    {
      SumSingle(n, c, RowTerm(a, i, Unit(n, c)));
    }
  }

  lemma MatVecMinus(a: Mat, x: Vec, y: Vec, n: nat)
    ensures MatVec(a, Minus(x, y, n), n) == Minus(MatVec(a, x, n), MatVec(a, y, n), n)
  {
    forall i | 0 <= i < n
      ensures MatVec(a, Minus(x, y, n), n)[i] == MatVec(a, x, n)[i] - MatVec(a, y, n)[i]
    {
      SumAdd(n, RowTerm(a, i, Minus(x, y, n)), RowTerm(a, i, y), RowTerm(a, i, x));
    }
  }

  lemma IdentityMatVec(x: Vec, n: nat)
    requires IsVec(x, n)
    ensures MatVec(Identity(n), x, n) == x
  {
    forall i | 0 <= i < n
      ensures MatVec(Identity(n), x, n)[i] == x[i]
    {
      SumSingle(n, i, RowTerm(Identity(n), i, x));
    }
  }

  lemma MatVecZeros(a: Mat, n: nat)
    ensures MatVec(a, Zeros(n), n) == Zeros(n)
  {
    forall i | 0 <= i < n
      ensures MatVec(a, Zeros(n), n)[i] == 0.0
    {
      SumZero(n, RowTerm(a, i, Zeros(n)));
    }
  }

  /** A matrix that sends a nonzero vector to zero has no inverse. */
  lemma NullVectorSingular(a: Mat, x: Vec, n: nat)
    requires IsVec(x, n) && x != Zeros(n) && MatVec(a, x, n) == Zeros(n)
    ensures !Invertible(a, n)
  {
    forall b: Mat | IsMat(b, n)
      ensures Mul(b, a, n) != Identity(n)
    {
      MatVecAssoc(b, a, x, n);
      MatVecZeros(b, n);
      IdentityMatVec(x, n);
    }
  }

  /** A matrix with a zero row has no inverse. */
  lemma ZeroRowSingular(a: Mat, n: nat, r: nat)
    requires IsMat(a, n) && r < n
    requires forall j :: 0 <= j < n ==> a[r][j] == 0.0
    ensures !Invertible(a, n)
  {
    forall b: Mat | IsMat(b, n)
      ensures Mul(a, b, n) != Identity(n)
    {
      SumZero(n, ProductTerm(a, b, r, r));
      assert Mul(a, b, n)[r][r] == 0.0;
    }
  }

  /** a sends column c of b times a where it sends the unit vector. */
  lemma SameImage(a: Mat, b: Mat, n: nat, c: nat)
    requires IsMat(a, n) && IsMat(b, n) && Mul(a, b, n) == Identity(n) && c < n
    ensures MatVec(a, Column(Mul(b, a, n), n, c), n) == MatVec(a, Unit(n, c), n)
  {
    hide Mul, MatVec;
    MulColumn(b, a, n, c);
    MatVecAssoc(a, b, Column(a, n, c), n);
    IdentityMatVec(Column(a, n, c), n);
    MatVecUnit(a, n, c);
  }

  lemma DifferenceZero(x: Vec, y: Vec, n: nat)
    requires IsVec(x, n) && IsVec(y, n) && Minus(x, y, n) == Zeros(n)
    ensures x == y
  {
    forall i | 0 <= i < n
      ensures x[i] == y[i]
    {
      assert Minus(x, y, n)[i] == 0.0;
    }
  }

  /** If only zero is sent to zero, a right inverse is also a left inverse. */
  lemma RightInverseIsLeft(a: Mat, b: Mat, n: nat)
    requires IsMat(a, n) && IsMat(b, n) && Mul(a, b, n) == Identity(n)
    requires forall y: Vec :: IsVec(y, n) && MatVec(a, y, n) == Zeros(n) ==> y == Zeros(n)
    ensures Mul(b, a, n) == Identity(n)
  {
    hide Mul, MatVec;
    var ba := Mul(b, a, n);
    forall c: nat | c < n
      ensures Column(ba, n, c) == Unit(n, c)
    {
      SameImage(a, b, n, c);
      var w := Column(ba, n, c);
      MatVecMinus(a, w, Unit(n, c), n);
      var y := Minus(w, Unit(n, c), n);
      assert MatVec(a, y, n) == Zeros(n) by {
        forall i | 0 <= i < n
          ensures MatVec(a, y, n)[i] == Zeros(n)[i]
        {
        }
      }
      DifferenceZero(w, Unit(n, c), n);
    }
    forall i, c | 0 <= i < n && 0 <= c < n
      ensures ba[i][c] == Identity(n)[i][c]
    {
      assert Column(ba, n, c)[i] == Unit(n, c)[i];
    }
    assert forall i :: 0 <= i < n ==> ba[i] == Identity(n)[i];
  }
}
