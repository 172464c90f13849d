/** Substitution through a packed LU factorisation, and the inverse of a matrix. */
module LuSolve {
  import opened Matrices
  import opened LuTheory
  import opened LuSubstitution
  import opened LuDecomposition

  // -------------------------------------------------------------- lubksub

  /** sum minus the products of row i with x from index ii on; the entries before ii are zero. */
  method SubtractSolved(lu: array2<real>, b: array<real>, i: nat, ii: nat, start: real) returns (sum: real)
    requires lu.Length0 == lu.Length1 == b.Length && ii <= i < b.Length
    requires forall k :: 0 <= k < ii ==> b[k] == 0.0
    ensures sum == start - Sum(i, RowTerm(Rows(lu), i, b[..]))
  {
    SumZero(ii, RowTerm(Rows(lu), i, b[..]));
    sum := start;
    for j := ii to i
      invariant sum == start - Sum(j, RowTerm(Rows(lu), i, b[..]))
    {
      assert RowTerm(Rows(lu), i, b[..])(j) == lu[i, j] * b[j];
      sum := sum - lu[i, j] * b[j];
    }
  }

  method SubtractTail(lu: array2<real>, b: array<real>, i: nat) returns (sum: real)
    requires lu.Length0 == lu.Length1 == b.Length && i < b.Length
    ensures sum == b[i] - Tail(Rows(lu), i, b[..], b.Length)
  {
    sum := b[i];
    for j := i + 1 to b.Length
      invariant sum == b[i] - (Sum(j, RowTerm(Rows(lu), i, b[..])) - Sum(i + 1, RowTerm(Rows(lu), i, b[..])))
    {
      sum := sum - lu[i, j] * b[j];
    }
  }

  /** Fetches the exchanged entry of row i and subtracts what is solved. */
  method FetchAndReduce(lu: array2<real>, order: nat, b: array<real>, i: nat, iptr: nat, ii: int) returns (ii': int)
    requires lu.Length0 == lu.Length1 == order == b.Length
    requires i <= iptr < order && -1 <= ii < i
    requires forall k :: 0 <= k < (if ii == -1 then i else ii) ==> b[k] == 0.0
    modifies b
    ensures b[..] == Swapped(old(b[..]), i, iptr)[i := old(b[iptr]) - Sum(i, RowTerm(Rows(lu), i, old(b[..])))]
    ensures -1 <= ii' <= i
    ensures forall k :: 0 <= k < (if ii' == -1 then i + 1 else ii') ==> b[k] == 0.0
  {
    ghost var f, x := Rows(lu), b[..];
    var sum := b[iptr];
    b[iptr] := b[i];
    RowSumFrame(f, i, x, b[..]);
    ii' := ii;
    if ii != -1 {
      sum := SubtractSolved(lu, b, i, ii, sum);
    } else {
      SumZero(i, RowTerm(f, i, x));
      if sum != 0.0 {
        ii' := i;
      }
    }
    b[i] := sum;
  }

  /** One row of the forward pass. */
  method ForwardRow(lu: array2<real>, order: nat, b: array<real>, i: nat, iptr: nat, ii: int, ghost w: Vec)
    returns (ii': int)
    requires lu.Length0 == lu.Length1 == order == b.Length
    requires i <= iptr < order && -1 <= ii < i
    requires forall k :: 0 <= k < (if ii == -1 then i else ii) ==> b[k] == 0.0
    requires Forward(Rows(lu), b[..], w, order, i)
    modifies b
    ensures Forward(Rows(lu), b[..], Swapped(w, i, iptr), order, i + 1)
    ensures -1 <= ii' <= i
    ensures forall k :: 0 <= k < (if ii' == -1 then i + 1 else ii') ==> b[k] == 0.0
  {
    hide Sum, RowTerm;
    ForwardStep(Rows(lu), b[..], w, order, i, iptr);
    ii' := FetchAndReduce(lu, order, b, i, iptr, ii);
  }

  /** Forward substitution, undoing the row exchanges on the way and skipping leading zeros. */
  method ForwardSubstitute(lu: array2<real>, indexx: array<int>, order: nat, b: array<real>)
    requires lu.Length0 == lu.Length1 == order == indexx.Length == b.Length
    requires ValidSwaps(indexx[..], order, order)
    modifies b
    ensures Forward(Rows(lu), b[..], Permuted(old(b[..]), indexx[..], order), order, order)
  {
    hide Sum, RowTerm;
    var ii := -1;
    ghost var w := b[..];
    for i := 0 to order
      invariant w == Permuted(old(b[..]), indexx[..], i)
      invariant Forward(Rows(lu), b[..], w, order, i)
      invariant -1 <= ii < i
      invariant forall k :: 0 <= k < (if ii == -1 then i else ii) ==> b[k] == 0.0
    {
      ii := ForwardRow(lu, order, b, i, indexx[i], ii, w);
      w := Swapped(w, i, indexx[i]);
    }
  }

  method BackSubstitute(lu: array2<real>, order: nat, b: array<real>)
    requires lu.Length0 == lu.Length1 == order == b.Length && order > 0
    requires PivotsNonzero(Rows(lu), order)
    modifies b
    ensures Backward(Rows(lu), b[..], old(b[..]), order, -1)
  {
    hide Sum, Tail, RowTerm, Solved;
    ghost var f, y := Rows(lu), b[..];
    assert forall k :: 0 <= k < order ==> lu[k, k] == At(f, k, k);
    BackwardStep(f, y, y, order, order - 1);
    TailLast(f, y, order);
    SolvedIs(f, y, order - 1, order, b[order - 1], lu[order - 1, order - 1]);
    b[order - 1] := b[order - 1] / lu[order - 1, order - 1];
    assert b[..] == y[order - 1 := Solved(f, y, order - 1, order)];
    var i := order - 2;
    while i >= 0
      invariant Backward(f, b[..], y, order, i)
    {
      ghost var x := b[..];
      var sum := SubtractTail(lu, b, i);
      BackwardStep(f, x, y, order, i);
      SolvedIs(f, x, i, order, sum, lu[i, i]);
      b[i] := sum / lu[i, i];
      assert b[..] == x[i := Solved(f, x, i, order)];
      i := i - 1;
    }
  }

  /** Replaces b by the solution x of a x = b, for every matrix a that lu and indexx factor. */
  method LuBackSubstitute(lu: array2<real>, indexx: array<int>, order: nat, b: array<real>)
    requires lu.Length0 == lu.Length1 == order == indexx.Length == b.Length && order > 0
    requires ValidSwaps(indexx[..], order, order) && PivotsNonzero(Rows(lu), order)
    modifies b
    ensures forall a: Mat :: Factored(Rows(lu), indexx[..], a, order) ==> MatVec(a, b[..], order) == old(b[..])
  {
    ghost var f := Rows(lu);
    ForwardSubstitute(lu, indexx, order, b);
    ghost var y := b[..];
    ForwardDone(f, y, Permuted(old(b[..]), indexx[..], order), order);
    BackSubstitute(lu, order, b);
    BackwardDone(f, b[..], y, order);
    forall a: Mat | Factored(f, indexx[..], a, order)
      ensures MatVec(a, b[..], order) == old(b[..])
    {
      SolveOriginal(f, indexx[..], a, b[..], y, old(b[..]), order);
    }
  }

  // ----------------------------------------------------------- matinverse

  method CopyMatrix(mat: array2<real>, lu: array2<real>, indexx: array<int>)
    requires lu.Length0 == lu.Length1 == mat.Length0 == mat.Length1 == indexx.Length && lu != mat
    modifies lu, indexx
    ensures Rows(lu) == Rows(mat)
  {
    for i := 0 to lu.Length0
      invariant forall r, c :: 0 <= r < i && 0 <= c < lu.Length0 ==> lu[r, c] == mat[r, c]
    {
      indexx[i] := i;
      for j := 0 to lu.Length0
        invariant forall r, c :: 0 <= r < i && 0 <= c < lu.Length0 ==> lu[r, c] == mat[r, c]
        invariant forall c :: 0 <= c < j ==> lu[i, c] == mat[i, c]
      {
        lu[i, j] := mat[i, j];
      }
    }
    RowsAre(lu, Rows(mat));
  }

  /** Solves for the j-th unit vector and stores the solution as column j of the result. */
  method InverseColumn(lu: array2<real>, indexx: array<int>, order: nat, j: nat, matinv: array2<real>, ghost a: Mat)
    requires lu.Length0 == lu.Length1 == order == indexx.Length && j < order
    requires matinv.Length0 == matinv.Length1 == order && matinv != lu
    requires Factored(Rows(lu), indexx[..], a, order)
    modifies matinv
    ensures MatVec(a, Column(Rows(matinv), order, j), order) == Unit(order, j)
    ensures forall i, c :: 0 <= i < order && 0 <= c < order && c != j ==> matinv[i, c] == old(matinv[i, c])
  {
    hide Sum, MatVec, RowTerm, Mul;
    var b := new real[order];
    for i := 0 to order
      modifies b
      invariant forall k :: 0 <= k < i ==> b[k] == if k == j then 1.0 else 0.0
    {
      b[i] := if i == j then 1.0 else 0.0;
    }
    assert b[..] == Unit(order, j);
    LuBackSubstitute(lu, indexx, order, b);
    ghost var x := b[..];
    assert Factored(Rows(lu), indexx[..], a, order);
    assert MatVec(a, x, order) == Unit(order, j);
    for i := 0 to order
      modifies matinv
      invariant forall k :: 0 <= k < i ==> matinv[k, j] == b[k]
      invariant forall r, c :: 0 <= r < order && 0 <= c < order && c != j ==> matinv[r, c] == old(matinv[r, c])
    {
      matinv[i, j] := b[i];
    }
    assert Column(Rows(matinv), order, j) == x;
  }

  /** Solves for every unit vector; the columns of the result are the solutions. */
  method InverseColumns(lu: array2<real>, indexx: array<int>, order: nat, matinv: array2<real>, ghost a: Mat)
    requires lu.Length0 == lu.Length1 == order == indexx.Length
    requires matinv.Length0 == matinv.Length1 == order && matinv != lu
    requires Factored(Rows(lu), indexx[..], a, order)
    modifies matinv
    ensures forall c :: 0 <= c < order ==> MatVec(a, Column(Rows(matinv), order, c), order) == Unit(order, c)
  {
    hide Sum, Factored, MatVec, RowTerm;
    for j := 0 to order
      invariant forall c :: 0 <= c < j ==> MatVec(a, Column(Rows(matinv), order, c), order) == Unit(order, c)
    {
      ghost var before := Rows(matinv);
      InverseColumn(lu, indexx, order, j, matinv, a);
      forall c | 0 <= c < j
        ensures Column(Rows(matinv), order, c) == Column(before, order, c)
      {
      }
    }
  }

  /** Succeeds on exactly the invertible matrices, and then returns the two-sided inverse. */
  method MatInverse(mat: array2<real>, order: nat) returns (ok: bool, matinv: array2<real>)
    requires mat.Length0 == mat.Length1 == order
    ensures fresh(matinv) && matinv.Length0 == matinv.Length1 == order
    ensures ok <==> Invertible(Rows(mat), order)
    ensures ok ==> Mul(Rows(mat), Rows(matinv), order) == Identity(order)
    ensures ok ==> Mul(Rows(matinv), Rows(mat), order) == Identity(order)
  {
    hide Sum, Factored, MatVec, RowTerm, Mul, Invertible;
    var lu := new real[order, order];
    var indexx := new int[order];
    matinv := new real[order, order];
    CopyMatrix(mat, lu, indexx);
    ok := LuDecompose(lu, indexx, order);
    if ok {
      InverseColumns(lu, indexx, order, matinv, Rows(mat));
      FactoredInverse(Rows(lu), indexx[..], Rows(mat), Rows(matinv), order);
    }
  }
}
