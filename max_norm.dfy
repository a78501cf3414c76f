/**
 * MaxNorm, HermitianMaxNorm and SymmetricMaxNorm: the largest absolute
 * value over all entries, or over one triangle, starting from 0.  The
 * distributed forms scan each local matrix and combine the local maxima
 * with an AllReduce(MAX), modelled as the maximum of the per-process values.
 */
module MaxNorms {
  import opened Indexing
  import opened Locals
  import opened DistEntries
  import opened Errors
  import opened Triangular

  function Abs(x: int): (r: nat)
    ensures r == x || r == -x
  {
    if x < 0 then -x else x
  }

  /** Which entries a norm scans. */
  function AllEntries(): (int, int) -> bool
  {
    (i, j) => true
  }

  /** The triangle HermitianMaxNorm(uplo) scans: i <= j for UPPER, i >= j for LOWER. */
  function InTriangle(uplo: UpperOrLower): (int, int) -> bool
  {
    (i, j) => if uplo == UPPER then i <= j else i >= j
  }

  /**
   * v is the max norm of the scanned entries of A: it is non-negative, at
   * least every scanned |A(i, j)|, and either 0 or one of them.
   */
  predicate IsMaxAbs(v: int, A: seq<seq<int>>, m: nat, n: nat, P: (int, int) -> bool)
    requires IsMatrix(A, m, n)
  {
    && v >= 0
    && (forall i, j :: 0 <= i < m && 0 <= j < n && P(i, j) ==> Abs(A[i][j]) <= v)
    && (v == 0 || exists i, j :: 0 <= i < m && 0 <= j < n && P(i, j) && Abs(A[i][j]) == v)
  }

  /** The max norm is determined by the matrix and the scanned entries. */
  lemma IsMaxAbsUnique(v: int, w: int, A: seq<seq<int>>, m: nat, n: nat, P: (int, int) -> bool)
    requires IsMatrix(A, m, n) && IsMaxAbs(v, A, m, n, P) && IsMaxAbs(w, A, m, n, P)
    ensures v == w
  {
    if v != 0 {
      var i, j :| 0 <= i < m && 0 <= j < n && P(i, j) && Abs(A[i][j]) == v;
      assert v <= w;
    }
    if w != 0 {
      var i, j :| 0 <= i < m && 0 <= j < n && P(i, j) && Abs(A[i][j]) == w;
      assert w <= v;
    }
  }

  /** The norm of an empty matrix is 0; the norm of a non-empty one is the absolute value of one of its entries. */
  lemma MaxNormAttained(v: int, A: seq<seq<int>>, m: nat, n: nat)
    requires IsMatrix(A, m, n) && IsMaxAbs(v, A, m, n, AllEntries())
    ensures m == 0 || n == 0 ==> v == 0
    ensures m > 0 && n > 0 ==> exists i, j :: 0 <= i < m && 0 <= j < n && Abs(A[i][j]) == v
  {
    if m > 0 && n > 0 && v == 0 {
      assert Abs(A[0][0]) == 0;
    }
  }

  /** MaxNorm(A): the running maximum of |A(i, j)| over every column j and row i, starting from 0. */
  method MaxNorm(A: array2<int>) returns (maxAbs: int)
    ensures IsMaxAbs(maxAbs, Contents(A), A.Length0, A.Length1, AllEntries())
  {
    var height, width := A.Length0, A.Length1;
    maxAbs := 0;
    ghost var wi, wj := 0, 0;
    var j := 0;
    while j < width
      invariant 0 <= j <= width && maxAbs >= 0
      invariant forall ii, jj :: 0 <= ii < height && 0 <= jj < j ==> Abs(A[ii, jj]) <= maxAbs
      invariant maxAbs == 0 || (0 <= wi < height && 0 <= wj < width && Abs(A[wi, wj]) == maxAbs)
    {
      var i := 0;
      while i < height
        invariant 0 <= i <= height && maxAbs >= 0
        invariant forall ii, jj :: 0 <= ii < height && 0 <= jj < width && (jj < j || (jj == j && ii < i)) ==> Abs(A[ii, jj]) <= maxAbs
        invariant maxAbs == 0 || (0 <= wi < height && 0 <= wj < width && Abs(A[wi, wj]) == maxAbs)
      {
        var thisAbs := Abs(A[i, j]);
        if maxAbs < thisAbs {
          maxAbs, wi, wj := thisAbs, i, j;
        }
        i := i + 1;
      }
      j := j + 1;
    }
    assert maxAbs == 0 || Abs(Contents(A)[wi][wj]) == maxAbs;
  }

  /**
   * HermitianMaxNorm(uplo, A): a non-square A is an error; otherwise the
   * running maximum over rows i <= j of each column j (UPPER) or rows i >= j
   * (LOWER).
   */
  method HermitianMaxNorm(uplo: UpperOrLower, A: array2<int>) returns (r: Result<int>)
    ensures r.Failure? <==> A.Length0 != A.Length1
    ensures r.Failure? ==> r.msg == "Hermitian matrices must be square."
    ensures r.Success? ==> IsMaxAbs(r.value, Contents(A), A.Length0, A.Length1, InTriangle(uplo))
  {
    if A.Length0 != A.Length1 {
      return Failure("Hermitian matrices must be square.");
    }
    var height, width := A.Length0, A.Length1;
    var maxAbs := 0;
    ghost var wi, wj := 0, 0;
    var j := 0;
    while j < width
      invariant 0 <= j <= width && maxAbs >= 0
      invariant forall ii, jj :: 0 <= ii < height && 0 <= jj < j && InTriangle(uplo)(ii, jj) ==> Abs(A[ii, jj]) <= maxAbs
      invariant maxAbs == 0 || (0 <= wi < height && 0 <= wj < width && InTriangle(uplo)(wi, wj) && Abs(A[wi, wj]) == maxAbs)
    {
      var i, end := if uplo == UPPER then 0 else j, if uplo == UPPER then j + 1 else height;
      while i < end
        invariant (if uplo == UPPER then 0 else j) <= i <= end && maxAbs >= 0
        invariant forall ii, jj ::
          0 <= ii < height && 0 <= jj < width && InTriangle(uplo)(ii, jj) && (jj < j || (jj == j && ii < i)) ==> Abs(A[ii, jj]) <= maxAbs
        invariant maxAbs == 0 || (0 <= wi < height && 0 <= wj < width && InTriangle(uplo)(wi, wj) && Abs(A[wi, wj]) == maxAbs)
      {
        var thisAbs := Abs(A[i, j]);
        if maxAbs < thisAbs {
          maxAbs, wi, wj := thisAbs, i, j;
        }
        i := i + 1;
      }
      j := j + 1;
    }
    assert maxAbs == 0 || Abs(Contents(A)[wi][wj]) == maxAbs;
    return Success(maxAbs);
  }

  /** SymmetricMaxNorm(uplo, A) is HermitianMaxNorm(uplo, A). */
  method SymmetricMaxNorm(uplo: UpperOrLower, A: array2<int>) returns (r: Result<int>)
    ensures r.Failure? <==> A.Length0 != A.Length1
    ensures r.Failure? ==> r.msg == "Hermitian matrices must be square."
    ensures r.Success? ==> IsMaxAbs(r.value, Contents(A), A.Length0, A.Length1, InTriangle(uplo))
  {
    r := HermitianMaxNorm(uplo, A);
  }

  // ---------------------------------------------------------------------
  // Distributed forms
  // ---------------------------------------------------------------------

  /** The entries of process q's local matrix whose global indices are scanned. */
  function LocalPred(L: Layout, q: int, P: (int, int) -> bool): (int, int) -> bool
    requires L.Valid()
  {
    (iLoc, jLoc) => P(L.GlobalRow(q, iLoc), L.GlobalCol(q, jLoc))
  }

  /** The maximum of the per-process values, each non-negative: what AllReduce(MAX) leaves on every process. */
  function AllReduceMax(vals: seq<int>): (r: int)
    ensures r >= 0
    ensures forall k :: 0 <= k < |vals| ==> vals[k] <= r
  {
    if |vals| == 0 then 0
    else
      var rest := AllReduceMax(vals[..|vals| - 1]);
      if rest < vals[|vals| - 1] then vals[|vals| - 1] else rest
  }

  lemma {:induction false} AllReduceMaxBounds(vals: seq<int>)
    ensures AllReduceMax(vals) >= 0
    ensures forall k :: 0 <= k < |vals| ==> vals[k] <= AllReduceMax(vals)
    ensures AllReduceMax(vals) == 0 || exists k :: 0 <= k < |vals| && vals[k] == AllReduceMax(vals)
  {
    if |vals| > 0 {
      var init := vals[..|vals| - 1];
      AllReduceMaxBounds(init);
      assert forall k :: 0 <= k < |init| ==> init[k] == vals[k];
      if AllReduceMax(init) != 0 && AllReduceMax(vals) == AllReduceMax(init) {
        var k :| 0 <= k < |init| && init[k] == AllReduceMax(init);
        assert vals[k] == AllReduceMax(vals);
      }
    }
  }

  /**
   * The distributed norm: if every process's value is the max norm of the
   * scanned entries of its local matrix, the maximum of those values is the
   * max norm of the scanned entries of the global matrix, because every
   * global entry lives on exactly one process.
   */
  lemma MaxNormDistributed(L: Layout, A: seq<seq<int>>, P: (int, int) -> bool, vals: seq<int>)
    requires L.Valid() && IsMatrix(A, L.height, L.width) && |vals| == L.Procs()
    requires forall q :: 0 <= q < L.Procs() ==>
      IsMaxAbs(vals[q], Distribute(L, A)[q], L.LocalHeight(q), L.LocalWidth(q), LocalPred(L, q, P))
    ensures IsMaxAbs(AllReduceMax(vals), A, L.height, L.width, P)
  {
    var v := AllReduceMax(vals);
    AllReduceMaxBounds(vals);
    forall i, j | 0 <= i < L.height && 0 <= j < L.width && P(i, j)
      ensures Abs(A[i][j]) <= v
    {
      OwnerIsProcess(L, i, j);
      LocalMaxBounds(L, A, P, vals[L.Owner(i, j)], i, j);
    }
    if v != 0 {
      var q :| 0 <= q < |vals| && vals[q] == v;
      LocalMaxAttained(L, A, P, vals[q], q);
    }
  }

  /** A scanned global entry is bounded by its owner's value. */
  lemma LocalMaxBounds(L: Layout, A: seq<seq<int>>, P: (int, int) -> bool, v: int, i: int, j: int)
    requires L.Valid() && IsMatrix(A, L.height, L.width)
    requires 0 <= i < L.height && 0 <= j < L.width && P(i, j) && 0 <= L.Owner(i, j) < L.Procs()
    requires IsMaxAbs(v, Distribute(L, A)[L.Owner(i, j)], L.LocalHeight(L.Owner(i, j)), L.LocalWidth(L.Owner(i, j)),
                      LocalPred(L, L.Owner(i, j), P))
    ensures Abs(A[i][j]) <= v
  {
    var q := L.Owner(i, j);
    HoldsIffOwner(L, q, i, j);
    LocalRowInRange(L, q, i);
    LocalColInRange(L, q, j);
    var iLoc, jLoc := L.LocalRow(q, i), L.LocalCol(q, j);
    assert LocalPred(L, q, P)(iLoc, jLoc);
    assert Distribute(L, A)[q][iLoc][jLoc] == A[i][j];
  }

  /** A non-zero local value is the absolute value of a scanned global entry. */
  lemma LocalMaxAttained(L: Layout, A: seq<seq<int>>, P: (int, int) -> bool, v: int, q: int)
    requires L.Valid() && IsMatrix(A, L.height, L.width) && 0 <= q < L.Procs() && v != 0
    requires IsMaxAbs(v, Distribute(L, A)[q], L.LocalHeight(q), L.LocalWidth(q), LocalPred(L, q, P))
    ensures exists i, j :: 0 <= i < L.height && 0 <= j < L.width && P(i, j) && Abs(A[i][j]) == v
  {
    var iLoc, jLoc :| 0 <= iLoc < L.LocalHeight(q) && 0 <= jLoc < L.LocalWidth(q)
      && LocalPred(L, q, P)(iLoc, jLoc) && Abs(Distribute(L, A)[q][iLoc][jLoc]) == v;
    GlobalInRange(L, q, iLoc, jLoc);
    var i, j := L.GlobalRow(q, iLoc), L.GlobalCol(q, jLoc);
    assert P(i, j) && Abs(A[i][j]) == v;
  }

  /**
   * The closing broadcast of the distributed MaxNorm: the processes of the
   * root's cross group hold AllReduceMax of the local maxima, every other
   * process still holds its initial norm 0, and after
   * Broadcast(norm, Root(), CrossComm()) every process of the viewing grid
   * returns the global max norm.
   */
  lemma MaxNormEveryProcess(L: Layout, A: seq<seq<int>>, P: (int, int) -> bool, vals: seq<int>, crossSize: nat, root: int)
    requires L.Valid() && IsMatrix(A, L.height, L.width) && |vals| == L.Procs()
    requires forall q :: 0 <= q < L.Procs() ==>
      IsMaxAbs(vals[q], Distribute(L, A)[q], L.LocalHeight(q), L.LocalWidth(q), LocalPred(L, q, P))
    requires 0 <= root < crossSize
    ensures var before := seq(crossSize, x => seq(L.Procs(), d => if x == root then AllReduceMax(vals) else 0));
      forall x, d :: 0 <= x < crossSize && 0 <= d < L.Procs() ==>
        IsMaxAbs(CrossBroadcast(before, root)[x][d], A, L.height, L.width, P)
  {
    MaxNormDistributed(L, A, P, vals);
  }

  /**
   * The per-process part of the distributed MaxNorm: the running maximum over
   * the whole local matrix.  AllReduceMax of these values over the
   * distribution communicator is the norm, which the root then broadcasts.
   */
  method MaxNormLocalPart(L: Layout, q: int, local: array2<int>) returns (localMaxAbs: int)
    requires L.Valid() && local.Length0 == L.LocalHeight(q) && local.Length1 == L.LocalWidth(q)
    ensures IsMaxAbs(localMaxAbs, Contents(local), L.LocalHeight(q), L.LocalWidth(q), LocalPred(L, q, AllEntries()))
  {
    localMaxAbs := MaxNorm(local);
  }

  /**
   * The per-process part of the distributed HermitianMaxNorm (the default
   * [MC,MR] layout): a non-square A is an error; otherwise for local column
   * jLoc with global index j, UPPER scans the local rows below
   * Length(j + 1, colShift, colStride) and LOWER those from Length(j, colShift,
   * colStride) on.
   */
  method HermitianMaxNormLocalPart(uplo: UpperOrLower, L: Layout, q: int, local: array2<int>) returns (r: Result<int>)
    requires L.Valid() && local.Length0 == L.LocalHeight(q) && local.Length1 == L.LocalWidth(q)
    ensures r.Failure? <==> L.height != L.width
    ensures r.Failure? ==> r.msg == "Hermitian matrices must be square."
    ensures r.Success? ==> IsMaxAbs(r.value, Contents(local), L.LocalHeight(q), L.LocalWidth(q), LocalPred(L, q, InTriangle(uplo)))
  {
    if L.height != L.width {
      return Failure("Hermitian matrices must be square.");
    }
    var colShift, rowShift, colStride, rowStride := L.ColShift(q), L.RowShift(q), L.colStride, L.rowStride;
    var localHeight, localWidth := local.Length0, local.Length1;
    var localMaxAbs := 0;
    ghost var wi, wj := 0, 0;
    ghost var P := LocalPred(L, q, InTriangle(uplo));
    var jLoc := 0;
    while jLoc < localWidth
      invariant 0 <= jLoc <= localWidth && localMaxAbs >= 0
      invariant forall ii, jj :: 0 <= ii < localHeight && 0 <= jj < jLoc && P(ii, jj) ==> Abs(local[ii, jj]) <= localMaxAbs
      invariant localMaxAbs == 0 || (0 <= wi < localHeight && 0 <= wj < localWidth && P(wi, wj) && Abs(local[wi, wj]) == localMaxAbs)
    {
      var j := rowShift + jLoc * rowStride;
      assert j == L.GlobalCol(q, jLoc);
      LengthIndex(L.width, rowShift, rowStride, jLoc);
      var lo, hi;
      if uplo == UPPER {
        lo, hi := 0, Length(j + 1, colShift, colStride);
        LengthMonotone(j + 1, L.height, colShift, colStride);
      } else {
        lo, hi := Length(j, colShift, colStride), localHeight;
        LengthMonotone(j, L.height, colShift, colStride);
      }
      forall ii | 0 <= ii < localHeight
        ensures P(ii, jLoc) <==> lo <= ii < hi
      {
        assert P(ii, jLoc) == InTriangle(uplo)(L.GlobalRow(q, ii), j);
        LengthIndex(j + 1, colShift, colStride, ii);
        LengthIndex(j, colShift, colStride, ii);
      }
      var iLoc := lo;
      while iLoc < hi
        invariant lo <= iLoc <= hi && localMaxAbs >= 0
        invariant forall ii, jj ::
          0 <= ii < localHeight && 0 <= jj < localWidth && P(ii, jj) && (jj < jLoc || (jj == jLoc && ii < iLoc)) ==> Abs(local[ii, jj]) <= localMaxAbs
        invariant localMaxAbs == 0 || (0 <= wi < localHeight && 0 <= wj < localWidth && P(wi, wj) && Abs(local[wi, wj]) == localMaxAbs)
      {
        var thisAbs := Abs(local[iLoc, jLoc]);
        if localMaxAbs < thisAbs {
          localMaxAbs, wi, wj := thisAbs, iLoc, jLoc;
        }
        iLoc := iLoc + 1;
      }
      jLoc := jLoc + 1;
    }
    assert localMaxAbs == 0 || Abs(Contents(local)[wi][wj]) == localMaxAbs;
    return Success(localMaxAbs);
  }

  /** The distributed SymmetricMaxNorm(uplo, A) is the distributed HermitianMaxNorm(uplo, A). */
  method SymmetricMaxNormLocalPart(uplo: UpperOrLower, L: Layout, q: int, local: array2<int>) returns (r: Result<int>)
    requires L.Valid() && local.Length0 == L.LocalHeight(q) && local.Length1 == L.LocalWidth(q)
    ensures r.Failure? <==> L.height != L.width
    ensures r.Failure? ==> r.msg == "Hermitian matrices must be square."
    ensures r.Success? ==> IsMaxAbs(r.value, Contents(local), L.LocalHeight(q), L.LocalWidth(q), LocalPred(L, q, InTriangle(uplo)))
  {
    r := HermitianMaxNormLocalPart(uplo, L, q, local);
  }
}
