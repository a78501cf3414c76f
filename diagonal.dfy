/**
 * Diagonal(D, d): Zeros(D, n, n) with n = |d|, then D(j, j) := d[j].  The
 * same code runs on a view, where it zeroes and fills one n x n block of
 * the parent; that is the form Hanowa uses, so it is modelled here with the
 * block's top-left corner (i0, j0) as a parameter, (0, 0) for a matrix that
 * is not a view.
 */
module DiagonalMatrices {
  import opened Indexing
  import opened Locals
  import opened DistEntries
  import opened Identities

  /** The entry Diagonal(View(A, i0, j0, n, n), d) leaves at global (i, j) of A. */
  function DiagonalBlockEntry(i0: int, j0: int, d: seq<int>): (int, int, int) -> int
  {
    (i, j, x) =>
      if i0 <= i < i0 + |d| && j0 <= j < j0 + |d| then
        (if i - i0 == j - j0 then d[i - i0] else 0)
      else x
  }

  /** The |d| x |d| matrix Diagonal(d) builds. */
  function DiagonalOf(d: seq<int>): (D: seq<seq<int>>)
    ensures IsMatrix(D, |d|, |d|)
  {
    GlobalMap(Zeros(|d|, |d|), |d|, |d|, DiagonalBlockEntry(0, 0, d))
  }

  /** Diagonal on the n x n view of A at (i0, j0): zero the block, then A(i0 + j, j0 + j) := d[j]. */
  method DiagonalInto(A: array2<int>, i0: nat, j0: nat, d: seq<int>)
    requires i0 + |d| <= A.Length0 && j0 + |d| <= A.Length1
    modifies A
    ensures Contents(A) == GlobalMap(old(Contents(A)), A.Length0, A.Length1, DiagonalBlockEntry(i0, j0, d))
  {
    ghost var A0 := Contents(A);
    var n := |d|;
    ZeroBlock(A, i0, j0, n, n);
    var j := 0;
    while j < n
      invariant 0 <= j <= n
      invariant forall i, jj :: 0 <= i < A.Length0 && 0 <= jj < A.Length1 ==>
        A[i, jj] == (if i0 <= i < i0 + n && j0 <= jj < j0 + n then
                       (if i - i0 == jj - j0 && jj - j0 < j then d[i - i0] else 0)
                     else A0[i][jj])
    {
      A[i0 + j, j0 + j] := d[j];
      j := j + 1;
    }
    MatrixExt(Contents(A), GlobalMap(A0, A.Length0, A.Length1, DiagonalBlockEntry(i0, j0, d)), A.Length0, A.Length1);
  }

  /** Diagonal(D, d) on a local matrix: D is resized to |d| x |d| (fresh storage) and filled. */
  method Diagonal(d: seq<int>) returns (D: array2<int>)
    ensures fresh(D) && D.Length0 == |d| && D.Length1 == |d|
    ensures Contents(D) == DiagonalOf(d)
  {
    D := new int[|d|, |d|];
    ghost var X := Contents(D);
    DiagonalInto(D, 0, 0, d);
    MatrixExt(Contents(D), DiagonalOf(d), |d|, |d|);
  }

  /** The distributed test (j - colShift + colStride) % colStride == 0 is j % colStride == colShift. */
  lemma DiagonalTest(j: int, s: int, cs: int)
    requires cs > 0 && 0 <= s < cs && j >= 0
    ensures CMod(j - s + cs, cs) == 0 <==> j % cs == s
  {
    ModAddMultiple(j - s, 1, cs);
    if j % cs == s {
      assert j == (j / cs) * cs + s;
      UniqueDivMod(j - s, cs, j / cs, 0);
    } else if (j - s) % cs == 0 {
      assert j == ((j - s) / cs) * cs + s;
      UniqueDivMod(j, cs, (j - s) / cs, s);
    }
  }

  /**
   * One view local column jLoc of the distributed Diagonal: its global index
   * j is inside the view, it is parent local column ViewColOffset + jLoc, and
   * the parent local rows holding the block's diagonal entry of that column
   * are exactly the one at ViewRowOffset + (j - colShift) / colStride, when
   * j % colStride == colShift, and none otherwise.
   */
  lemma ViewDiagonalColumn(L: Layout, V: Layout, q: int, i0: nat, j0: nat, n: nat, jLoc: int)
    requires L.Valid() && i0 + n <= L.height && j0 + n <= L.width && V == ViewLayout(L, i0, j0, n, n)
    requires 0 <= jLoc < V.LocalWidth(q)
    ensures 0 <= V.GlobalCol(q, jLoc) < n
    ensures ViewColOffset(L, q, j0) + jLoc < L.LocalWidth(q)
    ensures L.GlobalCol(q, ViewColOffset(L, q, j0) + jLoc) == j0 + V.GlobalCol(q, jLoc)
    ensures V.GlobalCol(q, jLoc) % V.colStride == V.ColShift(q) ==>
      ViewRowOffset(L, q, i0) + (V.GlobalCol(q, jLoc) - V.ColShift(q)) / V.colStride < L.LocalHeight(q)
      && 0 <= (V.GlobalCol(q, jLoc) - V.ColShift(q)) / V.colStride
    ensures forall il :: 0 <= il < L.LocalHeight(q) ==>
      ((i0 <= L.GlobalRow(q, il) < i0 + n && L.GlobalRow(q, il) - i0 == V.GlobalCol(q, jLoc))
       <==> (V.GlobalCol(q, jLoc) % V.colStride == V.ColShift(q)
             && il == ViewRowOffset(L, q, i0) + (V.GlobalCol(q, jLoc) - V.ColShift(q)) / V.colStride))
  {
    var j, rowOff := V.GlobalCol(q, jLoc), ViewRowOffset(L, q, i0);
    LengthIndex(n, V.RowShift(q), V.rowStride, jLoc);
    ViewRows(L, V, q, i0, j0, n, n);
    ViewCols(L, V, q, i0, j0, n, n);
    TargetRow(V, q, j);
    forall il | 0 <= il < L.LocalHeight(q)
      ensures (i0 <= L.GlobalRow(q, il) < i0 + n && L.GlobalRow(q, il) - i0 == j)
          <==> (j % V.colStride == V.ColShift(q) && il == rowOff + (j - V.ColShift(q)) / V.colStride)
    {
      if rowOff <= il < rowOff + V.LocalHeight(q) {
        assert L.GlobalRow(q, il) == i0 + V.GlobalRow(q, il - rowOff);
      }
    }
  }

  /**
   * Diagonal on the n x n view at (i0, j0) of a distributed matrix, on process
   * q: the view's part of q's local matrix (the run of local rows and columns
   * ViewRowOffset.., ViewColOffset..) is zeroed, then for each view local
   * column with global index j, d[j] is written at view local row
   * (j - colShift) / colStride when (j - colShift + colStride) % colStride == 0.
   */
  method DiagonalIntoDist(L: Layout, q: int, local: array2<int>, i0: nat, j0: nat, d: seq<int>)
    requires L.Valid() && local.Length0 == L.LocalHeight(q) && local.Length1 == L.LocalWidth(q)
    requires i0 + |d| <= L.height && j0 + |d| <= L.width
    modifies local
    ensures Contents(local) == LocalMap(L, q, old(Contents(local)), DiagonalBlockEntry(i0, j0, d))
  {
    ghost var L0 := Contents(local);
    var n := |d|;
    var V := ViewLayout(L, i0, j0, n, n);
    var rowOff, colOff := ViewRowOffset(L, q, i0), ViewColOffset(L, q, j0);
    ViewRows(L, V, q, i0, j0, n, n);
    ViewCols(L, V, q, i0, j0, n, n);
    var localHeight, localWidth := V.LocalHeight(q), V.LocalWidth(q);
    ZeroBlock(local, rowOff, colOff, localHeight, localWidth);
    var colShift, rowShift, colStride, rowStride := V.ColShift(q), V.RowShift(q), V.colStride, V.rowStride;
    var jLoc := 0;
    while jLoc < localWidth
      invariant 0 <= jLoc <= localWidth
      invariant forall il, jl :: 0 <= il < local.Length0 && 0 <= jl < local.Length1 ==>
        local[il, jl] == (if i0 <= L.GlobalRow(q, il) < i0 + n && j0 <= L.GlobalCol(q, jl) < j0 + n then
                            (if L.GlobalRow(q, il) - i0 == L.GlobalCol(q, jl) - j0 && jl < colOff + jLoc
                             then d[L.GlobalRow(q, il) - i0] else 0)
                          else L0[il][jl])
    {
      var j := rowShift + jLoc * rowStride;
      ViewDiagonalColumn(L, V, q, i0, j0, n, jLoc);
      DiagonalTest(j, colShift, colStride);
      if CMod(j - colShift + colStride, colStride) == 0 {
        var iLoc := (j - colShift) / colStride;
        local[rowOff + iLoc, colOff + jLoc] := d[j];
      }
      jLoc := jLoc + 1;
    }
    MatrixExt(Contents(local), LocalMap(L, q, L0, DiagonalBlockEntry(i0, j0, d)), local.Length0, local.Length1);
  }

  /**
   * Diagonal(D, d) on a distributed matrix, on process q: D is resized to
   * |d| x |d| and q's local matrix ends up as q's part of Diagonal(d).
   */
  method DiagonalDist(L0: Layout, q: int, d: seq<int>) returns (L: Layout, local: array2<int>)
    requires L0.Valid() && 0 <= q < L0.Procs()
    ensures L == L0.(height := |d|, width := |d|) && L.Valid()
    ensures fresh(local) && local.Length0 == L.LocalHeight(q) && local.Length1 == L.LocalWidth(q)
    ensures Contents(local) == Distribute(L, DiagonalOf(d))[q]
  {
    L := L0.(height := |d|, width := |d|);
    local := new int[L.LocalHeight(q), L.LocalWidth(q)];
    ghost var X := Contents(local);
    DiagonalIntoDist(L, q, local, 0, 0, d);
    DiagonalDistributed(L, q, X, d);
  }

  /** Whatever a local matrix held, Diagonal leaves it as process q's part of Diagonal(d). */
  lemma DiagonalDistributed(L: Layout, q: int, X: seq<seq<int>>, d: seq<int>)
    requires L.Valid() && 0 <= q < L.Procs() && L.height == |d| && L.width == |d|
    requires IsMatrix(X, L.LocalHeight(q), L.LocalWidth(q))
    ensures LocalMap(L, q, X, DiagonalBlockEntry(0, 0, d)) == Distribute(L, DiagonalOf(d))[q]
  {
    var Z := Zeros(|d|, |d|);
    var F := DiagonalBlockEntry(0, 0, d);
    LocalMapDistributed(L, Z, F, q);
    var A, B := LocalMap(L, q, X, F), LocalMap(L, q, Distribute(L, Z)[q], F);
    forall iLoc, jLoc | 0 <= iLoc < L.LocalHeight(q) && 0 <= jLoc < L.LocalWidth(q)
      ensures A[iLoc][jLoc] == B[iLoc][jLoc]
    {
      GlobalInRange(L, q, iLoc, jLoc);
    }
    MatrixExt(A, B, L.LocalHeight(q), L.LocalWidth(q));
  }

  /** Diagonal(d) carries d on its main diagonal and zero everywhere else. */
  lemma DiagonalOfEntries(d: seq<int>)
    ensures forall j :: 0 <= j < |d| ==> DiagonalOf(d)[j][j] == d[j]
    ensures forall i, j :: 0 <= i < |d| && 0 <= j < |d| && i != j ==> DiagonalOf(d)[i][j] == 0
  {
  }

  /** The diagonal matrix of n ones is the n x n identity. */
  lemma DiagonalOfOnesIsIdentity(n: nat)
    ensures DiagonalOf(seq(n, _ => 1)) == IdentityOf(n, n)
  {
    MatrixExt(DiagonalOf(seq(n, _ => 1)), IdentityOf(n, n), n, n);
  }
}
