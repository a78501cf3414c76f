/**
 * Hankel(A, m, n, a): A becomes the m x n matrix with A(i, j) = a[i + j],
 * after checking that a has exactly m + n - 1 entries.
 */
module HankelMatrices {
  import opened Indexing
  import opened Locals
  import opened DistEntries
  import opened Errors

  /**
   * The size check.  It compares |a| with m + n - 1 converted to an unsigned
   * integer, so for m = n = 0 (length -1, the largest unsigned value) it fails
   * whatever a is.
   */
  predicate HankelSizeOk(m: nat, n: nat, a: seq<int>)
  {
    |a| == m + n - 1
  }

  /** The m x n Hankel matrix of a: constant along every anti-diagonal i + j = k, with value a[k]. */
  function HankelOf(m: nat, n: nat, a: seq<int>): (H: seq<seq<int>>)
    requires HankelSizeOk(m, n, a)
    ensures IsMatrix(H, m, n)
  {
    seq(m, i requires 0 <= i < m => seq(n, j requires 0 <= j < n => a[i + j]))
  }

  /** Hankel on a local matrix: the error leaves A alone; otherwise A is resized (fresh storage) and filled column by column. */
  method Hankel(A: array2<int>, m: nat, n: nat, a: seq<int>) returns (r: Outcome, B: array2<int>)
    ensures r == (if HankelSizeOk(m, n, a) then Pass else Fail("a was the wrong size"))
    ensures r.Fail? ==> B == A
    ensures r.Pass? ==> fresh(B) && B.Length0 == m && B.Length1 == n && Contents(B) == HankelOf(m, n, a)
  {
    if |a| != m + n - 1 {
      return Fail("a was the wrong size"), A;
    }
    B := new int[m, n];
    var j := 0;
    while j < n
      invariant 0 <= j <= n
      invariant forall ii, jj :: 0 <= ii < m && 0 <= jj < j ==> B[ii, jj] == a[ii + jj]
    {
      var i := 0;
      while i < m
        invariant 0 <= i <= m
        invariant forall ii, jj :: 0 <= ii < m && 0 <= jj < n && (jj < j || (jj == j && ii < i)) ==> B[ii, jj] == a[ii + jj]
      {
        B[i, j] := a[i + j];
        i := i + 1;
      }
      j := j + 1;
    }
    r := Pass;
    MatrixExt(Contents(B), HankelOf(m, n, a), m, n);
  }

  /**
   * Hankel on a distributed matrix, on process q: the same error; otherwise
   * the layout takes the size m x n, the local storage is reallocated and
   * filled by HankelFill.
   */
  method HankelDist(L0: Layout, q: int, local0: array2<int>, m: nat, n: nat, a: seq<int>)
    returns (r: Outcome, L: Layout, local: array2<int>)
    requires L0.Valid() && 0 <= q < L0.Procs()
    ensures r == (if HankelSizeOk(m, n, a) then Pass else Fail("a was the wrong size"))
    ensures r.Fail? ==> L == L0 && local == local0
    ensures r.Pass? ==> L == L0.(height := m, width := n) && L.Valid() && fresh(local)
    ensures r.Pass? ==> local.Length0 == L.LocalHeight(q) && local.Length1 == L.LocalWidth(q)
    ensures r.Pass? ==> Contents(local) == Distribute(L, HankelOf(m, n, a))[q]
  {
    if |a| != m + n - 1 {
      return Fail("a was the wrong size"), L0, local0;
    }
    L := L0.(height := m, width := n);
    local := new int[L.LocalHeight(q), L.LocalWidth(q)];
    HankelFill(L, q, local, a);
    r := Pass;
  }

  /** The distributed loop: local (iLoc, jLoc) gets a[colShift + iLoc*colStride + rowShift + jLoc*rowStride]. */
  method HankelFill(L: Layout, q: int, local: array2<int>, a: seq<int>)
    requires L.Valid() && 0 <= q < L.Procs() && HankelSizeOk(L.height, L.width, a)
    requires local.Length0 == L.LocalHeight(q) && local.Length1 == L.LocalWidth(q)
    modifies local
    ensures Contents(local) == Distribute(L, HankelOf(L.height, L.width, a))[q]
  {
    var m, n := L.height, L.width;
    var localHeight, localWidth := local.Length0, local.Length1;
    var colShift, rowShift, colStride, rowStride := L.ColShift(q), L.RowShift(q), L.colStride, L.rowStride;
    forall il | 0 <= il < localHeight
      ensures 0 <= L.GlobalRow(q, il) < m
    {
      LengthIndex(m, colShift, colStride, il);
    }
    forall jl | 0 <= jl < localWidth
      ensures 0 <= L.GlobalCol(q, jl) < n
    {
      LengthIndex(n, rowShift, rowStride, jl);
    }
    var jLoc := 0;
    while jLoc < localWidth
      invariant 0 <= jLoc <= localWidth
      invariant forall il, jl :: 0 <= il < localHeight && 0 <= jl < jLoc ==>
        local[il, jl] == a[L.GlobalRow(q, il) + L.GlobalCol(q, jl)]
    {
      var j := rowShift + jLoc * rowStride;
      assert j == L.GlobalCol(q, jLoc) && 0 <= j < n;
      var iLoc := 0;
      while iLoc < localHeight
        invariant 0 <= iLoc <= localHeight
        invariant forall il, jl :: 0 <= il < localHeight && 0 <= jl < localWidth && (jl < jLoc || (jl == jLoc && il < iLoc)) ==>
          local[il, jl] == a[L.GlobalRow(q, il) + L.GlobalCol(q, jl)]
      {
        var i := colShift + iLoc * colStride;
        assert i == L.GlobalRow(q, iLoc) && 0 <= i < m;
        local[iLoc, jLoc] := a[i + j];
        iLoc := iLoc + 1;
      }
      jLoc := jLoc + 1;
    }
    MatrixExt(Contents(local), Distribute(L, HankelOf(m, n, a))[q], localHeight, localWidth);
  }

  /** Entries are constant along anti-diagonals: moving one row down and one column left keeps the value. */
  lemma HankelAntiDiagonal(m: nat, n: nat, a: seq<int>, i: int, j: int)
    requires HankelSizeOk(m, n, a) && 0 <= i && i + 1 < m && 0 < j < n
    ensures HankelOf(m, n, a)[i + 1][j - 1] == HankelOf(m, n, a)[i][j]
  {
  }

  /** The vector a read back from a Hankel matrix: down the first column, then along the last row. */
  function ReadHankel(H: seq<seq<int>>, m: nat, n: nat): (a: seq<int>)
    requires IsMatrix(H, m, n) && m > 0 && n > 0
    ensures |a| == m + n - 1
  {
    seq(m + n - 1, k requires 0 <= k < m + n - 1 => if k < m then H[k][0] else H[m - 1][k - m + 1])
  }

  /** With m, n > 0 every entry of a appears in its Hankel matrix, which therefore determines a. */
  lemma ReadHankelOf(m: nat, n: nat, a: seq<int>)
    requires HankelSizeOk(m, n, a) && m > 0 && n > 0
    ensures ReadHankel(HankelOf(m, n, a), m, n) == a
  {
    var H := HankelOf(m, n, a);
    var b := ReadHankel(H, m, n);
    forall k | 0 <= k < |a|
      ensures b[k] == a[k]
    {
      if k < m {
        assert b[k] == H[k][0] == a[k + 0];
      } else {
        assert b[k] == H[m - 1][k - m + 1] == a[(m - 1) + (k - m + 1)];
      }
    }
  }
}
