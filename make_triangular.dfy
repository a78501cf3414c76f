/**
 * MakeTriangular: zero the strictly upper (LOWER) or strictly lower
 * (UPPER) part of a matrix in place, column by column with MemZero on the
 * column-major buffer; the distributed form does the same on each local
 * buffer, choosing the local row range from the column's global index.
 */
module Triangular {
  import opened Indexing
  import opened Locals
  import opened DistEntries

  datatype UpperOrLower = LOWER | UPPER

  /** The entries MakeTriangular(uplo) zeroes: above the diagonal for LOWER, below it for UPPER. */
  predicate Zeroed(uplo: UpperOrLower, i: int, j: int)
  {
    if uplo == LOWER then i < j else i > j
  }

  function KeepTriangle(uplo: UpperOrLower): (int, int, int) -> int
  {
    (i, j, x) => if Zeroed(uplo, i, j) then 0 else x
  }

  /** The global effect of MakeTriangular(uplo). */
  function MakeTriangularOf(A: seq<seq<int>>, m: nat, n: nat, uplo: UpperOrLower): (B: seq<seq<int>>)
    requires IsMatrix(A, m, n)
    ensures IsMatrix(B, m, n)
  {
    GlobalMap(A, m, n, KeepTriangle(uplo))
  }

  /**
   * MakeTriangular on a local column-major buffer: LOWER zeroes rows
   * 0..min(j, height)-1 of every column j >= 1; UPPER zeroes rows
   * j+1..height-1 of every column j < min(width, height).
   */
  method MakeTriangularLocal(uplo: UpperOrLower, buf: array<int>, height: nat, width: nat, ldim: nat)
    requires HoldsBlock(buf[..], height, width, ldim)
    modifies buf
    ensures HoldsBlock(buf[..], height, width, ldim)
    ensures BufferMatrix(buf[..], height, width, ldim)
         == MakeTriangularOf(old(BufferMatrix(buf[..], height, width, ldim)), height, width, uplo)
    ensures forall k :: 0 <= k < buf.Length && !InBlock(k, height, width, ldim) ==> buf[k] == old(buf[k])
  {
    ghost var M0 := BufferMatrix(buf[..], height, width, ldim);
    if uplo == LOWER {
      var j := 1;
      while j < width
        invariant 1 <= j && (width > 0 ==> j <= width)
        invariant HoldsBlock(buf[..], height, width, ldim)
        invariant forall i, jj :: 0 <= i < height && 0 <= jj < width ==>
          BufferMatrix(buf[..], height, width, ldim)[i][jj] == (if jj < j && i < jj then 0 else M0[i][jj])
        invariant forall k :: 0 <= k < buf.Length && !InBlock(k, height, width, ldim) ==> buf[k] == old(buf[k])
      {
        var numZeroRows := if j < height then j else height;
        ZeroColumnRows(buf, ldim, height, width, j, 0, numZeroRows);
        j := j + 1;
      }
    } else {
      var minDim := if width < height then width else height;
      var j := 0;
      while j < minDim
        invariant 0 <= j <= minDim
        invariant HoldsBlock(buf[..], height, width, ldim)
        invariant forall i, jj :: 0 <= i < height && 0 <= jj < width ==>
          BufferMatrix(buf[..], height, width, ldim)[i][jj] == (if jj < j && i > jj then 0 else M0[i][jj])
        invariant forall k :: 0 <= k < buf.Length && !InBlock(k, height, width, ldim) ==> buf[k] == old(buf[k])
      {
        var firstZeroRow := j + 1;
        ZeroColumnRows(buf, ldim, height, width, j, firstZeroRow, height);
        j := j + 1;
      }
    }
    MatrixExt(BufferMatrix(buf[..], height, width, ldim), MakeTriangularOf(M0, height, width, uplo), height, width);
  }

  /** Local row iLoc lies above global row n exactly when iLoc < Length(n, colShift, colStride). */
  lemma RowsBefore(L: Layout, q: int, iLoc: int, n: int)
    requires L.Valid() && 0 <= iLoc
    ensures iLoc < Length(n, L.ColShift(q), L.colStride) <==> L.GlobalRow(q, iLoc) < n
  {
    LengthIndex(n, L.ColShift(q), L.colStride, iLoc);
  }

  /**
   * MakeTriangular on process q's local buffer: for local column jLoc with
   * global index j, LOWER zeroes the first Length(min(j, height)) local
   * rows and UPPER the local rows from Length(j + 1) on.
   */
  method MakeTriangularDist(uplo: UpperOrLower, L: Layout, q: int, buf: array<int>, ldim: nat)
    requires L.Valid() && HoldsBlock(buf[..], L.LocalHeight(q), L.LocalWidth(q), ldim)
    modifies buf
    ensures HoldsBlock(buf[..], L.LocalHeight(q), L.LocalWidth(q), ldim)
    ensures BufferMatrix(buf[..], L.LocalHeight(q), L.LocalWidth(q), ldim)
         == LocalMap(L, q, old(BufferMatrix(buf[..], L.LocalHeight(q), L.LocalWidth(q), ldim)), KeepTriangle(uplo))
    ensures forall k :: 0 <= k < buf.Length && !InBlock(k, L.LocalHeight(q), L.LocalWidth(q), ldim) ==> buf[k] == old(buf[k])
  {
    var localHeight, localWidth := L.LocalHeight(q), L.LocalWidth(q);
    ghost var M0 := BufferMatrix(buf[..], localHeight, localWidth, ldim);
    var jLoc := 0;
    while jLoc < localWidth
      invariant 0 <= jLoc <= localWidth
      invariant HoldsBlock(buf[..], localHeight, localWidth, ldim)
      invariant TriangleUpTo(uplo, L, q, BufferMatrix(buf[..], localHeight, localWidth, ldim), M0, jLoc)
      invariant forall k :: 0 <= k < buf.Length && !InBlock(k, localHeight, localWidth, ldim) ==> buf[k] == old(buf[k])
    {
      TriangleColumn(uplo, L, q, buf, ldim, jLoc, M0);
      jLoc := jLoc + 1;
    }
    MatrixExt(BufferMatrix(buf[..], localHeight, localWidth, ldim), LocalMap(L, q, M0, KeepTriangle(uplo)),
              localHeight, localWidth);
  }

  /** Local columns before c of M are those of M0 with the triangle zeroed; the rest are those of M0. */
  ghost predicate TriangleUpTo(uplo: UpperOrLower, L: Layout, q: int, M: seq<seq<int>>, M0: seq<seq<int>>, c: int)
    requires L.Valid()
  {
    && IsMatrix(M, L.LocalHeight(q), L.LocalWidth(q)) && IsMatrix(M0, L.LocalHeight(q), L.LocalWidth(q))
    && forall i, jj :: 0 <= i < L.LocalHeight(q) && 0 <= jj < L.LocalWidth(q) ==>
      M[i][jj] == (if jj < c && Zeroed(uplo, L.GlobalRow(q, i), L.GlobalCol(q, jj)) then 0 else M0[i][jj])
  }

  lemma TriangleNext(uplo: UpperOrLower, L: Layout, q: int, M: seq<seq<int>>, M': seq<seq<int>>, M0: seq<seq<int>>, c: int)
    requires L.Valid() && TriangleUpTo(uplo, L, q, M, M0, c) && IsMatrix(M', L.LocalHeight(q), L.LocalWidth(q))
    requires forall i, jj :: 0 <= i < L.LocalHeight(q) && 0 <= jj < L.LocalWidth(q) ==>
      M'[i][jj] == (if jj == c && Zeroed(uplo, L.GlobalRow(q, i), L.GlobalCol(q, jj)) then 0 else M[i][jj])
    ensures TriangleUpTo(uplo, L, q, M', M0, c + 1)
  {
  }

  /**
   * One local column jLoc of the distributed MakeTriangular, with global
   * index j: LOWER zeroes the first Length(min(j, height)) local rows, UPPER
   * the local rows from Length(j + 1) on; either way exactly the entries of
   * that column in the zeroed triangle.
   */
  method TriangleColumn(uplo: UpperOrLower, L: Layout, q: int, buf: array<int>, ldim: nat, jLoc: int, ghost M0: seq<seq<int>>)
    requires L.Valid() && HoldsBlock(buf[..], L.LocalHeight(q), L.LocalWidth(q), ldim)
    requires 0 <= jLoc < L.LocalWidth(q)
    requires TriangleUpTo(uplo, L, q, BufferMatrix(buf[..], L.LocalHeight(q), L.LocalWidth(q), ldim), M0, jLoc)
    modifies buf
    ensures HoldsBlock(buf[..], L.LocalHeight(q), L.LocalWidth(q), ldim)
    ensures TriangleUpTo(uplo, L, q, BufferMatrix(buf[..], L.LocalHeight(q), L.LocalWidth(q), ldim), M0, jLoc + 1)
    ensures forall k :: 0 <= k < buf.Length && !InBlock(k, L.LocalHeight(q), L.LocalWidth(q), ldim) ==> buf[k] == old(buf[k])
  {
    ghost var M := BufferMatrix(buf[..], L.LocalHeight(q), L.LocalWidth(q), ldim);
    var height, localHeight, localWidth := L.height, L.LocalHeight(q), L.LocalWidth(q);
    var colShift, rowShift := L.ColShift(q), L.RowShift(q);
    var j := rowShift + jLoc * L.rowStride;
    assert j == L.GlobalCol(q, jLoc);
    forall i | 0 <= i < localHeight
      ensures L.GlobalRow(q, i) < height
    {
      RowsBefore(L, q, i, height);
    }
    if uplo == LOWER {
      var lastZeroRow := j - 1;
      if lastZeroRow >= 0 {
        var boundary := if lastZeroRow + 1 < height then lastZeroRow + 1 else height;
        var numZeroRows := Length(boundary, colShift, L.colStride);
        LengthMonotone(boundary, height, colShift, L.colStride);
        forall i | 0 <= i < localHeight
          ensures i < numZeroRows <==> L.GlobalRow(q, i) < j
        {
          RowsBefore(L, q, i, boundary);
        }
        ZeroColumnRows(buf, ldim, localHeight, localWidth, jLoc, 0, numZeroRows);
      }
    } else {
      var firstZeroRow := j + 1;
      var numNonzeroRows := Length(firstZeroRow, colShift, L.colStride);
      forall i | 0 <= i < localHeight
        ensures i < numNonzeroRows <==> L.GlobalRow(q, i) <= j
      {
        RowsBefore(L, q, i, firstZeroRow);
      }
      if numNonzeroRows < localHeight {
        ZeroColumnRows(buf, ldim, localHeight, localWidth, jLoc, numNonzeroRows, localHeight);
      }
    }
    TriangleNext(uplo, L, q, M, BufferMatrix(buf[..], localHeight, localWidth, ldim), M0, jLoc);
  }

  /** Distributed MakeTriangular of the distributed A is the distributed MakeTriangular of A. */
  lemma MakeTriangularDistributed(uplo: UpperOrLower, L: Layout, A: seq<seq<int>>, q: int)
    requires L.Valid() && IsMatrix(A, L.height, L.width) && 0 <= q < L.Procs()
    ensures LocalMap(L, q, Distribute(L, A)[q], KeepTriangle(uplo))
         == Distribute(L, MakeTriangularOf(A, L.height, L.width, uplo))[q]
  {
    LocalMapDistributed(L, A, KeepTriangle(uplo), q);
  }

  /** Zeroing the same triangle twice changes nothing more. */
  lemma MakeTriangularIdempotent(A: seq<seq<int>>, m: nat, n: nat, uplo: UpperOrLower)
    requires IsMatrix(A, m, n)
    ensures MakeTriangularOf(MakeTriangularOf(A, m, n, uplo), m, n, uplo) == MakeTriangularOf(A, m, n, uplo)
  {
    var X, Y := MakeTriangularOf(MakeTriangularOf(A, m, n, uplo), m, n, uplo), MakeTriangularOf(A, m, n, uplo);
    MatrixExt(X, Y, m, n);
  }

  /** LOWER after UPPER keeps the diagonal and zeroes everything else. */
  lemma LowerAfterUpperIsDiagonal(A: seq<seq<int>>, m: nat, n: nat)
    requires IsMatrix(A, m, n)
    ensures MakeTriangularOf(MakeTriangularOf(A, m, n, UPPER), m, n, LOWER)
         == GlobalMap(A, m, n, (i, j, x) => if i == j then x else 0)
  {
    var X := MakeTriangularOf(MakeTriangularOf(A, m, n, UPPER), m, n, LOWER);
    var Y := GlobalMap(A, m, n, (i, j, x) => if i == j then x else 0);
    MatrixExt(X, Y, m, n);
  }
}
