/**
 * Local matrices.  Where only entries matter a local matrix is an
 * `array2<int>` indexed [row, column], with its contents as a value (a
 * sequence of rows) for use in specifications.  Where the column-major
 * storage matters (leading dimension, padding rows, packing) it is a flat
 * `array<int>` read through `BufferMatrix`.
 */
module Locals {
  import opened Indexing
  import opened Grids

  /** Matrices of T as sequences of rows. */
  predicate IsMatrix<T>(A: seq<seq<T>>, m: nat, n: nat)
  {
    |A| == m && forall i :: 0 <= i < m ==> |A[i]| == n
  }

  /** The contents of a local matrix, row by row. */
  function Contents(a: array2<int>): (c: seq<seq<int>>)
    reads a
    ensures IsMatrix(c, a.Length0, a.Length1)
    ensures forall i, j :: 0 <= i < a.Length0 && 0 <= j < a.Length1 ==> c[i][j] == a[i, j]
  {
    seq(a.Length0, i requires 0 <= i < a.Length0 reads a =>
      seq(a.Length1, j requires 0 <= j < a.Length1 reads a => a[i, j]))
  }

  /** Two matrices of the same shape with the same entries are equal. */
  lemma MatrixExt<T>(X: seq<seq<T>>, Y: seq<seq<T>>, m: nat, n: nat)
    requires IsMatrix(X, m, n) && IsMatrix(Y, m, n)
    requires forall i, j :: 0 <= i < m && 0 <= j < n ==> X[i][j] == Y[i][j]
    ensures X == Y
  {
    assert forall i :: 0 <= i < m ==> X[i] == Y[i];
  }

  /** The m x n zero matrix. */
  function Zeros(m: nat, n: nat): (Z: seq<seq<int>>)
    ensures IsMatrix(Z, m, n) && forall i, j :: 0 <= i < m && 0 <= j < n ==> Z[i][j] == 0
  {
    seq(m, i => seq(n, j => 0))
  }

  // ---------------------------------------------------------------------
  // Column-major buffers with a leading dimension
  // ---------------------------------------------------------------------

  /** A buffer holds an h x w column-major matrix with leading dimension ld. */
  predicate HoldsBlock(buf: seq<int>, h: nat, w: nat, ld: nat)
  {
    h <= ld && ld * w <= |buf|
  }

  /** The h x w matrix a buffer holds: entry (i, j) lives at i + j*ld. */
  function BufferMatrix(buf: seq<int>, h: nat, w: nat, ld: nat): (M: seq<seq<int>>)
    requires HoldsBlock(buf, h, w, ld)
    ensures IsMatrix(M, h, w)
  {
    seq(h, i requires 0 <= i < h => seq(w, j requires 0 <= j < w =>
      VCInRange(i, j, ld, w);
      buf[i + j * ld]))
  }

  /** Offset k of a buffer lies in the h x w block (and not in the padding rows of a column). */
  predicate InBlock(k: int, h: nat, w: nat, ld: nat)
  {
    ld > 0 && 0 <= k && k % ld < h && k / ld < w
  }

  /** Distinct entries of a column-major block live at distinct offsets. */
  lemma OffsetInjective(i: int, j: int, i0: int, j0: int, ld: int)
    requires 0 <= i < ld && 0 <= i0 < ld
    ensures (i + j * ld == i0 + j0 * ld) <==> (i == i0 && j == j0)
  {
    SplitRank(i, j, ld);
    SplitRank(i0, j0, ld);
  }

  /** Writing offset i0 + j0*ld changes entry (i0, j0) of the held matrix and nothing else. */
  lemma BufferWrite(buf: seq<int>, h: nat, w: nat, ld: nat, i0: int, j0: int, v: int)
    requires HoldsBlock(buf, h, w, ld) && 0 <= i0 < h && 0 <= j0 < w
    ensures i0 + j0 * ld < |buf| && InBlock(i0 + j0 * ld, h, w, ld)
    ensures forall i, j :: 0 <= i < h && 0 <= j < w ==>
      BufferMatrix(buf[i0 + j0 * ld := v], h, w, ld)[i][j]
      == (if i == i0 && j == j0 then v else BufferMatrix(buf, h, w, ld)[i][j])
  {
    VCInRange(i0, j0, ld, w);
    SplitRank(i0, j0, ld);
    var buf' := buf[i0 + j0 * ld := v];
    forall i, j | 0 <= i < h && 0 <= j < w
      ensures BufferMatrix(buf', h, w, ld)[i][j] == (if i == i0 && j == j0 then v else BufferMatrix(buf, h, w, ld)[i][j])
    {
      VCInRange(i, j, ld, w);
      OffsetInjective(i, j, i0, j0, ld);
      assert BufferMatrix(buf', h, w, ld)[i][j] == buf'[i + j * ld];
      assert BufferMatrix(buf, h, w, ld)[i][j] == buf[i + j * ld];
    }
  }

  /**
   * The column-by-column MemCopy loop of SumOver's pack and unpack steps:
   * the h x w block of src (leading dimension srcLd) is copied into dst
   * (leading dimension dstLd); dst's padding is left alone.
   */
  method CopyColumns(src: array<int>, srcLd: nat, dst: array<int>, dstLd: nat, h: nat, w: nat)
    requires src != dst
    requires HoldsBlock(src[..], h, w, srcLd) && HoldsBlock(dst[..], h, w, dstLd)
    modifies dst
    ensures BufferMatrix(dst[..], h, w, dstLd) == BufferMatrix(src[..], h, w, srcLd)
    ensures forall k :: 0 <= k < dst.Length && !InBlock(k, h, w, dstLd) ==> dst[k] == old(dst[k])
  {
    ghost var S := BufferMatrix(src[..], h, w, srcLd);
    ghost var D0 := BufferMatrix(dst[..], h, w, dstLd);
    var jLoc := 0;
    while jLoc < w
      invariant 0 <= jLoc <= w
      invariant forall i, j :: 0 <= i < h && 0 <= j < w ==>
        BufferMatrix(dst[..], h, w, dstLd)[i][j] == (if j < jLoc then S[i][j] else D0[i][j])
      invariant forall k :: 0 <= k < dst.Length && !InBlock(k, h, w, dstLd) ==> dst[k] == old(dst[k])
    {
      var iLoc := 0;
      while iLoc < h
        invariant 0 <= iLoc <= h
        invariant forall i, j :: 0 <= i < h && 0 <= j < w ==>
          BufferMatrix(dst[..], h, w, dstLd)[i][j]
          == (if j < jLoc || (j == jLoc && i < iLoc) then S[i][j] else D0[i][j])
        invariant forall k :: 0 <= k < dst.Length && !InBlock(k, h, w, dstLd) ==> dst[k] == old(dst[k])
      {
        BufferWrite(dst[..], h, w, dstLd, iLoc, jLoc, S[iLoc][jLoc]);
        VCInRange(iLoc, jLoc, srcLd, w);
        dst[iLoc + jLoc * dstLd] := src[iLoc + jLoc * srcLd];
        iLoc := iLoc + 1;
      }
      jLoc := jLoc + 1;
    }
    MatrixExt(BufferMatrix(dst[..], h, w, dstLd), S, h, w);
  }


  /** Column jc's rows lo..hi-1 occupy exactly the offsets lo + jc*ld .. hi-1 + jc*ld of the block. */
  lemma ColumnSpan(i: int, j: int, jc: int, ld: int, lo: int, hi: int)
    requires 0 <= i < ld && 0 <= lo <= hi <= ld && j >= 0 && jc >= 0
    ensures (lo + jc * ld <= i + j * ld < hi + jc * ld) <==> (j == jc && lo <= i < hi)
  {
    if j < jc {
      MulMono(j + 1, jc, ld);
      assert (j + 1) * ld == j * ld + ld;
    } else if j > jc {
      MulMono(jc + 1, j, ld);
      assert (jc + 1) * ld == jc * ld + ld;
    }
  }

  /** MemZero: n consecutive slots from offset off become 0; nothing else changes. */
  method MemZero(buf: array<int>, off: int, n: int)
    requires 0 <= off && 0 <= n && off + n <= buf.Length
    modifies buf
    ensures forall k :: 0 <= k < buf.Length ==> buf[k] == (if off <= k < off + n then 0 else old(buf[k]))
  {
    var t := 0;
    while t < n
      invariant 0 <= t <= n
      invariant forall k :: 0 <= k < buf.Length ==> buf[k] == (if off <= k < off + t then 0 else old(buf[k]))
    {
      buf[off + t] := 0;
      t := t + 1;
    }
  }

  /** The matrix held by a buffer after zeroing the offsets of rows lo..hi-1 of column jc. */
  lemma ZeroSpanEffect(B0: seq<int>, B1: seq<int>, h: nat, w: nat, ld: nat, jc: int, lo: int, hi: int)
    requires HoldsBlock(B0, h, w, ld) && 0 <= lo <= hi <= h && 0 <= jc < w && |B1| == |B0|
    requires forall k :: 0 <= k < |B1| ==> B1[k] == (if lo + jc * ld <= k < hi + jc * ld then 0 else B0[k])
    ensures HoldsBlock(B1, h, w, ld)
    ensures forall i, j :: 0 <= i < h && 0 <= j < w ==>
      BufferMatrix(B1, h, w, ld)[i][j] == (if j == jc && lo <= i < hi then 0 else BufferMatrix(B0, h, w, ld)[i][j])
    ensures forall k :: 0 <= k < |B1| && !InBlock(k, h, w, ld) ==> B1[k] == B0[k]
  {
    forall i, j | 0 <= i < h && 0 <= j < w
      ensures BufferMatrix(B1, h, w, ld)[i][j] == (if j == jc && lo <= i < hi then 0 else BufferMatrix(B0, h, w, ld)[i][j])
    {
      VCInRange(i, j, ld, w);
      ColumnSpan(i, j, jc, ld, lo, hi);
      assert BufferMatrix(B1, h, w, ld)[i][j] == B1[i + j * ld];
      assert BufferMatrix(B0, h, w, ld)[i][j] == B0[i + j * ld];
    }
    forall k | 0 <= k < |B1| && lo + jc * ld <= k < hi + jc * ld
      ensures InBlock(k, h, w, ld)
    {
      SplitRank(k - jc * ld, jc, ld);
    }
  }

  /** Zeroing rows lo..hi-1 of column jc of a held block, by one MemZero over that stretch of the column. */
  method ZeroColumnRows(buf: array<int>, ld: nat, h: nat, w: nat, jc: int, lo: int, hi: int)
    requires HoldsBlock(buf[..], h, w, ld) && 0 <= lo <= hi <= h && 0 <= jc < w
    modifies buf
    ensures HoldsBlock(buf[..], h, w, ld)
    ensures forall i, j :: 0 <= i < h && 0 <= j < w ==>
      BufferMatrix(buf[..], h, w, ld)[i][j] == (if j == jc && lo <= i < hi then 0 else old(BufferMatrix(buf[..], h, w, ld))[i][j])
    ensures forall k :: 0 <= k < buf.Length && !InBlock(k, h, w, ld) ==> buf[k] == old(buf[k])
  {
    ghost var B0 := buf[..];
    assert hi + jc * ld <= buf.Length by {
      MulMono(jc + 1, w, ld);
      assert (jc + 1) * ld == jc * ld + ld;
      assert w * ld == ld * w;
    }
    MemZero(buf, lo + jc * ld, hi - lo);
    ZeroSpanEffect(B0, buf[..], h, w, ld, jc, lo, hi);
  }

  /** Zero the h x w block of A whose top-left entry is (i0, j0), column by column; nothing else changes. */
  method ZeroBlock(A: array2<int>, i0: int, j0: int, h: int, w: int)
    requires 0 <= i0 && 0 <= j0 && 0 <= h && 0 <= w && i0 + h <= A.Length0 && j0 + w <= A.Length1
    modifies A
    ensures forall i, j :: 0 <= i < A.Length0 && 0 <= j < A.Length1 ==>
      A[i, j] == (if i0 <= i < i0 + h && j0 <= j < j0 + w then 0 else old(A[i, j]))
  {
    var jj := 0;
    while jj < w
      invariant 0 <= jj <= w
      invariant forall i, j :: 0 <= i < A.Length0 && 0 <= j < A.Length1 ==>
        A[i, j] == (if i0 <= i < i0 + h && j0 <= j < j0 + jj then 0 else old(A[i, j]))
    {
      var ii := 0;
      while ii < h
        invariant 0 <= ii <= h
        invariant forall i, j :: 0 <= i < A.Length0 && 0 <= j < A.Length1 ==>
          A[i, j] == (if (i0 <= i < i0 + h && j0 <= j < j0 + jj) || (i0 <= i < i0 + ii && j == j0 + jj) then 0 else old(A[i, j]))
      {
        A[i0 + ii, j0 + jj] := 0;
        ii := ii + 1;
      }
      jj := jj + 1;
    }
  }
}
