/**
 * SetDiagonal: set one (possibly offset) diagonal of a matrix to alpha,
 * on a local matrix through Set and on a distributed matrix through
 * SetLocal on the process owning each diagonal entry of its local columns.
 */
module Diagonals {
  import opened Locals
  import opened DistEntries

  datatype LeftOrRight = LEFT | RIGHT

  /**
   * The diagonal that SetDiagonal(alpha, offset, side) writes in an h x w
   * matrix: row j - offset of column j for LEFT, row j - offset + h - w for
   * RIGHT.  SetDiagonal without an offset is offset 0, LEFT.
   */
  predicate OnDiagonal(i: int, j: int, offset: int, side: LeftOrRight, h: int, w: int)
  {
    i == (if side == LEFT then j - offset else j - offset + h - w)
  }

  function SetOnDiagonal(alpha: int, offset: int, side: LeftOrRight, h: int, w: int): (int, int, int) -> int
  {
    (i, j, x) => if OnDiagonal(i, j, offset, side, h, w) then alpha else x
  }

  /** The global effect of SetDiagonal. */
  function SetDiagonalOf(A: seq<seq<int>>, m: nat, n: nat, alpha: int, offset: int, side: LeftOrRight): (B: seq<seq<int>>)
    requires IsMatrix(A, m, n)
    ensures IsMatrix(B, m, n)
  {
    GlobalMap(A, m, n, SetOnDiagonal(alpha, offset, side, m, n))
  }

  /** SetDiagonal(A, alpha): A(j, j) := alpha for j < min(height, width). */
  method SetDiagonal(A: array2<int>, alpha: int)
    modifies A
    ensures Contents(A) == SetDiagonalOf(old(Contents(A)), A.Length0, A.Length1, alpha, 0, LEFT)
  {
    ghost var A0 := Contents(A);
    var height, width := A.Length0, A.Length1;
    var minDim := if height < width then height else width;
    var j := 0;
    while j < minDim
      invariant 0 <= j <= minDim
      invariant forall i, jj :: 0 <= i < height && 0 <= jj < width ==>
        A[i, jj] == (if jj < j && i == jj then alpha else A0[i][jj])
    {
      A[j, j] := alpha;
      j := j + 1;
    }
    MatrixExt(Contents(A), SetDiagonalOf(A0, height, width, alpha, 0, LEFT), height, width);
  }

  /** SetDiagonal(A, alpha, offset, side): for each column j, the row of the offset diagonal, if inside A. */
  method SetDiagonalOffset(A: array2<int>, alpha: int, offset: int, side: LeftOrRight)
    modifies A
    ensures Contents(A) == SetDiagonalOf(old(Contents(A)), A.Length0, A.Length1, alpha, offset, side)
  {
    ghost var A0 := Contents(A);
    var height, width := A.Length0, A.Length1;
    var j := 0;
    while j < width
      invariant 0 <= j <= width
      invariant forall i, jj :: 0 <= i < height && 0 <= jj < width ==>
        A[i, jj] == (if jj < j && OnDiagonal(i, jj, offset, side, height, width) then alpha else A0[i][jj])
    {
      var i := if side == LEFT then j - offset else j - offset + height - width;
      if i >= 0 && i < height {
        A[i, j] := alpha;
      }
      j := j + 1;
    }
    MatrixExt(Contents(A), SetDiagonalOf(A0, height, width, alpha, offset, side), height, width);
  }

  /**
   * The distributed loop on process q: for local column jLoc with global
   * index j, the target row i is written at local row (i - colShift) /
   * colStride when 0 <= i < height and i % colStride == colShift.
   */
  method SetDiagonalDistLoop(L: Layout, q: int, local: array2<int>, alpha: int, offset: int, side: LeftOrRight)
    requires L.Valid() && local.Length0 == L.LocalHeight(q) && local.Length1 == L.LocalWidth(q)
    modifies local
    ensures Contents(local) == LocalMap(L, q, old(Contents(local)), SetOnDiagonal(alpha, offset, side, L.height, L.width))
  {
    ghost var L0 := Contents(local);
    var height, width := L.height, L.width;
    var colShift, rowShift, colStride := L.ColShift(q), L.RowShift(q), L.colStride;
    var localWidth := local.Length1;
    var jLoc := 0;
    while jLoc < localWidth
      invariant 0 <= jLoc <= localWidth
      invariant forall iLoc, jl :: 0 <= iLoc < local.Length0 && 0 <= jl < localWidth ==>
        local[iLoc, jl] == (if jl < jLoc && OnDiagonal(L.GlobalRow(q, iLoc), L.GlobalCol(q, jl), offset, side, height, width)
                            then alpha else L0[iLoc][jl])
    {
      var j := rowShift + jLoc * L.rowStride;
      assert j == L.GlobalCol(q, jLoc);
      var i := if side == LEFT then j - offset else j - offset + height - width;
      TargetRow(L, q, i);
      if i >= 0 && i < height && i % colStride == colShift {
        var iLoc := (i - colShift) / colStride;
        assert forall il :: 0 <= il < local.Length0 ==>
          (OnDiagonal(L.GlobalRow(q, il), j, offset, side, height, width) <==> il == iLoc);
        local[iLoc, jLoc] := alpha;
      } else {
        assert forall il :: 0 <= il < local.Length0 ==> !OnDiagonal(L.GlobalRow(q, il), j, offset, side, height, width);
      }
      jLoc := jLoc + 1;
    }
    MatrixExt(Contents(local), LocalMap(L, q, L0, SetOnDiagonal(alpha, offset, side, height, width)),
              local.Length0, local.Length1);
  }

  /**
   * SetDiagonal(A, alpha) on a distributed matrix: the test j < height and
   * j % colStride == colShift on each local column is the offset-0 form.
   */
  method SetDiagonalDist(L: Layout, q: int, local: array2<int>, alpha: int)
    requires L.Valid() && local.Length0 == L.LocalHeight(q) && local.Length1 == L.LocalWidth(q)
    modifies local
    ensures Contents(local) == LocalMap(L, q, old(Contents(local)), SetOnDiagonal(alpha, 0, LEFT, L.height, L.width))
  {
    SetDiagonalDistLoop(L, q, local, alpha, 0, LEFT);
  }

  /** SetDiagonal(A, alpha, offset, side) on a distributed matrix. */
  method SetDiagonalOffsetDist(L: Layout, q: int, local: array2<int>, alpha: int, offset: int, side: LeftOrRight)
    requires L.Valid() && local.Length0 == L.LocalHeight(q) && local.Length1 == L.LocalWidth(q)
    modifies local
    ensures Contents(local) == LocalMap(L, q, old(Contents(local)), SetOnDiagonal(alpha, offset, side, L.height, L.width))
  {
    SetDiagonalDistLoop(L, q, local, alpha, offset, side);
  }

  /** The distributed forms write exactly the global entries the local forms write. */
  lemma SetDiagonalDistributed(L: Layout, A: seq<seq<int>>, alpha: int, offset: int, side: LeftOrRight, q: int)
    requires L.Valid() && IsMatrix(A, L.height, L.width) && 0 <= q < L.Procs()
    ensures LocalMap(L, q, Distribute(L, A)[q], SetOnDiagonal(alpha, offset, side, L.height, L.width))
         == Distribute(L, SetDiagonalOf(A, L.height, L.width, alpha, offset, side))[q]
  {
    LocalMapDistributed(L, A, SetOnDiagonal(alpha, offset, side, L.height, L.width), q);
  }

  /** Without an offset exactly the entries (j, j), j < min(height, width), become alpha. */
  lemma SetDiagonalEntries(A: seq<seq<int>>, m: nat, n: nat, alpha: int, i: int, j: int)
    requires IsMatrix(A, m, n) && 0 <= i < m && 0 <= j < n
    ensures SetDiagonalOf(A, m, n, alpha, 0, LEFT)[i][j] == (if i == j then alpha else A[i][j])
    ensures i == j ==> j < (if m < n then m else n)
  {
  }

  /** A RIGHT offset diagonal is the LEFT diagonal of offset offset - (height - width). */
  lemma RightIsShiftedLeft(A: seq<seq<int>>, m: nat, n: nat, alpha: int, offset: int)
    requires IsMatrix(A, m, n)
    ensures SetDiagonalOf(A, m, n, alpha, offset, RIGHT) == SetDiagonalOf(A, m, n, alpha, offset - (m - n), LEFT)
  {
    MatrixExt(SetDiagonalOf(A, m, n, alpha, offset, RIGHT), SetDiagonalOf(A, m, n, alpha, offset - (m - n), LEFT), m, n);
  }
}
