/**
 * MakeIdentity and Identity: zero a matrix, then write 1 on its main
 * diagonal; on a local matrix through Set(j, j, 1), on a distributed one by
 * testing the global indices of every local entry.  Identity resizes first.
 */
module Identities {
  import opened Locals
  import opened DistEntries
  import opened Diagonals

  /** The entry MakeIdentity leaves at global (i, j). */
  function IdentityEntry(): (int, int, int) -> int
  {
    (i, j, x) => if i == j then 1 else 0
  }

  /** The m x n identity. */
  function IdentityOf(m: nat, n: nat): (I: seq<seq<int>>)
    ensures IsMatrix(I, m, n)
  {
    GlobalMap(Zeros(m, n), m, n, IdentityEntry())
  }

  /** MakeIdentity(I): Zero(I), then I(j, j) := 1 for j < min(height, width). */
  method MakeIdentity(I: array2<int>)
    modifies I
    ensures Contents(I) == IdentityOf(I.Length0, I.Length1)
  {
    var m, n := I.Length0, I.Length1;
    ZeroBlock(I, 0, 0, m, n);
    var minDim := if m < n then m else n;
    var j := 0;
    while j < minDim
      invariant 0 <= j <= minDim
      invariant forall i, jj :: 0 <= i < m && 0 <= jj < n ==> I[i, jj] == (if i == jj && jj < j then 1 else 0)
    {
      I[j, j] := 1;
      j := j + 1;
    }
    MatrixExt(Contents(I), IdentityOf(m, n), m, n);
  }

  /**
   * MakeIdentity on process q's local matrix: zero it, then write 1 at every
   * local (iLoc, jLoc) whose global indices colShift + iLoc*colStride and
   * rowShift + jLoc*rowStride are equal.
   */
  method MakeIdentityDist(L: Layout, q: int, local: array2<int>)
    requires L.Valid() && local.Length0 == L.LocalHeight(q) && local.Length1 == L.LocalWidth(q)
    modifies local
    ensures Contents(local) == LocalMap(L, q, old(Contents(local)), IdentityEntry())
  {
    ghost var L0 := Contents(local);
    var localHeight, localWidth := local.Length0, local.Length1;
    ZeroBlock(local, 0, 0, localHeight, localWidth);
    var colShift, rowShift, colStride, rowStride := L.ColShift(q), L.RowShift(q), L.colStride, L.rowStride;
    var jLoc := 0;
    while jLoc < localWidth
      invariant 0 <= jLoc <= localWidth
      invariant forall il, jl :: 0 <= il < localHeight && 0 <= jl < localWidth ==>
        local[il, jl] == (if jl < jLoc && L.GlobalRow(q, il) == L.GlobalCol(q, jl) then 1 else 0)
    {
      var j := rowShift + jLoc * rowStride;
      var iLoc := 0;
      while iLoc < localHeight
        invariant 0 <= iLoc <= localHeight
        invariant forall il, jl :: 0 <= il < localHeight && 0 <= jl < localWidth ==>
          local[il, jl] == (if (jl < jLoc || (jl == jLoc && il < iLoc)) && L.GlobalRow(q, il) == L.GlobalCol(q, jl) then 1 else 0)
      {
        var i := colShift + iLoc * colStride;
        if i == j {
          local[iLoc, jLoc] := 1;
        }
        iLoc := iLoc + 1;
      }
      jLoc := jLoc + 1;
    }
    MatrixExt(Contents(local), LocalMap(L, q, L0, IdentityEntry()), localHeight, localWidth);
  }

  /** Identity(I, m, n): I.Resize(m, n), modelled as fresh storage, then MakeIdentity. */
  method Identity(m: nat, n: nat) returns (I: array2<int>)
    ensures fresh(I) && I.Length0 == m && I.Length1 == n
    ensures Contents(I) == IdentityOf(m, n)
  {
    I := new int[m, n];
    MakeIdentity(I);
  }

  /**
   * Identity(I, m, n) on a distributed matrix, on process q: the layout takes
   * the new size, the local storage is reallocated to the local extents, and
   * MakeIdentity fills it with q's part of the m x n identity.
   */
  method IdentityDist(L0: Layout, q: int, m: nat, n: nat) returns (L: Layout, local: array2<int>)
    requires L0.Valid() && 0 <= q < L0.Procs()
    ensures L == L0.(height := m, width := n) && L.Valid()
    ensures fresh(local) && local.Length0 == L.LocalHeight(q) && local.Length1 == L.LocalWidth(q)
    ensures Contents(local) == Distribute(L, IdentityOf(m, n))[q]
  {
    L := L0.(height := m, width := n);
    local := new int[L.LocalHeight(q), L.LocalWidth(q)];
    ghost var X := Contents(local);
    MakeIdentityDist(L, q, local);
    IdentityDistributed(L, q, X);
  }

  /** Whatever a local matrix held, MakeIdentity leaves it as process q's part of the identity. */
  lemma IdentityDistributed(L: Layout, q: int, X: seq<seq<int>>)
    requires L.Valid() && 0 <= q < L.Procs() && IsMatrix(X, L.LocalHeight(q), L.LocalWidth(q))
    ensures LocalMap(L, q, X, IdentityEntry()) == Distribute(L, IdentityOf(L.height, L.width))[q]
  {
    var Z := Zeros(L.height, L.width);
    LocalMapDistributed(L, Z, IdentityEntry(), q);
    MatrixExt(LocalMap(L, q, X, IdentityEntry()), LocalMap(L, q, Distribute(L, Z)[q], IdentityEntry()),
              L.LocalHeight(q), L.LocalWidth(q));
  }

  /** The identity is the zero matrix with its main diagonal set to 1. */
  lemma IdentityIsUnitDiagonal(m: nat, n: nat)
    ensures IdentityOf(m, n) == SetDiagonalOf(Zeros(m, n), m, n, 1, 0, LEFT)
  {
    MatrixExt(IdentityOf(m, n), SetDiagonalOf(Zeros(m, n), m, n, 1, 0, LEFT), m, n);
  }
}
