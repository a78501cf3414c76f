/**
 * Entry access on a distributed matrix, simulated over the whole grid: one
 * local matrix per rank q of the distribution communicator (column rank
 * q % colStride, row rank q / colStride), each stored as a sequence of local
 * rows.  `Distribute` is the element-cyclic layout of a global matrix; every
 * operation is specified by what it does to the global matrix so laid out.
 */
module DistEntries {
  import opened Indexing
  import opened Grids
  import opened Locals
  import Errors
  import DistMatrices

  /** The layout of an m x n matrix over a colStride x rowStride process mesh. */
  datatype Layout = Layout(height: nat, width: nat, colAlign: int, rowAlign: int, colStride: nat, rowStride: nat)
  {
    predicate Valid()
    {
      colStride > 0 && rowStride > 0 && 0 <= colAlign < colStride && 0 <= rowAlign < rowStride
    }

    function Procs(): nat { colStride * rowStride }

    function ColShift(q: int): (s: int)
      requires Valid()
      ensures 0 <= s < colStride
    {
      Shift(q % colStride, colAlign, colStride)
    }

    function RowShift(q: int): (s: int)
      requires Valid()
      ensures 0 <= s < rowStride
    {
      Shift(q / colStride, rowAlign, rowStride)
    }

    function LocalHeight(q: int): nat
      requires Valid()
    {
      Length(height, ColShift(q), colStride)
    }

    function LocalWidth(q: int): nat
      requires Valid()
    {
      Length(width, RowShift(q), rowStride)
    }

    /** Global row of local row iLoc on process q. */
    function GlobalRow(q: int, iLoc: int): int
      requires Valid()
    {
      GlobalIndex(iLoc, ColShift(q), colStride)
    }

    function GlobalCol(q: int, jLoc: int): int
      requires Valid()
    {
      GlobalIndex(jLoc, RowShift(q), rowStride)
    }

    /** The distribution rank owning entry (i, j). */
    function Owner(i: int, j: int): int
      requires Valid()
    {
      IndexOwner(i, colAlign, colStride) + IndexOwner(j, rowAlign, rowStride) * colStride
    }

    predicate IsLocalRow(q: int, i: int)
      requires Valid()
    {
      IsLocalIndex(i, ColShift(q), colStride)
    }

    predicate IsLocalCol(q: int, j: int)
      requires Valid()
    {
      IsLocalIndex(j, RowShift(q), rowStride)
    }

    /** The local row of global row i on process q, by truncating division as in LocalRow. */
    function LocalRow(q: int, i: int): int
      requires Valid()
    {
      LocalIndex(i, ColShift(q), colStride)
    }

    function LocalCol(q: int, j: int): int
      requires Valid()
    {
      LocalIndex(j, RowShift(q), rowStride)
    }
  }

  /** One local matrix of the right shape per process. */
  predicate Shaped<T>(L: Layout, locals: seq<seq<seq<T>>>)
    requires L.Valid()
  {
    |locals| == L.Procs()
    && forall q :: 0 <= q < |locals| ==> IsMatrix(locals[q], L.LocalHeight(q), L.LocalWidth(q))
  }

  // ---------------------------------------------------------------------
  // Index facts
  // ---------------------------------------------------------------------

  /** Ranks split into a column rank and a row rank. */
  lemma RankSplit(L: Layout, q: int)
    requires L.Valid() && 0 <= q < L.Procs()
    ensures 0 <= q % L.colStride < L.colStride && 0 <= q / L.colStride < L.rowStride
    ensures q == q % L.colStride + (q / L.colStride) * L.colStride
  {
    var cs := L.colStride;
    assert q == (q / cs) * cs + q % cs;
    if q / cs >= L.rowStride {
      MulMono(L.rowStride, q / cs, cs);
    }
  }

  /** Process q holds row i iff i's owner row is q's column rank; likewise for columns. */
  lemma HoldsIffOwner(L: Layout, q: int, i: int, j: int)
    requires L.Valid() && 0 <= q < L.Procs() && i >= 0 && j >= 0
    ensures (L.IsLocalRow(q, i) && L.IsLocalCol(q, j)) <==> L.Owner(i, j) == q
  {
    RankSplit(L, q);
    LocalIffOwner(i, q % L.colStride, L.colAlign, L.colStride);
    LocalIffOwner(j, q / L.colStride, L.rowAlign, L.rowStride);
    SplitRank(IndexOwner(i, L.colAlign, L.colStride), IndexOwner(j, L.rowAlign, L.rowStride), L.colStride);
  }

  /** The owner of an entry is a process of the mesh. */
  lemma OwnerIsProcess(L: Layout, i: int, j: int)
    requires L.Valid() && i >= 0 && j >= 0
    ensures 0 <= L.Owner(i, j) < L.Procs()
  {
    VCInRange(IndexOwner(i, L.colAlign, L.colStride), IndexOwner(j, L.rowAlign, L.rowStride), L.colStride, L.rowStride);
  }

  /** A local row of q that lies inside the matrix is a row of q's local storage, and back. */
  lemma LocalRowInRange(L: Layout, q: int, i: int)
    requires L.Valid() && L.IsLocalRow(q, i) && 0 <= i
    ensures 0 <= L.LocalRow(q, i) && L.GlobalRow(q, L.LocalRow(q, i)) == i
    ensures i < L.height <==> L.LocalRow(q, i) < L.LocalHeight(q)
  {
    GlobalOfLocal(i, L.ColShift(q), L.colStride);
    LengthIndex(L.height, L.ColShift(q), L.colStride, L.LocalRow(q, i));
  }

  lemma LocalColInRange(L: Layout, q: int, j: int)
    requires L.Valid() && L.IsLocalCol(q, j) && 0 <= j
    ensures 0 <= L.LocalCol(q, j) && L.GlobalCol(q, L.LocalCol(q, j)) == j
    ensures j < L.width <==> L.LocalCol(q, j) < L.LocalWidth(q)
  {
    GlobalOfLocal(j, L.RowShift(q), L.rowStride);
    LengthIndex(L.width, L.RowShift(q), L.rowStride, L.LocalCol(q, j));
  }

  /** Local entry (iLoc, jLoc) of q is the global entry q holds, inside the matrix. */
  lemma GlobalInRange(L: Layout, q: int, iLoc: int, jLoc: int)
    requires L.Valid() && 0 <= iLoc < L.LocalHeight(q) && 0 <= jLoc < L.LocalWidth(q)
    ensures 0 <= L.GlobalRow(q, iLoc) < L.height && 0 <= L.GlobalCol(q, jLoc) < L.width
    ensures L.IsLocalRow(q, L.GlobalRow(q, iLoc)) && L.LocalRow(q, L.GlobalRow(q, iLoc)) == iLoc
    ensures L.IsLocalCol(q, L.GlobalCol(q, jLoc)) && L.LocalCol(q, L.GlobalCol(q, jLoc)) == jLoc
  {
    LengthIndex(L.height, L.ColShift(q), L.colStride, iLoc);
    LengthIndex(L.width, L.RowShift(q), L.rowStride, jLoc);
    LocalOfGlobal(iLoc, L.ColShift(q), L.colStride);
    LocalOfGlobal(jLoc, L.RowShift(q), L.rowStride);
  }

  /** A local row of q inside the matrix is global row i exactly when i is local to q there. */
  lemma RowMatch(L: Layout, q: int, iLoc: int, i: int)
    requires L.Valid() && 0 <= iLoc < L.LocalHeight(q) && 0 <= i < L.height
    ensures (L.GlobalRow(q, iLoc) == i) <==> (L.IsLocalRow(q, i) && L.LocalRow(q, i) == iLoc)
  {
    LengthIndex(L.height, L.ColShift(q), L.colStride, iLoc);
    LocalOfGlobal(iLoc, L.ColShift(q), L.colStride);
    if L.IsLocalRow(q, i) {
      LocalRowInRange(L, q, i);
    }
  }

  lemma ColMatch(L: Layout, q: int, jLoc: int, j: int)
    requires L.Valid() && 0 <= jLoc < L.LocalWidth(q) && 0 <= j < L.width
    ensures (L.GlobalCol(q, jLoc) == j) <==> (L.IsLocalCol(q, j) && L.LocalCol(q, j) == jLoc)
  {
    LengthIndex(L.width, L.RowShift(q), L.rowStride, jLoc);
    LocalOfGlobal(jLoc, L.RowShift(q), L.rowStride);
    if L.IsLocalCol(q, j) {
      LocalColInRange(L, q, j);
    }
  }

  lemma TargetRowInRange(L: Layout, q: int, i: int)
    requires L.Valid() && 0 <= i < L.height && i % L.colStride == L.ColShift(q)
    ensures 0 <= (i - L.ColShift(q)) / L.colStride < L.LocalHeight(q)
  {
    var cs, s := L.colStride, L.ColShift(q);
    assert i == (i / cs) * cs + s;
    UniqueDivMod(i - s, cs, i / cs, 0);
    LengthIndex(L.height, s, cs, i / cs);
  }

  /**
   * The test the kernels use to find the local row of global row i: i is
   * inside the matrix, i % colStride == colShift, and then the local row is
   * (i - colShift) / colStride.
   */
  lemma TargetRow(L: Layout, q: int, i: int)
    requires L.Valid()
    ensures forall iLoc :: 0 <= iLoc < L.LocalHeight(q) ==>
      ((L.GlobalRow(q, iLoc) == i) <==> (0 <= i < L.height && i % L.colStride == L.ColShift(q) && iLoc == (i - L.ColShift(q)) / L.colStride))
    ensures 0 <= i < L.height && i % L.colStride == L.ColShift(q) ==> 0 <= (i - L.ColShift(q)) / L.colStride < L.LocalHeight(q)
  {
    var cs, s := L.colStride, L.ColShift(q);
    if 0 <= i < L.height && i % cs == s {
      TargetRowInRange(L, q, i);
    }
    forall iLoc | 0 <= iLoc < L.LocalHeight(q)
      ensures (L.GlobalRow(q, iLoc) == i) <==> (0 <= i < L.height && i % cs == s && iLoc == (i - s) / cs)
    {
      LengthIndex(L.height, s, cs, iLoc);
      if L.GlobalRow(q, iLoc) == i {
        UniqueDivMod(i, cs, iLoc, s);
        UniqueDivMod(i - s, cs, iLoc, 0);
      } else if 0 <= i < L.height && i % cs == s && iLoc == (i - s) / cs {
        assert i == (i / cs) * cs + s;
        UniqueDivMod(i - s, cs, i / cs, 0);
      }
    }
  }

  // ---------------------------------------------------------------------
  // The element-cyclic layout
  // ---------------------------------------------------------------------

  function DistEntry<T>(L: Layout, A: seq<seq<T>>, q: int, iLoc: int, jLoc: int): T
    requires L.Valid() && IsMatrix(A, L.height, L.width)
    requires 0 <= iLoc < L.LocalHeight(q) && 0 <= jLoc < L.LocalWidth(q)
  {
    GlobalInRange(L, q, iLoc, jLoc);
    A[L.GlobalRow(q, iLoc)][L.GlobalCol(q, jLoc)]
  }

  /** Local entry (iLoc, jLoc) of process q is global entry (colShift + iLoc*colStride, rowShift + jLoc*rowStride). */
  function Distribute<T>(L: Layout, A: seq<seq<T>>): (locals: seq<seq<seq<T>>>)
    requires L.Valid() && IsMatrix(A, L.height, L.width)
    ensures Shaped(L, locals)
  {
    var r := seq(L.Procs(), q => DistLocal(L, A, q));
    assert forall q :: 0 <= q < |r| ==> r[q] == DistLocal(L, A, q);
    r
  }

  /** The local matrix of process q under the element-cyclic layout. */
  function DistLocal<T>(L: Layout, A: seq<seq<T>>, q: int): (local: seq<seq<T>>)
    requires L.Valid() && IsMatrix(A, L.height, L.width)
    ensures IsMatrix(local, L.LocalHeight(q), L.LocalWidth(q))
  {
    seq(L.LocalHeight(q), iLoc requires 0 <= iLoc < L.LocalHeight(q) =>
      seq(L.LocalWidth(q), jLoc requires 0 <= jLoc < L.LocalWidth(q) => DistEntry(L, A, q, iLoc, jLoc)))
  }

  /** Every global entry appears in Distribute(A), at its owner's local indices. */
  lemma DistributeHoldsEntry<T>(L: Layout, A: seq<seq<T>>, i: int, j: int)
    requires L.Valid() && IsMatrix(A, L.height, L.width) && 0 <= i < L.height && 0 <= j < L.width
    ensures var q := L.Owner(i, j);
      0 <= q < L.Procs()
      && 0 <= L.LocalRow(q, i) < L.LocalHeight(q) && 0 <= L.LocalCol(q, j) < L.LocalWidth(q)
      && Distribute(L, A)[q][L.LocalRow(q, i)][L.LocalCol(q, j)] == A[i][j]
  {
    var q := L.Owner(i, j);
    OwnerIsProcess(L, i, j);
    HoldsIffOwner(L, q, i, j);
    LocalRowInRange(L, q, i);
    LocalColInRange(L, q, j);
  }

  // ---------------------------------------------------------------------
  // Single-entry access
  // ---------------------------------------------------------------------

  /** What the owner reads: its local entry at ((i - colShift)/colStride, (j - rowShift)/rowStride). */
  function OwnerValue<T>(L: Layout, locals: seq<seq<seq<T>>>, i: int, j: int): T
    requires L.Valid() && Shaped(L, locals) && 0 <= i < L.height && 0 <= j < L.width
  {
    var q := L.Owner(i, j);
    OwnerIsProcess(L, i, j);
    HoldsIffOwner(L, q, i, j);
    LocalRowInRange(L, q, i);
    LocalColInRange(L, q, j);
    locals[q][CDiv(i - L.ColShift(q), L.colStride)][CDiv(j - L.RowShift(q), L.rowStride)]
  }

  /** Get: the owner reads its entry and broadcasts it; every process returns the same value. */
  function Get<T>(L: Layout, locals: seq<seq<seq<T>>>, i: int, j: int): (v: seq<T>)
    requires L.Valid() && Shaped(L, locals) && 0 <= i < L.height && 0 <= j < L.width
    ensures |v| == L.Procs()
  {
    seq(L.Procs(), q => OwnerValue(L, locals, i, j))
  }

  /** Every process's Get of the distributed A returns A(i, j). */
  lemma GetDistributed<T>(L: Layout, A: seq<seq<T>>, i: int, j: int)
    requires L.Valid() && IsMatrix(A, L.height, L.width) && 0 <= i < L.height && 0 <= j < L.width
    ensures forall q :: 0 <= q < L.Procs() ==> Get(L, Distribute(L, A), i, j)[q] == A[i][j]
  {
    DistributeHoldsEntry(L, A, i, j);
  }

  /** The local matrix of process q after Set/Update: only the owner changes, at its local indices. */
  function WriteOnProcess<T>(L: Layout, q: int, local: seq<seq<T>>, i: int, j: int, f: T -> T): (r: seq<seq<T>>)
    requires L.Valid() && IsMatrix(local, L.LocalHeight(q), L.LocalWidth(q))
    requires 0 <= i < L.height && 0 <= j < L.width && 0 <= q < L.Procs()
    ensures IsMatrix(r, L.LocalHeight(q), L.LocalWidth(q))
  {
    if L.Owner(i, j) == q then
      HoldsIffOwner(L, q, i, j);
      LocalRowInRange(L, q, i);
      LocalColInRange(L, q, j);
      var iLoc, jLoc := CDiv(i - L.ColShift(q), L.colStride), CDiv(j - L.RowShift(q), L.rowStride);
      local[iLoc := local[iLoc][jLoc := f(local[iLoc][jLoc])]]
    else local
  }

  function WriteAll<T>(L: Layout, locals: seq<seq<seq<T>>>, i: int, j: int, f: T -> T): (r: seq<seq<seq<T>>>)
    requires L.Valid() && Shaped(L, locals) && 0 <= i < L.height && 0 <= j < L.width
    ensures Shaped(L, r)
  {
    seq(L.Procs(), q requires 0 <= q < L.Procs() => WriteOnProcess(L, q, locals[q], i, j, f))
  }

  /** Set(i, j, value) on every process. */
  function Set<T>(L: Layout, locals: seq<seq<seq<T>>>, i: int, j: int, value: T): (r: seq<seq<seq<T>>>)
    requires L.Valid() && Shaped(L, locals) && 0 <= i < L.height && 0 <= j < L.width
    ensures Shaped(L, r)
  {
    WriteAll(L, locals, i, j, _ => value)
  }

  /** Update(i, j, value) on every process: the owner adds value. */
  function Update(L: Layout, locals: seq<seq<seq<int>>>, i: int, j: int, value: int): (r: seq<seq<seq<int>>>)
    requires L.Valid() && Shaped(L, locals) && 0 <= i < L.height && 0 <= j < L.width
    ensures Shaped(L, r)
  {
    WriteAll(L, locals, i, j, x => x + value)
  }

  /** A with entry (i, j) replaced by f of itself. */
  function WriteEntry<T>(A: seq<seq<T>>, i: nat, j: nat, f: T -> T): (B: seq<seq<T>>)
    requires i < |A| && j < |A[i]|
    ensures |B| == |A| && forall k :: 0 <= k < |A| ==> |B[k]| == |A[k]|
  {
    A[i := A[i][j := f(A[i][j])]]
  }

  /** At one local entry: the owner's written entry is the written global entry, every other is unchanged. */
  lemma WriteOnProcessAt<T>(L: Layout, A: seq<seq<T>>, i: int, j: int, f: T -> T, q: int, iLoc: int, jLoc: int)
    requires L.Valid() && IsMatrix(A, L.height, L.width) && 0 <= i < L.height && 0 <= j < L.width
    requires 0 <= q < L.Procs() && 0 <= iLoc < L.LocalHeight(q) && 0 <= jLoc < L.LocalWidth(q)
    ensures IsMatrix(WriteEntry(A, i, j, f), L.height, L.width)
    ensures WriteOnProcess(L, q, Distribute(L, A)[q], i, j, f)[iLoc][jLoc]
         == Distribute(L, WriteEntry(A, i, j, f))[q][iLoc][jLoc]
  {
    GlobalInRange(L, q, iLoc, jLoc);
    var gi, gj := L.GlobalRow(q, iLoc), L.GlobalCol(q, jLoc);
    HoldsIffOwner(L, q, gi, gj);
    HoldsIffOwner(L, q, i, j);
    if L.Owner(i, j) == q {
      LocalRowInRange(L, q, i);
      LocalColInRange(L, q, j);
    }
  }

  /** Writing one entry on its owner is writing that entry of the global matrix, and nothing else. */
  lemma WriteAllDistributed<T>(L: Layout, A: seq<seq<T>>, i: int, j: int, f: T -> T)
    requires L.Valid() && IsMatrix(A, L.height, L.width) && 0 <= i < L.height && 0 <= j < L.width
    ensures IsMatrix(WriteEntry(A, i, j, f), L.height, L.width)
    ensures WriteAll(L, Distribute(L, A), i, j, f) == Distribute(L, WriteEntry(A, i, j, f))
  {
    var B := WriteEntry(A, i, j, f);
    var lhs, rhs := WriteAll(L, Distribute(L, A), i, j, f), Distribute(L, B);
    forall q | 0 <= q < L.Procs()
      ensures lhs[q] == rhs[q]
    {
      forall iLoc, jLoc | 0 <= iLoc < L.LocalHeight(q) && 0 <= jLoc < L.LocalWidth(q)
        ensures lhs[q][iLoc][jLoc] == rhs[q][iLoc][jLoc]
      {
        WriteOnProcessAt(L, A, i, j, f, q, iLoc, jLoc);
      }
      MatrixExt(lhs[q], rhs[q], L.LocalHeight(q), L.LocalWidth(q));
    }
  }

  lemma SetDistributed<T>(L: Layout, A: seq<seq<T>>, i: int, j: int, value: T)
    requires L.Valid() && IsMatrix(A, L.height, L.width) && 0 <= i < L.height && 0 <= j < L.width
    ensures IsMatrix(A[i := A[i][j := value]], L.height, L.width)
    ensures Set(L, Distribute(L, A), i, j, value) == Distribute(L, A[i := A[i][j := value]])
  {
    WriteAllDistributed(L, A, i, j, _ => value);
    assert WriteEntry(A, i, j, _ => value) == A[i := A[i][j := value]];
  }

  lemma UpdateDistributed(L: Layout, A: seq<seq<int>>, i: int, j: int, value: int)
    requires L.Valid() && IsMatrix(A, L.height, L.width) && 0 <= i < L.height && 0 <= j < L.width
    ensures IsMatrix(A[i := A[i][j := A[i][j] + value]], L.height, L.width)
    ensures Update(L, Distribute(L, A), i, j, value) == Distribute(L, A[i := A[i][j := A[i][j] + value]])
  {
    WriteAllDistributed(L, A, i, j, x => x + value);
    assert WriteEntry(A, i, j, x => x + value) == A[i := A[i][j := A[i][j] + value]];
  }

  // ---------------------------------------------------------------------
  // Entry-wise kernels
  // ---------------------------------------------------------------------

  // GlobalMap and LocalMap are closed forms: their ensures spell the
  // definitions out entrywise, and LocalMapDistributed is their property.

  /** The global matrix with entry (i, j) replaced by F(i, j, A(i, j)). */
  function GlobalMap(A: seq<seq<int>>, m: nat, n: nat, F: (int, int, int) -> int): (B: seq<seq<int>>)
    requires IsMatrix(A, m, n)
    ensures IsMatrix(B, m, n)
    ensures forall i, j :: 0 <= i < m && 0 <= j < n ==> B[i][j] == F(i, j, A[i][j])
  {
    seq(m, i requires 0 <= i < m => seq(n, j requires 0 <= j < n => F(i, j, A[i][j])))
  }

  /** Process q's local matrix with each entry replaced by F of its global indices and itself. */
  function LocalMap(L: Layout, q: int, local: seq<seq<int>>, F: (int, int, int) -> int): (r: seq<seq<int>>)
    requires L.Valid() && IsMatrix(local, L.LocalHeight(q), L.LocalWidth(q))
    ensures IsMatrix(r, L.LocalHeight(q), L.LocalWidth(q))
    ensures forall iLoc, jLoc :: 0 <= iLoc < L.LocalHeight(q) && 0 <= jLoc < L.LocalWidth(q) ==>
      r[iLoc][jLoc] == F(L.GlobalRow(q, iLoc), L.GlobalCol(q, jLoc), local[iLoc][jLoc])
  {
    seq(L.LocalHeight(q), iLoc requires 0 <= iLoc < L.LocalHeight(q) =>
      seq(L.LocalWidth(q), jLoc requires 0 <= jLoc < L.LocalWidth(q) =>
        F(L.GlobalRow(q, iLoc), L.GlobalCol(q, jLoc), local[iLoc][jLoc])))
  }

  /** A kernel that rewrites every local entry from its global indices rewrites the distributed matrix. */
  lemma LocalMapDistributed(L: Layout, A: seq<seq<int>>, F: (int, int, int) -> int, q: int)
    requires L.Valid() && IsMatrix(A, L.height, L.width) && 0 <= q < L.Procs()
    ensures LocalMap(L, q, Distribute(L, A)[q], F) == Distribute(L, GlobalMap(A, L.height, L.width, F))[q]
  {
    var X, Y := LocalMap(L, q, Distribute(L, A)[q], F), Distribute(L, GlobalMap(A, L.height, L.width, F))[q];
    forall iLoc, jLoc | 0 <= iLoc < L.LocalHeight(q) && 0 <= jLoc < L.LocalWidth(q)
      ensures X[iLoc][jLoc] == Y[iLoc][jLoc]
    {
      GlobalInRange(L, q, iLoc, jLoc);
    }
    MatrixExt(X, Y, L.LocalHeight(q), L.LocalWidth(q));
  }

  // ---------------------------------------------------------------------
  // Views
  // ---------------------------------------------------------------------

  /**
   * The layout of the h x w view of L whose top-left entry is global (i0, j0):
   * the same process mesh, with alignments (colAlign + i0) % colStride and
   * (rowAlign + j0) % rowStride.
   */
  function ViewLayout(L: Layout, i0: nat, j0: nat, h: nat, w: nat): (V: Layout)
    requires L.Valid()
    ensures V.Valid() && V.height == h && V.width == w
    ensures V.colStride == L.colStride && V.rowStride == L.rowStride
  {
    Layout(h, w, (L.colAlign + i0) % L.colStride, (L.rowAlign + j0) % L.rowStride, L.colStride, L.rowStride)
  }

  /** The parent's local row at which process q's part of a view starting at global row i0 begins. */
  function ViewRowOffset(L: Layout, q: int, i0: nat): nat
    requires L.Valid()
  {
    Length(i0, L.ColShift(q), L.colStride)
  }

  function ViewColOffset(L: Layout, q: int, j0: nat): nat
    requires L.Valid()
  {
    Length(j0, L.RowShift(q), L.rowStride)
  }

  /**
   * The view's local rows are a contiguous run of the parent's: view local
   * row k is parent local row ViewRowOffset + k, one global row i0 further
   * down, and the parent's local rows in that run are exactly those whose
   * global rows lie in [i0, i0 + h).
   */
  lemma ViewRows(L: Layout, V: Layout, q: int, i0: nat, j0: nat, h: nat, w: nat)
    requires L.Valid() && i0 + h <= L.height && V == ViewLayout(L, i0, j0, h, w)
    ensures ViewRowOffset(L, q, i0) + V.LocalHeight(q) <= L.LocalHeight(q)
    ensures forall k :: 0 <= k < V.LocalHeight(q) ==>
      L.GlobalRow(q, ViewRowOffset(L, q, i0) + k) == i0 + V.GlobalRow(q, k)
    ensures forall iL :: 0 <= iL < L.LocalHeight(q) ==>
      (i0 <= L.GlobalRow(q, iL) < i0 + h <==> ViewRowOffset(L, q, i0) <= iL < ViewRowOffset(L, q, i0) + V.LocalHeight(q))
  {
    var cs, s, off := L.colStride, L.ColShift(q), ViewRowOffset(L, q, i0);
    ViewShift(q % cs, L.colAlign, i0, cs);
    assert V.ColShift(q) == (s - i0) % cs;
    ViewSplit(i0, h, s, cs);
    LengthMonotone(i0 + h, L.height, s, cs);
    forall k | 0 <= k < V.LocalHeight(q)
      ensures L.GlobalRow(q, off + k) == i0 + V.GlobalRow(q, k)
    {
      ViewIndex(i0, s, cs, k);
    }
    forall iL | 0 <= iL < L.LocalHeight(q)
      ensures i0 <= L.GlobalRow(q, iL) < i0 + h <==> off <= iL < off + V.LocalHeight(q)
    {
      LengthIndex(i0, s, cs, iL);
      LengthIndex(i0 + h, s, cs, iL);
    }
  }

  lemma ViewCols(L: Layout, V: Layout, q: int, i0: nat, j0: nat, h: nat, w: nat)
    requires L.Valid() && j0 + w <= L.width && V == ViewLayout(L, i0, j0, h, w)
    ensures ViewColOffset(L, q, j0) + V.LocalWidth(q) <= L.LocalWidth(q)
    ensures forall k :: 0 <= k < V.LocalWidth(q) ==>
      L.GlobalCol(q, ViewColOffset(L, q, j0) + k) == j0 + V.GlobalCol(q, k)
    ensures forall jL :: 0 <= jL < L.LocalWidth(q) ==>
      (j0 <= L.GlobalCol(q, jL) < j0 + w <==> ViewColOffset(L, q, j0) <= jL < ViewColOffset(L, q, j0) + V.LocalWidth(q))
  {
    var rs, s, off := L.rowStride, L.RowShift(q), ViewColOffset(L, q, j0);
    ViewShift(q / L.colStride, L.rowAlign, j0, rs);
    assert V.RowShift(q) == (s - j0) % rs;
    ViewSplit(j0, w, s, rs);
    LengthMonotone(j0 + w, L.width, s, rs);
    forall k | 0 <= k < V.LocalWidth(q)
      ensures L.GlobalCol(q, off + k) == j0 + V.GlobalCol(q, k)
    {
      ViewIndex(j0, s, rs, k);
    }
    forall jL | 0 <= jL < L.LocalWidth(q)
      ensures j0 <= L.GlobalCol(q, jL) < j0 + w <==> off <= jL < off + V.LocalWidth(q)
    {
      LengthIndex(j0, s, rs, jL);
      LengthIndex(j0 + w, s, rs, jL);
    }
  }

  // ---------------------------------------------------------------------
  // Real and imaginary parts
  // ---------------------------------------------------------------------

  datatype Complex = Complex(re: int, im: int)

  /**
   * GetImagPart as written: the owner reads the real part of its entry.
   * Its body is GetRealPart's; that identity is the defect of
   * src/core/dist_matrix/abstract.cpp:780, which calls GetLocalRealPart.
   */
  function GetImagPartAsWritten(L: Layout, locals: seq<seq<seq<Complex>>>, i: int, j: int): (v: seq<int>)
    requires L.Valid() && Shaped(L, locals) && 0 <= i < L.height && 0 <= j < L.width
    ensures |v| == L.Procs()
  {
    seq(L.Procs(), q => OwnerValue(L, locals, i, j).re)
  }

  /** GetImagPart as intended: the owner reads the imaginary part. */
  function GetImagPart(L: Layout, locals: seq<seq<seq<Complex>>>, i: int, j: int): (v: seq<int>)
    requires L.Valid() && Shaped(L, locals) && 0 <= i < L.height && 0 <= j < L.width
    ensures |v| == L.Procs()
  {
    seq(L.Procs(), q => OwnerValue(L, locals, i, j).im)
  }

  function GetRealPart(L: Layout, locals: seq<seq<seq<Complex>>>, i: int, j: int): (v: seq<int>)
    requires L.Valid() && Shaped(L, locals) && 0 <= i < L.height && 0 <= j < L.width
    ensures |v| == L.Procs()
  {
    seq(L.Procs(), q => OwnerValue(L, locals, i, j).re)
  }

  /** On the distributed A, the parts read are those of A(i, j); the as-written imaginary part is the real one. */
  lemma PartsDistributed(L: Layout, A: seq<seq<Complex>>, i: int, j: int)
    requires L.Valid() && IsMatrix(A, L.height, L.width) && 0 <= i < L.height && 0 <= j < L.width
    ensures forall q :: 0 <= q < L.Procs() ==>
      GetRealPart(L, Distribute(L, A), i, j)[q] == A[i][j].re
      && GetImagPart(L, Distribute(L, A), i, j)[q] == A[i][j].im
      && GetImagPartAsWritten(L, Distribute(L, A), i, j)[q] == A[i][j].re
  {
    DistributeHoldsEntry(L, A, i, j);
  }

  /**
   * Whenever the requested entry's real and imaginary parts differ (1 + 2i,
   * say), every process gets a wrong imaginary part from GetImagPart as written.
   */
  lemma GetImagPartAsWrittenIsWrong(L: Layout, A: seq<seq<Complex>>, i: int, j: int)
    requires L.Valid() && IsMatrix(A, L.height, L.width) && 0 <= i < L.height && 0 <= j < L.width
    requires A[i][j].re != A[i][j].im
    ensures forall q :: 0 <= q < L.Procs() ==>
      GetImagPartAsWritten(L, Distribute(L, A), i, j)[q] != A[i][j].im
  {
    PartsDistributed(L, A, i, j);
  }

  // ---------------------------------------------------------------------
  // The cross broadcast
  // ---------------------------------------------------------------------

  /**
   * The closing mpi::Broadcast(value, Root(), CrossComm()) of the queries:
   * before[x][d] is what the process of cross rank x and distribution rank
   * d holds.  Only the root's cross group computed anything; each cross
   * communicator (a fixed d) receives the value of its member of cross rank
   * root.
   */
  function CrossBroadcast<T>(before: seq<seq<T>>, root: int): (after: seq<seq<T>>)
    requires 0 <= root < |before|
    ensures |after| == |before|
    ensures forall x :: 0 <= x < |after| ==> |after[x]| == |before[root]|
  {
    seq(|before|, x requires 0 <= x < |before| => before[root])
  }

  /**
   * After the cross broadcast every process, inside the root's cross group
   * or not, holds what the process of its distribution rank in the root's
   * group computed, whatever it held before.
   */
  lemma CrossBroadcastRootValue<T>(before: seq<seq<T>>, root: int, d: int)
    requires 0 <= root < |before| && 0 <= d < |before[root]|
    ensures forall x :: 0 <= x < |before| ==> CrossBroadcast(before, root)[x][d] == before[root][d]
  {
  }

  /** Get on every process of the viewing grid: the root's group computes A(i, j), and the broadcast hands it to all. */
  lemma GetEveryProcess<T>(L: Layout, A: seq<seq<T>>, i: int, j: int, before: seq<seq<T>>, root: int)
    requires L.Valid() && IsMatrix(A, L.height, L.width) && 0 <= i < L.height && 0 <= j < L.width
    requires 0 <= root < |before| && before[root] == Get(L, Distribute(L, A), i, j)
    ensures forall x, d :: 0 <= x < |before| && 0 <= d < L.Procs() ==> CrossBroadcast(before, root)[x][d] == A[i][j]
  {
    GetDistributed(L, A, i, j);
  }

  /** GetRealPart and GetImagPart likewise, after their own cross broadcasts. */
  lemma PartsEveryProcess(L: Layout, A: seq<seq<Complex>>, i: int, j: int, reBefore: seq<seq<int>>, imBefore: seq<seq<int>>, root: int)
    requires L.Valid() && IsMatrix(A, L.height, L.width) && 0 <= i < L.height && 0 <= j < L.width
    requires 0 <= root < |reBefore| && reBefore[root] == GetRealPart(L, Distribute(L, A), i, j)
    requires 0 <= root < |imBefore| && imBefore[root] == GetImagPart(L, Distribute(L, A), i, j)
    ensures forall x, d :: 0 <= x < |reBefore| && 0 <= d < L.Procs() ==> CrossBroadcast(reBefore, root)[x][d] == A[i][j].re
    ensures forall x, d :: 0 <= x < |imBefore| && 0 <= d < L.Procs() ==> CrossBroadcast(imBefore, root)[x][d] == A[i][j].im
  {
    PartsDistributed(L, A, i, j);
  }

  // ---------------------------------------------------------------------
  // One process's metadata and the whole-grid layout
  // ---------------------------------------------------------------------

  /** The whole-grid layout of a matrix whose metadata on some process is M. */
  function LayoutOf(M: DistMatrices.Meta): (L: Layout)
    requires M.Settled()
    ensures L.Valid() && L.height == M.height && L.width == M.width
    ensures L.colStride == M.ColStride() && L.rowStride == M.RowStride()
    ensures L.colAlign == M.colAlign && L.rowAlign == M.rowAlign
  {
    Layout(M.height, M.width, M.colAlign, M.rowAlign, M.ColStride(), M.RowStride())
  }

  /**
   * Ownership and local indices are one concept: on a participating
   * process the queries of its metadata M (DistMatrices.Meta) are those of
   * the layout at its distribution rank M.DistRank().
   */
  lemma MetaIsLayoutAtRank(M: DistMatrices.Meta, i: int, j: int)
    requires M.Settled() && M.Participating()
    ensures 0 <= M.DistRank() < LayoutOf(M).Procs()
    ensures LayoutOf(M).ColShift(M.DistRank()) == M.colShift && LayoutOf(M).RowShift(M.DistRank()) == M.rowShift
    ensures M.Owner(i, j) == LayoutOf(M).Owner(i, j)
    ensures M.IsLocalRow(i) <==> LayoutOf(M).IsLocalRow(M.DistRank(), i)
    ensures M.IsLocalCol(j) <==> LayoutOf(M).IsLocalCol(M.DistRank(), j)
    ensures M.IsLocalRow(i) ==> M.LocalRow(i) == Errors.Success(LayoutOf(M).LocalRow(M.DistRank(), i))
    ensures M.IsLocalCol(j) ==> M.LocalCol(j) == Errors.Success(LayoutOf(M).LocalCol(M.DistRank(), j))
    ensures M.Valid() ==> M.localHeight == LayoutOf(M).LocalHeight(M.DistRank()) && M.localWidth == LayoutOf(M).LocalWidth(M.DistRank())
  {
    VCInRange(M.ColRank(), M.RowRank(), M.ColStride(), M.RowStride());
    SplitRank(M.ColRank(), M.RowRank(), M.ColStride());
  }
}
