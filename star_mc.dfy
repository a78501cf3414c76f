/**
 * The [* ,MC] distribution of the older DistMatrixBase interface: every
 * process holds all rows, and column j lives on process row
 * (j + rowAlignment) mod r.  The copies on the c processes of one process
 * row are identical, so the whole-grid view keeps one local matrix per MC
 * rank: the layout with row stride 1 and column stride r.
 */
module StarMCMatrices {
  import opened Indexing
  import Grids
  import opened Locals
  import opened DistEntries
  import opened Errors
  import opened Identities
  import opened Diagonals
  import opened Triangular

  /** The distributions a matrix can have along one dimension. */
  datatype Distribution = MC | MR | MD | VC | VR | STAR

  /** What AlignWith reads off the matrix it aligns with. */
  datatype AlignSource = AlignSource(colDist: Distribution, rowDist: Distribution,
                                     colAlign: int, rowAlign: int, colShift: int, rowShift: int)
  {
    /**
     * A valid matrix on grid g: its MC dimensions are aligned inside [0, r)
     * and shifted for this process's MC rank, its VC dimensions aligned
     * inside [0, p).
     */
    predicate ConsistentFor(g: Grids.Grid)
      requires g.Valid()
    {
      (colDist == MC ==> 0 <= colAlign < g.height && colShift == Shift(g.mcRank, colAlign, g.height))
      && (rowDist == MC ==> 0 <= rowAlign < g.height && rowShift == Shift(g.mcRank, rowAlign, g.height))
      && (colDist == VC ==> 0 <= colAlign < g.Size())
      && (rowDist == VC ==> 0 <= rowAlign < g.Size())
    }
  }

  /** The layout of an h x w [* ,MC] matrix on a grid with r process rows. */
  function StarMCLayout(r: nat, h: nat, w: nat, ra: int): (L: Layout)
    requires r > 0 && 0 <= ra < r
    ensures L.Valid() && L.Procs() == r && L.height == h && L.width == w
  {
    Layout(h, w, 0, ra, 1, r)
  }

  predicate IsStarMC(L: Layout)
  {
    L.Valid() && L.colAlign == 0 && L.colStride == 1
  }

  /** In a [* ,MC] layout, MC rank q holds every row, at its own index, and the columns of residue Shift(q, ra, r). */
  lemma StarMCIndices(L: Layout, q: int)
    requires IsStarMC(L) && 0 <= q < L.Procs()
    ensures L.Procs() == L.rowStride
    ensures L.ColShift(q) == 0 && L.RowShift(q) == Shift(q, L.rowAlign, L.rowStride)
    ensures L.LocalHeight(q) == L.height && L.LocalWidth(q) == Length(L.width, Shift(q, L.rowAlign, L.rowStride), L.rowStride)
    ensures forall iLoc :: L.GlobalRow(q, iLoc) == iLoc
  {
    assert q % 1 == 0 && q / 1 == q;
    assert forall iLoc :: iLoc * 1 == iLoc;
  }

  // ---------------------------------------------------------------------
  // Metadata: alignment, views, resizing
  // ---------------------------------------------------------------------

  /**
   * A [* ,MC] matrix as seen by one process.  When it is a view, its local
   * matrix is the localHeight x localWidth block of the viewed matrix's
   * local matrix that starts at (localRowOffset, localColOffset).  storing
   * says whether the local matrix owns memory (a MemorySize above 0); a
   * view owns none, and resizing to 0 x 0 keeps what the matrix owns.
   */
  class StarMC {
    const grid: Grids.Grid
    var height: nat
    var width: nat
    var rowAlign: int
    var rowShift: int
    var rowConstrained: bool
    var viewing: bool
    var locked: bool
    var localHeight: nat
    var localWidth: nat
    var localRowOffset: nat
    var localColOffset: nat
    var storing: bool

    /** The shift and the local extents agree with the alignment. */
    predicate Valid()
      reads this
    {
      grid.Valid() && 0 <= rowAlign < grid.height
      && rowShift == Shift(grid.mcRank, rowAlign, grid.height)
      && localHeight == height && localWidth == Length(width, rowShift, grid.height)
    }

    function DistLayout(): (L: Layout)
      reads this
      requires Valid()
      ensures IsStarMC(L)
    {
      StarMCLayout(grid.height, height, width, rowAlign)
    }

    /** A 0 x 0 matrix aligned at ra. */
    constructor(g: Grids.Grid, ra: int)
      requires g.Valid() && 0 <= ra < g.height
      ensures Valid() && grid == g && rowAlign == ra && height == 0 && width == 0
      ensures !rowConstrained && !viewing && !locked && !storing
    {
      grid := g;
      height, width := 0, 0;
      rowAlign := ra;
      rowShift := Shift(g.mcRank, ra, g.height);
      rowConstrained, viewing, locked := false, false, false;
      localHeight, localWidth := 0, 0;
      localRowOffset, localColOffset := 0, 0;
      storing := false;
    }

    /** The local extents are those of the layout, for this process's MC rank. */
    lemma LocalExtents()
      requires Valid()
      ensures 0 <= grid.mcRank < DistLayout().Procs()
      ensures localHeight == DistLayout().LocalHeight(grid.mcRank) && localWidth == DistLayout().LocalWidth(grid.mcRank)
    {
      StarMCIndices(DistLayout(), grid.mcRank);
    }

    /**
     * AlignRows: an alignment outside [0, r) is an error and changes
     * nothing; otherwise the shift follows from the MC rank, the alignment
     * becomes constrained and the matrix is emptied to 0 x 0.
     */
    method AlignRows(ra: int) returns (r: Outcome)
      requires Valid()
      modifies this
      ensures r == if 0 <= ra < grid.height then Pass else Fail("Invalid row alignment for [* ,MC]")
      ensures r.Fail? ==> unchanged(this)
      ensures r.Pass? ==> rowAlign == ra && rowShift == Shift(grid.mcRank, ra, grid.height) && rowConstrained
      ensures r.Pass? ==> height == 0 && width == 0 && localHeight == 0 && localWidth == 0
      ensures r.Pass? ==> (viewing == old(viewing) && locked == old(locked) && storing == old(storing)
        && localRowOffset == old(localRowOffset) && localColOffset == old(localColOffset))
      ensures Valid()
    {
      if ra < 0 || ra >= grid.height {
        return Fail("Invalid row alignment for [* ,MC]");
      }
      rowAlign := ra;
      rowShift := Shift(grid.mcRank, ra, grid.height);
      rowConstrained := true;
      height, width := 0, 0;
      localHeight, localWidth := 0, 0;
      r := Pass;
    }

    /**
     * AlignWith (and AlignRowsWith, which calls it): from an [MC,MR] or
     * [MC,* ] matrix the column alignment and shift are copied, from an
     * [MR,MC] or [* ,MC] matrix the row alignment and shift; the alignment
     * becomes constrained and the matrix is emptied.  The alignment must
     * not be constrained already.
     */
    method AlignWith(A: AlignSource)
      requires Valid() && A.ConsistentFor(grid) && !rowConstrained
      requires (A.colDist == MC && (A.rowDist == MR || A.rowDist == STAR))
            || (A.rowDist == MC && (A.colDist == MR || A.colDist == STAR))
      modifies this
      ensures rowAlign == (if A.colDist == MC then A.colAlign else A.rowAlign)
      ensures rowShift == (if A.colDist == MC then A.colShift else A.rowShift)
      ensures rowConstrained && height == 0 && width == 0 && localHeight == 0 && localWidth == 0
      ensures viewing == old(viewing) && locked == old(locked) && storing == old(storing)
        && localRowOffset == old(localRowOffset) && localColOffset == old(localColOffset)
      ensures Valid()
    {
      if A.colDist == MC {
        rowAlign, rowShift := A.colAlign, A.colShift;
      } else {
        rowAlign, rowShift := A.rowAlign, A.rowShift;
      }
      rowConstrained := true;
      height, width := 0, 0;
      localHeight, localWidth := 0, 0;
    }

    /**
     * View and LockedView of a whole matrix: its sizes, alignment, shift and
     * local matrix.  Every view method requires a free alignment and a
     * matrix that stores no data.
     */
    method View(A: StarMC, lock: bool)
      requires A.Valid() && A.grid == grid && A != this && !rowConstrained && !storing
      modifies this
      ensures height == A.height && width == A.width && rowAlign == A.rowAlign && rowShift == A.rowShift
      ensures localHeight == A.localHeight && localWidth == A.localWidth && localRowOffset == 0 && localColOffset == 0
      ensures viewing && locked == lock && !rowConstrained && !storing
      ensures Valid()
    {
      height, width := A.height, A.width;
      rowAlign, rowShift := A.rowAlign, A.rowShift;
      localHeight, localWidth := A.localHeight, A.localWidth;
      localRowOffset, localColOffset := 0, 0;
      viewing, locked := true, lock;
    }

    /**
     * View and LockedView of the h x w block of A at (i, j): the alignment
     * becomes (A's + j) mod r, and the local matrix is the block of A's
     * that starts at row i and at A's local column Length(j, A's shift, r).
     * View local column k is that local column of A plus k, which holds
     * A's column j plus the view's global column k.
     */
    method ViewBlock(A: StarMC, i: nat, j: nat, h: nat, w: nat, lock: bool)
      requires A.Valid() && A.grid == grid && A != this && !rowConstrained && !storing
      requires i + h <= A.height && j + w <= A.width
      modifies this
      ensures height == h && width == w && rowAlign == (A.rowAlign + j) % grid.height
      ensures rowShift == Shift(grid.mcRank, rowAlign, grid.height)
      ensures localRowOffset == i && localColOffset == Length(j, A.rowShift, grid.height)
      ensures viewing && locked == lock && !rowConstrained && !storing
      ensures Valid() && DistLayout() == ViewLayout(A.DistLayout(), i, j, h, w)
      ensures localColOffset == ViewColOffset(A.DistLayout(), grid.mcRank, j)
      ensures localColOffset + localWidth <= A.localWidth
      ensures forall k :: 0 <= k < localWidth ==>
        A.DistLayout().GlobalCol(grid.mcRank, localColOffset + k) == j + DistLayout().GlobalCol(grid.mcRank, k)
    {
      var r := grid.height;
      var row := grid.mcRank;
      height, width := h, w;
      rowAlign := (A.rowAlign + j) % r;
      rowShift := Shift(row, rowAlign, r);
      var localWidthBefore := Length(j, A.rowShift, r);
      localRowOffset, localColOffset := i, localWidthBefore;
      localHeight, localWidth := h, Length(w, rowShift, r);
      viewing, locked := true, lock;
      ViewBlockColumns(A.DistLayout(), DistLayout(), row, i, j, h, w);
      ViewCols(A.DistLayout(), DistLayout(), row, i, j, h, w);
    }

    /**
     * View1x2 and LockedView1x2: AL and AR side by side, with AL's
     * alignment.  When AR's alignment continues AL's, as it does for the
     * two halves of one matrix, the result is a valid [* ,MC] matrix whose
     * local width is the sum of theirs.
     */
    method View1x2(AL: StarMC, AR: StarMC, lock: bool)
      requires AL.Valid() && AR.Valid() && AL.grid == grid && AR.grid == grid && AL != this && AR != this
      requires AL.height == AR.height && !rowConstrained && !storing
      modifies this
      ensures height == AL.height && width == AL.width + AR.width && rowAlign == AL.rowAlign && rowShift == AL.rowShift
      ensures localHeight == AL.localHeight && localWidth == AL.localWidth + AR.localWidth
      ensures viewing && locked == lock && localRowOffset == 0 && localColOffset == 0 && !rowConstrained && !storing
      ensures AR.rowAlign == (AL.rowAlign + AL.width) % grid.height ==> Valid()
    {
      height, width := AL.height, AL.width + AR.width;
      rowAlign, rowShift := AL.rowAlign, AL.rowShift;
      localHeight, localWidth := AL.localHeight, AL.localWidth + AR.localWidth;
      localRowOffset, localColOffset := 0, 0;
      viewing, locked := true, lock;
      if AR.rowAlign == (AL.rowAlign + AL.width) % grid.height {
        SideBySide(grid.mcRank, AL.rowAlign, AL.width, AR.width, grid.height);
      }
    }

    /** View2x1 and LockedView2x1: AT above AB, with AT's alignment; the local heights add. */
    method View2x1(AT: StarMC, AB: StarMC, lock: bool)
      requires AT.Valid() && AB.Valid() && AT.grid == grid && AB.grid == grid && AT != this && AB != this
      requires AT.width == AB.width && AT.rowAlign == AB.rowAlign && !rowConstrained && !storing
      modifies this
      ensures height == AT.height + AB.height && width == AT.width && rowAlign == AT.rowAlign && rowShift == AT.rowShift
      ensures localHeight == AT.localHeight + AB.localHeight && localWidth == AT.localWidth
      ensures viewing && locked == lock && localRowOffset == 0 && localColOffset == 0 && !rowConstrained && !storing
      ensures Valid()
    {
      height, width := AT.height + AB.height, AT.width;
      rowAlign, rowShift := AT.rowAlign, AT.rowShift;
      localHeight, localWidth := AT.localHeight + AB.localHeight, AT.localWidth;
      localRowOffset, localColOffset := 0, 0;
      viewing, locked := true, lock;
    }

    /** View2x2 and LockedView2x2: the four blocks combined, with ATL's alignment. */
    method View2x2(ATL: StarMC, ATR: StarMC, ABL: StarMC, ABR: StarMC, lock: bool)
      requires ATL.Valid() && ATR.Valid() && ABL.Valid() && ABR.Valid()
      requires ATL.grid == grid && ATR.grid == grid && ABL.grid == grid && ABR.grid == grid
      requires ATL != this && ATR != this && ABL != this && ABR != this
      requires ATL.width == ABL.width && ATR.width == ABR.width && ATL.height == ATR.height && ABL.height == ABR.height
      requires ATL.rowAlign == ABL.rowAlign && ATR.rowAlign == ABR.rowAlign && !rowConstrained && !storing
      modifies this
      ensures height == ATL.height + ABL.height && width == ATL.width + ATR.width
      ensures rowAlign == ATL.rowAlign && rowShift == ATL.rowShift
      ensures localHeight == ATL.localHeight + ABL.localHeight && localWidth == ATL.localWidth + ATR.localWidth
      ensures viewing && locked == lock && localRowOffset == 0 && localColOffset == 0 && !rowConstrained && !storing
      ensures ATR.rowAlign == (ATL.rowAlign + ATL.width) % grid.height ==> Valid()
    {
      height, width := ATL.height + ABL.height, ATL.width + ATR.width;
      rowAlign, rowShift := ATL.rowAlign, ATL.rowShift;
      localHeight, localWidth := ATL.localHeight + ABL.localHeight, ATL.localWidth + ATR.localWidth;
      localRowOffset, localColOffset := 0, 0;
      viewing, locked := true, lock;
      if ATR.rowAlign == (ATL.rowAlign + ATL.width) % grid.height {
        SideBySide(grid.mcRank, ATL.rowAlign, ATL.width, ATR.width, grid.height);
      }
    }

    /**
     * ResizeTo: a locked view, then negative sizes, are errors; otherwise
     * the local matrix becomes height x Length(width, shift, r), and a
     * matrix that is not a view owns memory once that is not empty.
     */
    method ResizeTo(h: int, w: int) returns (r: Outcome)
      requires Valid()
      modifies this
      ensures Valid()
      ensures r == if locked then Fail("Assertion that matrix not be a locked view failed")
                   else if h < 0 || w < 0 then Fail("Height and width must be non-negative.") else Pass
      ensures r.Fail? ==> unchanged(this)
      ensures r.Pass? ==> height == h && width == w && localHeight == h && localWidth == Length(w, rowShift, grid.height)
      ensures r.Pass? ==> storing == (old(storing) || (!viewing && localHeight * localWidth > 0))
      ensures rowAlign == old(rowAlign) && rowShift == old(rowShift) && rowConstrained == old(rowConstrained)
      ensures viewing == old(viewing) && locked == old(locked)
      ensures localRowOffset == old(localRowOffset) && localColOffset == old(localColOffset)
    {
      if locked {
        return Fail("Assertion that matrix not be a locked view failed");
      }
      if h < 0 || w < 0 {
        return Fail("Height and width must be non-negative.");
      }
      height, width := h, w;
      localHeight, localWidth := h, Length(w, rowShift, grid.height);
      storing := storing || (!viewing && localHeight * localWidth > 0);
      r := Pass;
    }
  }

  /** The [* ,MC] view of a [* ,MC] layout is its ViewLayout, and its parent offset is Length(j, parent's shift, r). */
  lemma ViewBlockColumns(LA: Layout, V: Layout, q: nat, i: nat, j: nat, h: nat, w: nat)
    requires IsStarMC(LA) && q < LA.rowStride && i + h <= LA.height && j + w <= LA.width
    requires V == Layout(h, w, 0, (LA.rowAlign + j) % LA.rowStride, 1, LA.rowStride)
    ensures V == ViewLayout(LA, i, j, h, w)
    ensures ViewColOffset(LA, q, j) == Length(j, Shift(q, LA.rowAlign, LA.rowStride), LA.rowStride)
    ensures V.LocalWidth(q) == Length(w, Shift(q, V.rowAlign, LA.rowStride), LA.rowStride)
  {
    assert LA.Procs() == LA.rowStride;
    StarMCIndices(LA, q);
    StarMCIndices(V, q);
  }

  /**
   * Two blocks side by side: when the right block's alignment is the left
   * block's moved on by the left width, the local widths add up to the
   * local width of the combined matrix.
   */
  lemma SideBySide(q: nat, ra: int, wL: nat, wR: nat, r: nat)
    requires r > 0 && 0 <= ra < r
    ensures Length(wL, Shift(q, ra, r), r) + Length(wR, Shift(q, (ra + wL) % r, r), r) == Length(wL + wR, Shift(q, ra, r), r)
  {
    ViewShift(q, ra, wL, r);
    ViewSplit(wL, wR, Shift(q, ra, r), r);
  }

  // ---------------------------------------------------------------------
  // Single entries
  // ---------------------------------------------------------------------

  /** The owner row (j + rowAlignment) mod r and local column (j - rowShift) / r are the layout's owner and local indices. */
  lemma EntryFormulas(L: Layout, i: int, j: int)
    requires IsStarMC(L) && 0 <= i < L.height && 0 <= j < L.width
    ensures var owner := (j + L.rowAlign) % L.rowStride;
      owner == L.Owner(i, j) && 0 <= owner < L.Procs()
      && L.RowShift(owner) == Shift(owner, L.rowAlign, L.rowStride)
      && L.LocalRow(owner, i) == i && L.LocalCol(owner, j) == (j - L.RowShift(owner)) / L.rowStride
  {
    var owner := (j + L.rowAlign) % L.rowStride;
    assert L.Procs() == L.rowStride;
    StarMCIndices(L, owner);
    assert IndexOwner(i, 0, 1) == 0;
    HoldsIffOwner(L, owner, i, j);
    LocalColInRange(L, owner, j);
  }

  /**
   * Get(i, j) on the whole grid: the owner row reads local entry
   * (i, (j - rowShift)/r) and broadcasts it.  On a distributed matrix
   * every process obtains A(i, j).
   */
  method Get(L: Layout, locals: seq<seq<seq<int>>>, i: int, j: int, ghost A: seq<seq<int>>) returns (u: int)
    requires IsStarMC(L) && Shaped(L, locals) && 0 <= i < L.height && 0 <= j < L.width
    requires IsMatrix(A, L.height, L.width) && locals == Distribute(L, A)
    ensures u == A[i][j]
  {
    EntryFormulas(L, i, j);
    var r := L.rowStride;
    var ownerRow := (j + L.rowAlign) % r;
    var jLoc := (j - Shift(ownerRow, L.rowAlign, r)) / r;
    DistributeHoldsEntry(L, A, i, j);
    u := locals[ownerRow][i][jLoc];
  }

  /** Set(i, j, u) on MC rank q: only the owner row writes, at local (i, (j - rowShift)/r). */
  method SetOnProcess(L: Layout, q: int, local: array2<int>, i: int, j: int, u: int)
    requires IsStarMC(L) && 0 <= q < L.Procs() && 0 <= i < L.height && 0 <= j < L.width
    requires local.Length0 == L.LocalHeight(q) && local.Length1 == L.LocalWidth(q)
    modifies local
    ensures Contents(local) == WriteOnProcess(L, q, old(Contents(local)), i, j, _ => u)
  {
    ghost var X := Contents(local);
    EntryFormulas(L, i, j);
    var r := L.rowStride;
    var ownerRow := (j + L.rowAlign) % r;
    if q == ownerRow {
      var jLoc := (j - Shift(q, L.rowAlign, r)) / r;
      HoldsIffOwner(L, q, i, j);
      LocalRowInRange(L, q, i);
      LocalColInRange(L, q, j);
      local[i, jLoc] := u;
      MatrixExt(Contents(local), WriteOnProcess(L, q, X, i, j, _ => u), local.Length0, local.Length1);
    }
  }

  // ---------------------------------------------------------------------
  // MakeTrapezoidal, ScaleTrapezoidal, SetToIdentity
  // ---------------------------------------------------------------------

  /** The row where the trapezoid's boundary crosses column j: j - offset, moved by height - width from the right. */
  function Boundary(side: LeftOrRight, offset: int, height: int, width: int, j: int): int
  {
    if side == LEFT then j - offset else j - offset + height - width
  }

  /** The entries a trapezoid keeps: on or below the boundary (LOWER), on or above it (UPPER). */
  predicate InTrapezoid(shape: UpperOrLower, side: LeftOrRight, offset: int, height: int, width: int, i: int, j: int)
  {
    if shape == LOWER then i >= Boundary(side, offset, height, width, j) else i <= Boundary(side, offset, height, width, j)
  }

  function TrapezoidEntry(shape: UpperOrLower, side: LeftOrRight, offset: int, height: int, width: int): (int, int, int) -> int
  {
    (i, j, x) => if InTrapezoid(shape, side, offset, height, width, i, j) then x else 0
  }

  function ScaledEntry(alpha: int, shape: UpperOrLower, side: LeftOrRight, offset: int, height: int, width: int): (int, int, int) -> int
  {
    (i, j, x) => if InTrapezoid(shape, side, offset, height, width, i, j) then alpha * x else x
  }

  /** Rows lo..hi-1 of local column jl set to (alpha times) themselves or zero; nothing else changes. */
  method RowsInColumn(local: array2<int>, jl: int, lo: int, hi: int, zero: bool, alpha: int)
    requires 0 <= jl < local.Length1 && 0 <= lo <= hi <= local.Length0
    modifies local
    ensures forall il, jj :: 0 <= il < local.Length0 && 0 <= jj < local.Length1 ==>
      local[il, jj] == if jj == jl && lo <= il < hi then (if zero then 0 else alpha * old(local[il, jj])) else old(local[il, jj])
  {
    var i := lo;
    while i < hi
      invariant lo <= i <= hi
      invariant forall il, jj :: 0 <= il < local.Length0 && 0 <= jj < local.Length1 ==>
        local[il, jj] == if jj == jl && lo <= il < i then (if zero then 0 else alpha * old(local[il, jj])) else old(local[il, jj])
    {
      local[i, jl] := if zero then 0 else alpha * local[i, jl];
      i := i + 1;
    }
  }

  /** The rows of one column the kernels touch: those outside the trapezoid (zero) or inside it (scale). */
  function TouchedRows(shape: UpperOrLower, side: LeftOrRight, offset: int, height: nat, width: nat, j: int, zero: bool): (bounds: (int, int))
    ensures 0 <= bounds.0 <= bounds.1 <= height
    ensures forall i :: 0 <= i < height ==>
      (bounds.0 <= i < bounds.1 <==> (InTrapezoid(shape, side, offset, height, width, i, j) != zero))
  {
    var b := Boundary(side, offset, height, width, j);
    var h := height;
    if zero then
      if shape == LOWER then
        // rows 0 .. min(lastZeroRow + 1, height) - 1, when lastZeroRow = b - 1 >= 0
        var lastZeroRow := b - 1;
        if lastZeroRow >= 0 then (0, if lastZeroRow + 1 < h then lastZeroRow + 1 else h) else (0, 0)
      else
        // rows max(b + 1, 0) .. height - 1
        var firstZeroRow := if b + 1 > 0 then b + 1 else 0;
        (if firstZeroRow < h then firstZeroRow else h, h)
    else
      if shape == UPPER then
        // rows 0 .. min(b + 1, height) - 1
        var boundary := if b + 1 < h then b + 1 else h;
        (0, if boundary > 0 then boundary else 0)
      else
        // rows max(b, 0) .. height - 1
        var firstRow := if b > 0 then b else 0;
        (if firstRow < h then firstRow else h, h)
  }

  /**
   * MakeTrapezoidal (zero) and ScaleTrapezoidal on MC rank q: for each
   * local column, with global column j = rowShift + jLoc*r, the rows
   * outside the trapezoid are zeroed, or the rows inside it are scaled.
   */
  method Trapezoid(L: Layout, q: int, local: array2<int>, shape: UpperOrLower, side: LeftOrRight, offset: int, zero: bool, alpha: int)
    requires IsStarMC(L) && 0 <= q < L.Procs()
    requires local.Length0 == L.LocalHeight(q) && local.Length1 == L.LocalWidth(q)
    modifies local
    ensures Contents(local) == LocalMap(L, q, old(Contents(local)),
      if zero then TrapezoidEntry(shape, side, offset, L.height, L.width) else ScaledEntry(alpha, shape, side, offset, L.height, L.width))
  {
    ghost var X := Contents(local);
    ghost var F := if zero then TrapezoidEntry(shape, side, offset, L.height, L.width) else ScaledEntry(alpha, shape, side, offset, L.height, L.width);
    StarMCIndices(L, q);
    var height, width, localWidth := L.height, L.width, local.Length1;
    var r, rowShift := L.rowStride, L.RowShift(q);
    var jLoc := 0;
    while jLoc < localWidth
      invariant 0 <= jLoc <= localWidth
      invariant forall il, jl :: 0 <= il < height && 0 <= jl < localWidth ==>
        local[il, jl] == if jl < jLoc then F(il, L.GlobalCol(q, jl), X[il][jl]) else X[il][jl]
    {
      var j := rowShift + jLoc * r;
      var bounds := TouchedRows(shape, side, offset, height, width, j, zero);
      RowsInColumn(local, jLoc, bounds.0, bounds.1, zero, alpha);
      jLoc := jLoc + 1;
    }
    forall il, jl | 0 <= il < height && 0 <= jl < localWidth
      ensures Contents(local)[il][jl] == LocalMap(L, q, X, F)[il][jl]
    {
      assert L.GlobalRow(q, il) == il;
    }
    MatrixExt(Contents(local), LocalMap(L, q, X, F), height, localWidth);
  }

  /** The global effect of MakeTrapezoidal and ScaleTrapezoidal. */
  function TrapezoidalOf(A: seq<seq<int>>, m: nat, n: nat, shape: UpperOrLower, side: LeftOrRight, offset: int): (B: seq<seq<int>>)
    requires IsMatrix(A, m, n)
    ensures IsMatrix(B, m, n)
  {
    GlobalMap(A, m, n, TrapezoidEntry(shape, side, offset, m, n))
  }

  function ScaledTrapezoidOf(A: seq<seq<int>>, m: nat, n: nat, alpha: int, shape: UpperOrLower, side: LeftOrRight, offset: int): (B: seq<seq<int>>)
    requires IsMatrix(A, m, n)
    ensures IsMatrix(B, m, n)
  {
    GlobalMap(A, m, n, ScaledEntry(alpha, shape, side, offset, m, n))
  }

  /**
   * ScaleTrapezoidal scales exactly the entries MakeTrapezoidal keeps: an
   * entry inside the trapezoid is kept by one and scaled by the other, an
   * entry outside it is zeroed by one and left alone by the other.
   */
  lemma ScaleKeepsSameEntries(A: seq<seq<int>>, m: nat, n: nat, alpha: int, shape: UpperOrLower, side: LeftOrRight, offset: int,
                              i: int, j: int)
    requires IsMatrix(A, m, n) && 0 <= i < m && 0 <= j < n
    ensures var T := TrapezoidalOf(A, m, n, shape, side, offset);
      var S := ScaledTrapezoidOf(A, m, n, alpha, shape, side, offset);
      if InTrapezoid(shape, side, offset, m, n, i, j) then T[i][j] == A[i][j] && S[i][j] == alpha * A[i][j]
      else T[i][j] == 0 && S[i][j] == A[i][j]
  {
  }

  /** The two kernels commute: trapezoiding the scaled matrix is scaling the trapezoid. */
  lemma TrapezoidScaleCommute(A: seq<seq<int>>, m: nat, n: nat, alpha: int, shape: UpperOrLower, side: LeftOrRight, offset: int)
    requires IsMatrix(A, m, n)
    ensures TrapezoidalOf(ScaledTrapezoidOf(A, m, n, alpha, shape, side, offset), m, n, shape, side, offset)
         == ScaledTrapezoidOf(TrapezoidalOf(A, m, n, shape, side, offset), m, n, alpha, shape, side, offset)
  {
    var X := TrapezoidalOf(ScaledTrapezoidOf(A, m, n, alpha, shape, side, offset), m, n, shape, side, offset);
    var Y := ScaledTrapezoidOf(TrapezoidalOf(A, m, n, shape, side, offset), m, n, alpha, shape, side, offset);
    forall i, j | 0 <= i < m && 0 <= j < n
      ensures X[i][j] == Y[i][j]
    {
      ScaleKeepsSameEntries(A, m, n, alpha, shape, side, offset, i, j);
    }
    MatrixExt(X, Y, m, n);
  }

  /** MakeTrapezoidal is idempotent. */
  lemma TrapezoidalIdempotent(A: seq<seq<int>>, m: nat, n: nat, shape: UpperOrLower, side: LeftOrRight, offset: int)
    requires IsMatrix(A, m, n)
    ensures TrapezoidalOf(TrapezoidalOf(A, m, n, shape, side, offset), m, n, shape, side, offset) == TrapezoidalOf(A, m, n, shape, side, offset)
  {
    var T := TrapezoidalOf(A, m, n, shape, side, offset);
    MatrixExt(TrapezoidalOf(T, m, n, shape, side, offset), T, m, n);
  }

  /** On a distributed matrix the kernel leaves process q's part of the trapezoid of A. */
  lemma TrapezoidDistributed(L: Layout, A: seq<seq<int>>, q: int, shape: UpperOrLower, side: LeftOrRight, offset: int)
    requires IsStarMC(L) && IsMatrix(A, L.height, L.width) && 0 <= q < L.Procs()
    ensures LocalMap(L, q, Distribute(L, A)[q], TrapezoidEntry(shape, side, offset, L.height, L.width))
         == Distribute(L, TrapezoidalOf(A, L.height, L.width, shape, side, offset))[q]
  {
    LocalMapDistributed(L, A, TrapezoidEntry(shape, side, offset, L.height, L.width), q);
  }

  /**
   * SetToIdentity on MC rank q: zero the local matrix, then write 1 at
   * local (j, jLoc) for every local column whose global column
   * j = rowShift + jLoc*r is below the height.
   */
  method SetToIdentity(L: Layout, q: int, local: array2<int>)
    requires IsStarMC(L) && 0 <= q < L.Procs()
    requires local.Length0 == L.LocalHeight(q) && local.Length1 == L.LocalWidth(q)
    modifies local
    ensures Contents(local) == Distribute(L, IdentityOf(L.height, L.width))[q]
    ensures forall il, jl :: 0 <= il < local.Length0 && 0 <= jl < local.Length1 ==>
      local[il, jl] == if il == L.GlobalCol(q, jl) then 1 else 0
  {
    ghost var X := Contents(local);
    StarMCIndices(L, q);
    var height, localWidth := L.height, local.Length1;
    var r, rowShift := L.rowStride, L.RowShift(q);
    ZeroBlock(local, 0, 0, height, localWidth);
    var jLoc := 0;
    while jLoc < localWidth
      invariant 0 <= jLoc <= localWidth
      invariant forall il, jl :: 0 <= il < height && 0 <= jl < localWidth ==>
        local[il, jl] == if jl < jLoc && il == L.GlobalCol(q, jl) then 1 else 0
    {
      var j := rowShift + jLoc * r;
      if j < height {
        local[j, jLoc] := 1;
      }
      jLoc := jLoc + 1;
    }
    forall il, jl | 0 <= il < height && 0 <= jl < localWidth
      ensures Contents(local)[il][jl] == LocalMap(L, q, X, IdentityEntry())[il][jl]
    {
      assert L.GlobalRow(q, il) == il;
    }
    MatrixExt(Contents(local), LocalMap(L, q, X, IdentityEntry()), height, localWidth);
    IdentityDistributed(L, q, X);
  }

  // ---------------------------------------------------------------------
  // Redistributions into [* ,MC]
  // ---------------------------------------------------------------------

  /**
   * [* ,MC] = [* ,* ] on MC rank q: local column jLoc is copied from the
   * full matrix's column rowShift + jLoc*r, so the result is q's part of
   * the distributed matrix.
   */
  method FromStarStar(L: Layout, q: int, local: array2<int>, A: array2<int>)
    requires IsStarMC(L) && 0 <= q < L.Procs()
    requires local.Length0 == L.LocalHeight(q) && local.Length1 == L.LocalWidth(q)
    requires A.Length0 == L.height && A.Length1 == L.width && A != local
    modifies local
    ensures Contents(local) == Distribute(L, Contents(A))[q]
  {
    StarMCIndices(L, q);
    CopyCyclicColumns(local, A, L.RowShift(q), L.rowStride);
    CopiedColumns(L, q, Contents(local), Contents(A));
  }

  /** Local column jl becomes column shift + jl*stride of A, for every local column. */
  method CopyCyclicColumns(local: array2<int>, A: array2<int>, shift: int, stride: int)
    requires 0 <= shift < stride && local.Length0 == A.Length0 && local.Length1 == Length(A.Length1, shift, stride) && A != local
    modifies local
    ensures forall jl :: 0 <= jl < local.Length1 ==> 0 <= GlobalIndex(jl, shift, stride) < A.Length1
    ensures forall il, jl :: 0 <= il < local.Length0 && 0 <= jl < local.Length1 ==>
      local[il, jl] == A[il, GlobalIndex(jl, shift, stride)]
  {
    forall jl | 0 <= jl < local.Length1
      ensures 0 <= GlobalIndex(jl, shift, stride) < A.Length1
    {
      LengthIndex(A.Length1, shift, stride, jl);
      MulMono(0, jl, stride);
    }
    var j := 0;
    while j < local.Length1
      invariant 0 <= j <= local.Length1
      invariant forall il, jl :: 0 <= il < local.Length0 && 0 <= jl < j ==> local[il, jl] == A[il, GlobalIndex(jl, shift, stride)]
    {
      CopyColumn(local, j, A, GlobalIndex(j, shift, stride));
      j := j + 1;
    }
  }

  /** A local matrix whose column jl is column GlobalCol(q, jl) of the full matrix is q's part of it. */
  lemma CopiedColumns(L: Layout, q: int, M: seq<seq<int>>, A: seq<seq<int>>)
    requires IsStarMC(L) && 0 <= q < L.Procs() && IsMatrix(A, L.height, L.width)
    requires IsMatrix(M, L.LocalHeight(q), L.LocalWidth(q))
    requires forall jl :: 0 <= jl < L.LocalWidth(q) ==> 0 <= L.GlobalCol(q, jl) < L.width
    requires forall il, jl :: 0 <= il < L.LocalHeight(q) && 0 <= jl < L.LocalWidth(q) ==> M[il][jl] == A[il][L.GlobalCol(q, jl)]
    ensures M == Distribute(L, A)[q]
  {
    StarMCIndices(L, q);
    MatrixExt(M, Distribute(L, A)[q], L.LocalHeight(q), L.LocalWidth(q));
  }

  /** Local column jl becomes column jA of A; the other columns are unchanged. */
  method CopyColumn(local: array2<int>, jl: int, A: array2<int>, jA: int)
    requires 0 <= jl < local.Length1 && 0 <= jA < A.Length1 && A.Length0 == local.Length0 && A != local
    modifies local
    ensures forall il, jj :: 0 <= il < local.Length0 && 0 <= jj < local.Length1 ==>
      local[il, jj] == if jj == jl then A[il, jA] else old(local[il, jj])
  {
    var i := 0;
    while i < local.Length0
      invariant 0 <= i <= local.Length0
      invariant forall il, jj :: 0 <= il < local.Length0 && 0 <= jj < local.Length1 ==>
        local[il, jj] == if jj == jl && il < i then A[il, jA] else old(local[il, jj])
    {
      local[i, jl] := A[i, jA];
      i := i + 1;
    }
  }

  /** The process row an unaligned [* ,MC] = [* ,MC] sends to: (rank + r + rowAlign - rowAlignOfA) % r. */
  function SendRank(rank: int, ra: int, raA: int, r: int): (s: int)
    requires r > 0 && 0 <= rank < r && 0 <= ra < r && 0 <= raA < r
    ensures 0 <= s < r
  {
    (rank + r + ra - raA) % r
  }

  /** The process row it receives from: (rank + r + rowAlignOfA - rowAlign) % r. */
  function RecvRank(rank: int, ra: int, raA: int, r: int): (s: int)
    requires r > 0 && 0 <= rank < r && 0 <= ra < r && 0 <= raA < r
    ensures 0 <= s < r
  {
    (rank + r + raA - ra) % r
  }

  /**
   * The send and receive rotations are inverse permutations of [0, r), and
   * the row I receive from holds, under A's alignment, exactly the
   * columns I own under mine; with equal alignments both are the identity.
   */
  lemma Rotations(rank: int, ra: int, raA: int, r: int)
    requires r > 0 && 0 <= rank < r && 0 <= ra < r && 0 <= raA < r
    ensures RecvRank(SendRank(rank, ra, raA, r), ra, raA, r) == rank
    ensures SendRank(RecvRank(rank, ra, raA, r), ra, raA, r) == rank
    ensures Shift(RecvRank(rank, ra, raA, r), raA, r) == Shift(rank, ra, r)
    ensures ra == raA ==> SendRank(rank, ra, raA, r) == rank && RecvRank(rank, ra, raA, r) == rank
  {
    RotateBack(rank, ra - raA, r);
    RotateBack(rank, raA - ra, r);
    ModSum(rank + r + raA - ra, -raA, r);
    ModAddMultiple(rank - ra, 1, r);
    if ra == raA {
      ModAddMultiple(rank, 1, r);
      UniqueDivMod(rank, r, 0, rank);
    }
  }

  /** Reducing the first summand first does not change a remainder. */
  lemma ModSum(x: int, y: int, r: int)
    requires r > 0
    ensures (x % r + y) % r == (x + y) % r
  {
    ModAddMultiple(x % r + y, x / r, r);
    assert x % r + y + (x / r) * r == x + y;
  }

  /** Rotating by d and then by -d, each through (rank + r + d) % r, returns every rank to itself. */
  lemma RotateBack(rank: int, d: int, r: int)
    requires r > 0 && 0 <= rank < r
    ensures ((rank + r + d) % r + r - d) % r == rank
  {
    ModSum(rank + r + d, r - d, r);
    ModAddMultiple(rank, 2, r);
    UniqueDivMod(rank, r, 0, rank);
  }

  /** The whole-grid effect of the unaligned copy: MC rank q ends with what its receive partner held. */
  function Realigned(LA: Layout, localsA: seq<seq<seq<int>>>, ra: int): (locals: seq<seq<seq<int>>>)
    requires IsStarMC(LA) && Shaped(LA, localsA) && 0 <= ra < LA.rowStride
    ensures |locals| == LA.Procs()
  {
    assert LA.Procs() == LA.rowStride;
    seq(LA.Procs(), q requires 0 <= q < LA.Procs() => localsA[RecvRank(q, ra, LA.rowAlign, LA.rowStride)])
  }

  /** Realigning a distributed A gives A distributed with the new alignment. */
  lemma RealignedDistributed(LA: Layout, A: seq<seq<int>>, ra: int)
    requires IsStarMC(LA) && IsMatrix(A, LA.height, LA.width) && 0 <= ra < LA.rowStride
    ensures IsStarMC(LA.(rowAlign := ra))
    ensures Realigned(LA, Distribute(LA, A), ra) == Distribute(LA.(rowAlign := ra), A)
  {
    var L := LA.(rowAlign := ra);
    var lhs, rhs := Realigned(LA, Distribute(LA, A), ra), Distribute(L, A);
    assert LA.Procs() == LA.rowStride;
    forall q | 0 <= q < L.Procs()
      ensures lhs[q] == rhs[q]
    {
      var p := RecvRank(q, ra, LA.rowAlign, LA.rowStride);
      Rotations(q, ra, LA.rowAlign, LA.rowStride);
      StarMCIndices(LA, p);
      StarMCIndices(L, q);
      forall il, jl | 0 <= il < L.LocalHeight(q) && 0 <= jl < L.LocalWidth(q)
        ensures lhs[q][il][jl] == rhs[q][il][jl]
      {
      }
      MatrixExt(lhs[q], rhs[q], L.LocalHeight(q), L.LocalWidth(q));
    }
  }

  /**
   * The aligned [* ,MC] = [MR,MC] unpack: process column k of the gathered
   * data holds the rows colShift_k + i*c, colShift_k = Shift(k, colAlignOfA, c),
   * i < Length(height, colShift_k, c).  Every row below the height is
   * written for exactly one such (k, i).
   */
  lemma UnpackCoversRowsOnce(height: int, a: int, c: int, row: int)
    requires c > 0 && 0 <= a < c && 0 <= row < height
    ensures var k := (row % c + a) % c;
      0 <= k < c && 0 <= row / c < Length(height, Shift(k, a, c), c) && Shift(k, a, c) + (row / c) * c == row
    ensures forall k, i :: 0 <= k < c && 0 <= i && GlobalIndex(i, Shift(k, a, c), c) == row ==>
      k == (row % c + a) % c && i == row / c
  {
    var k := (row % c + a) % c;
    var s := row % c;
    ModAddMultiple(s + a, -((s + a) / c), c);
    assert k - a == s + (-((s + a) / c)) * c;
    ModAddMultiple(s, -((s + a) / c), c);
    UniqueDivMod(s, c, 0, s);
    assert Shift(k, a, c) == s;
    GlobalIndexCovered(row, height, c);
    forall k', i | 0 <= k' < c && 0 <= i && GlobalIndex(i, Shift(k', a, c), c) == row
      ensures k' == k && i == row / c
    {
      UniqueDivMod(row, c, i, Shift(k', a, c));
      ShiftOwnsRank(k', a, c);
      UniqueDivMod(k', c, 0, k');
      ModAddMultiple(s + a, 0, c);
    }
  }

  /** The whole-grid rank of the process with MR rank k in process row m of a c-column grid. */
  function MemberRank(c: int, m: int, k: int): int
  {
    k + m * c
  }

  /**
   * The members of process row src in an [MR,MC] layout LA: MR rank k
   * holds A's rows of residue Shift(k, ca, c) and A's columns of process
   * row src.
   */
  lemma ProcessRowMember(LA: Layout, src: int, k: int)
    requires LA.Valid() && 0 <= src < LA.rowStride && 0 <= k < LA.colStride
    ensures 0 <= MemberRank(LA.colStride, src, k) < LA.Procs()
    ensures LA.ColShift(MemberRank(LA.colStride, src, k)) == Shift(k, LA.colAlign, LA.colStride)
    ensures LA.RowShift(MemberRank(LA.colStride, src, k)) == Shift(src, LA.rowAlign, LA.rowStride)
  {
    Grids.VCInRange(k, src, LA.colStride, LA.rowStride);
    Grids.SplitRank(k, src, LA.colStride);
  }

  lemma ProcessRowMembers(LA: Layout, src: int)
    requires LA.Valid() && 0 <= src < LA.rowStride
    ensures forall k :: 0 <= k < LA.colStride ==>
      0 <= MemberRank(LA.colStride, src, k) < LA.Procs()
      && LA.ColShift(MemberRank(LA.colStride, src, k)) == Shift(k, LA.colAlign, LA.colStride)
      && LA.RowShift(MemberRank(LA.colStride, src, k)) == Shift(src, LA.rowAlign, LA.rowStride)
  {
    forall k | 0 <= k < LA.colStride
      ensures 0 <= MemberRank(LA.colStride, src, k) < LA.Procs()
      ensures LA.ColShift(MemberRank(LA.colStride, src, k)) == Shift(k, LA.colAlign, LA.colStride)
      ensures LA.RowShift(MemberRank(LA.colStride, src, k)) == Shift(src, LA.rowAlign, LA.rowStride)
    {
      ProcessRowMember(LA, src, k);
    }
  }

  /**
   * What MC rank m holds after the communication of [* ,MC] = [MR,MC] with
   * target row alignment ra: the SendRecv over the process column brings
   * the local matrices of process row RecvRank(m, ra, rowAlignOfA, r), and
   * the AllGather over the process row collects them by MR rank k.  Packed
   * column-major and unpacked with the same local height, a portion is
   * its local matrix unchanged.
   */
  function GatheredOverMR(LA: Layout, localsA: seq<seq<seq<int>>>, ra: int, m: int): (data: seq<seq<seq<int>>>)
    requires LA.Valid() && Shaped(LA, localsA) && 0 <= ra < LA.rowStride && 0 <= m < LA.rowStride
    ensures |data| == LA.colStride
    ensures forall k :: 0 <= k < LA.colStride ==>
      IsMatrix(data[k], Length(LA.height, Shift(k, LA.colAlign, LA.colStride), LA.colStride),
                        Length(LA.width, Shift(m, ra, LA.rowStride), LA.rowStride))
  {
    var c, src := LA.colStride, RecvRank(m, ra, LA.rowAlign, LA.rowStride);
    Rotations(m, ra, LA.rowAlign, LA.rowStride);
    ProcessRowMembers(LA, src);
    seq(c, k requires 0 <= k < c => localsA[MemberRank(c, src, k)])
  }

  /** In the aligned branch there is no SendRecv: MC rank m gathers its own process row. */
  lemma AlignedGatherOwnRow(LA: Layout, localsA: seq<seq<seq<int>>>, m: int)
    requires LA.Valid() && Shaped(LA, localsA) && 0 <= m < LA.rowStride
    ensures forall k :: 0 <= k < LA.colStride ==>
      0 <= MemberRank(LA.colStride, m, k) < |localsA|
      && GatheredOverMR(LA, localsA, LA.rowAlign, m)[k] == localsA[MemberRank(LA.colStride, m, k)]
  {
    Rotations(m, LA.rowAlign, LA.rowAlign, LA.rowStride);
    ProcessRowMembers(LA, m);
    var data := GatheredOverMR(LA, localsA, LA.rowAlign, m);
    forall k | 0 <= k < LA.colStride
      ensures data[k] == localsA[MemberRank(LA.colStride, m, k)]
    {
    }
  }

  /** The row of the unpacked result that local row i of portion k fills, and back. */
  lemma UnpackTarget(height: nat, ca: int, c: nat, k: int, i: int)
    requires c > 0 && 0 <= ca < c && 0 <= k < c && 0 <= i < Length(height, Shift(k, ca, c), c)
    ensures var row := GlobalIndex(i, Shift(k, ca, c), c);
      0 <= row < height && (row % c + ca) % c == k && row / c == i
  {
    var row := GlobalIndex(i, Shift(k, ca, c), c);
    LengthIndex(height, Shift(k, ca, c), c, i);
    UnpackCoversRowsOnce(height, ca, c, row);
  }

  /** Row `row` of the unpacked result is a row of portion (row % c + ca) % c. */
  lemma PortionRow(height: nat, ca: int, c: nat, lw: nat, data: seq<seq<seq<int>>>, row: int)
    requires c > 0 && 0 <= ca < c && |data| == c
    requires forall k :: 0 <= k < c ==> IsMatrix(data[k], Length(height, Shift(k, ca, c), c), lw)
    requires 0 <= row < height
    ensures 0 <= (row % c + ca) % c < c && 0 <= row / c < |data[(row % c + ca) % c]|
    ensures |data[(row % c + ca) % c][row / c]| == lw
  {
    var k := (row % c + ca) % c;
    UnpackCoversRowsOnce(height, ca, c, row);
    assert IsMatrix(data[k], Length(height, Shift(k, ca, c), c), lw);
  }

  /**
   * The unpack loop of [* ,MC] = [MR,MC]: portion k holds the rows
   * Shift(k, ca, c) + i*c, and row `row` of the result is local row row / c
   * of portion (row % c + ca) % c, the one write UnpackCoversRowsOnce finds.
   */
  function UnpackRows(height: nat, ca: int, c: nat, lw: nat, data: seq<seq<seq<int>>>): (B: seq<seq<int>>)
    requires c > 0 && 0 <= ca < c && |data| == c
    requires forall k :: 0 <= k < c ==> IsMatrix(data[k], Length(height, Shift(k, ca, c), c), lw)
    ensures IsMatrix(B, height, lw)
  {
    seq(height, row requires 0 <= row < height =>
      PortionRow(height, ca, c, lw, data, row);
      seq(lw, j requires 0 <= j < lw => data[(row % c + ca) % c][row / c][j]))
  }

  /** Every write of the unpack loop, SetLocalEntry(colShift + i*c, j, data[i + j*localHeight]), is an entry of UnpackRows. */
  lemma UnpackRowsWrites(height: nat, ca: int, c: nat, lw: nat, data: seq<seq<seq<int>>>)
    requires c > 0 && 0 <= ca < c && |data| == c
    requires forall k :: 0 <= k < c ==> IsMatrix(data[k], Length(height, Shift(k, ca, c), c), lw)
    ensures forall k, i :: 0 <= k < c && 0 <= i < Length(height, Shift(k, ca, c), c) ==>
      0 <= GlobalIndex(i, Shift(k, ca, c), c) < height
    ensures forall k, i, j :: 0 <= k < c && 0 <= i < Length(height, Shift(k, ca, c), c) && 0 <= j < lw ==>
      UnpackRows(height, ca, c, lw, data)[GlobalIndex(i, Shift(k, ca, c), c)][j] == data[k][i][j]
  {
    forall k, i | 0 <= k < c && 0 <= i < Length(height, Shift(k, ca, c), c)
      ensures 0 <= GlobalIndex(i, Shift(k, ca, c), c) < height
    {
      UnpackTarget(height, ca, c, k, i);
    }
    forall k, i, j | 0 <= k < c && 0 <= i < Length(height, Shift(k, ca, c), c) && 0 <= j < lw
      ensures UnpackRows(height, ca, c, lw, data)[GlobalIndex(i, Shift(k, ca, c), c)][j] == data[k][i][j]
    {
      UnpackWrite(height, ca, c, lw, data, k, i, j);
    }
  }

  lemma UnpackWrite(height: nat, ca: int, c: nat, lw: nat, data: seq<seq<seq<int>>>, k: int, i: int, j: int)
    requires c > 0 && 0 <= ca < c && |data| == c
    requires forall k :: 0 <= k < c ==> IsMatrix(data[k], Length(height, Shift(k, ca, c), c), lw)
    requires 0 <= k < c && 0 <= i < Length(height, Shift(k, ca, c), c) && 0 <= j < lw
    ensures 0 <= GlobalIndex(i, Shift(k, ca, c), c) < height
    ensures UnpackRows(height, ca, c, lw, data)[GlobalIndex(i, Shift(k, ca, c), c)][j] == data[k][i][j]
  {
    var row := GlobalIndex(i, Shift(k, ca, c), c);
    UnpackTarget(height, ca, c, k, i);
    PortionRow(height, ca, c, lw, data, row);
    assert UnpackRows(height, ca, c, lw, data)[row][j] == data[(row % c + ca) % c][row / c][j];
  }

  /** The whole-grid effect of [* ,MC] = [MR,MC] with target row alignment ra: every MC rank unpacks what it gathered. */
  function FromMRMC(LA: Layout, localsA: seq<seq<seq<int>>>, ra: int): (locals: seq<seq<seq<int>>>)
    requires LA.Valid() && Shaped(LA, localsA) && 0 <= ra < LA.rowStride
    ensures |locals| == LA.rowStride
  {
    seq(LA.rowStride, m requires 0 <= m < LA.rowStride =>
      UnpackRows(LA.height, LA.colAlign, LA.colStride, Length(LA.width, Shift(m, ra, LA.rowStride), LA.rowStride),
                 GatheredOverMR(LA, localsA, ra, m)))
  }

  /** Entry (row, j) of MC rank m is entry (row / c, j) of the local matrix it gathered from portion (row % c + ca) % c. */
  lemma FromMRMCRead(LA: Layout, localsA: seq<seq<seq<int>>>, ra: int, m: int, row: int, j: int)
    requires LA.Valid() && Shaped(LA, localsA) && 0 <= ra < LA.rowStride && 0 <= m < LA.rowStride
    requires 0 <= row < LA.height && 0 <= j < Length(LA.width, Shift(m, ra, LA.rowStride), LA.rowStride)
    ensures var q := MemberRank(LA.colStride, RecvRank(m, ra, LA.rowAlign, LA.rowStride), (row % LA.colStride + LA.colAlign) % LA.colStride);
      0 <= q < |localsA| && 0 <= row / LA.colStride < |localsA[q]| && 0 <= j < |localsA[q][row / LA.colStride]|
      && FromMRMC(LA, localsA, ra)[m][row][j] == localsA[q][row / LA.colStride][j]
  {
    var c := LA.colStride;
    var data := GatheredOverMR(LA, localsA, ra, m);
    var k := (row % c + LA.colAlign) % c;
    PortionRow(LA.height, LA.colAlign, c, Length(LA.width, Shift(m, ra, LA.rowStride), LA.rowStride), data, row);
    ProcessRowMember(LA, RecvRank(m, ra, LA.rowAlign, LA.rowStride), k);
    assert FromMRMC(LA, localsA, ra)[m][row][j] == data[k][row / c][j];
  }

  /**
   * The process whose local matrix supplies row `row` to MC rank m holds
   * that row at local row row / c, and the columns of m's target shift.
   */
  lemma FromMRMCSource(LA: Layout, ra: int, m: int, row: int)
    requires LA.Valid() && 0 <= ra < LA.rowStride && 0 <= m < LA.rowStride && 0 <= row < LA.height
    ensures var q := MemberRank(LA.colStride, RecvRank(m, ra, LA.rowAlign, LA.rowStride), (row % LA.colStride + LA.colAlign) % LA.colStride);
      0 <= q < LA.Procs() && 0 <= row / LA.colStride < LA.LocalHeight(q)
      && LA.GlobalRow(q, row / LA.colStride) == row
      && LA.RowShift(q) == Shift(m, ra, LA.rowStride)
  {
    var c := LA.colStride;
    var src := RecvRank(m, ra, LA.rowAlign, LA.rowStride);
    Rotations(m, ra, LA.rowAlign, LA.rowStride);
    var k := (row % c + LA.colAlign) % c;
    UnpackCoversRowsOnce(LA.height, LA.colAlign, c, row);
    ProcessRowMember(LA, src, k);
  }

  /** Local entry (iLoc, jLoc) of Distribute(L, A) on process q is A at q's global indices. */
  lemma DistributeAt(L: Layout, A: seq<seq<int>>, q: int, iLoc: int, jLoc: int)
    requires L.Valid() && IsMatrix(A, L.height, L.width) && 0 <= q < L.Procs()
    requires 0 <= iLoc < L.LocalHeight(q) && 0 <= jLoc < L.LocalWidth(q)
    ensures 0 <= L.GlobalRow(q, iLoc) < L.height && 0 <= L.GlobalCol(q, jLoc) < L.width
    ensures Distribute(L, A)[q][iLoc][jLoc] == A[L.GlobalRow(q, iLoc)][L.GlobalCol(q, jLoc)]
  {
    GlobalInRange(L, q, iLoc, jLoc);
  }

  /** One entry of FromMRMCDistributed: row `row`, local column j of MC rank m. */
  lemma FromMRMCEntry(LA: Layout, A: seq<seq<int>>, ra: int, m: int, row: int, j: int)
    requires LA.Valid() && IsMatrix(A, LA.height, LA.width) && 0 <= ra < LA.rowStride && 0 <= m < LA.rowStride
    requires 0 <= row < LA.height && 0 <= j < Length(LA.width, Shift(m, ra, LA.rowStride), LA.rowStride)
    ensures 0 <= GlobalIndex(j, Shift(m, ra, LA.rowStride), LA.rowStride) < LA.width
    ensures FromMRMC(LA, Distribute(LA, A), ra)[m][row][j] == A[row][GlobalIndex(j, Shift(m, ra, LA.rowStride), LA.rowStride)]
  {
    var c := LA.colStride;
    var q := MemberRank(c, RecvRank(m, ra, LA.rowAlign, LA.rowStride), (row % c + LA.colAlign) % c);
    FromMRMCSource(LA, ra, m, row);
    FromMRMCRead(LA, Distribute(LA, A), ra, m, row, j);
    DistributeAt(LA, A, q, row / c, j);
  }

  /**
   * [* ,MC] = [MR,MC], aligned or not, turns A distributed [MR,MC] into A
   * distributed [* ,MC] under the target row alignment.
   */
  lemma FromMRMCDistributed(LA: Layout, A: seq<seq<int>>, ra: int)
    requires LA.Valid() && IsMatrix(A, LA.height, LA.width) && 0 <= ra < LA.rowStride
    ensures FromMRMC(LA, Distribute(LA, A), ra) == Distribute(StarMCLayout(LA.rowStride, LA.height, LA.width, ra), A)
  {
    var L := StarMCLayout(LA.rowStride, LA.height, LA.width, ra);
    var lhs, rhs := FromMRMC(LA, Distribute(LA, A), ra), Distribute(L, A);
    forall m | 0 <= m < LA.rowStride
      ensures lhs[m] == rhs[m]
    {
      StarMCIndices(L, m);
      forall row, j | 0 <= row < LA.height && 0 <= j < L.LocalWidth(m)
        ensures lhs[m][row][j] == rhs[m][row][j]
      {
        FromMRMCEntry(LA, A, ra, m, row, j);
      }
      MatrixExt(lhs[m], rhs[m], LA.height, L.LocalWidth(m));
    }
  }

  /**
   * Which redistributions into [* ,MC] exist: from [MD,* ] and [* ,MD]
   * they are not implemented and always fail (both with the message that
   * names [MD,* ]).
   */
  function AssignFrom(colDist: Distribution, rowDist: Distribution): (r: Outcome)
    ensures r.Fail? <==> (colDist == MD && rowDist == STAR) || (colDist == STAR && rowDist == MD)
  {
    if (colDist == MD && rowDist == STAR) || (colDist == STAR && rowDist == MD) then
      Fail("[* ,MC] = [MD,* ] not yet implemented.")
    else Pass
  }
}
