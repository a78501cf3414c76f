/**
 * The [MC,* ] distribution: row i lives on process row (i + colAlignment)
 * mod r, every process of that row holds all columns.  The model keeps the
 * metadata one process sees: the constructors' shift set-up and the rules
 * by which AlignWith copies or derives the column alignment.
 */
module McStarMatrices {
  import opened Indexing
  import Grids
  import opened DistEntries
  import opened Errors
  import opened StarMCMatrices

  /** The sources AlignWith aligns the columns to: those with an MC dimension, and the VC vectors. */
  predicate AlignsCols(A: AlignSource)
  {
    (A.colDist == MC && (A.rowDist == MR || A.rowDist == STAR))
    || (A.rowDist == MC && (A.colDist == MR || A.colDist == STAR))
    || (A.colDist == VC && A.rowDist == STAR)
    || (A.colDist == STAR && A.rowDist == VC)
  }

  /** The sources for which AlignWith exists but does nothing: [* ,MD], [* ,MR], [* ,VR], [* ,* ], [MD,* ], [MR,* ], [VR,* ]. */
  predicate IgnoredSource(A: AlignSource)
  {
    (A.colDist == STAR && (A.rowDist == MD || A.rowDist == MR || A.rowDist == VR || A.rowDist == STAR))
    || (A.rowDist == STAR && (A.colDist == MD || A.colDist == MR || A.colDist == VR))
  }

  /** The column alignment AlignWith takes: A's MC alignment as it is, A's VC alignment reduced mod r. */
  function AlignmentFrom(A: AlignSource, g: Grids.Grid): (a: int)
    requires g.Valid() && A.ConsistentFor(g) && AlignsCols(A)
    ensures 0 <= a < g.height
  {
    if A.colDist == MC then A.colAlign
    else if A.rowDist == MC then A.rowAlign
    else if A.colDist == VC then A.colAlign % g.height
    else A.rowAlign % g.height
  }

  /** The layout of an h x w [MC,* ] matrix with column alignment a, for MC rank q. */
  function McStarLayout(r: nat, h: nat, w: nat, a: int): (L: Layout)
    requires r > 0 && 0 <= a < r
    ensures L.Valid() && L.Procs() == r && L.height == h && L.width == w
  {
    Layout(h, w, a, 0, r, 1)
  }

  class McStar {
    const grid: Grids.Grid
    var height: nat
    var width: nat
    var colAlign: int
    var colShift: int
    var colConstrained: bool
    var localHeight: nat
    var localWidth: nat

    /**
     * On a process of the grid the shift follows from the MC rank and the
     * local matrix is Length(height, shift, r) x width; off the grid the
     * shift is 0 and the local matrix is not kept in step.
     */
    predicate Valid()
      reads this
    {
      grid.Valid() && 0 <= colAlign < grid.height
      && (grid.inGrid ==> colShift == Shift(grid.mcRank, colAlign, grid.height)
                          && localHeight == Length(height, colShift, grid.height) && localWidth == width)
      && (!grid.inGrid ==> colShift == 0)
    }

    function DistLayout(): (L: Layout)
      reads this
      requires Valid()
      ensures L.Valid()
    {
      McStarLayout(grid.height, height, width, colAlign)
    }

    /** On a process of the grid the local extents are those of the layout, for its MC rank. */
    lemma LocalExtents()
      requires Valid() && grid.inGrid
      ensures 0 <= grid.mcRank < DistLayout().Procs()
      ensures localHeight == DistLayout().LocalHeight(grid.mcRank) && localWidth == DistLayout().LocalWidth(grid.mcRank)
    {
      var L := DistLayout();
      UniqueDivMod(grid.mcRank, grid.height, 0, grid.mcRank);
      assert L.ColShift(grid.mcRank) == colShift;
      assert L.RowShift(grid.mcRank) == 0;
      assert Length(width, 0, 1) == width;
    }

    /** DistMatrix(g): an empty matrix aligned at 0, whose shift is the MC rank on the grid. */
    constructor Empty(g: Grids.Grid)
      requires g.Valid()
      ensures Valid() && grid == g && height == 0 && width == 0 && colAlign == 0 && !colConstrained
      ensures colShift == (if g.inGrid then g.mcRank else 0) && localHeight == 0 && localWidth == 0
    {
      grid := g;
      height, width := 0, 0;
      colAlign, colConstrained := 0, false;
      colShift := if g.inGrid then g.mcRank else 0;
      localHeight, localWidth := 0, 0;
      new;
      UniqueDivMod(g.mcRank, g.height, 0, g.mcRank);
    }

    /** DistMatrix(h, w, g): aligned at 0; on the grid the local height is LocalLength(h, MCRank, 0, r). */
    constructor Sized(h: nat, w: nat, g: Grids.Grid)
      requires g.Valid()
      ensures Valid() && grid == g && height == h && width == w && colAlign == 0 && !colConstrained
      ensures colShift == (if g.inGrid then g.mcRank else 0)
      ensures localHeight == (if g.inGrid then LengthFrom(h, g.mcRank, 0, g.height) else 0) && localWidth == w
    {
      grid := g;
      height, width := h, w;
      colAlign, colConstrained := 0, false;
      colShift := if g.inGrid then g.mcRank else 0;
      localHeight := if g.inGrid then LengthFrom(h, g.mcRank, 0, g.height) else 0;
      localWidth := w;
      new;
      UniqueDivMod(g.mcRank, g.height, 0, g.mcRank);
    }

    /** DistMatrix(constrained, align, g): empty, with shift Shift(MCRank, align, r) on the grid. */
    constructor Aligned(constrained: bool, align: int, g: Grids.Grid)
      requires g.Valid() && 0 <= align < g.height
      ensures Valid() && grid == g && height == 0 && width == 0 && colAlign == align && colConstrained == constrained
      ensures colShift == (if g.inGrid then Shift(g.mcRank, align, g.height) else 0) && localHeight == 0 && localWidth == 0
    {
      grid := g;
      height, width := 0, 0;
      colAlign, colConstrained := align, constrained;
      colShift := if g.inGrid then Shift(g.mcRank, align, g.height) else 0;
      localHeight, localWidth := 0, 0;
    }

    /**
     * DistMatrix(h, w, constrained, align, g), and the forms that also take
     * a leading dimension or a buffer: on the grid the shift is
     * Shift(MCRank, align, r) and the local height LocalLength(h, MCRank, align, r).
     */
    constructor SizedAligned(h: nat, w: nat, constrained: bool, align: int, g: Grids.Grid)
      requires g.Valid() && 0 <= align < g.height
      ensures Valid() && grid == g && height == h && width == w && colAlign == align && colConstrained == constrained
      ensures colShift == (if g.inGrid then Shift(g.mcRank, align, g.height) else 0)
      ensures localHeight == (if g.inGrid then LengthFrom(h, g.mcRank, align, g.height) else 0) && localWidth == w
    {
      grid := g;
      height, width := h, w;
      colAlign, colConstrained := align, constrained;
      colShift := if g.inGrid then Shift(g.mcRank, align, g.height) else 0;
      localHeight := if g.inGrid then LengthFrom(h, g.mcRank, align, g.height) else 0;
      localWidth := w;
    }

    /**
     * AlignWith (and AlignColsWith, which calls it).  For a source with an
     * MC dimension or a VC one the column alignment is taken from it and
     * constrained, and the matrix becomes 0 x 0; only a process of the grid
     * sets the shift (A's own for an MC source, recomputed for a VC one)
     * and empties its local matrix.  For the other sources nothing changes.
     * Aligning to a source of the first kind requires a free alignment.
     */
    method AlignWith(A: AlignSource)
      requires Valid() && A.ConsistentFor(grid) && (AlignsCols(A) || IgnoredSource(A))
      requires AlignsCols(A) ==> !colConstrained
      modifies this
      ensures Valid()
      ensures IgnoredSource(A) ==> unchanged(this)
      ensures AlignsCols(A) ==> colAlign == AlignmentFrom(A, grid) && colConstrained && height == 0 && width == 0
      ensures AlignsCols(A) && grid.inGrid ==> (localHeight == 0 && localWidth == 0
        && colShift == (if A.colDist == MC then A.colShift else if A.rowDist == MC then A.rowShift
                        else Shift(grid.mcRank, colAlign, grid.height)))
      ensures AlignsCols(A) && !grid.inGrid ==>
        colShift == old(colShift) && localHeight == old(localHeight) && localWidth == old(localWidth)
    {
      if IgnoredSource(A) {
        return;
      }
      var r := grid.height;
      if A.colDist == MC {
        colAlign := A.colAlign;
      } else if A.rowDist == MC {
        colAlign := A.rowAlign;
      } else if A.colDist == VC {
        colAlign := A.colAlign % r;
      } else {
        colAlign := A.rowAlign % r;
      }
      colConstrained := true;
      height, width := 0, 0;
      if grid.inGrid {
        localHeight, localWidth := 0, 0;
        if A.colDist == MC {
          colShift := A.colShift;
        } else if A.rowDist == MC {
          colShift := A.rowShift;
        } else {
          colShift := Shift(grid.mcRank, colAlign, r);
        }
      }
    }

    /** AlignRowsWith: the rows are not distributed, so it changes nothing, whatever A is. */
    method AlignRowsWith(A: AlignSource)
      modifies this
      ensures unchanged(this)
    {
    }

    /**
     * The copy constructor: constructing a matrix from itself is an error;
     * otherwise the fresh, unconstrained matrix takes A's sizes, alignment
     * and shift.
     */
    method CopyFrom(A: McStar) returns (r: Outcome)
      requires Valid() && A.Valid() && A.grid == grid
      modifies this
      ensures r == if A == this then Fail("Tried to construct [MC,* ] with itself") else Pass
      ensures r.Fail? ==> unchanged(this)
      ensures r.Pass? ==> (height == A.height && width == A.width && colAlign == A.colAlign && colShift == A.colShift
        && localHeight == A.localHeight && localWidth == A.localWidth && !colConstrained)
      ensures Valid()
    {
      if A == this {
        return Fail("Tried to construct [MC,* ] with itself");
      }
      height, width := A.height, A.width;
      colAlign, colShift, colConstrained := A.colAlign, A.colShift, false;
      localHeight, localWidth := A.localHeight, A.localWidth;
      r := Pass;
    }
  }

  /**
   * Why a VC alignment reduces to an MC one: the process whose VC rank owns
   * row i under alignment a lies in the process row that owns row i under
   * alignment a mod r.
   */
  lemma VCOwnerInMCRow(g: Grids.Grid, a: int, i: nat)
    requires g.Valid() && 0 <= a < g.Size()
    ensures IndexOwner(i, a, g.Size()) % g.height == IndexOwner(i, a % g.height, g.height)
    ensures IndexOwner(i, a, g.Size()) == g.VCRank() ==> IndexOwner(i, a % g.height, g.height) == g.mcRank
  {
    var r, p := g.height, g.Size();
    var x := i + a;
    var Q, R := x / p, x % p;
    assert x == R + (Q * g.width) * r;
    ModAddMultiple(R, Q * g.width, r);
    ModSum(a, i, r);
    assert IndexOwner(i, a, p) == R;
    Grids.SplitRank(g.mcRank, g.mrRank, r);
  }

  /**
   * A column alignment taken from an MC source lands this matrix's rows on
   * the process rows that hold them in A; one taken from a VC source, on
   * the process row of the VC owner.
   */
  lemma AlignedRowsAgree(A: AlignSource, g: Grids.Grid, i: nat)
    requires g.Valid() && A.ConsistentFor(g) && AlignsCols(A)
    ensures A.colDist == MC ==> IndexOwner(i, AlignmentFrom(A, g), g.height) == IndexOwner(i, A.colAlign, g.height)
    ensures A.colDist == VC ==> IndexOwner(i, AlignmentFrom(A, g), g.height) == IndexOwner(i, A.colAlign, g.Size()) % g.height
    ensures A.rowDist == VC ==> IndexOwner(i, AlignmentFrom(A, g), g.height) == IndexOwner(i, A.rowAlign, g.Size()) % g.height
  {
    if A.colDist == VC {
      VCOwnerInMCRow(g, A.colAlign, i);
    } else if A.rowDist == VC {
      VCOwnerInMCRow(g, A.rowAlign, i);
    }
  }

  /**
   * GetReal, GetImag, SetReal, SetImag, UpdateReal and UpdateImag: on a
   * real element type every one of them fails; on a complex one it goes
   * ahead (the complex arithmetic is not part of this model).
   */
  function ComplexOnly(complexType: bool): (r: Outcome)
    ensures r.Fail? <==> !complexType
    ensures r.Fail? ==> r.msg == "Called complex-only routine with real datatype"
  {
    if complexType then Pass else Fail("Called complex-only routine with real datatype")
  }
}
