/**
 * The distribution metadata every distributed matrix keeps on each process
 * (AbstractDistMatrix): view type, global size, alignments and the
 * constrained flags, shifts, root and grid, together with the shape of the
 * local storage.  The pure queries (strides, ownership, locality) are
 * functions of a `Meta` value; each state change is a function from the old
 * `Meta` to the new one, and the class `DistMatrix` performs those changes on
 * its fields.
 */
module DistMatrices {
  import opened Indexing
  import opened Grids
  import opened Errors

  datatype ViewType = OWNER | VIEW | LOCKED_VIEW

  /** The distribution a matrix is, or is to be, aligned with. */
  datatype DistData = DistData(colDist: Dist, rowDist: Dist, colAlign: int, rowAlign: int, root: int, grid: Grid)

  /** The metadata MakeConsistent broadcasts: view type, size, constraints, alignments and root. */
  datatype Consistency = Consistency(viewType: ViewType, height: nat, width: nat,
                                     colConstrained: bool, rowConstrained: bool,
                                     colAlign: int, rowAlign: int, root: int)

  datatype Meta = Meta(
    colDist: Dist, rowDist: Dist,
    grid: Grid,
    viewType: ViewType,
    height: nat, width: nat,
    colConstrained: bool, rowConstrained: bool,
    colAlign: int, rowAlign: int,
    colShift: int, rowShift: int,
    root: int,
    localHeight: nat, localWidth: nat)
  {
    predicate Viewing() { viewType != OWNER }

    predicate Locked() { viewType == LOCKED_VIEW }

    function ColStride(): nat
      requires grid.Valid()
    {
      Stride(colDist, grid)
    }

    function RowStride(): nat
      requires grid.Valid()
    {
      Stride(rowDist, grid)
    }

    function ColRank(): nat
      requires grid.Valid()
    {
      DistRankOf(colDist, grid)
    }

    function RowRank(): nat
      requires grid.Valid()
    {
      DistRankOf(rowDist, grid)
    }

    /** The rank in the distribution communicator: column rank + row rank * column stride. */
    function DistRank(): nat
      requires grid.Valid()
    {
      ColRank() + RowRank() * ColStride()
    }

    /** A process holds data iff it is in the grid and is the root of its cross communicator. */
    predicate Participating()
      requires grid.Valid()
    {
      grid.inGrid && CrossRank(colDist, rowDist, grid) == root
    }

    /** The partial strides of the base class: the full stride, with trivial unions. */
    function PartialColStride(): (s: nat)
      requires grid.Valid()
      ensures s * PartialUnionColStride() == ColStride()
    {
      ColStride()
    }

    function PartialRowStride(): (s: nat)
      requires grid.Valid()
      ensures s * PartialUnionRowStride() == RowStride()
    {
      RowStride()
    }

    function PartialUnionColStride(): nat { 1 }

    function PartialUnionRowStride(): nat { 1 }

    /** Process row (within the column communicator) owning global row i. */
    function RowOwner(i: int): (o: int)
      requires grid.Valid()
      ensures i + colAlign >= 0 ==> 0 <= o < ColStride()
    {
      IndexOwner(i, colAlign, ColStride())
    }

    /** Process column (within the row communicator) owning global column j. */
    function ColOwner(j: int): (o: int)
      requires grid.Valid()
      ensures j + rowAlign >= 0 ==> 0 <= o < RowStride()
    {
      IndexOwner(j, rowAlign, RowStride())
    }

    /** Distribution rank owning entry (i, j): a rank of the distribution communicator. */
    function Owner(i: int, j: int): (o: int)
      requires grid.Valid()
      ensures i + colAlign >= 0 && j + rowAlign >= 0 ==> 0 <= o < ColStride() * RowStride()
    {
      if i + colAlign >= 0 && j + rowAlign >= 0 then
        VCInRange(RowOwner(i), ColOwner(j), ColStride(), RowStride());
        RowOwner(i) + ColOwner(j) * ColStride()
      else
        RowOwner(i) + ColOwner(j) * ColStride()
    }

    /** The C++ test `(i - colShift) % colStride == 0`; once settled, it holds exactly on i's owner. */
    predicate IsLocalRow(i: int)
      requires grid.Valid()
      ensures Settled() && i >= 0 ==> (IsLocalRow(i) <==> Participating() && RowOwner(i) == ColRank())
    {
      if Settled() && i >= 0 && Participating() then
        LocalIffOwner(i, ColRank(), colAlign, ColStride());
        IsLocalIndex(i, colShift, ColStride())
      else
        Participating() && IsLocalIndex(i, colShift, ColStride())
    }

    predicate IsLocalCol(j: int)
      requires grid.Valid()
      ensures Settled() && j >= 0 ==> (IsLocalCol(j) <==> Participating() && ColOwner(j) == RowRank())
    {
      if Settled() && j >= 0 && Participating() then
        LocalIffOwner(j, RowRank(), rowAlign, RowStride());
        IsLocalIndex(j, rowShift, RowStride())
      else
        Participating() && IsLocalIndex(j, rowShift, RowStride())
    }

    /** Entry (i, j) is held here; once settled, exactly on the process whose distribution rank owns it. */
    predicate IsLocal(i: int, j: int)
      requires grid.Valid()
      ensures Settled() && i >= 0 && j >= 0 ==> (IsLocal(i, j) <==> Participating() && Owner(i, j) == DistRank())
    {
      if Settled() && i >= 0 && j >= 0 then
        SplitRank(RowOwner(i), ColOwner(j), ColStride());
        SplitRank(ColRank(), RowRank(), ColStride());
        IsLocalRow(i) && IsLocalCol(j)
      else
        IsLocalRow(i) && IsLocalCol(j)
    }

    /** Local row of global row i; asking for a row this process does not hold is an error. */
    function LocalRow(i: int): (r: Result<int>)
      requires grid.Valid()
      ensures r.Success? <==> IsLocalRow(i)
    {
      if IsLocalRow(i) then Success(LocalIndex(i, colShift, ColStride()))
      else Failure("Requested local index of non-local row")
    }

    function LocalCol(j: int): (r: Result<int>)
      requires grid.Valid()
      ensures r.Success? <==> IsLocalCol(j)
    {
      if IsLocalCol(j) then Success(LocalIndex(j, rowShift, RowStride()))
      else Failure("Requested local index of non-local column")
    }

    /** Shifts as SetShifts leaves them: computed from rank and alignment on participating processes, else 0. */
    predicate ShiftsSet()
      requires grid.Valid()
    {
      if Participating() then
        colShift == Shift(ColRank(), colAlign, ColStride())
        && rowShift == Shift(RowRank(), rowAlign, RowStride())
      else
        colShift == 0 && rowShift == 0
    }

    /** The local storage has the extent Resize allocates: Length of each dimension, or nothing. */
    predicate LocalShapeSet()
      requires grid.Valid() && colShift >= 0 && rowShift >= 0
    {
      if Participating() then
        localHeight == Length(height, colShift, ColStride())
        && localWidth == Length(width, rowShift, RowStride())
      else
        localHeight == 0 && localWidth == 0
    }

    /**
     * Everything the invariant asks for except the extent of the local storage;
     * this is what holds between re-aligning and the Resize that follows it.
     */
    predicate Settled()
    {
      grid.Valid()
      && 0 <= colAlign < ColStride() && 0 <= rowAlign < RowStride()
      && ShiftsSet()
      && (!Participating() ==> localHeight == 0 && localWidth == 0)
      && (Viewing() ==> colConstrained && rowConstrained)
    }

    /** The invariant every public operation keeps. */
    predicate Valid()
    {
      Settled() && LocalShapeSet()
    }

    // -------------------------------------------------------------------
    // State changes, one function per operation
    // -------------------------------------------------------------------

    /** SetShifts: recompute both shifts from the current alignments. */
    function WithShifts(): Meta
      requires grid.Valid()
    {
      if Participating() then
        this.(colShift := Shift(ColRank(), colAlign, ColStride()),
              rowShift := Shift(RowRank(), rowAlign, RowStride()))
      else
        this.(colShift := 0, rowShift := 0)
    }

    /** SetColShift: recompute the column shift only. */
    function WithColShift(): Meta
      requires grid.Valid()
    {
      this.(colShift := if Participating() then Shift(ColRank(), colAlign, ColStride()) else 0)
    }

    function WithRowShift(): Meta
      requires grid.Valid()
    {
      this.(rowShift := if Participating() then Shift(RowRank(), rowAlign, RowStride()) else 0)
    }

    /**
     * Empty as written: frees the local storage, becomes an unconstrained 0 x 0
     * owner with both alignments reset to 0, but leaves the shifts untouched.
     */
    function EmptiedAsWritten(): Meta
    {
      this.(viewType := OWNER, height := 0, width := 0, colAlign := 0, rowAlign := 0,
            colConstrained := false, rowConstrained := false,
            localHeight := 0, localWidth := 0)
    }

    /** Empty with the shifts brought back in line with the reset alignments. */
    function Emptied(): Meta
      requires grid.Valid()
    {
      EmptiedAsWritten().WithShifts()
    }

    /** EmptyData: frees the local storage and becomes a 0 x 0 owner; alignments and flags stay. */
    function DataEmptied(): Meta
    {
      this.(viewType := OWNER, height := 0, width := 0, localHeight := 0, localWidth := 0)
    }

    /** SetGrid: moving to a different grid empties the matrix and recomputes the shifts. */
    function WithGrid(g: Grid): Meta
      requires grid.Valid() && g.Valid()
    {
      if grid != g then Emptied().(grid := g).WithShifts() else this
    }

    /** Resize: records the size; a participating process reallocates its local storage. */
    function Resized(h: nat, w: nat): Meta
      requires grid.Valid() && colShift >= 0 && rowShift >= 0
    {
      this.(height := h, width := w,
            localHeight := if Participating() then Length(h, colShift, ColStride()) else localHeight,
            localWidth := if Participating() then Length(w, rowShift, RowStride()) else localWidth)
    }

    /** Resize is refused on a locked view. */
    predicate ResizeFails() { Locked() }

    /** Align: a changed alignment empties the matrix; both dimensions end up constrained. */
    function Aligned(ca: int, ra: int): Meta
      requires grid.Valid()
    {
      (if colAlign != ca || rowAlign != ra then Emptied() else this)
        .(colConstrained := true, rowConstrained := true, colAlign := ca, rowAlign := ra)
        .WithShifts()
    }

    /** A view cannot be realigned. */
    predicate AlignFails(ca: int, ra: int)
    {
      Viewing() && (colAlign != ca || rowAlign != ra)
    }

    /** AlignCols: a changed column alignment empties the data only; the row side is untouched. */
    function ColsAligned(ca: int): Meta
      requires grid.Valid()
    {
      (if colAlign != ca then DataEmptied() else this)
        .(colConstrained := true, colAlign := ca)
        .WithShifts()
    }

    predicate AlignColsFails(ca: int) { Viewing() && colAlign != ca }

    function RowsAligned(ra: int): Meta
      requires grid.Valid()
    {
      (if rowAlign != ra then DataEmptied() else this)
        .(rowConstrained := true, rowAlign := ra)
        .WithShifts()
    }

    predicate AlignRowsFails(ra: int) { Viewing() && rowAlign != ra }

    /** FreeAlignments: an owner drops both constraints; a view refuses. */
    function AlignmentsFreed(): Meta
    {
      this.(colConstrained := false, rowConstrained := false)
    }

    /** SetRoot: a different root empties the matrix. */
    function WithRoot(newRoot: int): Meta
      requires grid.Valid()
    {
      (if newRoot != root then Emptied() else this).(root := newRoot)
    }

    predicate SetRootFails(newRoot: int)
      requires grid.Valid()
    {
      newRoot < 0 || newRoot >= CrossSize(colDist, rowDist, grid)
    }

    /** AlignWith(data): the alignments must still be 0; only the grid is adopted. */
    predicate AlignWithFails() { colAlign != 0 || rowAlign != 0 }

    predicate AlignColsWithFails() { colAlign != 0 }

    predicate AlignRowsWithFails() { rowAlign != 0 }

    /** The eight values MakeConsistent broadcasts from the first process of the VC communicator. */
    function Message(): Consistency
    {
      Consistency(viewType, height, width, colConstrained, rowConstrained, colAlign, rowAlign, root)
    }

    /** A broadcast that describes a settled matrix of this distribution on this grid. */
    predicate Describes(msg: Consistency)
      requires grid.Valid()
    {
      0 <= msg.colAlign < ColStride() && 0 <= msg.rowAlign < RowStride()
      && (msg.viewType != OWNER ==> msg.colConstrained && msg.rowConstrained)
    }

    /**
     * MakeConsistent on a process that holds no data, up to the final Resize:
     * SetRoot with the broadcast root, then the broadcast view type,
     * constraints and alignments, then SetShifts.
     */
    function Adopted(msg: Consistency): Meta
      requires grid.Valid()
    {
      WithRoot(msg.root).(viewType := msg.viewType,
                          colConstrained := msg.colConstrained, rowConstrained := msg.rowConstrained,
                          colAlign := msg.colAlign, rowAlign := msg.rowAlign).WithShifts()
    }

    /**
     * AlignAndResize: an owner takes each requested alignment if forced or if
     * that dimension is unconstrained, then resizes.
     */
    function AlignedAndResized(ca: int, ra: int, h: nat, w: nat, force: bool): Meta
      requires grid.Valid() && colShift >= 0 && rowShift >= 0
    {
      ColsRealigned(ca, force).RowsRealigned(ra, force).Resized(h, w)
    }

    /** The alignment half of AlignColsAndResize (and the first step of AlignAndResize). */
    function ColsRealigned(ca: int, force: bool): Meta
      requires grid.Valid()
    {
      if !Viewing() && (force || !colConstrained) then this.(colAlign := ca).WithColShift() else this
    }

    /** The alignment half of AlignRowsAndResize. */
    function RowsRealigned(ra: int, force: bool): Meta
      requires grid.Valid()
    {
      if !Viewing() && (force || !rowConstrained) then this.(rowAlign := ra).WithRowShift() else this
    }

    /** A forced alignment fails exactly when the matrix is a view whose alignment differs. */
    predicate AlignAndResizeFails(ca: int, ra: int, force: bool)
    {
      (force && Viewing() && (colAlign != ca || rowAlign != ra)) || Locked()
    }

    function ColsAlignedAndResized(ca: int, h: nat, w: nat, force: bool): Meta
      requires grid.Valid() && colShift >= 0 && rowShift >= 0
    {
      ColsRealigned(ca, force).Resized(h, w)
    }

    predicate AlignColsAndResizeFails(ca: int, force: bool)
    {
      (force && Viewing() && colAlign != ca) || Locked()
    }

    function RowsAlignedAndResized(ra: int, h: nat, w: nat, force: bool): Meta
      requires grid.Valid() && colShift >= 0 && rowShift >= 0
    {
      RowsRealigned(ra, force).Resized(h, w)
    }

    predicate AlignRowsAndResizeFails(ra: int, force: bool)
    {
      (force && Viewing() && rowAlign != ra) || Locked()
    }

    /** Attach / LockedAttach: become a constrained view of an outside buffer of the given global size. */
    function Attached(h: nat, w: nat, ca: int, ra: int, g: Grid, newRoot: int, locked: bool): Meta
      requires grid.Valid() && g.Valid()
    {
      var m := Emptied().(grid := g, root := newRoot, height := h, width := w,
                          colAlign := ca, rowAlign := ra,
                          colConstrained := true, rowConstrained := true,
                          viewType := if locked then LOCKED_VIEW else VIEW).WithShifts();
      if m.Participating() then
        m.(localHeight := Length(h, m.colShift, m.ColStride()), localWidth := Length(w, m.rowShift, m.RowStride()))
      else m
    }
  }

  /** The state a new matrix starts in: an unconstrained 0 x 0 owner, aligned at 0, shifts set. */
  function Initial(colDist: Dist, rowDist: Dist, g: Grid, root: int): (m: Meta)
    requires g.Valid()
    ensures m.Valid() && m.height == 0 && m.width == 0 && !m.Viewing()
  {
    Meta(colDist, rowDist, g, OWNER, 0, 0, false, false, 0, 0, 0, 0, root, 0, 0).WithShifts()
  }

  // ---------------------------------------------------------------------
  // Ownership and locality
  // ---------------------------------------------------------------------

  /** The owner of an entry is a rank of the distribution communicator. */
  lemma OwnerInRange(m: Meta, i: int, j: int)
    requires m.Valid() && i >= 0 && j >= 0
    ensures 0 <= m.Owner(i, j) < m.ColStride() * m.RowStride()
  {
    VCInRange(m.RowOwner(i), m.ColOwner(j), m.ColStride(), m.RowStride());
  }

  /** A participating process holds row i iff i's row owner is its column rank; likewise for columns. */
  lemma LocalIffOwned(m: Meta, i: int, j: int)
    requires m.Valid() && m.Participating() && i >= 0 && j >= 0
    ensures m.IsLocalRow(i) <==> m.RowOwner(i) == m.ColRank()
    ensures m.IsLocalCol(j) <==> m.ColOwner(j) == m.RowRank()
  {
    LocalIffOwner(i, m.ColRank(), m.colAlign, m.ColStride());
    LocalIffOwner(j, m.RowRank(), m.rowAlign, m.RowStride());
  }

  /** Entry (i, j) is local exactly on the process whose distribution rank is its owner. */
  lemma EntryLocalIffOwner(m: Meta, i: int, j: int)
    requires m.Valid() && m.Participating() && i >= 0 && j >= 0
    ensures m.IsLocal(i, j) <==> m.Owner(i, j) == m.DistRank()
  {
    LocalIffOwned(m, i, j);
    var cs := m.ColStride();
    SplitRank(m.RowOwner(i), m.ColOwner(j), cs);
    SplitRank(m.ColRank(), m.RowRank(), cs);
  }

  /** LocalRow(colShift + k*colStride) == k and LocalCol(rowShift + k*rowStride) == k. */
  lemma LocalOfGlobalIndex(m: Meta, k: int)
    requires m.Valid() && m.Participating() && k >= 0
    ensures m.LocalRow(GlobalIndex(k, m.colShift, m.ColStride())) == Success(k)
    ensures m.LocalCol(GlobalIndex(k, m.rowShift, m.RowStride())) == Success(k)
  {
    LocalOfGlobal(k, m.colShift, m.ColStride());
    LocalOfGlobal(k, m.rowShift, m.RowStride());
  }

  /** A local row's local index maps back to it, and lies inside the local storage exactly when i < height. */
  lemma GlobalOfLocalRow(m: Meta, i: int)
    requires m.Valid() && 0 <= i && m.IsLocalRow(i)
    ensures var k := m.LocalRow(i).value;
      0 <= k && GlobalIndex(k, m.colShift, m.ColStride()) == i
      && (i < m.height <==> k < m.localHeight)
  {
    GlobalOfLocal(i, m.colShift, m.ColStride());
    LengthIndex(m.height, m.colShift, m.ColStride(), m.LocalRow(i).value);
  }

  lemma GlobalOfLocalCol(m: Meta, j: int)
    requires m.Valid() && 0 <= j && m.IsLocalCol(j)
    ensures var k := m.LocalCol(j).value;
      0 <= k && GlobalIndex(k, m.rowShift, m.RowStride()) == j
      && (j < m.width <==> k < m.localWidth)
  {
    GlobalOfLocal(j, m.rowShift, m.RowStride());
    LengthIndex(m.width, m.rowShift, m.RowStride(), m.LocalCol(j).value);
  }

  // ---------------------------------------------------------------------
  // The lifecycle keeps the invariant
  // ---------------------------------------------------------------------

  /** A settled 0 x 0 matrix with no local storage is valid. */
  lemma ZeroShapeValid(m: Meta)
    requires m.Settled() && m.height == 0 && m.width == 0 && m.localHeight == 0 && m.localWidth == 0
    ensures m.Valid()
  {
  }

  lemma EmptiedValid(m: Meta)
    requires m.Valid()
    ensures m.Emptied().Valid()
    ensures m.Emptied().height == 0 && m.Emptied().width == 0 && !m.Emptied().Viewing()
    ensures !m.Emptied().colConstrained && !m.Emptied().rowConstrained
    ensures m.Emptied().colAlign == 0 && m.Emptied().rowAlign == 0
  {
    ZeroShapeValid(m.Emptied());
  }

  /** Resize turns a settled matrix into a valid one of the requested size. */
  lemma ResizedValid(m: Meta, h: nat, w: nat)
    requires m.Settled() && !m.ResizeFails()
    ensures m.Resized(h, w).Valid()
    ensures m.Resized(h, w).height == h && m.Resized(h, w).width == w
  {
  }

  /** Align keeps the invariant, constrains both dimensions and empties exactly on a change. */
  lemma AlignedValid(m: Meta, ca: int, ra: int)
    requires m.Valid() && 0 <= ca < m.ColStride() && 0 <= ra < m.RowStride() && !m.AlignFails(ca, ra)
    ensures var r := m.Aligned(ca, ra);
      r.Valid() && r.colConstrained && r.rowConstrained && r.colAlign == ca && r.rowAlign == ra
      && ((m.colAlign != ca || m.rowAlign != ra) ==> r.height == 0 && r.width == 0 && !r.Viewing())
      && ((m.colAlign == ca && m.rowAlign == ra) ==> r == m.(colConstrained := true, rowConstrained := true))
  {
    if m.colAlign != ca || m.rowAlign != ra {
      ZeroShapeValid(m.Aligned(ca, ra));
    }
  }

  /** AlignCols keeps the invariant and leaves the row alignment and row constraint alone. */
  lemma ColsAlignedValid(m: Meta, ca: int)
    requires m.Valid() && 0 <= ca < m.ColStride() && !m.AlignColsFails(ca)
    ensures var r := m.ColsAligned(ca);
      r.Valid() && r.colConstrained && r.colAlign == ca
      && r.rowAlign == m.rowAlign && r.rowConstrained == m.rowConstrained && r.rowShift == m.rowShift
      && (m.colAlign == ca ==> r == m.(colConstrained := true))
  {
    if m.colAlign != ca {
      ZeroShapeValid(m.ColsAligned(ca));
    }
  }

  lemma RowsAlignedValid(m: Meta, ra: int)
    requires m.Valid() && 0 <= ra < m.RowStride() && !m.AlignRowsFails(ra)
    ensures var r := m.RowsAligned(ra);
      r.Valid() && r.rowConstrained && r.rowAlign == ra
      && r.colAlign == m.colAlign && r.colConstrained == m.colConstrained && r.colShift == m.colShift
      && (m.rowAlign == ra ==> r == m.(rowConstrained := true))
  {
    if m.rowAlign != ra {
      ZeroShapeValid(m.RowsAligned(ra));
    }
  }

  lemma AlignmentsFreedValid(m: Meta)
    requires m.Valid() && !m.Viewing()
    ensures m.AlignmentsFreed().Valid()
  {
  }

  /** SetGrid keeps the invariant and changes nothing when the grid is the same. */
  lemma WithGridValid(m: Meta, g: Grid)
    requires m.Valid() && g.Valid()
    ensures m.WithGrid(g).Valid() && m.WithGrid(g).grid == g
    ensures m.grid == g ==> m.WithGrid(g) == m
  {
    if m.grid != g {
      ZeroShapeValid(m.WithGrid(g));
    }
  }

  /**
   * SetRoot keeps the invariant.  Only the [o,o] distribution has more than one
   * possible root, and its strides are 1, so the shifts it leaves stay correct
   * as long as the old root was itself a valid one.
   */
  lemma WithRootValid(m: Meta, newRoot: int)
    requires m.Valid() && !m.SetRootFails(m.root) && !m.SetRootFails(newRoot)
    ensures m.WithRoot(newRoot).Valid() && m.WithRoot(newRoot).root == newRoot
    ensures newRoot == m.root ==> m.WithRoot(newRoot) == m
  {
    if newRoot != m.root {
      assert m.colDist == CIRC && m.rowDist == CIRC;
      ZeroShapeValid(m.WithRoot(newRoot));
    }
  }

  /**
   * A process holding no data that adopts a broadcast describing a settled
   * matrix becomes valid and carries exactly the broadcast metadata, unless
   * the broadcast is a locked view, which Resize refuses.
   */
  lemma AdoptedValid(m: Meta, msg: Consistency)
    requires m.Valid() && !m.Participating() && m.Describes(msg) && !m.SetRootFails(msg.root)
    ensures m.Adopted(msg).Settled()
    ensures msg.viewType != LOCKED_VIEW ==>
      var r := m.Adopted(msg).Resized(msg.height, msg.width);
      r.Valid() && r.Message() == msg
  {
    var a := m.Adopted(msg);
    if msg.root == m.root {
      assert m.WithRoot(msg.root) == m;
      assert !a.Participating();
    }
    assert !a.Participating() ==> a.localHeight == 0 && a.localWidth == 0;
    if msg.viewType != LOCKED_VIEW {
      ResizedValid(a, msg.height, msg.width);
    }
  }

  /**
   * The checks a participating process makes against the broadcast, in the
   * order MakeConsistent makes them; it passes exactly when the process's own
   * metadata is the broadcast.
   */
  function CheckConsistent(m: Meta, msg: Consistency): (r: Outcome)
    ensures r.Pass? <==> m.Message() == msg
  {
    if m.viewType != msg.viewType then Fail("Inconsistent ViewType")
    else if m.height != msg.height then Fail("Inconsistent height")
    else if m.width != msg.width then Fail("Inconsistent width")
    else if m.colConstrained != msg.colConstrained || m.colAlign != msg.colAlign then Fail("Inconsistent column constraint")
    else if m.rowConstrained != msg.rowConstrained || m.rowAlign != msg.rowAlign then Fail("Inconsistent row constraint")
    else if m.root != msg.root then Fail("Inconsistent root")
    else Pass
  }

  /** Re-aligning one dimension, as AlignAndResize does before it resizes, keeps a matrix settled. */
  lemma RealignedSettled(m: Meta, ca: int, ra: int, force: bool)
    requires m.Settled() && 0 <= ca < m.ColStride() && 0 <= ra < m.RowStride()
    ensures m.ColsRealigned(ca, force).Settled()
    ensures m.RowsRealigned(ra, force).Settled()
  {
  }

  /**
   * AlignAndResize keeps the invariant; an owner ends up with the requested
   * alignment in every dimension that was forced or unconstrained, and a view
   * keeps its alignments.
   */
  lemma AlignedAndResizedValid(m: Meta, ca: int, ra: int, h: nat, w: nat, force: bool)
    requires m.Valid() && 0 <= ca < m.ColStride() && 0 <= ra < m.RowStride()
    requires !m.AlignAndResizeFails(ca, ra, force)
    ensures var r := m.AlignedAndResized(ca, ra, h, w, force);
      r.Valid() && r.height == h && r.width == w
      && r.colAlign == (if !m.Viewing() && (force || !m.colConstrained) then ca else m.colAlign)
      && r.rowAlign == (if !m.Viewing() && (force || !m.rowConstrained) then ra else m.rowAlign)
      && (force ==> r.colAlign == ca && r.rowAlign == ra)
  {
    RealignedSettled(m, ca, ra, force);
    RealignedSettled(m.ColsRealigned(ca, force), ca, ra, force);
    ResizedValid(m.ColsRealigned(ca, force).RowsRealigned(ra, force), h, w);
  }

  lemma ColsAlignedAndResizedValid(m: Meta, ca: int, h: nat, w: nat, force: bool)
    requires m.Valid() && 0 <= ca < m.ColStride() && !m.AlignColsAndResizeFails(ca, force)
    ensures var r := m.ColsAlignedAndResized(ca, h, w, force);
      r.Valid() && r.height == h && r.width == w && r.rowAlign == m.rowAlign
      && (force ==> r.colAlign == ca)
  {
    RealignedSettled(m, ca, m.rowAlign, force);
    ResizedValid(m.ColsRealigned(ca, force), h, w);
  }

  lemma RowsAlignedAndResizedValid(m: Meta, ra: int, h: nat, w: nat, force: bool)
    requires m.Valid() && 0 <= ra < m.RowStride() && !m.AlignRowsAndResizeFails(ra, force)
    ensures var r := m.RowsAlignedAndResized(ra, h, w, force);
      r.Valid() && r.height == h && r.width == w && r.colAlign == m.colAlign
      && (force ==> r.rowAlign == ra)
  {
    RealignedSettled(m, m.colAlign, ra, force);
    ResizedValid(m.RowsRealigned(ra, force), h, w);
  }

  /** Attach yields a constrained view whose local storage has the Length extents. */
  lemma AttachedValid(m: Meta, h: nat, w: nat, ca: int, ra: int, g: Grid, newRoot: int, locked: bool)
    requires m.Valid() && g.Valid()
    requires 0 <= ca < Stride(m.colDist, g) && 0 <= ra < Stride(m.rowDist, g)
    ensures var r := m.Attached(h, w, ca, ra, g, newRoot, locked);
      r.Valid() && r.Viewing() && r.Locked() == locked && r.height == h && r.width == w
      && r.colAlign == ca && r.rowAlign == ra && r.grid == g && r.root == newRoot
  {
  }

  /**
   * Empty as written keeps the shift of the old alignment.  On any
   * participating process of a matrix with a nonzero column alignment, the
   * shift left behind is wrong, and after the next Resize the process owns
   * the row whose index is its own column rank without holding it locally.
   */
  lemma EmptyAsWrittenStaleShift(m: Meta, h: nat, w: nat)
    requires m.Valid() && m.Participating() && m.colAlign != 0
    ensures !m.EmptiedAsWritten().ShiftsSet()
    ensures var e := m.EmptiedAsWritten().Resized(h, w);
      e.Participating() && e.RowOwner(m.ColRank()) == e.ColRank() && !e.IsLocalRow(m.ColRank())
  {
    var r, a, p := m.ColRank(), m.colAlign, m.ColStride();
    LocalIffOwner(r, r, a, p);
    LocalIffOwner(r, r, 0, p);
    UniqueDivMod(r, p, 0, r);
    if r + a < p {
      UniqueDivMod(r + a, p, 0, r + a);
    } else {
      UniqueDivMod(r + a, p, 1, r + a - p);
    }
  }

  /** With the shifts recomputed, the owner of a row always holds it after a Resize. */
  lemma EmptiedResizedHoldsOwnedRows(m: Meta, h: nat, w: nat, i: int)
    requires m.Valid() && 0 <= i < h
    ensures var e := m.Emptied().Resized(h, w);
      e.Valid() && (e.Participating() && e.RowOwner(i) == e.ColRank() ==> e.IsLocalRow(i) && e.LocalRow(i).value < e.localHeight)
  {
    EmptiedValid(m);
    var e := m.Emptied().Resized(h, w);
    ResizedValid(m.Emptied(), h, w);
    if e.Participating() && e.RowOwner(i) == e.ColRank() {
      LocalIffOwned(e, i, 0);
      GlobalOfLocalRow(e, i);
    }
  }

  // ---------------------------------------------------------------------
  // Assertions
  // ---------------------------------------------------------------------

  /** AssertValidEntry: (i, j) must lie in [0, height) x [0, width). */
  function AssertValidEntry(m: Meta, i: int, j: int): (r: Outcome)
    ensures r.Pass? <==> 0 <= i < m.height && 0 <= j < m.width
  {
    if i < 0 || i >= m.height || j < 0 || j >= m.width then
      Fail("Entry is out of bounds of the matrix")
    else Pass
  }

  /** AssertValidSubmatrix: non-negative offsets and sizes, and the block must fit. */
  function AssertValidSubmatrix(m: Meta, i: int, j: int, h: int, w: int): (r: Outcome)
    ensures r.Pass? <==> 0 <= i && 0 <= j && 0 <= h && 0 <= w && i + h <= m.height && j + w <= m.width
    ensures (i < 0 || j < 0) ==> r == Fail("Indices of submatrix were negative")
    ensures 0 <= i && 0 <= j && (h < 0 || w < 0) ==> r == Fail("Dimensions of submatrix were negative")
  {
    if i < 0 || j < 0 then Fail("Indices of submatrix were negative")
    else if h < 0 || w < 0 then Fail("Dimensions of submatrix were negative")
    else if i + h > m.height || j + w > m.width then Fail("Submatrix is out of bounds")
    else Pass
  }

  /**
   * A non-empty submatrix passes its check iff its first and last entries are
   * valid entries, and then every entry inside it is valid.
   */
  lemma ValidSubmatrixEntries(m: Meta, i: int, j: int, h: int, w: int)
    requires h > 0 && w > 0
    ensures AssertValidSubmatrix(m, i, j, h, w).Pass?
        <==> (AssertValidEntry(m, i, j).Pass? && AssertValidEntry(m, i + h - 1, j + w - 1).Pass?)
    ensures AssertValidSubmatrix(m, i, j, h, w).Pass? ==>
        forall x, y :: i <= x < i + h && j <= y < j + w ==> AssertValidEntry(m, x, y).Pass?
  {
  }

  /** AssertConforming1x2: side-by-side blocks need equal heights and column alignments. */
  function AssertConforming1x2(left: Meta, right: Meta): (r: Outcome)
    ensures r.Pass? <==> left.height == right.height && left.colAlign == right.colAlign
    ensures left.height != right.height ==> r == Fail("1x2 not conformant")
  {
    if left.height != right.height then Fail("1x2 not conformant")
    else if left.colAlign != right.colAlign then Fail("1x2 is misaligned")
    else Pass
  }

  /** AssertConforming2x1: stacked blocks need equal widths and row alignments. */
  function AssertConforming2x1(top: Meta, bottom: Meta): (r: Outcome)
    ensures r.Pass? <==> top.width == bottom.width && top.rowAlign == bottom.rowAlign
    ensures top.width != bottom.width ==> r == Fail("2x1 is not conformant")
  {
    if top.width != bottom.width then Fail("2x1 is not conformant")
    else if top.rowAlign != bottom.rowAlign then Fail("2x1 is not aligned")
    else Pass
  }

  /** AssertConforming2x2: each block row shares a height and column alignment, each block column a width and row alignment. */
  function AssertConforming2x2(tl: Meta, tr: Meta, bl: Meta, br: Meta): (r: Outcome)
    ensures r.Pass? <==> tl.height == tr.height && bl.height == br.height && tl.width == bl.width && tr.width == br.width
                         && tl.colAlign == tr.colAlign && bl.colAlign == br.colAlign
                         && tl.rowAlign == bl.rowAlign && tr.rowAlign == br.rowAlign
  {
    if tl.width != bl.width || tr.width != br.width || tl.height != tr.height || bl.height != br.height then
      Fail("2x2 is not conformant")
    else if tl.colAlign != tr.colAlign || bl.colAlign != br.colAlign
         || tl.rowAlign != bl.rowAlign || tr.rowAlign != br.rowAlign then
      Fail("2x2 set of matrices must aligned to combine")
    else Pass
  }

  /** Two metadata records of the same distribution on the same process. */
  predicate SameLayout(a: Meta, b: Meta)
  {
    a.colDist == b.colDist && a.rowDist == b.rowDist && a.grid == b.grid && a.root == b.root
  }

  /**
   * Conforming side-by-side blocks have equal local heights on every process,
   * so their local matrices can be joined column-wise; stacked blocks likewise
   * have equal local widths.
   */
  lemma ConformingBlocksJoinLocally(a: Meta, b: Meta)
    requires a.Valid() && b.Valid() && SameLayout(a, b)
    ensures AssertConforming1x2(a, b).Pass? ==> a.localHeight == b.localHeight && a.colShift == b.colShift
    ensures AssertConforming2x1(a, b).Pass? ==> a.localWidth == b.localWidth && a.rowShift == b.rowShift
  {
  }

  /** The 2x2 check is the 1x2 check on both block rows and the 2x1 check on both block columns. */
  lemma Conforming2x2Decomposes(tl: Meta, tr: Meta, bl: Meta, br: Meta)
    ensures AssertConforming2x2(tl, tr, bl, br).Pass?
        <==> (AssertConforming1x2(tl, tr).Pass? && AssertConforming1x2(bl, br).Pass?
              && AssertConforming2x1(tl, bl).Pass? && AssertConforming2x1(tr, br).Pass?)
  {
  }

  // ---------------------------------------------------------------------
  // The per-process object
  // ---------------------------------------------------------------------

  class DistMatrix {
    const colDist: Dist
    const rowDist: Dist
    var grid: Grid
    var viewType: ViewType
    var height: nat
    var width: nat
    var colConstrained: bool
    var rowConstrained: bool
    var colAlign: int
    var rowAlign: int
    var colShift: int
    var rowShift: int
    var root: int
    var localHeight: nat
    var localWidth: nat

    function State(): Meta
      reads this
    {
      Meta(colDist, rowDist, grid, viewType, height, width, colConstrained, rowConstrained,
           colAlign, rowAlign, colShift, rowShift, root, localHeight, localWidth)
    }

    predicate Valid()
      reads this
    {
      State().Valid()
    }

    /** A new matrix on grid g: the base-class defaults followed by SetShifts. */
    constructor(cd: Dist, rd: Dist, g: Grid, r: int)
      requires g.Valid()
      ensures State() == Initial(cd, rd, g, r) && Valid()
    {
      colDist, rowDist := cd, rd;
      grid := g;
      viewType := OWNER;
      height, width := 0, 0;
      colConstrained, rowConstrained := false, false;
      colAlign, rowAlign := 0, 0;
      root := r;
      localHeight, localWidth := 0, 0;
      new;
      SetShifts();
    }

    method SetShifts()
      requires grid.Valid()
      modifies this
      ensures State() == old(State()).WithShifts()
    {
      if State().Participating() {
        colShift := Shift(State().ColRank(), colAlign, State().ColStride());
        rowShift := Shift(State().RowRank(), rowAlign, State().RowStride());
      } else {
        colShift := 0;
        rowShift := 0;
      }
    }

    method SetColShift()
      requires grid.Valid()
      modifies this
      ensures State() == old(State()).WithColShift()
    {
      if State().Participating() {
        colShift := Shift(State().ColRank(), colAlign, State().ColStride());
      } else {
        colShift := 0;
      }
    }

    method SetRowShift()
      requires grid.Valid()
      modifies this
      ensures State() == old(State()).WithRowShift()
    {
      if State().Participating() {
        rowShift := Shift(State().RowRank(), rowAlign, State().RowStride());
      } else {
        rowShift := 0;
      }
    }

    /** Empty, followed by the SetShifts the reset alignments call for. */
    method Empty()
      requires Valid()
      modifies this
      ensures State() == old(State()).Emptied() && Valid()
    {
      EmptyAsWritten();
      SetShifts();
    }

    /** Empty exactly as written: the shifts keep the values of the old alignments. */
    method EmptyAsWritten()
      modifies this
      ensures State() == old(State()).EmptiedAsWritten()
    {
      localHeight, localWidth := 0, 0;
      viewType := OWNER;
      height, width := 0, 0;
      colAlign, rowAlign := 0, 0;
      colConstrained, rowConstrained := false, false;
    }

    method EmptyData()
      modifies this
      ensures State() == old(State()).DataEmptied()
    {
      localHeight, localWidth := 0, 0;
      viewType := OWNER;
      height, width := 0, 0;
    }

    method SetGrid(g: Grid)
      requires Valid() && g.Valid()
      modifies this
      ensures State() == old(State()).WithGrid(g) && Valid()
    {
      WithGridValid(State(), g);
      if grid != g {
        Empty();
        grid := g;
        SetShifts();
      }
    }

    /** Resize: a settled matrix (in particular a valid one) becomes valid at the new size. */
    method Resize(h: nat, w: nat) returns (r: Outcome)
      requires State().Settled()
      modifies this
      ensures r.Fail? <==> old(State()).ResizeFails()
      ensures State() == if r.Fail? then old(State()) else old(State()).Resized(h, w)
      ensures r.Pass? ==> Valid()
    {
      if viewType == LOCKED_VIEW {
        return Fail("Assertion that matrix not be a locked view failed");
      }
      ResizedValid(State(), h, w);
      height, width := h, w;
      if State().Participating() {
        localHeight := Length(h, colShift, State().ColStride());
        localWidth := Length(w, rowShift, State().RowStride());
      }
      r := Pass;
    }

    method Align(ca: int, ra: int) returns (r: Outcome)
      requires Valid() && 0 <= ca < State().ColStride() && 0 <= ra < State().RowStride()
      modifies this
      ensures r.Fail? <==> old(State()).AlignFails(ca, ra)
      ensures State() == if r.Fail? then old(State()) else old(State()).Aligned(ca, ra)
      ensures Valid()
    {
      if State().Viewing() && (colAlign != ca || rowAlign != ra) {
        return Fail("Tried to realign a view");
      }
      AlignedValid(State(), ca, ra);
      if colAlign != ca || rowAlign != ra {
        Empty();
      }
      colConstrained, rowConstrained := true, true;
      colAlign, rowAlign := ca, ra;
      SetShifts();
      r := Pass;
    }

    method AlignCols(ca: int) returns (r: Outcome)
      requires Valid() && 0 <= ca < State().ColStride()
      modifies this
      ensures r.Fail? <==> old(State()).AlignColsFails(ca)
      ensures State() == if r.Fail? then old(State()) else old(State()).ColsAligned(ca)
      ensures Valid()
    {
      if State().Viewing() && colAlign != ca {
        return Fail("Tried to realign a view");
      }
      ColsAlignedValid(State(), ca);
      if colAlign != ca {
        EmptyData();
      }
      colConstrained := true;
      colAlign := ca;
      SetShifts();
      r := Pass;
    }

    method AlignRows(ra: int) returns (r: Outcome)
      requires Valid() && 0 <= ra < State().RowStride()
      modifies this
      ensures r.Fail? <==> old(State()).AlignRowsFails(ra)
      ensures State() == if r.Fail? then old(State()) else old(State()).RowsAligned(ra)
      ensures Valid()
    {
      if State().Viewing() && rowAlign != ra {
        return Fail("Tried to realign a view");
      }
      RowsAlignedValid(State(), ra);
      if rowAlign != ra {
        EmptyData();
      }
      rowConstrained := true;
      rowAlign := ra;
      SetShifts();
      r := Pass;
    }

    method FreeAlignments() returns (r: Outcome)
      requires Valid()
      modifies this
      ensures r.Fail? <==> old(State()).Viewing()
      ensures State() == if r.Fail? then old(State()) else old(State()).AlignmentsFreed()
      ensures Valid()
    {
      if !State().Viewing() {
        AlignmentsFreedValid(State());
        colConstrained, rowConstrained := false, false;
        r := Pass;
      } else {
        r := Fail("Cannot free alignments of views");
      }
    }

    method SetRoot(newRoot: int) returns (r: Outcome)
      requires Valid()
      modifies this
      ensures r.Fail? <==> old(State()).SetRootFails(newRoot)
      ensures State() == if r.Fail? then old(State()) else old(State()).WithRoot(newRoot)
      ensures !old(State()).SetRootFails(old(root)) ==> Valid()
    {
      if newRoot < 0 || newRoot >= CrossSize(colDist, rowDist, grid) {
        return Fail("Invalid root");
      }
      if !State().SetRootFails(root) {
        WithRootValid(State(), newRoot);
      }
      if newRoot != root {
        Empty();
      }
      root := newRoot;
      r := Pass;
    }

    /** AlignWith(data) in the base class: alignments must be 0, then the grid is adopted. */
    method AlignWith(data: DistData) returns (r: Outcome)
      requires Valid() && data.grid.Valid()
      modifies this
      ensures r.Fail? <==> old(State()).AlignWithFails()
      ensures State() == if r.Fail? then old(State()) else old(State()).WithGrid(data.grid)
      ensures Valid()
    {
      if colAlign != 0 || rowAlign != 0 {
        return Fail("Alignments should have been zero");
      }
      SetGrid(data.grid);
      r := Pass;
    }

    method AlignColsWith(data: DistData) returns (r: Outcome)
      requires Valid() && data.grid.Valid()
      modifies this
      ensures r.Fail? <==> old(State()).AlignColsWithFails()
      ensures State() == if r.Fail? then old(State()) else old(State()).WithGrid(data.grid)
      ensures Valid()
    {
      if colAlign != 0 {
        return Fail("Alignment should have been zero");
      }
      SetGrid(data.grid);
      r := Pass;
    }

    method AlignRowsWith(data: DistData) returns (r: Outcome)
      requires Valid() && data.grid.Valid()
      modifies this
      ensures r.Fail? <==> old(State()).AlignRowsWithFails()
      ensures State() == if r.Fail? then old(State()) else old(State()).WithGrid(data.grid)
      ensures Valid()
    {
      if rowAlign != 0 {
        return Fail("Alignment should have been zero");
      }
      SetGrid(data.grid);
      r := Pass;
    }

    method AlignAndResize(ca: int, ra: int, h: nat, w: nat, force: bool) returns (r: Outcome)
      requires Valid() && 0 <= ca < State().ColStride() && 0 <= ra < State().RowStride()
      modifies this
      ensures r.Fail? <==> old(State()).AlignAndResizeFails(ca, ra, force)
      ensures State() == if r.Fail? then old(State()) else old(State()).AlignedAndResized(ca, ra, h, w, force)
      ensures Valid()
    {
      ghost var m0 := State();
      RealignedSettled(m0, ca, ra, force);
      RealignedSettled(m0.ColsRealigned(ca, force), ca, ra, force);
      if !State().Viewing() {
        if force || !colConstrained {
          colAlign := ca;
          SetColShift();
        }
        if force || !rowConstrained {
          rowAlign := ra;
          SetRowShift();
        }
      }
      assert State() == m0.ColsRealigned(ca, force).RowsRealigned(ra, force);
      if force && (colAlign != ca || rowAlign != ra) {
        return Fail("Could not set alignments");
      }
      r := Resize(h, w);
    }

    method AlignColsAndResize(ca: int, h: nat, w: nat, force: bool) returns (r: Outcome)
      requires Valid() && 0 <= ca < State().ColStride()
      modifies this
      ensures r.Fail? <==> old(State()).AlignColsAndResizeFails(ca, force)
      ensures State() == if r.Fail? then old(State()) else old(State()).ColsAlignedAndResized(ca, h, w, force)
      ensures Valid()
    {
      RealignedSettled(State(), ca, rowAlign, force);
      if !State().Viewing() && (force || !colConstrained) {
        colAlign := ca;
        SetColShift();
      }
      if force && colAlign != ca {
        return Fail("Could not set col alignment");
      }
      r := Resize(h, w);
    }

    method AlignRowsAndResize(ra: int, h: nat, w: nat, force: bool) returns (r: Outcome)
      requires Valid() && 0 <= ra < State().RowStride()
      modifies this
      ensures r.Fail? <==> old(State()).AlignRowsAndResizeFails(ra, force)
      ensures State() == if r.Fail? then old(State()) else old(State()).RowsAlignedAndResized(ra, h, w, force)
      ensures Valid()
    {
      RealignedSettled(State(), colAlign, ra, force);
      if !State().Viewing() && (force || !rowConstrained) {
        rowAlign := ra;
        SetRowShift();
      }
      if force && rowAlign != ra {
        return Fail("Could not set row alignment");
      }
      r := Resize(h, w);
    }

    /** Attach (locked = false) and LockedAttach (locked = true) to an outside local buffer. */
    method Attach(h: nat, w: nat, ca: int, ra: int, g: Grid, newRoot: int, locked: bool)
      requires Valid() && g.Valid()
      requires 0 <= ca < Stride(colDist, g) && 0 <= ra < Stride(rowDist, g)
      modifies this
      ensures State() == old(State()).Attached(h, w, ca, ra, g, newRoot, locked) && Valid()
    {
      AttachedValid(State(), h, w, ca, ra, g, newRoot, locked);
      Empty();
      AttachFields(h, w, ca, ra, g, newRoot, locked);
      SetShifts();
      if State().Participating() {
        SetLocalSize(Length(h, colShift, State().ColStride()), Length(w, rowShift, State().RowStride()));
      }
    }

    /** The metadata Attach writes before recomputing the shifts. */
    method AttachFields(h: nat, w: nat, ca: int, ra: int, g: Grid, newRoot: int, locked: bool)
      modifies this
      ensures State() == old(State()).(grid := g, root := newRoot, height := h, width := w,
                                       colAlign := ca, rowAlign := ra,
                                       colConstrained := true, rowConstrained := true,
                                       viewType := if locked then LOCKED_VIEW else VIEW)
    {
      grid := g;
      root := newRoot;
      height, width := h, w;
      colAlign, rowAlign := ca, ra;
      colConstrained, rowConstrained := true, true;
      viewType := if locked then LOCKED_VIEW else VIEW;
    }

    /** Set the local height and width. */
    method SetLocalSize(lh: nat, lw: nat)
      modifies this
      ensures State() == old(State()).(localHeight := lh, localWidth := lw)
    {
      localHeight, localWidth := lh, lw;
    }

    /**
     * MakeConsistent, given the metadata msg that the first VC process
     * broadcasts: a process holding no data adopts it and resizes; a
     * participating process only checks its own metadata against it.
     */
    method MakeConsistent(msg: Consistency) returns (r: Outcome)
      requires Valid() && State().Describes(msg)
      modifies this
      ensures old(State()).Participating() ==> State() == old(State()) && r == CheckConsistent(old(State()), msg)
      ensures !old(State()).Participating() ==>
        (r.Fail? <==> old(State()).SetRootFails(msg.root) || msg.viewType == LOCKED_VIEW)
      ensures !old(State()).Participating() ==>
        State() == if old(State()).SetRootFails(msg.root) then old(State())
                   else if r.Fail? then old(State()).Adopted(msg)
                   else old(State()).Adopted(msg).Resized(msg.height, msg.width)
      ensures r.Pass? ==> Valid() && State().Message() == msg
    {
      var m0 := State();
      if m0.Participating() {
        r := CheckConsistent(m0, msg);
        return;
      }
      r := SetRoot(msg.root);
      if r.Fail? {
        return;
      }
      AdoptedValid(m0, msg);
      TakeConsistency(msg);
      r := Resize(msg.height, msg.width);
    }

    /** The adoption step of MakeConsistent: view type, constraints and alignments from msg, then SetShifts. */
    method TakeConsistency(msg: Consistency)
      requires grid.Valid()
      modifies this
      ensures State() == old(State()).(viewType := msg.viewType,
                                      colConstrained := msg.colConstrained, rowConstrained := msg.rowConstrained,
                                      colAlign := msg.colAlign, rowAlign := msg.rowAlign).WithShifts()
    {
      viewType := msg.viewType;
      colConstrained, rowConstrained := msg.colConstrained, msg.rowConstrained;
      colAlign, rowAlign := msg.colAlign, msg.rowAlign;
      SetShifts();
    }

    /** Overwrite every piece of metadata with m. */
    method SetState(m: Meta)
      requires m.colDist == colDist && m.rowDist == rowDist
      modifies this
      ensures State() == m
    {
      grid, viewType, height, width := m.grid, m.viewType, m.height, m.width;
      colConstrained, rowConstrained := m.colConstrained, m.rowConstrained;
      colAlign, rowAlign, colShift, rowShift := m.colAlign, m.rowAlign, m.colShift, m.rowShift;
      root, localHeight, localWidth := m.root, m.localHeight, m.localWidth;
    }

    /** ShallowSwap: exchange every piece of metadata (and the local storage) with A. */
    method ShallowSwap(A: DistMatrix)
      requires A.colDist == colDist && A.rowDist == rowDist
      modifies this, A
      ensures State() == old(A.State()) && A.State() == old(State())
    {
      var mine, theirs := State(), A.State();
      SetState(theirs);
      A.SetState(mine);
    }

    /**
     * The move assignment: this matrix takes A's metadata and local matrix,
     * and A receives this matrix's old local matrix (the local matrices are
     * swapped) while keeping the rest of its metadata.
     */
    method MoveAssign(A: DistMatrix)
      requires A != this && A.colDist == colDist && A.rowDist == rowDist
      modifies this, A
      ensures State() == old(A.State())
      ensures A.State() == old(A.State()).(localHeight := old(localHeight), localWidth := old(localWidth))
    {
      var mine, theirs := State(), A.State();
      SetState(theirs);
      A.SetState(theirs.(localHeight := mine.localHeight, localWidth := mine.localWidth));
    }

    /** The move constructor: take A's metadata and storage, leaving A with no local data. */
    constructor Moved(A: DistMatrix)
      modifies A
      ensures State() == old(A.State())
      ensures A.State() == old(A.State()).(localHeight := 0, localWidth := 0)
    {
      colDist, rowDist := A.colDist, A.rowDist;
      grid, viewType, height, width := A.grid, A.viewType, A.height, A.width;
      colConstrained, rowConstrained := A.colConstrained, A.rowConstrained;
      colAlign, rowAlign, colShift, rowShift := A.colAlign, A.rowAlign, A.colShift, A.rowShift;
      root, localHeight, localWidth := A.root, A.localHeight, A.localWidth;
      new;
      A.localHeight, A.localWidth := 0, 0;
    }
  }
}
