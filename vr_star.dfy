/**
 * The [VR,* ] distribution: rows dealt element-cyclically over all p = r*c
 * processes in row-major (VR) order, columns whole on every process.
 * Modelled here: its strides, the alignment rule of AlignWith, and the
 * three redistributions that move data by index arithmetic -- from [VC,* ]
 * (a permutation between the two linearisations of the grid), from
 * [VR,* ] (a rotation of [0, p)) and from [o,o] (a scatter from one root).
 * Each redistribution is a metadata step on the `DistMatrix` class, the
 * rank arithmetic, the pack and unpack loops, and a whole-grid function that
 * says which local every process ends with.
 */
module VRStarMatrices {
  import opened Indexing
  import opened Grids
  import opened Locals
  import opened DistEntries
  import opened Errors
  import opened DistMatrices
  import StarMCMatrices

  // ---------------------------------------------------------------------
  // Strides and communicators
  // ---------------------------------------------------------------------

  /** PartialColStride: the MR part of a VR rank ranges over the c process columns. */
  function PartialColStride(g: Grid): (s: nat)
    requires g.Valid()
    ensures s * PartialUnionColStride(g) == Stride(VR, g)
  {
    g.width
  }

  /** PartialUnionColStride: the MC part ranges over the r process rows. */
  function PartialUnionColStride(g: Grid): (s: nat)
    requires g.Valid()
    ensures s > 0
  {
    g.height
  }

  /**
   * A VR rank is its MR rank plus c times its MC rank, so it splits into the
   * ranks of PartialColComm (MRComm) and PartialUnionColComm (MCComm).
   */
  lemma VRRankSplit(g: Grid)
    requires g.Valid()
    ensures g.VRRank() % PartialColStride(g) == g.mrRank
    ensures g.VRRank() / PartialColStride(g) == g.mcRank
  {
    SplitRank(g.mrRank, g.mcRank, g.width);
  }

  /**
   * The VR owner of row i under alignment a lies in the process column that
   * owns index i under alignment a mod c: aligning [VR,* ] with an MR
   * dimension puts every row on a process of the column holding it there.
   */
  lemma VROwnerInMRColumn(g: Grid, a: int, i: nat)
    requires g.Valid() && 0 <= a < g.Size()
    ensures IndexOwner(i, a, g.Size()) % g.width == IndexOwner(i, a % g.width, g.width)
    ensures IndexOwner(i, a, g.Size()) == g.VRRank() ==> IndexOwner(i, a % g.width, g.width) == g.mrRank
  {
    var c, p := g.width, g.Size();
    var x := i + a;
    var Q, R := x / p, x % p;
    assert x == R + (Q * g.height) * c;
    ModAddMultiple(R, Q * g.height, c);
    StarMCMatrices.ModSum(a, i, c);
    assert IndexOwner(i, a, p) == R;
    SplitRank(g.mrRank, g.mcRank, c);
  }

  // ---------------------------------------------------------------------
  // AlignWith
  // ---------------------------------------------------------------------

  /**
   * The alignment AlignWith takes from a distribution: that of its column
   * dimension if it is MR or VR, else that of its row dimension if that one
   * is, and no alignment at all otherwise.
   */
  function AlignmentFor(data: DistData): (a: Result<int>)
    ensures a.Success? <==> data.colDist in {MR, VR} || data.rowDist in {MR, VR}
    ensures a.Success? && data.colDist in {MR, VR} ==> a.value == data.colAlign
    ensures a.Success? && data.colDist !in {MR, VR} ==> a.value == data.rowAlign
  {
    if data.colDist == MR || data.colDist == VR then Success(data.colAlign)
    else if data.rowDist == MR || data.rowDist == VR then Success(data.rowAlign)
    else Failure("Nonsensical alignment")
  }

  /**
   * AlignWith (and AlignColsWith, which calls it): move to the grid of data,
   * then align the columns as AlignmentFor says; a distribution with no MR
   * or VR dimension is refused.
   */
  method AlignWith(B: DistMatrix, data: DistData) returns (r: Outcome)
    requires B.Valid() && B.colDist == VR && B.rowDist == STAR && data.grid.Valid()
    requires AlignmentFor(data).Success? ==> 0 <= AlignmentFor(data).value < data.grid.Size()
    modifies B
    ensures AlignmentFor(data).Failure? ==>
      r == Fail("Nonsensical alignment") && B.State() == old(B.State()).WithGrid(data.grid)
    ensures AlignmentFor(data).Success? ==>
      var m, a := old(B.State()).WithGrid(data.grid), AlignmentFor(data).value;
      (r.Fail? <==> m.AlignColsFails(a)) && B.State() == (if r.Fail? then m else m.ColsAligned(a))
    ensures B.Valid()
  {
    B.SetGrid(data.grid);
    var a := AlignmentFor(data);
    if a.Failure? {
      return Fail("Nonsensical alignment");
    }
    r := B.AlignCols(a.value);
  }

  // ---------------------------------------------------------------------
  // Rank arithmetic of the two exchanges
  // ---------------------------------------------------------------------

  /** What a process does once the metadata step of a redistribution is over. */
  datatype Exchange = Idle | CopyLocal | SendRecv(sendRank: int, recvRank: int)

  /** [VR,* ] = [VC,* ]: the VR rank that needs what this process holds of A. */
  function SendRankRM(rankRM: int, colShift: int, colShiftOfA: int, p: int): (s: int)
    requires p > 0
    ensures 0 <= s < p
  {
    (rankRM + (p + colShiftOfA - colShift)) % p
  }

  /** [VR,* ] = [VC,* ]: the VC rank whose part of A this process needs. */
  function RecvRankCM(rankCM: int, colShift: int, colShiftOfA: int, p: int): (s: int)
    requires p > 0
    ensures 0 <= s < p
  {
    (rankCM + (p + colShift - colShiftOfA)) % p
  }

  /** Moving a rank by (p + target - its shift) lands on the rank whose shift is target. */
  lemma RetargetShift(rank: int, a: int, target: int, p: int)
    requires p > 0 && 0 <= target < p
    ensures Shift((rank + (p + target - Shift(rank, a, p))) % p, a, p) == target
  {
    var d := p + target - Shift(rank, a, p);
    StarMCMatrices.ModSum(rank + d, -a, p);
    StarMCMatrices.ModSum(rank - a, d, p);
    ModAddMultiple(target, 1, p);
    UniqueDivMod(target, p, 0, target);
  }

  /** Two ranks of [0, p) with the same shift are the same rank. */
  lemma ShiftInjective(x: int, y: int, a: int, p: int)
    requires p > 0 && 0 <= x < p && 0 <= y < p && Shift(x, a, p) == Shift(y, a, p)
    ensures x == y
  {
    ShiftOwnsRank(x, a, p);
    ShiftOwnsRank(y, a, p);
    UniqueDivMod(x, p, 0, x);
    UniqueDivMod(y, p, 0, y);
  }

  /**
   * The exchange of [VR,* ] = [VC,* ], seen from the process of VC rank rankCM
   * (and VR rank rankRM): the VR rank it sends to has as its [VR,* ] shift
   * the [VC,* ] shift of A here; the VC rank it receives from has as its A
   * shift this process's [VR,* ] shift; and that process, in turn, sends to
   * this one.
   */
  lemma VCToVRExchange(r: nat, c: nat, ca: int, caA: int, rankCM: int, rankRM: int)
    requires r > 0 && c > 0 && 0 <= rankCM < r * c && rankRM == VCToVR(rankCM, r, c)
    ensures var p := r * c;
      var sh, sA := Shift(rankRM, ca, p), Shift(rankCM, caA, p);
      Shift(SendRankRM(rankRM, sh, sA, p), ca, p) == sA
    ensures var p := r * c;
      var sh, sA := Shift(rankRM, ca, p), Shift(rankCM, caA, p);
      Shift(RecvRankCM(rankCM, sh, sA, p), caA, p) == sh
    ensures var p := r * c;
      var sh, sA := Shift(rankRM, ca, p), Shift(rankCM, caA, p);
      var src := RecvRankCM(rankCM, sh, sA, p);
      var srcRM := VCToVR(src, r, c);
      SendRankRM(srcRM, Shift(srcRM, ca, p), Shift(src, caA, p), p) == rankRM
  {
    var p := r * c;
    var sh, sA := Shift(rankRM, ca, p), Shift(rankCM, caA, p);
    RetargetShift(rankRM, ca, sA, p);
    RetargetShift(rankCM, caA, sh, p);
    var src := RecvRankCM(rankCM, sh, sA, p);
    var srcRM := VCToVR(src, r, c);
    VCToVRBijection(src, r, c);
    VCToVRBijection(rankCM, r, c);
    var t := SendRankRM(srcRM, Shift(srcRM, ca, p), Shift(src, caA, p), p);
    RetargetShift(srcRM, ca, Shift(src, caA, p), p);
    ShiftInjective(t, rankRM, ca, p);
  }

  // ---------------------------------------------------------------------
  // The metadata step of each redistribution
  // ---------------------------------------------------------------------

  /**
   * [VR,* ] = [VC,* ]: resize to A; a participating process then trades its
   * part of A for the part it needs in one SendRecv over the VR communicator.
   */
  method AssignFromVC(B: DistMatrix, A: Meta) returns (r: Outcome, x: Exchange)
    requires B.Valid() && B.colDist == VR && B.rowDist == STAR
    requires A.Valid() && A.colDist == VC && A.rowDist == STAR && A.grid == B.grid
    modifies B
    ensures r.Fail? <==> old(B.State()).ResizeFails()
    ensures B.State() == if r.Fail? then old(B.State()) else old(B.State()).Resized(A.height, A.width)
    ensures r.Fail? || !B.State().Participating() ==> x == Idle
    ensures r.Pass? && B.State().Participating() ==>
      var g := B.grid;
      x == SendRecv(SendRankRM(g.VRRank(), B.colShift, A.colShift, g.Size()),
                    VCToVR(RecvRankCM(g.VCRank(), B.colShift, A.colShift, g.Size()), g.height, g.width))
  {
    r := B.Resize(A.height, A.width);
    if r.Fail? || !B.State().Participating() {
      return r, Idle;
    }
    var g := B.grid;
    var p := g.Size();
    var sendRankRM := SendRankRM(g.VRRank(), B.colShift, A.colShift, p);
    var recvRankCM := RecvRankCM(g.VCRank(), B.colShift, A.colShift, p);
    var recvRankRM := VCToVR(recvRankCM, g.height, g.width);
    x := SendRecv(sendRankRM, recvRankRM);
  }

  /**
   * [VR,* ] = [VR,* ]: take A's column alignment unless constrained, and
   * resize; then copy the local matrix if the alignments agree, else rotate
   * it over the VR communicator.
   */
  method AssignFromVR(B: DistMatrix, A: Meta) returns (r: Outcome, x: Exchange)
    requires B.Valid() && B.colDist == VR && B.rowDist == STAR
    requires A.Valid() && A.colDist == VR && A.rowDist == STAR && A.grid == B.grid
    modifies B
    ensures r.Fail? <==> old(B.State()).AlignColsAndResizeFails(A.colAlign, false)
    ensures B.State() == if r.Fail? then old(B.State())
                         else old(B.State()).ColsAlignedAndResized(A.colAlign, A.height, A.width, false)
    ensures r.Fail? || !B.State().Participating() ==> x == Idle
    ensures r.Pass? && B.State().Participating() && B.colAlign == A.colAlign ==> x == CopyLocal
    ensures r.Pass? && B.State().Participating() && B.colAlign != A.colAlign ==>
      var p := B.grid.Size();
      x == SendRecv(StarMCMatrices.SendRank(B.grid.VRRank(), B.colAlign, A.colAlign, p),
                    StarMCMatrices.RecvRank(B.grid.VRRank(), B.colAlign, A.colAlign, p))
    // an unconstrained owner always ends up aligned with A and copies locally
    ensures r.Pass? && !old(B.State()).Viewing() && !old(B.colConstrained) && B.State().Participating() ==> x == CopyLocal
  {
    r := B.AlignColsAndResize(A.colAlign, A.height, A.width, false);
    if r.Fail? || !B.State().Participating() {
      return r, Idle;
    }
    if B.colAlign == A.colAlign {
      return r, CopyLocal;
    }
    var rank := B.grid.VRRank();
    var p := B.grid.Size();
    var sendRank := StarMCMatrices.SendRank(rank, B.colAlign, A.colAlign, p);
    var recvRank := StarMCMatrices.RecvRank(rank, B.colAlign, A.colAlign, p);
    x := SendRecv(sendRank, recvRank);
  }

  /** Who takes part in the scatter of [VR,* ] = [o,o], and from which VR root. */
  datatype ScatterRole = ScatterRoot(rootVR: int) | ScatterReceive(rootVR: int) | NoScatter

  /** A's root, given as a VC rank, converted to the VR communicator. */
  function RootVR(root: int, r: int, c: int): (v: int)
    requires r > 0
    ensures c > 0 && 0 <= root < r * c ==> 0 <= v < r * c && VRToVC(v, r, c) == root
  {
    var rootRow, rootCol := root % r, root / r;
    assert rootCol + rootRow * c == VCToVR(root, r, c);
    if c > 0 && 0 <= root < r * c then
      VCToVRBijection(root, r, c);
      rootCol + rootRow * c
    else
      rootCol + rootRow * c
  }

  /**
   * The conversion is the VC-to-VR map: the VR root is a rank of [0, p), it
   * names the process whose VC rank is root, and a process is the VR root
   * exactly when it is A's root.
   */
  lemma RootVRSameProcess(g: Grid, root: int)
    requires g.Valid() && 0 <= root < g.Size()
    ensures 0 <= RootVR(root, g.height, g.width) < g.Size()
    ensures VRToVC(RootVR(root, g.height, g.width), g.height, g.width) == root
    ensures RootVR(root, g.height, g.width) == g.VRRank() <==> g.VCRank() == root
  {
    assert RootVR(root, g.height, g.width) == VCToVR(root, g.height, g.width);
    VCToVRBijection(root, g.height, g.width);
    VCToVRSameProcess(g);
  }

  /**
   * [VR,* ] = [o,o]: resize to A; A's root packs and scatters, every other
   * participating process receives its package.
   */
  method AssignFromCirc(B: DistMatrix, A: Meta) returns (r: Outcome, role: ScatterRole)
    requires B.Valid() && B.colDist == VR && B.rowDist == STAR
    requires A.Valid() && A.colDist == CIRC && A.rowDist == CIRC && A.grid == B.grid
    requires 0 <= A.root < A.grid.Size()
    modifies B
    ensures r.Fail? <==> old(B.State()).ResizeFails()
    ensures B.State() == if r.Fail? then old(B.State()) else old(B.State()).Resized(A.height, A.width)
    ensures var rootVR := RootVR(A.root, A.grid.height, A.grid.width);
      role == if r.Fail? then NoScatter
              else if A.Participating() then ScatterRoot(rootVR)
              else if B.State().Participating() then ScatterReceive(rootVR)
              else NoScatter
    // the process that packs is the root of the scatter in the VR communicator
    ensures role.ScatterRoot? ==> role.rootVR == B.grid.VRRank()
  {
    r := B.Resize(A.height, A.width);
    if r.Fail? {
      return r, NoScatter;
    }
    var g := A.grid;
    var rootVR := RootVR(A.root, g.height, g.width);
    RootVRSameProcess(g, A.root);
    if A.Participating() {
      role := ScatterRoot(rootVR);
    } else if B.State().Participating() {
      role := ScatterReceive(rootVR);
    } else {
      role := NoScatter;
    }
  }

  // ---------------------------------------------------------------------
  // The whole-grid effect of the two exchanges
  // ---------------------------------------------------------------------

  /** A [VR,* ] or [VC,* ] layout over p processes: rows cyclic over all of them, columns whole. */
  predicate IsVectorStar(L: Layout, p: nat)
  {
    L.Valid() && L.colStride == p && L.rowStride == 1 && L.rowAlign == 0
  }

  /** Rows s, s + p, s + 2p, ... of A, in order: what a process of shift s holds. */
  function Residue(A: seq<seq<int>>, m: nat, n: nat, s: nat, p: nat): (R: seq<seq<int>>)
    requires IsMatrix(A, m, n) && p > 0
    ensures IsMatrix(R, Length(m, s, p), n)
  {
    var len := Length(m, s, p);
    seq(len, iLoc requires 0 <= iLoc < len => ResidueRow(A, m, n, s, p, iLoc))
  }

  /** Local row iLoc of a process of shift s: global row s + iLoc*p. */
  function ResidueRow(A: seq<seq<int>>, m: nat, n: nat, s: nat, p: nat, iLoc: int): (row: seq<int>)
    requires IsMatrix(A, m, n) && p > 0 && 0 <= iLoc < Length(m, s, p)
    ensures |row| == n
  {
    LengthIndex(m, s, p, iLoc);
    A[GlobalIndex(iLoc, s, p)]
  }

  /** Under a vector layout a local matrix is the residue class of its shift. */
  lemma LocalIsResidue(L: Layout, A: seq<seq<int>>, q: int)
    requires IsVectorStar(L, L.colStride) && IsMatrix(A, L.height, L.width) && 0 <= q < L.Procs()
    ensures Distribute(L, A)[q] == Residue(A, L.height, L.width, L.ColShift(q), L.colStride)
  {
    var X, Y := Distribute(L, A)[q], Residue(A, L.height, L.width, L.ColShift(q), L.colStride);
    assert L.RowShift(q) == 0;
    assert L.LocalWidth(q) == L.width;
    forall i, j | 0 <= i < L.LocalHeight(q) && 0 <= j < L.width
      ensures X[i][j] == Y[i][j]
    {
      assert L.GlobalCol(q, j) == j;
    }
    MatrixExt(X, Y, L.LocalHeight(q), L.width);
  }

  /** [VR,* ] = [VC,* ] over the whole grid: VR rank q ends with the [VC,* ] local of its receive partner. */
  function FromVCStar(LA: Layout, localsA: seq<seq<seq<int>>>, ca: int, r: nat, c: nat): (locals: seq<seq<seq<int>>>)
    requires r > 0 && c > 0 && IsVectorStar(LA, r * c) && Shaped(LA, localsA) && 0 <= ca < r * c
    ensures |locals| == r * c
  {
    var p := r * c;
    seq(p, q requires 0 <= q < p =>
      var qCM := VRToVC(q, r, c);
      localsA[RecvRankCM(qCM, Shift(q, ca, p), Shift(qCM, LA.colAlign, p), p)])
  }

  /** Redistributing a [VC,* ] matrix with [VR,* ] alignment ca gives it distributed as [VR,* ]. */
  lemma FromVCStarDistributed(LA: Layout, A: seq<seq<int>>, ca: int, r: nat, c: nat)
    requires r > 0 && c > 0 && IsVectorStar(LA, r * c) && IsMatrix(A, LA.height, LA.width) && 0 <= ca < r * c
    ensures IsVectorStar(LA.(colAlign := ca), r * c)
    ensures FromVCStar(LA, Distribute(LA, A), ca, r, c) == Distribute(LA.(colAlign := ca), A)
  {
    var p := r * c;
    var L := LA.(colAlign := ca);
    var lhs, rhs := FromVCStar(LA, Distribute(LA, A), ca, r, c), Distribute(L, A);
    forall q | 0 <= q < p
      ensures lhs[q] == rhs[q]
    {
      var qCM := VRToVC(q, r, c);
      VCToVRBijection(q, r, c);
      VCToVRExchange(r, c, ca, LA.colAlign, qCM, q);
      var src := RecvRankCM(qCM, Shift(q, ca, p), Shift(qCM, LA.colAlign, p), p);
      UniqueDivMod(src, p, 0, src);
      UniqueDivMod(q, p, 0, q);
      LocalIsResidue(LA, A, src);
      LocalIsResidue(L, A, q);
    }
  }

  /** [VR,* ] = [VR,* ] over the whole grid: rank q ends with the local of its receive partner. */
  function FromVRStar(LA: Layout, localsA: seq<seq<seq<int>>>, ca: int, p: nat): (locals: seq<seq<seq<int>>>)
    requires IsVectorStar(LA, p) && Shaped(LA, localsA) && 0 <= ca < p
    ensures |locals| == p
  {
    seq(p, q requires 0 <= q < p => localsA[StarMCMatrices.RecvRank(q, ca, LA.colAlign, p)])
  }

  /** Rotating a [VR,* ] matrix to alignment ca gives it distributed with that alignment. */
  lemma FromVRStarDistributed(LA: Layout, A: seq<seq<int>>, ca: int, p: nat)
    requires IsVectorStar(LA, p) && IsMatrix(A, LA.height, LA.width) && 0 <= ca < p
    ensures IsVectorStar(LA.(colAlign := ca), p)
    ensures FromVRStar(LA, Distribute(LA, A), ca, p) == Distribute(LA.(colAlign := ca), A)
  {
    var L := LA.(colAlign := ca);
    var lhs, rhs := FromVRStar(LA, Distribute(LA, A), ca, p), Distribute(L, A);
    forall q | 0 <= q < p
      ensures lhs[q] == rhs[q]
    {
      var src := StarMCMatrices.RecvRank(q, ca, LA.colAlign, p);
      StarMCMatrices.Rotations(q, ca, LA.colAlign, p);
      UniqueDivMod(src, p, 0, src);
      UniqueDivMod(q, p, 0, q);
      LocalIsResidue(LA, A, src);
      LocalIsResidue(L, A, q);
    }
  }

  /** When the alignments agree the rotation is the identity, so the local copy does the same. */
  lemma AlignedCopyIsRotation(LA: Layout, localsA: seq<seq<seq<int>>>, p: nat)
    requires IsVectorStar(LA, p) && Shaped(LA, localsA)
    ensures FromVRStar(LA, localsA, LA.colAlign, p) == localsA
  {
    var lhs := FromVRStar(LA, localsA, LA.colAlign, p);
    forall q | 0 <= q < p
      ensures lhs[q] == localsA[q]
    {
      StarMCMatrices.Rotations(q, LA.colAlign, LA.colAlign, p);
    }
  }

  // ---------------------------------------------------------------------
  // Pack and unpack of the two exchanges
  // ---------------------------------------------------------------------

  /**
   * The pack loop of both exchanges: the h x w local block of A (leading
   * dimension ALDim) is copied, column by column, into a dense send buffer.
   */
  method Pack(ABuf: array<int>, ALDim: nat, h: nat, w: nat) returns (sendBuf: array<int>)
    requires HoldsBlock(ABuf[..], h, w, ALDim)
    ensures sendBuf.Length == h * w && HoldsBlock(sendBuf[..], h, w, h)
    ensures BufferMatrix(sendBuf[..], h, w, h) == BufferMatrix(ABuf[..], h, w, ALDim)
  {
    sendBuf := new int[h * w];
    CopyColumns(ABuf, ALDim, sendBuf, h, h, w);
  }

  /**
   * The unpack loops: the dense h x w block received is copied into the
   * local buffer (leading dimension ldim), whose padding is left alone.
   */
  method Unpack(recvBuf: array<int>, buffer: array<int>, ldim: nat, h: nat, w: nat)
    requires recvBuf != buffer
    requires HoldsBlock(recvBuf[..], h, w, h) && HoldsBlock(buffer[..], h, w, ldim)
    modifies buffer
    ensures BufferMatrix(buffer[..], h, w, ldim) == BufferMatrix(recvBuf[..], h, w, h)
    ensures forall k :: 0 <= k < buffer.Length && !InBlock(k, h, w, ldim) ==> buffer[k] == old(buffer[k])
  {
    CopyColumns(recvBuf, h, buffer, ldim, h, w);
  }

  // ---------------------------------------------------------------------
  // The packages of the scatter from [o,o]
  // ---------------------------------------------------------------------

  /** The package, and so the VR rank, that receives the rows congruent to s. */
  function PackageOf(s: int, colAlign: int, p: int): (q: int)
    requires p > 0
    ensures 0 <= q < p
  {
    (colAlign + s) % p
  }

  /** Packages and processes correspond one to one: package q goes to the process whose shift is s. */
  lemma PackageBijection(s: int, q: int, colAlign: int, p: int)
    requires p > 0 && 0 <= s < p && 0 <= q < p
    ensures Shift(PackageOf(s, colAlign, p), colAlign, p) == s
    ensures PackageOf(s, colAlign, p) == q <==> Shift(q, colAlign, p) == s
  {
    var q0 := PackageOf(s, colAlign, p);
    StarMCMatrices.ModSum(colAlign + s, -colAlign, p);
    UniqueDivMod(s, p, 0, s);
    ShiftOwnsRank(q, colAlign, p);
    UniqueDivMod(q, p, 0, q);
    assert Shift(q0, colAlign, p) == s;
    if Shift(q, colAlign, p) == s {
      assert (s + colAlign) % p == q;
    }
  }

  /** Offsets of distinct packages never meet. */
  lemma PackagesDisjoint(q: nat, q2: nat, pkgSize: nat, k: int)
    requires q != q2
    ensures !(q * pkgSize <= k < q * pkgSize + pkgSize && q2 * pkgSize <= k < q2 * pkgSize + pkgSize)
  {
    if q < q2 {
      MulMono(q + 1, q2, pkgSize);
    } else {
      MulMono(q2 + 1, q, pkgSize);
    }
  }

  /** d < len*n gives len > 0 and a column index d / len below n. */
  lemma DivBelow(d: int, len: nat, n: nat)
    requires 0 <= d < len * n
    ensures len > 0 && 0 <= d % len < len && 0 <= d / len < n
  {
    if d / len >= n {
      MulMono(n, d / len, len);
    }
  }

  /** Package q of a send buffer holds, dense and column-major, the rows of A congruent to s. */
  predicate PackageAt(buf: seq<int>, q: nat, pkgSize: nat, A: seq<seq<int>>, m: nat, n: nat, s: nat, p: nat)
    requires IsMatrix(A, m, n) && p > 0
  {
    var len := Length(m, s, p);
    q * pkgSize <= |buf| && HoldsBlock(buf[q * pkgSize..], len, n, len)
    && BufferMatrix(buf[q * pkgSize..], len, n, len) == Residue(A, m, n, s, p)
  }

  /** The value offset k of a package starting at off should hold: row s + iLoc*p, column j of A. */
  function PackedValue(A: seq<seq<int>>, m: nat, n: nat, s: nat, p: nat, off: int, k: int): int
    requires IsMatrix(A, m, n) && p > 0 && off <= k < off + Length(m, s, p) * n
  {
    var len := Length(m, s, p);
    var d := k - off;
    DivBelow(d, len, n);
    LengthIndex(m, s, p, d % len);
    A[s + (d % len) * p][d / len]
  }

  /** Offsets off .. off + pos - 1 of buf already hold what the package starting at off should. */
  predicate PackedPrefix(buf: seq<int>, A: seq<seq<int>>, m: nat, n: nat, s: nat, p: nat, off: int, pos: int)
    requires IsMatrix(A, m, n) && p > 0
  {
    0 <= pos <= Length(m, s, p) * n && 0 <= off && off + pos <= |buf|
    && forall k :: off <= k < off + pos ==> buf[k] == PackedValue(A, m, n, s, p, off, k)
  }

  /** Writing the next packed value extends the packed prefix by one. */
  lemma PackedPrefixExtend(buf: seq<int>, A: seq<seq<int>>, m: nat, n: nat, s: nat, p: nat, off: int, pos: int, v: int)
    requires IsMatrix(A, m, n) && p > 0 && PackedPrefix(buf, A, m, n, s, p, off, pos)
    requires pos < Length(m, s, p) * n && off + pos < |buf| && v == PackedValue(A, m, n, s, p, off, off + pos)
    ensures PackedPrefix(buf[off + pos := v], A, m, n, s, p, off, pos + 1)
  {
  }

  /** Column j of one package: sendBuf[off + iLoc + j*len] gets A(s + iLoc*p, j) for every local row iLoc. */
  method PackColumn(sendBuf: array<int>, ABuf: array<int>, ALDim: nat, m: nat, n: nat, p: nat, s: nat, off: nat, j: nat)
    requires sendBuf != ABuf && p > 0 && HoldsBlock(ABuf[..], m, n, ALDim) && j < n
    requires off + Length(m, s, p) * n <= sendBuf.Length
    requires PackedPrefix(sendBuf[..], BufferMatrix(ABuf[..], m, n, ALDim), m, n, s, p, off, j * Length(m, s, p))
    modifies sendBuf
    ensures PackedPrefix(sendBuf[..], BufferMatrix(ABuf[..], m, n, ALDim), m, n, s, p, off, j * Length(m, s, p) + Length(m, s, p))
    ensures forall k :: 0 <= k < sendBuf.Length && !(off + j * Length(m, s, p) <= k < off + j * Length(m, s, p) + Length(m, s, p)) ==>
      sendBuf[k] == old(sendBuf[k])
  {
    ghost var A := BufferMatrix(ABuf[..], m, n, ALDim);
    var len := Length(m, s, p);
    MulMono(j + 1, n, len);
    var iLoc := 0;
    while iLoc < len
      invariant 0 <= iLoc <= len
      invariant PackedPrefix(sendBuf[..], A, m, n, s, p, off, j * len + iLoc)
      invariant forall k :: 0 <= k < sendBuf.Length && !(off + j * len <= k < off + j * len + iLoc) ==> sendBuf[k] == old(sendBuf[k])
    {
      var i := s + iLoc * p;
      LengthIndex(m, s, p, iLoc);
      VCInRange(iLoc, j, len, n);
      SplitRank(iLoc, j, len);
      VCInRange(i, j, ALDim, n);
      assert PackedValue(A, m, n, s, p, off, off + iLoc + j * len) == ABuf[i + j * ALDim];
      ghost var before := sendBuf[..];
      sendBuf[off + iLoc + j * len] := ABuf[i + j * ALDim];
      assert sendBuf[..] == before[off + (j * len + iLoc) := ABuf[i + j * ALDim]];
      PackedPrefixExtend(before, A, m, n, s, p, off, j * len + iLoc, ABuf[i + j * ALDim]);
      iLoc := iLoc + 1;
    }
  }

  /**
   * One package of the pack loop: for every column j and local row iLoc,
   * sendBuf[q*pkgSize + iLoc + j*len] gets A(s + iLoc*p, j); nothing outside
   * package q changes.
   */
  method PackPackage(sendBuf: array<int>, ABuf: array<int>, ALDim: nat, m: nat, n: nat, p: nat, s: nat, q: nat, pkgSize: nat)
    requires sendBuf != ABuf && p > 0 && HoldsBlock(ABuf[..], m, n, ALDim)
    requires Length(m, s, p) * n <= pkgSize && q * pkgSize + pkgSize <= sendBuf.Length
    modifies sendBuf
    ensures PackageAt(sendBuf[..], q, pkgSize, BufferMatrix(ABuf[..], m, n, ALDim), m, n, s, p)
    ensures forall k :: 0 <= k < sendBuf.Length && !(q * pkgSize <= k < q * pkgSize + pkgSize) ==> sendBuf[k] == old(sendBuf[k])
  {
    ghost var A := BufferMatrix(ABuf[..], m, n, ALDim);
    var len := Length(m, s, p);
    var off := q * pkgSize;
    var j := 0;
    while j < n
      invariant 0 <= j <= n
      invariant PackedPrefix(sendBuf[..], A, m, n, s, p, off, j * len)
      invariant forall k :: 0 <= k < sendBuf.Length && !(off <= k < off + j * len) ==> sendBuf[k] == old(sendBuf[k])
    {
      PackColumn(sendBuf, ABuf, ALDim, m, n, p, s, off, j);
      assert (j + 1) * len == j * len + len;
      j := j + 1;
    }
    assert n * len == len * n;
    PrefixIsPackage(sendBuf[..], q, pkgSize, A, m, n, s, p);
  }

  /** A package whose every offset holds its packed value is the residue class, column-major. */
  lemma PrefixIsPackage(buf: seq<int>, q: nat, pkgSize: nat, A: seq<seq<int>>, m: nat, n: nat, s: nat, p: nat)
    requires IsMatrix(A, m, n) && p > 0
    requires PackedPrefix(buf, A, m, n, s, p, q * pkgSize, Length(m, s, p) * n)
    ensures PackageAt(buf, q, pkgSize, A, m, n, s, p)
  {
    var len, off := Length(m, s, p), q * pkgSize;
    var X, Y := BufferMatrix(buf[off..], len, n, len), Residue(A, m, n, s, p);
    forall iLoc, jj | 0 <= iLoc < len && 0 <= jj < n
      ensures X[iLoc][jj] == Y[iLoc][jj]
    {
      VCInRange(iLoc, jj, len, n);
      SplitRank(iLoc, jj, len);
      LengthIndex(m, s, p, iLoc);
      assert X[iLoc][jj] == buf[off + iLoc + jj * len];
      assert buf[off + iLoc + jj * len] == PackedValue(A, m, n, s, p, off, off + iLoc + jj * len);
    }
    MatrixExt(X, Y, len, n);
  }

  /** A package is untouched by writes that keep to the other packages. */
  lemma PackageKept(b1: seq<int>, b2: seq<int>, q: nat, pkgSize: nat, A: seq<seq<int>>, m: nat, n: nat, s: nat, p: nat)
    requires IsMatrix(A, m, n) && p > 0 && |b1| == |b2| && q * pkgSize + pkgSize <= |b1|
    requires Length(m, s, p) * n <= pkgSize
    requires forall k :: q * pkgSize <= k < q * pkgSize + pkgSize ==> b1[k] == b2[k]
    requires PackageAt(b1, q, pkgSize, A, m, n, s, p)
    ensures PackageAt(b2, q, pkgSize, A, m, n, s, p)
  {
    var len, off := Length(m, s, p), q * pkgSize;
    var X, Y := BufferMatrix(b2[off..], len, n, len), BufferMatrix(b1[off..], len, n, len);
    forall i, j | 0 <= i < len && 0 <= j < n
      ensures X[i][j] == Y[i][j]
    {
      VCInRange(i, j, len, n);
    }
    MatrixExt(X, Y, len, n);
  }

  /**
   * Writing package q = PackageOf(s) keeps the packages already written for
   * the shifts below s, so afterwards every shift up to s has its package.
   */
  lemma OtherPackagesKept(before: seq<int>, after: seq<int>, q: nat, pkgSize: nat, A: seq<seq<int>>,
                          m: nat, n: nat, p: nat, colAlign: int, s: int)
    requires IsMatrix(A, m, n) && p > 0 && 0 <= colAlign < p && 0 <= s < p && q == PackageOf(s, colAlign, p)
    requires pkgSize >= MaxLength(m, p) * n && |before| == |after| == p * pkgSize
    requires forall k :: 0 <= k < |after| && !(q * pkgSize <= k < q * pkgSize + pkgSize) ==> after[k] == before[k]
    requires forall q2 :: 0 <= q2 < p && Shift(q2, colAlign, p) < s ==>
      PackageAt(before, q2, pkgSize, A, m, n, Shift(q2, colAlign, p), p)
    requires PackageAt(after, q, pkgSize, A, m, n, s, p)
    ensures forall q2 :: 0 <= q2 < p && Shift(q2, colAlign, p) <= s ==>
      PackageAt(after, q2, pkgSize, A, m, n, Shift(q2, colAlign, p), p)
  {
    forall q2 | 0 <= q2 < p && Shift(q2, colAlign, p) <= s
      ensures PackageAt(after, q2, pkgSize, A, m, n, Shift(q2, colAlign, p), p)
    {
      PackageBijection(s, q2, colAlign, p);
      if q2 != q {
        OnePackageKept(before, after, q, q2, pkgSize, A, m, n, p, Shift(q2, colAlign, p));
      }
    }
  }

  /** Package q2 survives writes confined to package q != q2. */
  lemma OnePackageKept(before: seq<int>, after: seq<int>, q: nat, q2: nat, pkgSize: nat, A: seq<seq<int>>,
                       m: nat, n: nat, p: nat, s2: nat)
    requires IsMatrix(A, m, n) && p > 0 && q != q2 && q2 < p
    requires pkgSize >= MaxLength(m, p) * n && |before| == |after| == p * pkgSize
    requires forall k :: 0 <= k < |after| && !(q * pkgSize <= k < q * pkgSize + pkgSize) ==> after[k] == before[k]
    requires PackageAt(before, q2, pkgSize, A, m, n, s2, p)
    ensures PackageAt(after, q2, pkgSize, A, m, n, s2, p)
  {
    MulMono(q2 + 1, p, pkgSize);
    LengthAtMostMaxLength(m, s2, p);
    MulMono(Length(m, s2, p), MaxLength(m, p), n);
    RegionKept(before, after, q, q2, pkgSize);
    PackageKept(before, after, q2, pkgSize, A, m, n, s2, p);
  }

  /** Every offset of package q2 lies outside package q. */
  lemma RegionKept(before: seq<int>, after: seq<int>, q: nat, q2: nat, pkgSize: nat)
    requires q != q2 && |before| == |after| && q2 * pkgSize + pkgSize <= |after|
    requires forall k :: 0 <= k < |after| && !(q * pkgSize <= k < q * pkgSize + pkgSize) ==> after[k] == before[k]
    ensures forall k :: q2 * pkgSize <= k < q2 * pkgSize + pkgSize ==> before[k] == after[k]
  {
    forall k | q2 * pkgSize <= k < q2 * pkgSize + pkgSize
      ensures before[k] == after[k]
    {
      PackagesDisjoint(q, q2, pkgSize, k);
    }
  }

  /**
   * The pack loop of [VR,* ] = [o,o] on A's root: for every shift s the rows
   * congruent to s go, in package (colAlign + s) mod p, to the process of
   * shift s.  Each package fits in pkgSize >= MaxLength(m, p)*n entries.
   */
  method PackCirc(ABuf: array<int>, ALDim: nat, m: nat, n: nat, p: nat, colAlign: int, pkgSize: nat)
    returns (sendBuf: array<int>)
    requires p > 0 && 0 <= colAlign < p && HoldsBlock(ABuf[..], m, n, ALDim)
    requires pkgSize >= MaxLength(m, p) * n
    ensures sendBuf.Length == p * pkgSize
    ensures forall q :: 0 <= q < p ==>
      PackageAt(sendBuf[..], q, pkgSize, BufferMatrix(ABuf[..], m, n, ALDim), m, n, Shift(q, colAlign, p), p)
  {
    ghost var A := BufferMatrix(ABuf[..], m, n, ALDim);
    sendBuf := new int[p * pkgSize];
    var s := 0;
    while s < p
      invariant 0 <= s <= p && sendBuf.Length == p * pkgSize && sendBuf != ABuf
      invariant forall q :: 0 <= q < p && Shift(q, colAlign, p) < s ==>
        PackageAt(sendBuf[..], q, pkgSize, A, m, n, Shift(q, colAlign, p), p)
    {
      var q := (colAlign + s) % p;
      LengthAtMostMaxLength(m, s, p);
      MulMono(Length(m, s, p), MaxLength(m, p), n);
      MulMono(q + 1, p, pkgSize);
      ghost var before := sendBuf[..];
      PackPackage(sendBuf, ABuf, ALDim, m, n, p, s, q, pkgSize);
      OtherPackagesKept(before, sendBuf[..], q, pkgSize, A, m, n, p, colAlign, s);
      s := s + 1;
    }
  }

  /**
   * The Scatter hands VR rank q package q of the root's send buffer; unpacked
   * with leading dimension mLocal it is q's local matrix of A as [VR,* ].
   */
  lemma ScatteredPackage(L: Layout, A: seq<seq<int>>, sendBuf: seq<int>, pkgSize: nat, q: nat)
    requires IsVectorStar(L, L.colStride) && IsMatrix(A, L.height, L.width) && q < L.colStride
    requires pkgSize >= MaxLength(L.height, L.colStride) * L.width && q * pkgSize + pkgSize <= |sendBuf|
    requires PackageAt(sendBuf, q, pkgSize, A, L.height, L.width, Shift(q, L.colAlign, L.colStride), L.colStride)
    ensures var recv, mLocal := sendBuf[q * pkgSize .. q * pkgSize + pkgSize], L.LocalHeight(q);
      HoldsBlock(recv, mLocal, L.width, mLocal)
      && BufferMatrix(recv, mLocal, L.width, mLocal) == Distribute(L, A)[q]
  {
    var p, n := L.colStride, L.width;
    var mLocal := L.LocalHeight(q);
    UniqueDivMod(q, p, 0, q);
    assert L.ColShift(q) == Shift(q, L.colAlign, p);
    LengthAtMostMaxLength(L.height, L.ColShift(q), p);
    MulMono(mLocal, MaxLength(L.height, p), n);
    LocalIsResidue(L, A, q);
    PackagePrefix(sendBuf, q * pkgSize, pkgSize, mLocal, n);
  }

  /** The first h*w entries of a slice of size entries hold the same block as the rest of the buffer from there. */
  lemma PackagePrefix(buf: seq<int>, off: nat, size: nat, h: nat, w: nat)
    requires off + size <= |buf| && h * w <= size
    ensures HoldsBlock(buf[off .. off + size], h, w, h) && HoldsBlock(buf[off..], h, w, h)
    ensures BufferMatrix(buf[off .. off + size], h, w, h) == BufferMatrix(buf[off..], h, w, h)
  {
    var X, Y := BufferMatrix(buf[off .. off + size], h, w, h), BufferMatrix(buf[off..], h, w, h);
    forall i, j | 0 <= i < h && 0 <= j < w
      ensures X[i][j] == Y[i][j]
    {
      VCInRange(i, j, h, w);
    }
    MatrixExt(X, Y, h, w);
  }
}
