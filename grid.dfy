/**
 * A process grid as seen by one process: an r x c grid of p = r*c processes,
 * with the process's row (MC) and column (MR) coordinates, and the two
 * linearisations used by the vector distributions: the column-major VC rank
 * and the row-major VR rank.
 */
module Grids {
  import opened Indexing

  datatype Grid = Grid(height: nat, width: nat, inGrid: bool, mcRank: nat, mrRank: nat)
  {
    /** A well-formed grid position: a non-empty grid and the coordinates inside it. */
    predicate Valid()
    {
      height > 0 && width > 0 && mcRank < height && mrRank < width
    }

    function Size(): (p: nat)
      requires Valid()
      ensures p >= height && p >= width
    {
      MulMono(1, width, height);
      MulMono(1, height, width);
      height * width
    }

    /** Column-major rank: VC = MCRank + MRRank*r. */
    function VCRank(): (q: nat)
      requires Valid()
      ensures q < Size()
    {
      VCInRange(mcRank, mrRank, height, width);
      mcRank + mrRank * height
    }

    /** Row-major rank: VR = MRRank + MCRank*c. */
    function VRRank(): (q: nat)
      requires Valid()
      ensures q < Size()
    {
      VCInRange(mrRank, mcRank, width, height);
      mrRank + mcRank * width
    }
  }

  /** x + y*a lies in [0, a*b) for x < a and y < b. */
  lemma VCInRange(x: nat, y: nat, a: nat, b: nat)
    requires x < a && y < b
    ensures x + y * a < a * b
  {
    MulMono(y + 1, b, a);
  }

  /** x + y*a splits back into x and y. */
  lemma SplitRank(x: int, y: int, a: int)
    requires a > 0 && 0 <= x < a
    ensures (x + y * a) % a == x && (x + y * a) / a == y
  {
    UniqueDivMod(x + y * a, a, y, x);
  }

  /** VC rank to VR rank: `(rankCM / r) + c*(rankCM % r)` (the conversion in [VR,*] = [VC,*]). */
  function VCToVR(rankCM: int, r: int, c: int): int
    requires r > 0
  {
    rankCM / r + c * (rankCM % r)
  }

  /** VR rank to VC rank: `(rankRM / c) + r*(rankRM % c)` (the conversion in [*,MC] = [*,MR]). */
  function VRToVC(rankRM: int, r: int, c: int): int
    requires c > 0
  {
    rankRM / c + r * (rankRM % c)
  }

  /** The VC-to-VR conversion maps a process's VC rank to its own VR rank. */
  lemma VCToVRSameProcess(g: Grid)
    requires g.Valid()
    ensures VCToVR(g.VCRank(), g.height, g.width) == g.VRRank()
    ensures VRToVC(g.VRRank(), g.height, g.width) == g.VCRank()
  {
    SplitRank(g.mcRank, g.mrRank, g.height);
    SplitRank(g.mrRank, g.mcRank, g.width);
  }

  /** The two conversions are mutually inverse bijections of [0, r*c). */
  lemma VCToVRBijection(q: int, r: int, c: int)
    requires r > 0 && c > 0 && 0 <= q < r * c
    ensures 0 <= VCToVR(q, r, c) < r * c
    ensures 0 <= VRToVC(q, r, c) < r * c
    ensures VRToVC(VCToVR(q, r, c), r, c) == q
    ensures VCToVR(VRToVC(q, r, c), r, c) == q
  {
    VCToVRUndone(q, r, c);
    assert c * r == r * c;
    VCToVRUndone(q, c, r);
    assert VRToVC(q, r, c) == VCToVR(q, c, r);
    assert VCToVR(VRToVC(q, r, c), r, c) == VRToVC(VCToVR(q, c, r), c, r);
  }

  /** One direction: VCToVR stays in [0, r*c) and VRToVC undoes it. */
  lemma VCToVRUndone(q: int, r: int, c: int)
    requires r > 0 && c > 0 && 0 <= q < r * c
    ensures 0 <= VCToVR(q, r, c) < r * c
    ensures VRToVC(VCToVR(q, r, c), r, c) == q
  {
    var x, y := q % r, q / r;
    assert q == x + y * r;
    if y >= c {
      MulMono(c, y, r);
    }
    VCInRange(y, x, c, r);
    SplitRank(y, x, c);
  }

  /** Matrix distributions along one dimension (the diagonal distribution MD is not modelled). */
  datatype Dist = MC | MR | VC | VR | STAR | CIRC

  /** Number of processes a dimension of distribution d is dealt over. */
  function Stride(d: Dist, g: Grid): (s: nat)
    requires g.Valid()
    ensures s > 0
  {
    match d
    case MC => g.height
    case MR => g.width
    case VC => g.Size()
    case VR => g.Size()
    case STAR => 1
    case CIRC => 1
  }

  /** This process's rank within the communicator of distribution d. */
  function DistRankOf(d: Dist, g: Grid): (q: nat)
    requires g.Valid()
    ensures q < Stride(d, g)
  {
    match d
    case MC => g.mcRank
    case MR => g.mrRank
    case VC => g.VCRank()
    case VR => g.VRRank()
    case STAR => 0
    case CIRC => 0
  }

  /**
   * Size of the cross communicator: the [o,o] distribution keeps its data on a
   * single root among all p processes; every other pair is replicated or
   * distributed over the whole grid and has a trivial cross communicator.
   */
  function CrossSize(colDist: Dist, rowDist: Dist, g: Grid): (n: nat)
    requires g.Valid()
    ensures n > 0
  {
    if colDist == CIRC && rowDist == CIRC then g.Size() else 1
  }

  function CrossRank(colDist: Dist, rowDist: Dist, g: Grid): (q: nat)
    requires g.Valid()
    ensures q < CrossSize(colDist, rowDist, g)
  {
    if colDist == CIRC && rowDist == CIRC then g.VCRank() else 0
  }
}
