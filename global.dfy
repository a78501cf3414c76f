/**
 * The library's global state: the initialisation counter, the stack of
 * algorithmic block sizes, the command-line arguments object, the default
 * grid, the random seed, and the four running bounds of the display window.
 * MPI's own state (whether it is initialised or finalised) and the world
 * rank are inputs; the MPI datatypes and operations created and freed
 * alongside are not modelled.
 */
module GlobalState {
  import opened Errors

  /** The library's global variables that Initialize and Finalize manage. */
  datatype Env = Env(numInits: int, initializedMpi: bool, blocksizes: seq<int>,
                     hasArgs: bool, hasDefaultGrid: bool, seed: int)
  {
    /** Initialized: the counter is positive. */
    predicate Initialized()
    {
      numInits > 0
    }

    /**
     * Initialize: a repeated call only increments the counter.  A first
     * call creates the arguments object, sets the counter to 1 and, if MPI
     * is not yet initialised, initialises it, which fails once MPI has been
     * finalised; then the block-size stack becomes [128], the default grid
     * is built and the seed is set from the world rank.
     */
    function Initialize(rank: nat, mpiInitialized: bool, mpiFinalized: bool): (res: (Outcome, Env))
      requires rank < 0x1_0000_0000
      ensures res.0.Fail? <==> numInits <= 0 && !mpiInitialized && mpiFinalized
      ensures res.1.numInits == if numInits > 0 then numInits + 1 else 1
      ensures res.1.Initialized() && res.1.hasArgs == (numInits <= 0 || hasArgs)
    {
      if numInits > 0 then (Pass, this.(numInits := numInits + 1))
      else
        var e := this.(hasArgs := true, numInits := 1);
        if !mpiInitialized && mpiFinalized then (Fail("Cannot initialize elemental after finalizing MPI"), e)
        else
          var e' := if mpiInitialized then e else e.(initializedMpi := true);
          (Pass, e'.(blocksizes := [128], hasDefaultGrid := true, seed := Seed(rank)))
    }

    /**
     * Finalize: an error when the counter is not positive; otherwise it is
     * decremented, and when it reaches 0 the arguments object and the
     * default grid are freed and the block-size stack is emptied.
     */
    function Finalize(): (res: (Outcome, Env))
      ensures res.0.Pass? <==> Initialized()
      ensures res.0.Fail? ==> res.1 == this
      ensures res.0.Pass? ==> res.1.numInits == numInits - 1 && (res.1.Initialized() <==> numInits > 1)
    {
      if numInits <= 0 then (Fail("Finalized Elemental more than initialized"), this)
      else if numInits - 1 == 0 then
        (Pass, this.(numInits := 0, hasArgs := false, hasDefaultGrid := false, blocksizes := []))
      else (Pass, this.(numInits := numInits - 1))
    }
  }

  const NoDefaultGrid := "Attempted to return a non-existant default grid. Please ensure "
    + "that Elemental is initialized before creating a DistMatrix."

  /** The state before the first Initialize. */
  const Start := Env(0, false, [], false, false, 0)

  /** 2 to the power k. */
  function Pow2(k: nat): (p: nat)
    ensures p >= 1
  {
    if k == 0 then 1 else 2 * Pow2(k - 1)
  }

  /** Bitwise or of two naturals, one binary digit at a time. */
  function BitOr(a: nat, b: nat): (c: nat)
  {
    if a == 0 then b
    else if b == 0 then a
    else 2 * BitOr(a / 2, b / 2) + (if a % 2 == 1 || b % 2 == 1 then 1 else 0)
  }

  /** When b has fewer than k binary digits, or-ing it with a shifted left by k adds it. */
  lemma {:induction false} BitOrShifted(a: nat, b: nat, k: nat)
    requires b < Pow2(k)
    ensures BitOr(a * Pow2(k), b) == a * Pow2(k) + b
  {
    if k == 0 {
      assert b == 0;
    } else if a == 0 || b == 0 {
    } else {
      var h := a * Pow2(k - 1);
      assert a * Pow2(k) == 2 * h;
      assert (2 * h) / 2 == h && (2 * h) % 2 == 0;
      BitOrShifted(a, b / 2, k - 1);
    }
  }

  /** Sixteen doublings. */
  lemma Pow2Sixteen()
    ensures Pow2(16) == 65536
  {
    assert Pow2(4) == 16;
    assert Pow2(8) == 16 * Pow2(4);
    assert Pow2(12) == 16 * Pow2(8);
    assert Pow2(16) == 16 * Pow2(12);
  }

  /**
   * The seed: 21 shifted left by 16 bits, or-ed with the low 16 bits of
   * the (unsigned, 32-bit) world rank.  The bits do not overlap, so it is
   * 21 * 65536 plus the rank modulo 65536.
   */
  function Seed(rank: nat): (s: nat)
    requires rank < 0x1_0000_0000
    ensures s == 21 * 65536 + rank % 65536
  {
    Pow2Sixteen();
    BitOrShifted(21, rank % 65536, 16);
    BitOr(21 * Pow2(16), rank % 65536)
  }

  /** Two ranks give the same seed exactly when they agree modulo 65536. */
  lemma SeedsDistinct(r1: nat, r2: nat)
    requires r1 < 0x1_0000_0000 && r2 < 0x1_0000_0000
    ensures Seed(r1) == Seed(r2) <==> r1 % 65536 == r2 % 65536
  {
  }

  /** A repeated Initialize changes nothing but the counter; each Finalize after it undoes one. */
  lemma InitializeNested(e: Env, rank: nat, mpiInitialized: bool, mpiFinalized: bool)
    requires e.Initialized() && rank < 0x1_0000_0000
    ensures e.Initialize(rank, mpiInitialized, mpiFinalized) == (Pass, e.(numInits := e.numInits + 1))
    ensures e.Initialize(rank, mpiInitialized, mpiFinalized).1.Finalize() == (Pass, e)
  {
  }

  /** The first successful Initialize leaves exactly [128] on the block-size stack, whatever was there. */
  lemma FirstInitialize(e: Env, rank: nat, mpiInitialized: bool, mpiFinalized: bool)
    requires !e.Initialized() && rank < 0x1_0000_0000
    ensures var (r, e') := e.Initialize(rank, mpiInitialized, mpiFinalized);
      (r.Pass? <==> mpiInitialized || !mpiFinalized)
      && e'.numInits == 1 && e'.hasArgs && e'.Initialized()
      && (r.Pass? ==> e'.blocksizes == [128] && e'.hasDefaultGrid && e'.seed == 21 * 65536 + rank % 65536)
  {
  }

  /** Finalize fails exactly when the counter is not positive, and then changes nothing. */
  lemma FinalizeOutcome(e: Env)
    ensures e.Finalize().0.Pass? <==> e.Initialized()
    ensures e.Finalize().0.Fail? ==> e.Finalize().1 == e
    ensures e.Initialized() ==> e.Finalize().1.numInits == e.numInits - 1
    ensures e.Initialized() ==> (e.Finalize().1.blocksizes == [] <==> e.numInits == 1 || e.blocksizes == [])
    ensures e.Initialized() ==> (e.Finalize().1.hasDefaultGrid <==> e.numInits > 1 && e.hasDefaultGrid)
    ensures e.Initialized() ==> (e.Finalize().1.hasArgs <==> e.numInits > 1 && e.hasArgs)
  {
  }

  /** Initialize k times then Finalize k times, from the start: back to an uninitialised state with an empty stack. */
  function InitializeTimes(e: Env, k: nat, rank: nat): (e': Env)
    requires rank < 0x1_0000_0000
  {
    if k == 0 then e else InitializeTimes(e, k - 1, rank).Initialize(rank, true, false).1
  }

  function FinalizeTimes(e: Env, k: nat): (e': Env)
  {
    if k == 0 then e else FinalizeTimes(e, k - 1).Finalize().1
  }

  /** After k >= 1 Initialize calls from the start the counter is k and the stack is [128]. */
  lemma {:induction false} InitializedTimes(k: nat, rank: nat)
    requires k >= 1 && rank < 0x1_0000_0000
    ensures var e := InitializeTimes(Start, k, rank);
      e.numInits == k && e.blocksizes == [128] && e.hasArgs && e.hasDefaultGrid
  {
    if k > 1 {
      InitializedTimes(k - 1, rank);
    }
  }

  /** j Finalize calls after k Initialize calls (j <= k) leave the counter at k - j. */
  lemma {:induction false} FinalizedTimes(k: nat, j: nat, rank: nat)
    requires 1 <= k && j <= k && rank < 0x1_0000_0000
    ensures var e := FinalizeTimes(InitializeTimes(Start, k, rank), j);
      e.numInits == k - j
      && (j < k ==> e.blocksizes == [128] && e.hasArgs)
      && (j == k ==> e.blocksizes == [] && !e.hasArgs && !e.hasDefaultGrid && !e.Initialized())
  {
    if j == 0 {
      InitializedTimes(k, rank);
    } else {
      FinalizedTimes(k, j - 1, rank);
    }
  }

  /**
   * The global state as the library keeps it: one object whose fields are
   * the global variables.  The block-size stack is a sequence whose last
   * element is the top.
   */
  class Environment {
    var numInits: int
    var initializedMpi: bool
    var blocksizes: seq<int>
    var hasArgs: bool
    var hasDefaultGrid: bool
    var seed: int

    function State(): Env
      reads this
    {
      Env(numInits, initializedMpi, blocksizes, hasArgs, hasDefaultGrid, seed)
    }

    /** The program's start: nothing initialised. */
    constructor()
      ensures State() == Start
    {
      numInits, initializedMpi, blocksizes := 0, false, [];
      hasArgs, hasDefaultGrid, seed := false, false, 0;
    }

    method Initialize(rank: nat, mpiInitialized: bool, mpiFinalized: bool) returns (r: Outcome)
      requires rank < 0x1_0000_0000
      modifies this
      ensures (r, State()) == old(State()).Initialize(rank, mpiInitialized, mpiFinalized)
    {
      if numInits > 0 {
        numInits := numInits + 1;
        return Pass;
      }
      hasArgs := true;
      numInits := 1;
      if !mpiInitialized {
        if mpiFinalized {
          return Fail("Cannot initialize elemental after finalizing MPI");
        }
        initializedMpi := true;
      }
      blocksizes := [128];
      hasDefaultGrid := true;
      seed := Seed(rank);
      r := Pass;
    }

    method Finalize() returns (r: Outcome)
      modifies this
      ensures (r, State()) == old(State()).Finalize()
    {
      if numInits <= 0 {
        return Fail("Finalized Elemental more than initialized");
      }
      numInits := numInits - 1;
      if numInits == 0 {
        hasArgs := false;
        hasDefaultGrid := false;
        blocksizes := [];
      }
      r := Pass;
    }

    /** Initialized: the counter is positive. */
    method Initialized() returns (b: bool)
      ensures b <==> State().Initialized()
    {
      b := numInits > 0;
    }

    /** GetArgs: the arguments object exists between the first Initialize and the last Finalize. */
    method GetArgs() returns (r: Outcome)
      ensures r == if hasArgs then Pass else Fail("No available instance of Args")
    {
      if !hasArgs {
        return Fail("No available instance of Args");
      }
      r := Pass;
    }

    /** DefaultGrid: the default grid exists between the first successful Initialize and the last Finalize. */
    method DefaultGrid() returns (r: Outcome)
      ensures r == if hasDefaultGrid then Pass else Fail(NoDefaultGrid)
    {
      if !hasDefaultGrid {
        return Fail(NoDefaultGrid);
      }
      r := Pass;
    }

    /** Blocksize: the top of the stack (the stack must not be empty). */
    method Blocksize() returns (b: int)
      requires |blocksizes| > 0
      ensures b == blocksizes[|blocksizes| - 1]
    {
      b := blocksizes[|blocksizes| - 1];
    }

    /** SetBlocksize: replace the top of the stack, and nothing below it. */
    method SetBlocksize(b: int)
      requires |blocksizes| > 0
      modifies this
      ensures blocksizes == old(blocksizes)[..|old(blocksizes)| - 1] + [b]
      ensures State() == old(State()).(blocksizes := blocksizes)
    {
      blocksizes := blocksizes[..|blocksizes| - 1] + [b];
    }

    method PushBlocksizeStack(b: int)
      modifies this
      ensures State() == old(State()).(blocksizes := old(blocksizes) + [b])
    {
      blocksizes := blocksizes + [b];
    }

    method PopBlocksizeStack()
      requires |blocksizes| > 0
      modifies this
      ensures State() == old(State()).(blocksizes := old(blocksizes)[..|old(blocksizes)| - 1])
    {
      blocksizes := blocksizes[..|blocksizes| - 1];
    }
  }

  /** Push then Pop restores the stack; after Push or SetBlocksize, Blocksize returns the value given. */
  lemma PushPop(s: seq<int>, b: int)
    ensures (s + [b])[..|s + [b]| - 1] == s
    ensures (s + [b])[|s + [b]| - 1] == b
    ensures |s| > 0 ==> (s[..|s| - 1] + [b])[..|s| - 1] == s[..|s| - 1] && |s[..|s| - 1] + [b]| == |s|
  {
  }

  // ---------------------------------------------------------------------
  // The display window's running bounds
  // ---------------------------------------------------------------------

  /** The least and the greatest of a non-empty sequence. */
  function MinOf(s: seq<real>): (m: real)
    requires |s| > 0
  {
    if |s| == 1 then s[0] else var m' := MinOf(s[..|s| - 1]); if s[|s| - 1] < m' then s[|s| - 1] else m'
  }

  function MaxOf(s: seq<real>): (m: real)
    requires |s| > 0
  {
    if |s| == 1 then s[0] else var m' := MaxOf(s[..|s| - 1]); if s[|s| - 1] > m' then s[|s| - 1] else m'
  }

  /** MinOf is at most every element and is one of them; MaxOf likewise. */
  lemma {:induction false} BoundsOf(s: seq<real>)
    requires |s| > 0
    ensures forall k :: 0 <= k < |s| ==> MinOf(s) <= s[k] && s[k] <= MaxOf(s)
    ensures exists k :: 0 <= k < |s| && MinOf(s) == s[k]
    ensures exists k :: 0 <= k < |s| && MaxOf(s) == s[k]
  {
    if |s| > 1 {
      var t := s[..|s| - 1];
      BoundsOf(t);
      assert forall k :: 0 <= k < |t| ==> t[k] == s[k];
      var a :| 0 <= a < |t| && MinOf(t) == t[a];
      var b :| 0 <= b < |t| && MaxOf(t) == t[b];
      if s[|s| - 1] < MinOf(t) {
        assert MinOf(s) == s[|s| - 1];
      } else {
        assert MinOf(s) == s[a];
      }
      if s[|s| - 1] > MaxOf(t) {
        assert MaxOf(s) == s[|s| - 1];
      } else {
        assert MaxOf(s) == s[b];
      }
    }
  }

  /**
   * One of the four window bounds (minimum or maximum of the real or the
   * imaginary part): a flag saying whether any value was seen, and the
   * running minimum (keepMin) or maximum of the values given to Update,
   * which are recorded in the ghost history.
   */
  class WindowBound {
    const keepMin: bool
    var have: bool
    var value: real
    ghost var history: seq<real>

    ghost predicate Valid()
      reads this
    {
      (have <==> |history| > 0) && (have ==> value == if keepMin then MinOf(history) else MaxOf(history))
    }

    constructor(isMin: bool)
      ensures Valid() && keepMin == isMin && history == []
    {
      keepMin := isMin;
      have, value := false, 0.0;
      history := [];
    }

    /** The getter: 0 until the first update, then the bound of every value seen. */
    method Get() returns (v: real)
      requires Valid()
      ensures |history| == 0 ==> v == 0.0
      ensures |history| > 0 ==> v == if keepMin then MinOf(history) else MaxOf(history)
    {
      if have {
        v := value;
      } else {
        v := 0.0;
      }
    }

    /** The updater: the first value is taken as it is, later ones through min or max. */
    method Update(x: real)
      requires Valid()
      modifies this
      ensures Valid() && history == old(history) + [x]
    {
      if have {
        value := if keepMin then (if value < x then value else x) else (if value > x then value else x);
      } else {
        value := x;
      }
      have := true;
      history := history + [x];
      assert history[..|history| - 1] == old(history);
    }
  }
}
