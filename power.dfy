/**
 * The bookkeeping of the pseudospectrum power iterations: deflation of
 * converged shifts to the tail of the active range, the preimage that
 * records where each original shift went, restoring the original order at
 * the end, the convergence test and the capping of estimates.  Element
 * values of shifts and of X are integers standing in for complex numbers;
 * estimates are reals.
 */
module Pseudospectra {
  import opened Indexing
  import opened Locals
  import opened DistEntries
  import opened Errors

  // ---------------------------------------------------------------------
  // Permutations of positions
  // ---------------------------------------------------------------------

  /** P lists each of 0 .. n-1 exactly once: P[k] is the original index now at position k. */
  predicate IsPermutation(P: seq<int>, n: nat)
  {
    && |P| == n
    && (forall k :: 0 <= k < n ==> 0 <= P[k] < n)
    && (forall a, b :: 0 <= a < b < n ==> P[a] != P[b])
  }

  /** The order 0, 1, ..., n-1. */
  function Iota(n: nat): (P: seq<int>)
    ensures |P| == n && forall k :: 0 <= k < n ==> P[k] == k
  {
    seq(n, k => k)
  }

  /** s rearranged so that position k holds the entry originally at P[k]. */
  function Permuted<T>(s: seq<T>, P: seq<int>): (r: seq<T>)
    requires forall k :: 0 <= k < |P| ==> 0 <= P[k] < |s|
    ensures |r| == |P|
  {
    seq(|P|, k requires 0 <= k < |P| => s[P[k]])
  }

  /** s with the entries at positions i and j exchanged (RowSwap on a column vector). */
  function Swap<T>(s: seq<T>, i: int, j: int): (r: seq<T>)
    requires 0 <= i < |s| && 0 <= j < |s|
    ensures |r| == |s|
  {
    s[i := s[j]][j := s[i]]
  }

  lemma IotaIsPermutation(n: nat)
    ensures IsPermutation(Iota(n), n)
  {
  }

  /** Exchanging two positions of a permutation gives a permutation. */
  lemma SwapIsPermutation(P: seq<int>, n: nat, i: int, j: int)
    requires IsPermutation(P, n) && 0 <= i < n && 0 <= j < n
    ensures IsPermutation(Swap(P, i, j), n)
  {
    var Q := Swap(P, i, j);
    forall a, b | 0 <= a < b < n
      ensures Q[a] != Q[b]
    {
      var a', b' := if a == i then j else if a == j then i else a, if b == i then j else if b == j then i else b;
      assert Q[a] == P[a'] && Q[b] == P[b'] && a' != b';
      if a' < b' {
      } else {
      }
    }
  }

  /** Swapping two positions of a rearranged vector is rearranging by the swapped permutation. */
  lemma SwapPermuted<T>(s: seq<T>, P: seq<int>, i: int, j: int)
    requires forall k :: 0 <= k < |P| ==> 0 <= P[k] < |s|
    requires 0 <= i < |P| && 0 <= j < |P|
    ensures Swap(Permuted(s, P), i, j) == Permuted(s, Swap(P, i, j))
  {
  }

  /** Rearranging twice is rearranging once by the composed permutation. */
  lemma PermutedTwice<T>(s: seq<T>, A: seq<int>, B: seq<int>)
    requires forall k :: 0 <= k < |A| ==> 0 <= A[k] < |s|
    requires forall k :: 0 <= k < |B| ==> 0 <= B[k] < |A|
    ensures Permuted(Permuted(s, A), B) == Permuted(s, Permuted(A, B))
  {
  }

  /** The composition of two permutations of n is a permutation of n. */
  lemma ComposeIsPermutation(A: seq<int>, B: seq<int>, n: nat)
    requires IsPermutation(A, n) && IsPermutation(B, n)
    ensures IsPermutation(Permuted(A, B), n)
  {
    var C := Permuted(A, B);
    forall a, b | 0 <= a < b < n
      ensures C[a] != C[b]
    {
      if B[a] < B[b] {
        assert A[B[a]] != A[B[b]];
      } else {
        assert A[B[b]] != A[B[a]];
      }
    }
  }

  /** The values of a sequence, as a set. */
  function Values(P: seq<int>): set<int>
  {
    set x | x in P
  }

  /** Distinct entries: the value set has as many members as the sequence has entries. */
  lemma {:induction false} DistinctValues(P: seq<int>)
    requires forall a, b :: 0 <= a < b < |P| ==> P[a] != P[b]
    ensures |Values(P)| == |P|
  {
    if |P| > 0 {
      var Q := P[..|P| - 1];
      DistinctValues(Q);
      assert Values(P) == Values(Q) + {P[|P| - 1]};
      assert P[|P| - 1] !in Values(Q);
    }
  }

  /** A subset is no larger than the set containing it. */
  lemma SubsetSize(A: set<int>, B: set<int>)
    requires A <= B
    ensures |A| <= |B|
  {
    assert B * A == A;
    assert |B - A| == |B| - |B * A|;
  }

  /** A permutation of n takes every value of 0 .. n-1 (pigeonhole). */
  lemma PermutationOnto(P: seq<int>, n: nat, d: int)
    requires IsPermutation(P, n) && 0 <= d < n
    ensures exists k :: 0 <= k < n && P[k] == d
  {
    if d !in P {
      DistinctValues(P);
      DistinctValues(Iota(n));
      assert Iota(n)[d] == d;
      forall x | x in Values(P)
        ensures x in Values(Iota(n)) - {d}
      {
        var k :| 0 <= k < n && P[k] == x;
        assert Iota(n)[x] == x;
      }
      SubsetSize(Values(P), Values(Iota(n)) - {d});
      assert false;
    }
  }

  // ---------------------------------------------------------------------
  // Deflate
  // ---------------------------------------------------------------------

  /** The number of nonzero entries (ZeroNorm of a column vector). */
  function ZeroNorm(s: seq<int>): (c: nat)
    ensures c <= |s|
  {
    if |s| == 0 then 0 else (if s[0] != 0 then 1 else 0) + ZeroNorm(s[1..])
  }

  /** All entries are nonzero exactly when the count is full. */
  lemma {:induction false} ZeroNormFull(s: seq<int>)
    ensures ZeroNorm(s) == |s| <==> forall k :: 0 <= k < |s| ==> s[k] != 0
  {
    if |s| > 0 {
      ZeroNormFull(s[1..]);
      if ZeroNorm(s) == |s| {
        forall k | 0 <= k < |s|
          ensures s[k] != 0
        {
          if k > 0 {
            assert s[k] == s[1..][k - 1];
          }
        }
      } else if forall k :: 0 <= k < |s| ==> s[k] != 0 {
        forall k | 0 <= k < |s| - 1
          ensures s[1..][k] != 0
        {
          assert s[1..][k] == s[k + 1];
        }
        assert false;
      }
    }
  }

  /** RowSwap on a column vector. */
  method RowSwap<T>(a: array<T>, i: int, j: int)
    requires 0 <= i < a.Length && 0 <= j < a.Length
    modifies a
    ensures a[..] == Swap(old(a[..]), i, j)
  {
    var t := a[i];
    a[i] := a[j];
    a[j] := t;
  }

  /** Every row of M rearranged by P: the columns of M permuted. */
  function ColumnsPermuted(M: seq<seq<int>>, P: seq<int>): (R: seq<seq<int>>)
    requires forall r :: 0 <= r < |M| ==> forall k :: 0 <= k < |P| ==> 0 <= P[k] < |M[r]|
    ensures |R| == |M|
  {
    seq(|M|, r requires 0 <= r < |M| => Permuted(M[r], P))
  }

  /** ColumnSwap on a matrix: its contents with columns i and j exchanged. */
  method ColumnSwap(X: array2<int>, i: int, j: int)
    requires 0 <= i < X.Length1 && 0 <= j < X.Length1
    modifies X
    ensures Contents(X) == ColumnsPermuted(old(Contents(X)), Swap(Iota(X.Length1), i, j))
  {
    var r := 0;
    while r < X.Length0
      invariant 0 <= r <= X.Length0
      invariant forall rr, k :: 0 <= rr < X.Length0 && 0 <= k < X.Length1 ==>
        X[rr, k] == old(X[rr, if rr < r && k == i then j else if rr < r && k == j then i else k])
    {
      var t := X[r, i];
      X[r, i] := X[r, j];
      X[r, j] := t;
      r := r + 1;
    }
    MatrixExt(Contents(X), ColumnsPermuted(old(Contents(X)), Swap(Iota(X.Length1), i, j)), X.Length0, X.Length1);
  }

  /** Exchanging columns i and j of a column-permuted matrix permutes by the swapped order. */
  lemma SwapColumnsPermuted(M: seq<seq<int>>, P: seq<int>, n: nat, i: int, j: int)
    requires IsMatrix(M, |M|, n) && IsPermutation(P, n) && 0 <= i < n && 0 <= j < n
    ensures ColumnsPermuted(ColumnsPermuted(M, P), Swap(Iota(n), i, j)) == ColumnsPermuted(M, Swap(P, i, j))
  {
    var A, B := ColumnsPermuted(ColumnsPermuted(M, P), Swap(Iota(n), i, j)), ColumnsPermuted(M, Swap(P, i, j));
    forall r | 0 <= r < |M|
      ensures A[r] == B[r]
    {
      PermutedTwice(M[r], P, Swap(Iota(n), i, j));
    }
  }

  /** The five objects hold the original values S0, R0, X0, E0, C0 rearranged by the order P. */
  ghost predicate Rearranged(shifts: array<int>, preimage: array<int>, X: array2<int>, ests: array<real>,
                             itCounts: array<int>, P: seq<int>,
                             S0: seq<int>, R0: seq<int>, X0: seq<seq<int>>, E0: seq<real>, C0: seq<int>)
    reads shifts, preimage, X, ests, itCounts
  {
    && shifts.Length == preimage.Length == ests.Length == itCounts.Length == X.Length1
    && IsPermutation(P, X.Length1) && IsMatrix(X0, X.Length0, X.Length1)
    && |S0| == |R0| == |E0| == |C0| == X.Length1
    && shifts[..] == Permuted(S0, P) && preimage[..] == Permuted(R0, P)
    && ests[..] == Permuted(E0, P) && itCounts[..] == Permuted(C0, P)
    && Contents(X) == ColumnsPermuted(X0, P)
  }

  /** The same exchange of positions i and j applied to all five objects: they become rearranged by Swap(P, i, j). */
  method SwapAll(shifts: array<int>, preimage: array<int>, X: array2<int>, ests: array<real>,
                 itCounts: array<int>, i: int, j: int, ghost P: seq<int>,
                 ghost S0: seq<int>, ghost R0: seq<int>, ghost X0: seq<seq<int>>, ghost E0: seq<real>, ghost C0: seq<int>)
    requires Rearranged(shifts, preimage, X, ests, itCounts, P, S0, R0, X0, E0, C0)
    requires 0 <= i < X.Length1 && 0 <= j < X.Length1
    requires shifts != preimage && shifts != itCounts && preimage != itCounts
    modifies shifts, preimage, X, ests, itCounts
    ensures Rearranged(shifts, preimage, X, ests, itCounts, Swap(P, i, j), S0, R0, X0, E0, C0)
  {
    SwapPermuted(S0, P, i, j);
    SwapPermuted(R0, P, i, j);
    SwapPermuted(E0, P, i, j);
    SwapPermuted(C0, P, i, j);
    SwapColumnsPermuted(X0, P, X.Length1, i, j);
    SwapIsPermutation(P, X.Length1, i, j);
    RowSwap(shifts, i, j);
    RowSwap(preimage, i, j);
    RowSwap(ests, i, j);
    RowSwap(itCounts, i, j);
    ColumnSwap(X, i, j);
  }

  /**
   * Deflate on the first numActive positions: walking swapFrom down from
   * numActive - 1, every position whose converged flag is set is swapped
   * with swapTo, which then moves down one.  The five objects undergo the
   * same swaps, so they end up rearranged by one permutation P of the
   * active range (positions from numActive on stay put), and the converged
   * items fill exactly the last ZeroNorm(converged) active positions.  The
   * flags are not swapped: position swapFrom has not been moved yet when
   * its flag is read (P[swapFrom] == swapFrom throughout).
   */
  method Deflate(shifts: array<int>, preimage: array<int>, X: array2<int>, ests: array<real>,
                 converged: array<int>, itCounts: array<int>, numActive: nat)
    returns (ghost P: seq<int>)
    requires shifts.Length == preimage.Length == ests.Length == itCounts.Length == X.Length1
    requires numActive <= X.Length1 && numActive <= converged.Length
    requires shifts != preimage && shifts != itCounts && preimage != itCounts
    requires converged != shifts && converged != preimage && converged != itCounts
    modifies shifts, preimage, X, ests, itCounts
    ensures IsPermutation(P, X.Length1)
    ensures forall k :: 0 <= k < numActive ==> P[k] < numActive
    ensures forall k :: numActive <= k < X.Length1 ==> P[k] == k
    ensures shifts[..] == Permuted(old(shifts[..]), P)
    ensures preimage[..] == Permuted(old(preimage[..]), P)
    ensures ests[..] == Permuted(old(ests[..]), P)
    ensures itCounts[..] == Permuted(old(itCounts[..]), P)
    ensures Contents(X) == ColumnsPermuted(old(Contents(X)), P)
    ensures forall k :: 0 <= k < numActive ==>
      (numActive - ZeroNorm(converged[..numActive]) <= k <==> converged[P[k]] != 0)
  {
    var N := X.Length1;
    ghost var S0, R0, E0, C0 := shifts[..], preimage[..], ests[..], itCounts[..];
    ghost var conv := converged[..];
    ghost var X0 := Contents(X);
    P := Iota(N);
    RearrangedInitially(shifts, preimage, X, ests, itCounts);
    var swapTo := numActive - 1;
    var swapFrom := numActive - 1;
    while swapFrom >= 0
      invariant DeflateOrder(P, conv, numActive, N, swapFrom, swapTo)
      invariant Rearranged(shifts, preimage, X, ests, itCounts, P, S0, R0, X0, E0, C0)
    {
      if converged[swapFrom] != 0 {
        DeflateConvergedStep(P, conv, numActive, N, swapFrom, swapTo);
        if swapTo != swapFrom {
          SwapAll(shifts, preimage, X, ests, itCounts, swapFrom, swapTo, P, S0, R0, X0, E0, C0);
          P := Swap(P, swapFrom, swapTo);
        }
        swapTo := swapTo - 1;
      } else {
        DeflateUnconvergedStep(P, conv, numActive, N, swapFrom, swapTo);
      }
      swapFrom := swapFrom - 1;
    }
    DeflateDone(P, conv, numActive, N, swapTo);
    assert conv[..numActive] == converged[..numActive];
  }

  /** Before any swap the objects hold their own values in the identity order. */
  lemma RearrangedInitially(shifts: array<int>, preimage: array<int>, X: array2<int>, ests: array<real>, itCounts: array<int>)
    requires shifts.Length == preimage.Length == ests.Length == itCounts.Length == X.Length1
    ensures Rearranged(shifts, preimage, X, ests, itCounts, Iota(X.Length1),
                       shifts[..], preimage[..], Contents(X), ests[..], itCounts[..])
  {
    var X0 := Contents(X);
    forall r | 0 <= r < |X0|
      ensures ColumnsPermuted(X0, Iota(X.Length1))[r] == X0[r]
    {
      assert Permuted(X0[r], Iota(X.Length1)) == X0[r];
    }
  }

  /**
   * The loop invariant of Deflate on the order P: positions up to swapFrom
   * and from numActive on are untouched, those above swapTo hold converged
   * items, those in (swapFrom, swapTo] unconverged ones, and swapTo has moved
   * down once per converged flag seen.
   */
  predicate DeflateOrder(P: seq<int>, conv: seq<int>, numActive: nat, N: nat, swapFrom: int, swapTo: int)
  {
    && numActive <= N && numActive <= |conv|
    && -1 <= swapFrom <= swapTo < numActive
    && IsPermutation(P, N)
    && (forall k :: 0 <= k <= swapFrom ==> P[k] == k)
    && (forall k :: numActive <= k < N ==> P[k] == k)
    && (forall k :: 0 <= k < numActive ==> P[k] < numActive)
    && (forall k :: swapTo < k < numActive ==> conv[P[k]] != 0)
    && (forall k :: swapFrom < k <= swapTo ==> conv[P[k]] == 0)
    && swapTo == numActive - 1 - ZeroNorm(conv[swapFrom + 1..numActive])
  }

  /** A converged item at swapFrom is exchanged with swapTo, which moves down. */
  lemma DeflateConvergedStep(P: seq<int>, conv: seq<int>, numActive: nat, N: nat, swapFrom: int, swapTo: int)
    requires DeflateOrder(P, conv, numActive, N, swapFrom, swapTo) && swapFrom >= 0 && conv[swapFrom] != 0
    ensures DeflateOrder(Swap(P, swapFrom, swapTo), conv, numActive, N, swapFrom - 1, swapTo - 1)
    ensures swapFrom == swapTo ==> Swap(P, swapFrom, swapTo) == P
  {
    assert conv[swapFrom..numActive][1..] == conv[swapFrom + 1..numActive];
    SwapIsPermutation(P, N, swapFrom, swapTo);
  }

  /** When swapFrom has passed 0, the converged items fill exactly the last ZeroNorm(conv) active positions. */
  lemma DeflateDone(P: seq<int>, conv: seq<int>, numActive: nat, N: nat, swapTo: int)
    requires DeflateOrder(P, conv, numActive, N, -1, swapTo)
    ensures forall k :: 0 <= k < numActive ==>
      (numActive - ZeroNorm(conv[..numActive]) <= k <==> conv[P[k]] != 0)
  {
    assert conv[0..numActive] == conv[..numActive];
  }

  /** An unconverged item at swapFrom stays where it is. */
  lemma DeflateUnconvergedStep(P: seq<int>, conv: seq<int>, numActive: nat, N: nat, swapFrom: int, swapTo: int)
    requires DeflateOrder(P, conv, numActive, N, swapFrom, swapTo) && swapFrom >= 0 && conv[swapFrom] == 0
    ensures DeflateOrder(P, conv, numActive, N, swapFrom - 1, swapTo)
  {
    assert conv[swapFrom..numActive][1..] == conv[swapFrom + 1..numActive];
  }

  // ---------------------------------------------------------------------
  // RestoreOrdering
  // ---------------------------------------------------------------------

  /** dst after out[P[j]] := vals[j] for j = 0, 1, ..., |P|-1 in that order. */
  function Scattered<T>(dst: seq<T>, P: seq<int>, vals: seq<T>): (r: seq<T>)
    requires |P| <= |vals|
    requires forall j :: 0 <= j < |P| ==> 0 <= P[j] < |dst|
    ensures |r| == |dst|
  {
    if |P| == 0 then dst
    else Scattered(dst, P[..|P| - 1], vals)[P[|P| - 1] := vals[|P| - 1]]
  }

  /** With distinct targets each slot P[j] is written once and ends up holding vals[j]; other slots are untouched. */
  lemma {:induction false} ScatteredDistinct<T>(dst: seq<T>, P: seq<int>, vals: seq<T>)
    requires |P| <= |vals|
    requires forall j :: 0 <= j < |P| ==> 0 <= P[j] < |dst|
    requires forall a, b :: 0 <= a < b < |P| ==> P[a] != P[b]
    ensures forall j :: 0 <= j < |P| ==> Scattered(dst, P, vals)[P[j]] == vals[j]
    ensures forall d :: 0 <= d < |dst| && d !in P ==> Scattered(dst, P, vals)[d] == dst[d]
  {
    if |P| > 0 {
      var Q := P[..|P| - 1];
      ScatteredDistinct(dst, Q, vals);
      forall d | 0 <= d < |dst| && d !in P
        ensures Scattered(dst, P, vals)[d] == dst[d]
      {
        assert d !in Q;
      }
    }
  }

  /** Scattering a vector rearranged by a permutation P back through P restores it. */
  lemma RestoreUndoesPermutation<T>(dst: seq<T>, s: seq<T>, P: seq<int>)
    requires IsPermutation(P, |s|) && |dst| == |s|
    ensures Scattered(dst, P, Permuted(s, P)) == s
  {
    var n := |s|;
    ScatteredDistinct(dst, P, Permuted(s, P));
    forall d | 0 <= d < n
      ensures Scattered(dst, P, Permuted(s, P))[d] == s[d]
    {
      PermutationOnto(P, n, d);
      var k :| 0 <= k < n && P[k] == d;
    }
  }

  /**
   * RestoreOrdering: out[preimage[j]] := in[j] for every j, reading in from
   * copies taken first; invNorms and itCounts undergo the same writes.
   */
  method RestoreOrdering(preimage: array<int>, invNorms: array<real>, itCounts: array<int>)
    requires preimage.Length <= invNorms.Length && preimage.Length <= itCounts.Length
    requires forall j :: 0 <= j < preimage.Length ==> 0 <= preimage[j] < invNorms.Length && preimage[j] < itCounts.Length
    requires preimage != itCounts
    modifies invNorms, itCounts
    ensures invNorms[..] == Scattered(old(invNorms[..]), preimage[..], old(invNorms[..]))
    ensures itCounts[..] == Scattered(old(itCounts[..]), preimage[..], old(itCounts[..]))
  {
    var invNormsCopy, itCountsCopy := invNorms[..], itCounts[..];
    var numShifts := preimage.Length;
    var j := 0;
    while j < numShifts
      invariant 0 <= j <= numShifts
      invariant preimage[..] == old(preimage[..])
      invariant invNorms[..] == Scattered(invNormsCopy, preimage[..j], invNormsCopy)
      invariant itCounts[..] == Scattered(itCountsCopy, preimage[..j], itCountsCopy)
    {
      var dest := preimage[j];
      assert preimage[..j + 1][..j] == preimage[..j];
      invNorms[dest] := invNormsCopy[j];
      itCounts[dest] := itCountsCopy[j];
      j := j + 1;
    }
    assert preimage[..numShifts] == preimage[..];
  }

  // ---------------------------------------------------------------------
  // Estimates and the convergence test
  // ---------------------------------------------------------------------

  function AbsReal(x: real): (y: real)
    ensures y >= 0.0 && (y == x || y == -x)
  {
    if x < 0.0 then -x else x
  }

  /** An estimate after CapEstimates: never above the cap, and unchanged when below it. */
  function Cap(alpha: real, normCap: real): (c: real)
    ensures c <= normCap
    ensures alpha < normCap ==> c == alpha
    ensures alpha >= normCap ==> c == normCap
  {
    if alpha >= normCap then normCap else alpha
  }

  /** Capping twice is capping once. */
  lemma CapIdempotent(alpha: real, normCap: real)
    ensures Cap(Cap(alpha, normCap), normCap) == Cap(alpha, normCap)
  {
  }

  /** CapEstimates on the first numActive estimates (the active view). */
  method CapEstimates(ests: array<real>, numActive: nat, normCap: real)
    requires numActive <= ests.Length
    modifies ests
    ensures forall j :: 0 <= j < numActive ==> ests[j] == Cap(old(ests[j]), normCap)
    ensures forall j :: numActive <= j < ests.Length ==> ests[j] == old(ests[j])
  {
    var j := 0;
    while j < numActive
      invariant 0 <= j <= numActive
      invariant forall k :: 0 <= k < j ==> ests[k] == Cap(old(ests[k]), normCap)
      invariant forall k :: j <= k < ests.Length ==> ests[k] == old(ests[k])
    {
      var alpha := ests[j];
      if alpha >= normCap {
        alpha := normCap;
      }
      ests[j] := alpha;
      j := j + 1;
    }
  }

  /**
   * The convergence test of one shift: the current estimate reached the
   * cap, or it is nonzero and the relative change from the last estimate
   * is at most maxDiff.
   */
  predicate Converged(lastEst: real, currEst: real, maxDiff: real, normCap: real)
  {
    currEst >= normCap || (AbsReal(currEst) > 0.0 && AbsReal(lastEst - currEst) / AbsReal(currEst) <= maxDiff)
  }

  /**
   * FindConverged on the first numActive shifts: a fresh vector of flags,
   * 1 exactly where the test holds, and the iteration count of every shift
   * whose test fails goes up by one.
   */
  method FindConverged(lastActiveEsts: seq<real>, activeEsts: array<real>, numActive: nat,
                       activeItCounts: array<int>, maxDiff: real, normCap: real)
    returns (activeConverged: array<int>)
    requires numActive <= |lastActiveEsts| && numActive <= activeEsts.Length && numActive <= activeItCounts.Length
    modifies activeItCounts
    ensures fresh(activeConverged) && activeConverged.Length == numActive
    ensures forall j :: 0 <= j < numActive ==>
      activeConverged[j] == (if Converged(lastActiveEsts[j], activeEsts[j], maxDiff, normCap) then 1 else 0)
    ensures forall j :: 0 <= j < numActive ==>
      activeItCounts[j] == old(activeItCounts[j]) + (if activeConverged[j] != 0 then 0 else 1)
    ensures forall j :: numActive <= j < activeItCounts.Length ==> activeItCounts[j] == old(activeItCounts[j])
  {
    activeConverged := new int[numActive](_ => 0);
    var j := 0;
    while j < numActive
      invariant 0 <= j <= numActive
      invariant forall k :: 0 <= k < j ==>
        activeConverged[k] == (if Converged(lastActiveEsts[k], activeEsts[k], maxDiff, normCap) then 1 else 0)
      invariant forall k :: j <= k < numActive ==> activeConverged[k] == 0
      invariant forall k :: 0 <= k < j ==>
        activeItCounts[k] == old(activeItCounts[k]) + (if activeConverged[k] != 0 then 0 else 1)
      invariant forall k :: j <= k < activeItCounts.Length ==> activeItCounts[k] == old(activeItCounts[k])
    {
      var lastEst, currEst := lastActiveEsts[j], activeEsts[j];
      var converged := false;
      if currEst >= normCap {
        converged := true;
      } else if AbsReal(currEst) > 0.0 {
        converged := AbsReal(lastEst - currEst) / AbsReal(currEst) <= maxDiff;
      }
      if converged {
        activeConverged[j] := 1;
      } else {
        activeItCounts[j] := activeItCounts[j] + 1;
      }
      j := j + 1;
    }
  }

  /** The sum of a vector of counts. */
  function Sum(s: seq<int>): int
  {
    if |s| == 0 then 0 else s[0] + Sum(s[1..])
  }

  /**
   * The two outputs of FindConverged account for every active shift: the
   * counts grow in total by the number of shifts that did not converge.
   */
  lemma {:induction false} ConvergedAccounting(flags: seq<int>, before: seq<int>, after: seq<int>)
    requires |flags| == |before| == |after|
    requires forall j :: 0 <= j < |flags| ==> after[j] == before[j] + (if flags[j] != 0 then 0 else 1)
    ensures Sum(after) == Sum(before) + |flags| - ZeroNorm(flags)
  {
    if |flags| > 0 {
      ConvergedAccounting(flags[1..], before[1..], after[1..]);
    }
  }

  // ---------------------------------------------------------------------
  // The preimage
  // ---------------------------------------------------------------------

  /** The local preimage before any deflation: preimage[j] = j. */
  method InitPreimage(numShifts: nat) returns (preimage: array<int>)
    ensures fresh(preimage) && preimage[..] == Iota(numShifts)
  {
    preimage := new int[numShifts];
    var j := 0;
    while j < numShifts
      invariant 0 <= j <= numShifts
      invariant forall k :: 0 <= k < j ==> preimage[k] == k
    {
      preimage[j] := j;
      j := j + 1;
    }
  }

  /** A column vector as a one-column matrix. */
  function Column<T>(v: seq<T>): (M: seq<seq<T>>)
    ensures IsMatrix(M, |v|, 1)
  {
    seq(|v|, i requires 0 <= i < |v| => [v[i]])
  }

  /**
   * The distributed preimage of a [VR,*] vector of numShifts entries (row
   * stride 1), on process q: local entry jLoc is set to its global index
   * colShift + jLoc*colStride, so q holds its part of 0, 1, ..., numShifts-1.
   */
  method InitPreimageDist(L: Layout, q: int) returns (local: array<int>)
    requires L.Valid() && 0 <= q < L.Procs() && L.width == 1 && L.rowStride == 1
    ensures fresh(local) && local.Length == L.LocalHeight(q) && L.LocalWidth(q) == 1
    ensures forall jLoc :: 0 <= jLoc < local.Length ==> local[jLoc] == Distribute(L, Column(Iota(L.height)))[q][jLoc][0]
  {
    LengthExact(1, L.RowShift(q), 1, 1);
    var numLocShifts := L.LocalHeight(q);
    var colShift, colStride := L.ColShift(q), L.colStride;
    local := new int[numLocShifts];
    var jLoc := 0;
    while jLoc < numLocShifts
      invariant 0 <= jLoc <= numLocShifts
      invariant forall k :: 0 <= k < jLoc ==> local[k] == L.GlobalRow(q, k)
    {
      local[jLoc] := colShift + jLoc * colStride;
      jLoc := jLoc + 1;
    }
    PreimageDistributed(L, q);
  }

  /** Process q's part of the column vector 0, 1, ..., height-1: local entry jLoc is its global index. */
  lemma PreimageDistributed(L: Layout, q: int)
    requires L.Valid() && 0 <= q < L.Procs() && L.width == 1 && L.rowStride == 1
    ensures L.LocalWidth(q) == 1
    ensures forall jLoc :: 0 <= jLoc < L.LocalHeight(q) ==> Distribute(L, Column(Iota(L.height)))[q][jLoc][0] == L.GlobalRow(q, jLoc)
  {
    LengthExact(1, L.RowShift(q), 1, 1);
    var M := Column(Iota(L.height));
    forall jLoc | 0 <= jLoc < L.LocalHeight(q)
      ensures Distribute(L, M)[q][jLoc][0] == L.GlobalRow(q, jLoc)
    {
      GlobalInRange(L, q, jLoc, 0);
      assert Distribute(L, M)[q] == DistLocal(L, M, q);
      assert L.GlobalCol(q, 0) == 0;
      assert DistLocal(L, M, q)[jLoc][0] == M[L.GlobalRow(q, jLoc)][0];
    }
  }

  // ---------------------------------------------------------------------
  // The iteration loop of TriangularPower and HessenbergPower
  // ---------------------------------------------------------------------

  /**
   * The two multi-shift solves, FixColumns and ColumnNorms on the active
   * columns, abstracted: they act on each column separately, so the
   * estimate of iteration it for the shift originally at index i is some
   * value norms(it, i).  Position k of the active range holds original
   * shift orig[k].
   */
  method EstimateNorms(activeEsts: array<real>, numActive: nat, orig: seq<int>, it: nat, norms: (nat, int) -> real)
    requires numActive <= activeEsts.Length && numActive <= |orig|
    modifies activeEsts
    ensures forall k :: 0 <= k < numActive ==> activeEsts[k] == norms(it, orig[k])
    ensures forall k :: numActive <= k < activeEsts.Length ==> activeEsts[k] == old(activeEsts[k])
  {
    var k := 0;
    while k < numActive
      invariant 0 <= k <= numActive
      invariant forall j :: 0 <= j < k ==> activeEsts[j] == norms(it, orig[j])
      invariant forall j :: k <= j < activeEsts.Length ==> activeEsts[j] == old(activeEsts[j])
    {
      activeEsts[k] := norms(it, orig[k]);
      k := k + 1;
    }
  }

  /** The number of shifts still iterated on: all of them without deflation. */
  function NumActive(deflate: bool, numShifts: nat, numDone: nat): nat
    requires numDone <= numShifts
  {
    if deflate then numShifts - numDone else numShifts
  }

  /** v is the capped estimate of some iteration t < numIts for shift i. */
  ghost predicate EstimateOf(v: real, i: int, numIts: nat, norms: (nat, int) -> real, normCap: real)
  {
    exists t: nat :: t < numIts && v == Cap(norms(t, i), normCap)
  }

  /**
   * Undoing the deflation order on the final estimates: if position k holds
   * an estimate computed for original shift order[k], then after
   * RestoreOrdering slot i holds an estimate computed for shift i.
   */
  lemma RestoredEstimates(E: seq<real>, order: seq<int>, when: seq<int>, numIts: nat, norms: (nat, int) -> real, normCap: real)
    requires IsPermutation(order, |E|) && |when| == |E|
    requires forall k :: 0 <= k < |E| ==> 0 <= when[k] < numIts && E[k] == Cap(norms(when[k], order[k]), normCap)
    ensures forall i :: 0 <= i < |E| ==> EstimateOf(Scattered(E, order, E)[i], i, numIts, norms, normCap)
  {
    forall i | 0 <= i < |E|
      ensures EstimateOf(Scattered(E, order, E)[i], i, numIts, norms, normCap)
    {
      var k := RestoredSlot(E, order, E, i);
      var t: nat := when[k];
      assert t < numIts && Scattered(E, order, E)[i] == Cap(norms(t, i), normCap);
    }
  }

  /** Slot i after scattering through a permutation holds the value from the position k with order[k] == i. */
  lemma RestoredSlot<T>(dst: seq<T>, order: seq<int>, vals: seq<T>, i: int) returns (k: int)
    requires IsPermutation(order, |dst|) && |vals| >= |dst| && 0 <= i < |dst|
    ensures 0 <= k < |dst| && order[k] == i && Scattered(dst, order, vals)[i] == vals[k]
  {
    PermutationOnto(order, |dst|, i);
    k :| 0 <= k < |dst| && order[k] == i;
    ScatteredDistinct(dst, order, vals);
  }

  /** Bounds on every count survive RestoreOrdering. */
  lemma RestoredCounts(C: seq<int>, order: seq<int>, lo: int, hi: int)
    requires IsPermutation(order, |C|)
    requires forall k :: 0 <= k < |C| ==> lo <= C[k] <= hi
    ensures forall i :: 0 <= i < |C| ==> lo <= Scattered(C, order, C)[i] <= hi
  {
    forall i | 0 <= i < |C|
      ensures lo <= Scattered(C, order, C)[i] <= hi
    {
      var k := RestoredSlot(C, order, C, i);
    }
  }

  /** The state the iteration loop keeps between iterations, on the contents of its vectors. */
  ghost predicate PowerLoop(shifts: seq<int>, deflate: bool, preimage: seq<int>, pivShifts: seq<int>, width: nat,
                            estimates: seq<real>, itCounts: seq<int>, lastActiveEsts: seq<real>,
                            order: seq<int>, when: seq<int>, numIts: nat, numDone: nat,
                            norms: (nat, int) -> real, normCap: real)
  {
    && numDone <= |shifts| && (numIts == 0 ==> numDone == 0)
    && |estimates| == |itCounts| == |shifts| == width && |when| == |shifts|
    && NumActive(deflate, |shifts|, numDone) <= |lastActiveEsts|
    && (deflate ==> |preimage| == |shifts|)
    && OrderKept(shifts, deflate, preimage, pivShifts, order)
    && EstimatesKept(estimates, order, when, numIts, norms, normCap)
    && (forall k :: 0 <= k < |shifts| ==> 1 <= itCounts[k] <= numIts + 1)
  }

  /** The preimage is the order of the original shifts (the identity without deflation), and the shifts follow it. */
  ghost predicate OrderKept(shifts: seq<int>, deflate: bool, preimage: seq<int>, pivShifts: seq<int>, order: seq<int>)
  {
    && (deflate ==> preimage == order)
    && (!deflate ==> order == Iota(|shifts|))
    && IsPermutation(order, |shifts|)
    && pivShifts == Permuted(shifts, order)
  }

  /** After the first iteration position k holds the capped estimate of iteration when[k] for shift order[k]. */
  ghost predicate EstimatesKept(estimates: seq<real>, order: seq<int>, when: seq<int>, numIts: nat, norms: (nat, int) -> real, normCap: real)
  {
    |estimates| == |order| == |when| &&
    (numIts > 0 ==> forall k :: 0 <= k < |estimates| ==>
       0 <= when[k] < numIts && 0 <= order[k] && estimates[k] == Cap(norms(when[k], order[k]), normCap))
  }

  /** Past the active range (the deflated shifts) no count exceeds numIts. */
  ghost predicate CountsKept(itCounts: seq<int>, numActive: nat, numIts: nat)
  {
    forall k :: numActive <= k < |itCounts| ==> itCounts[k] <= numIts
  }

  /** Estimating and capping the active positions: they now hold iteration numIts, the others keep theirs. */
  lemma StepEstimates(E0: seq<real>, E1: seq<real>, order: seq<int>, when: seq<int>, when': seq<int>,
                      numActive: nat, numIts: nat, norms: (nat, int) -> real, normCap: real)
    requires EstimatesKept(E0, order, when, numIts, norms, normCap) && IsPermutation(order, |E0|)
    requires numIts == 0 ==> numActive == |E0|
    requires numActive <= |E0| == |E1| == |when'|
    requires forall k :: 0 <= k < numActive ==> E1[k] == Cap(norms(numIts, order[k]), normCap)
    requires forall k :: numActive <= k < |E1| ==> E1[k] == E0[k]
    requires forall k :: 0 <= k < |when'| ==> when'[k] == if k < numActive then numIts else when[k]
    ensures EstimatesKept(E1, order, when', numIts + 1, norms, normCap)
  {
  }

  /** Rearranging estimates, order and iterations by the same permutation keeps them in step. */
  lemma PermutedEstimates(E: seq<real>, order: seq<int>, when: seq<int>, P: seq<int>,
                          numIts: nat, norms: (nat, int) -> real, normCap: real)
    requires EstimatesKept(E, order, when, numIts, norms, normCap) && IsPermutation(P, |E|)
    ensures EstimatesKept(Permuted(E, P), Permuted(order, P), Permuted(when, P), numIts, norms, normCap)
  {
  }

  /**
   * The counts after FindConverged: all between 1 and numIts + 2, those of
   * the converged active shifts at most numIts + 1, and those past the
   * active range untouched.
   */
  lemma StepCounts(C0: seq<int>, C1: seq<int>, conv: seq<int>, numActive: nat, numIts: nat)
    requires |C0| == |C1| && numActive == |conv| <= |C0|
    requires forall k :: 0 <= k < |C0| ==> 1 <= C0[k] <= numIts + 1
    requires CountsKept(C0, numActive, numIts)
    requires forall k :: 0 <= k < numActive ==> C1[k] == C0[k] + (if conv[k] != 0 then 0 else 1)
    requires forall k :: numActive <= k < |C1| ==> C1[k] == C0[k]
    ensures forall k :: 0 <= k < |C1| ==> 1 <= C1[k] <= numIts + 2
    ensures forall k :: 0 <= k < numActive && conv[k] != 0 ==> C1[k] <= numIts + 1
    ensures CountsKept(C1, numActive, numIts + 1)
  {
  }

  /**
   * After Deflate moved the converged active shifts to the tail of the
   * active range, the shorter active range leaves behind only counts of at
   * most numIts + 1.
   */
  lemma DeflatedCounts(C1: seq<int>, conv: seq<int>, P: seq<int>, numActive: nat, numIts: nat)
    requires numActive == |conv| <= |C1| && IsPermutation(P, |C1|)
    requires forall k :: 0 <= k < |C1| ==> 1 <= C1[k] <= numIts + 2
    requires forall k :: 0 <= k < numActive && conv[k] != 0 ==> C1[k] <= numIts + 1
    requires CountsKept(C1, numActive, numIts + 1)
    requires forall k :: 0 <= k < numActive ==> P[k] < numActive
    requires forall k :: numActive <= k < |C1| ==> P[k] == k
    requires forall k :: 0 <= k < numActive ==> (numActive - ZeroNorm(conv) <= k <==> conv[P[k]] != 0)
    ensures forall k :: 0 <= k < |C1| ==> 1 <= Permuted(C1, P)[k] <= numIts + 2
    ensures CountsKept(Permuted(C1, P), numActive - ZeroNorm(conv), numIts + 1)
  {
    var C := Permuted(C1, P);
    forall k | numActive - ZeroNorm(conv) <= k < |C|
      ensures C[k] <= numIts + 1
    {
      if k < numActive {
        assert conv[P[k]] != 0 && C[k] == C1[P[k]];
      }
    }
  }

  /** Deflate rearranges the preimage and the shifts the same way, so the order becomes Permuted(order, P). */
  lemma DeflatedOrder(shifts: seq<int>, deflate: bool, preimage: seq<int>, pivShifts: seq<int>, order: seq<int>, P: seq<int>)
    requires OrderKept(shifts, deflate, preimage, pivShifts, order) && deflate
    requires IsPermutation(P, |shifts|) && |preimage| == |shifts|
    ensures OrderKept(shifts, deflate, Permuted(preimage, P), Permuted(pivShifts, P), Permuted(order, P))
  {
    PermutedTwice(shifts, order, P);
    ComposeIsPermutation(order, P, |shifts|);
  }

  /** When every flag of the active range is set and numDone reaches all shifts, no count is above numIts + 1. */
  lemma AllDoneCounts(C1: seq<int>, conv: seq<int>, numActive: nat, numIts: nat)
    requires numActive == |conv| <= |C1|
    requires forall k :: 0 <= k < numActive && conv[k] != 0 ==> C1[k] <= numIts + 1
    requires CountsKept(C1, numActive, numIts + 1)
    requires ZeroNorm(conv) == numActive
    ensures forall k :: 0 <= k < |C1| ==> C1[k] <= numIts + 1
  {
    ZeroNormFull(conv);
  }

  /**
   * Estimate and cap the active shifts, then find the converged ones:
   * the first half of one pass of the loop, with the new estimates and
   * counts stated on the sequences.
   */
  method EstimateStep(deflate: bool, preimage: array<int>, estimates: array<real>, itCounts: array<int>,
                      lastActiveEsts: seq<real>, numActive: nat, numIts: nat, tol: real, normCap: real,
                      norms: (nat, int) -> real, ghost order: seq<int>)
    returns (activeConverged: array<int>)
    requires numActive <= estimates.Length == itCounts.Length == |order| && numActive <= |lastActiveEsts|
    requires deflate ==> preimage[..] == order
    requires !deflate ==> order == Iota(|order|)
    requires preimage != itCounts
    modifies estimates, itCounts
    ensures fresh(activeConverged) && activeConverged.Length == numActive
    ensures forall k :: 0 <= k < numActive ==> estimates[k] == Cap(norms(numIts, order[k]), normCap)
    ensures forall k :: numActive <= k < estimates.Length ==> estimates[k] == old(estimates[k])
    ensures forall k :: 0 <= k < numActive ==> itCounts[k] == old(itCounts[k]) + (if activeConverged[k] != 0 then 0 else 1)
    ensures forall k :: numActive <= k < itCounts.Length ==> itCounts[k] == old(itCounts[k])
    ensures forall k :: 0 <= k < numActive ==>
      activeConverged[k] == (if Converged(lastActiveEsts[k], estimates[k], tol, normCap) then 1 else 0)
  {
    var orig := if deflate then preimage[..] else Iota(estimates.Length);
    EstimateNorms(estimates, numActive, orig, numIts, norms);
    CapEstimates(estimates, numActive, normCap);
    activeConverged := FindConverged(lastActiveEsts, estimates, numActive, itCounts, tol, normCap);
  }

  /**
   * Deflate after an iteration in which some active shift converged: the
   * order and the iterations of the estimates follow the permutation
   * Deflate applies, and the active range shrinks by the number that
   * converged, leaving behind counts of at most numIts + 1.
   */
  method DeflateStep(shifts: seq<int>, preimage: array<int>, pivShifts: array<int>, X: array2<int>,
                     estimates: array<real>, itCounts: array<int>, activeConverged: array<int>,
                     numActive: nat, numIts: nat, ghost order: seq<int>, ghost when: seq<int>,
                     norms: (nat, int) -> real, normCap: real)
    returns (ghost order': seq<int>, ghost when': seq<int>)
    requires preimage != itCounts && pivShifts != preimage && pivShifts != itCounts
    requires activeConverged != pivShifts && activeConverged != preimage && activeConverged != itCounts
    requires estimates.Length == itCounts.Length == preimage.Length == X.Length1 == |shifts|
    requires numActive == activeConverged.Length <= |shifts|
    requires OrderKept(shifts, true, preimage[..], pivShifts[..], order)
    requires EstimatesKept(estimates[..], order, when, numIts + 1, norms, normCap)
    requires forall k :: 0 <= k < |shifts| ==> 1 <= itCounts[k] <= numIts + 2
    requires forall k :: 0 <= k < numActive && activeConverged[k] != 0 ==> itCounts[k] <= numIts + 1
    requires CountsKept(itCounts[..], numActive, numIts + 1)
    modifies preimage, pivShifts, X, estimates, itCounts
    ensures OrderKept(shifts, true, preimage[..], pivShifts[..], order')
    ensures EstimatesKept(estimates[..], order', when', numIts + 1, norms, normCap)
    ensures forall k :: 0 <= k < |shifts| ==> 1 <= itCounts[k] <= numIts + 2
    ensures CountsKept(itCounts[..], numActive - ZeroNorm(activeConverged[..]), numIts + 1)
  {
    ghost var conv := activeConverged[..];
    ghost var E1, C1, R1, S1 := estimates[..], itCounts[..], preimage[..], pivShifts[..];
    ghost var P := Deflate(pivShifts, preimage, X, estimates, activeConverged, itCounts, numActive);
    assert conv[..numActive] == conv;
    PermutedEstimates(E1, order, when, P, numIts + 1, norms, normCap);
    DeflatedCounts(C1, conv, P, numActive, numIts);
    DeflatedOrder(shifts, true, R1, S1, order, P);
    order', when' := Permuted(order, P), Permuted(when, P);
  }

  /**
   * One pass of the loop: estimate and cap the active shifts, find the
   * converged ones, update numDone and numIts, and stop at maxIts or when
   * all are done; otherwise deflate if anything converged and remember the
   * active estimates.  When all are done no count exceeds numIts.
   */
  method PowerStep(shifts: seq<int>, deflate: bool, preimage: array<int>, pivShifts: array<int>, X: array2<int>,
                   estimates: array<real>, itCounts: array<int>, lastActiveEsts: seq<real>,
                   numIts: nat, numDone: nat, maxIts: int, tol: real, normCap: real, norms: (nat, int) -> real,
                   ghost order: seq<int>, ghost when: seq<int>)
    returns (stop: bool, lastActiveEsts': seq<real>, numIts': nat, numDone': nat, ghost order': seq<int>, ghost when': seq<int>)
    requires PowerLoop(shifts, deflate, preimage[..], pivShifts[..], X.Length1, estimates[..], itCounts[..], lastActiveEsts, order, when, numIts, numDone, norms, normCap)
    requires preimage != itCounts && pivShifts != preimage && pivShifts != itCounts
    requires CountsKept(itCounts[..], NumActive(deflate, |shifts|, numDone), numIts)
    modifies preimage, pivShifts, X, estimates, itCounts
    ensures numIts' == numIts + 1
    ensures deflate ==> numDone <= numDone'
    ensures stop <==> numIts' >= maxIts || numDone' == |shifts|
    ensures PowerLoop(shifts, deflate, preimage[..], pivShifts[..], X.Length1, estimates[..], itCounts[..], lastActiveEsts', order', when', numIts', numDone', norms, normCap)
    ensures !stop ==> CountsKept(itCounts[..], NumActive(deflate, |shifts|, numDone'), numIts')
    ensures numDone' == |shifts| ==> forall k :: 0 <= k < |shifts| ==> itCounts[k] <= numIts'
  {
    var numShifts := |shifts|;
    var numActive := NumActive(deflate, numShifts, numDone);
    ghost var E0, C0 := estimates[..], itCounts[..];
    var activeConverged := EstimateStep(deflate, preimage, estimates, itCounts, lastActiveEsts, numActive,
                                        numIts, tol, normCap, norms, order);
    ghost var conv := activeConverged[..];
    when' := seq(numShifts, k requires 0 <= k < numShifts => if k < numActive then numIts else when[k]);
    StepEstimates(E0, estimates[..], order, when, when', numActive, numIts, norms, normCap);
    StepCounts(C0, itCounts[..], conv, numActive, numIts);
    stop, lastActiveEsts', numIts', numDone', order', when' :=
      FinishStep(shifts, deflate, preimage, pivShifts, X, estimates, itCounts, activeConverged, lastActiveEsts,
                 numActive, numIts, numDone, maxIts, norms, normCap, order, when');
  }

  /**
   * The second half of one pass: count the converged shifts into numDone,
   * advance numIts, stop at maxIts or when all are done, and otherwise
   * deflate if anything converged and remember the active estimates.
   */
  method FinishStep(shifts: seq<int>, deflate: bool, preimage: array<int>, pivShifts: array<int>, X: array2<int>,
                    estimates: array<real>, itCounts: array<int>, activeConverged: array<int>, lastActiveEsts: seq<real>,
                    numActive: nat, numIts: nat, numDone: nat, maxIts: int, norms: (nat, int) -> real, normCap: real,
                    ghost order: seq<int>, ghost when: seq<int>)
    returns (stop: bool, lastActiveEsts': seq<real>, numIts': nat, numDone': nat, ghost order': seq<int>, ghost when': seq<int>)
    requires preimage != itCounts && pivShifts != preimage && pivShifts != itCounts
    requires activeConverged != pivShifts && activeConverged != preimage && activeConverged != itCounts
    requires numDone <= |shifts| && numActive == NumActive(deflate, |shifts|, numDone) && numActive == activeConverged.Length
    requires numIts == 0 ==> numDone == 0
    requires estimates.Length == itCounts.Length == X.Length1 == |shifts| == |when|
    requires (deflate ==> preimage.Length == |shifts|) && numActive <= |lastActiveEsts|
    requires OrderKept(shifts, deflate, preimage[..], pivShifts[..], order)
    requires EstimatesKept(estimates[..], order, when, numIts + 1, norms, normCap)
    requires forall k :: 0 <= k < |shifts| ==> 1 <= itCounts[k] <= numIts + 2
    requires forall k :: 0 <= k < numActive && activeConverged[k] != 0 ==> itCounts[k] <= numIts + 1
    requires CountsKept(itCounts[..], numActive, numIts + 1)
    modifies preimage, pivShifts, X, estimates, itCounts
    ensures numIts' == numIts + 1
    ensures deflate ==> numDone <= numDone'
    ensures stop <==> numIts' >= maxIts || numDone' == |shifts|
    ensures PowerLoop(shifts, deflate, preimage[..], pivShifts[..], X.Length1, estimates[..], itCounts[..], lastActiveEsts', order', when', numIts', numDone', norms, normCap)
    ensures !stop ==> CountsKept(itCounts[..], NumActive(deflate, |shifts|, numDone'), numIts')
    ensures numDone' == |shifts| ==> forall k :: 0 <= k < |shifts| ==> itCounts[k] <= numIts'
  {
    var numShifts := |shifts|;
    order', when' := order, when;
    var numActiveDone := ZeroNorm(activeConverged[..]);
    if deflate {
      numDone' := numDone + numActiveDone;
    } else {
      numDone' := numActiveDone;
    }
    numIts' := numIts + 1;
    lastActiveEsts' := lastActiveEsts;
    if numDone' == numShifts {
      AllDoneCounts(itCounts[..], activeConverged[..], numActive, numIts);
      return true, lastActiveEsts', numIts', numDone', order', when';
    }
    if numIts' >= maxIts {
      return true, lastActiveEsts', numIts', numDone', order', when';
    }
    if deflate && numActiveDone != 0 {
      order', when' := DeflateStep(shifts, preimage, pivShifts, X, estimates, itCounts, activeConverged,
                                   numActive, numIts, order, when, norms, normCap);
    }
    lastActiveEsts' := estimates[..numActive];
    stop := false;
  }

  /**
   * The bookkeeping of TriangularPower (HessenbergPower has the same loop):
   * counts start at 1; each iteration estimates and caps the active shifts,
   * finds the converged ones, and either adds their number to numDone (with
   * deflation) or takes it as numDone; the loop stops after maxIts
   * iterations or once all are done, deflating in between when something
   * converged.  Not all done is an error; otherwise the estimates and counts
   * are put back into the original order of the shifts.
   */
  method PowerIterations(shifts: seq<int>, n: nat, deflate: bool, maxIts: int, tol: real, normCap: real,
                         norms: (nat, int) -> real)
    returns (r: Result<seq<int>>, invNorms: seq<real>, numIts: nat, numDone: nat)
    ensures 1 <= numIts && (numIts >= maxIts || numDone == |shifts|)
    ensures numIts == 1 || numIts <= maxIts
    ensures numDone <= |shifts|
    ensures r.Success? <==> numDone == |shifts|
    ensures r.Failure? ==> r.msg == "Two-norm estimates did not converge in time"
    ensures r.Success? ==> |r.value| == |shifts| && |invNorms| == |shifts|
    ensures r.Success? ==> forall i :: 0 <= i < |shifts| ==> 1 <= r.value[i] <= numIts
    ensures r.Success? ==> forall i :: 0 <= i < |shifts| ==> EstimateOf(invNorms[i], i, numIts, norms, normCap)
  {
    var numShifts := |shifts|;
    var itCounts := new int[numShifts](_ => 1);
    var preimage := new int[0];
    if deflate {
      preimage := InitPreimage(numShifts);
    }
    var pivShifts := new int[numShifts](k requires 0 <= k < numShifts => shifts[k]);
    var X := new int[n, numShifts];
    var estimates := new real[numShifts](_ => 0.0);
    var lastActiveEsts := estimates[..];
    numIts, numDone := 0, 0;
    ghost var order := Iota(numShifts);
    ghost var when: seq<int> := seq(numShifts, _ => 0);
    assert pivShifts[..] == Permuted(shifts, order);
    var stop := false;
    while true
      invariant PowerLoop(shifts, deflate, preimage[..], pivShifts[..], X.Length1, estimates[..], itCounts[..], lastActiveEsts, order, when, numIts, numDone, norms, normCap)
      invariant CountsKept(itCounts[..], NumActive(deflate, numShifts, numDone), numIts)
      invariant numIts > 0 ==> numIts < maxIts
      decreases maxIts - numIts
    {
      stop, lastActiveEsts, numIts, numDone, order, when :=
        PowerStep(shifts, deflate, preimage, pivShifts, X, estimates, itCounts, lastActiveEsts,
                  numIts, numDone, maxIts, tol, normCap, norms, order, when);
      if stop {
        break;
      }
    }
    if numDone != numShifts {
      return Failure("Two-norm estimates did not converge in time"), [], numIts, numDone;
    }
    var counts;
    invNorms, counts := RestoreResults(shifts, deflate, preimage, estimates, itCounts, order, when, numIts, norms, normCap);
    r := Success(counts);
  }

  /**
   * The end of the loop once all shifts are done: the estimates are copied
   * out and, with deflation, estimates and counts go back to the original
   * order of the shifts through the preimage.
   */
  method RestoreResults(shifts: seq<int>, deflate: bool, preimage: array<int>, estimates: array<real>, itCounts: array<int>,
                        ghost order: seq<int>, ghost when: seq<int>, numIts: nat, norms: (nat, int) -> real, normCap: real)
    returns (invNorms: seq<real>, counts: seq<int>)
    requires estimates.Length == itCounts.Length == |shifts| && preimage != itCounts
    requires IsPermutation(order, |shifts|) && (deflate ==> preimage[..] == order) && (!deflate ==> order == Iota(|shifts|))
    requires EstimatesKept(estimates[..], order, when, numIts, norms, normCap) && numIts > 0
    requires forall k :: 0 <= k < |shifts| ==> 1 <= itCounts[k] <= numIts
    modifies itCounts
    ensures |invNorms| == |counts| == |shifts|
    ensures forall i :: 0 <= i < |shifts| ==> 1 <= counts[i] <= numIts
    ensures forall i :: 0 <= i < |shifts| ==> EstimateOf(invNorms[i], i, numIts, norms, normCap)
  {
    var numShifts := |shifts|;
    var invNormsArr := new real[numShifts](k reads estimates requires 0 <= k < estimates.Length => estimates[k]);
    ghost var E, C := estimates[..], itCounts[..];
    assert invNormsArr[..] == E;
    if deflate {
      RestoreOrdering(preimage, invNormsArr, itCounts);
      RestoredEstimates(E, order, when, numIts, norms, normCap);
      RestoredCounts(C, order, 1, numIts);
    } else {
      forall i | 0 <= i < numShifts
        ensures EstimateOf(E[i], i, numIts, norms, normCap)
      {
        var t: nat := when[i];
        assert order[i] == i && t < numIts && E[i] == Cap(norms(t, i), normCap);
      }
    }
    invNorms, counts := invNormsArr[..], itCounts[..];
  }
}
