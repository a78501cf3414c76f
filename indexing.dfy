/**
 * Index arithmetic shared by every distribution: C++ integer division,
 * Shift, Length (two- and four-argument forms) and MaxLength, and the
 * maps between a process's local indices and the global indices it owns.
 *
 * A dimension of size n is dealt out cyclically over `stride` processes:
 * global index i lives on the process whose shift is i mod stride, at local
 * index i / stride.
 */
module Indexing {

  // ---------------------------------------------------------------------
  // C++ integer division (truncates toward zero); divisors are positive
  // ---------------------------------------------------------------------

  /** C++ `a / b` for a positive divisor. */
  function CDiv(a: int, b: int): (q: int)
    requires b > 0
    ensures a >= 0 ==> q == a / b
    ensures a < 0 ==> q == -((-a) / b)
  {
    if a >= 0 then a / b else -((-a) / b)
  }

  /** C++ `a % b` for a positive divisor; the sign follows `a`. */
  function CMod(a: int, b: int): (m: int)
    requires b > 0
    ensures a >= 0 ==> m == a % b
    ensures -b < m < b
    ensures a == CDiv(a, b) * b + m
  {
    if a >= 0 then a % b else -((-a) % b)
  }

  /** A test `a % b == 0` means the same in C++ and in Dafny, whatever the sign of `a`. */
  lemma CModZeroIff(a: int, b: int)
    requires b > 0
    ensures CMod(a, b) == 0 <==> a % b == 0
  {
    if a < 0 {
      if (-a) % b == 0 {
        var k := (-a) / b;
        assert a == (-k) * b;
        DivisibleByMultiple(-k, b);
      }
      if a % b == 0 {
        var k := a / b;
        assert -a == (-k) * b;
        DivisibleByMultiple(-k, b);
      }
    }
  }

  lemma DivisibleByMultiple(k: int, b: int)
    requires b > 0
    ensures (k * b) % b == 0 && (k * b) / b == k
  {
    UniqueDivMod(k * b, b, k, 0);
  }

  /** Multiplication by a non-negative factor is monotone. */
  lemma MulMono(x: int, y: int, b: int)
    requires x <= y && b >= 0
    ensures x * b <= y * b
  {
    assert y * b - x * b == (y - x) * b;
  }

  /** Euclidean division is determined by any decomposition with an in-range remainder. */
  lemma UniqueDivMod(a: int, b: int, q: int, m: int)
    requires b > 0 && 0 <= m < b && a == q * b + m
    ensures a / b == q && a % b == m
  {
    var q' := a / b;
    assert a == q' * b + a % b;
    if q' > q {
      MulMono(q + 1, q', b);
    } else if q' < q {
      MulMono(q' + 1, q, b);
    }
  }

  /** Adding a multiple of the divisor keeps the remainder and moves the quotient by that multiple. */
  lemma ModAddMultiple(x: int, k: int, b: int)
    requires b > 0
    ensures (x + k * b) % b == x % b
    ensures (x + k * b) / b == x / b + k
  {
    assert x == (x / b) * b + x % b;
    assert x + k * b == (x / b + k) * b + x % b;
    UniqueDivMod(x + k * b, b, x / b + k, x % b);
  }



  // ---------------------------------------------------------------------
  // Shift, Length, MaxLength
  // ---------------------------------------------------------------------

  /**
   * Shift(rank, firstRank, p): the first global index owned by the process of
   * rank `rank` when index 0 lives on `firstRank`.
   */
  function Shift(rank: int, firstRank: int, numProcs: int): (s: int)
    requires numProcs > 0
    ensures 0 <= s < numProcs
  {
    (rank - firstRank) % numProcs
  }

  /** The shift of `rank` is the residue class it owns: firstRank + shift == rank (mod p). */
  lemma ShiftOwnsRank(rank: int, firstRank: int, numProcs: int)
    requires numProcs > 0
    ensures (Shift(rank, firstRank, numProcs) + firstRank) % numProcs == rank % numProcs
  {
    var q := (rank - firstRank) / numProcs;
    assert rank - firstRank == q * numProcs + Shift(rank, firstRank, numProcs);
    ModAddMultiple(Shift(rank, firstRank, numProcs) + firstRank, q, numProcs);
  }

  /** The C++ form `(rank + p - firstRank) % p` used by the code equals Shift for in-range ranks. */
  lemma CShiftForm(rank: int, firstRank: int, numProcs: int)
    requires numProcs > 0
    requires 0 <= rank < numProcs && 0 <= firstRank < numProcs
    ensures CMod(rank + numProcs - firstRank, numProcs) == Shift(rank, firstRank, numProcs)
  {
    ModAddMultiple(rank - firstRank, 1, numProcs);
  }

  /**
   * Length(n, shift, p): how many of the indices 0..n-1 are congruent to
   * `shift` modulo p, that is max(0, ceil((n - shift) / p)).
   */
  function Length(n: int, shift: int, numProcs: int): (len: nat)
    requires shift >= 0 && numProcs > 0
    ensures n <= shift ==> len == 0
  {
    if n > shift then (n - shift - 1) / numProcs + 1 else 0
  }

  /** Four-argument Length: the local length of `rank` when index 0 lives on `firstRank`. */
  function LengthFrom(n: int, rank: int, firstRank: int, numProcs: int): (len: nat)
    requires numProcs > 0
    ensures len == Length(n, Shift(rank, firstRank, numProcs), numProcs)
  {
    Length(n, Shift(rank, firstRank, numProcs), numProcs)
  }

  /** MaxLength(n, p) = ceil(n / p): the largest local length any process gets. */
  function MaxLength(n: int, numProcs: int): (len: nat)
    requires numProcs > 0
    ensures len == Length(n, 0, numProcs)
  {
    if n > 0 then (n - 1) / numProcs + 1 else 0
  }

  /** Local index k exists on a process of shift s exactly when its global index s + k*p is below n. */
  lemma LengthIndex(n: int, shift: int, numProcs: int, k: int)
    requires shift >= 0 && numProcs > 0 && k >= 0
    ensures k < Length(n, shift, numProcs) <==> shift + k * numProcs < n
  {
    if n > shift {
      var d := n - shift - 1;
      var q := d / numProcs;
      assert d == q * numProcs + d % numProcs;
      if k <= q {
        assert k * numProcs <= q * numProcs;
      } else {
        assert k * numProcs >= (q + 1) * numProcs;
      }
    } else {
      assert k * numProcs >= 0;
    }
  }

  /** No process holds more than MaxLength entries of a dimension. */
  lemma LengthAtMostMaxLength(n: int, shift: int, numProcs: int)
    requires shift >= 0 && numProcs > 0
    ensures Length(n, shift, numProcs) <= MaxLength(n, numProcs)
  {
    var len := Length(n, shift, numProcs);
    if len > 0 {
      LengthIndex(n, shift, numProcs, len - 1);
      LengthIndex(n, 0, numProcs, len - 1);
    }
  }

  /** Number of indices in 0..n-1 congruent to `shift` modulo p, counted one index at a time. */
  function CountCongruent(n: int, shift: int, numProcs: int): nat
    requires numProcs > 0
    decreases n
  {
    if n <= 0 then 0
    else CountCongruent(n - 1, shift, numProcs) + (if (n - 1) % numProcs == shift then 1 else 0)
  }

  /** Length counts exactly the global indices below n that a process of shift `shift` owns. */
  lemma {:induction false} LengthCountsOwnedIndices(n: int, shift: int, numProcs: int)
    requires 0 <= shift < numProcs
    ensures Length(n, shift, numProcs) == CountCongruent(n, shift, numProcs)
    decreases n
  {
    if n > 0 {
      LengthCountsOwnedIndices(n - 1, shift, numProcs);
      LengthStep(n - 1, shift, numProcs);
    }
  }

  /** Length is the least local index whose global index reaches n. */
  lemma LengthExact(n: int, shift: int, numProcs: int, k: int)
    requires shift >= 0 && numProcs > 0 && k >= 0
    requires k == 0 || shift + (k - 1) * numProcs < n
    requires shift + k * numProcs >= n
    ensures Length(n, shift, numProcs) == k
  {
    LengthIndex(n, shift, numProcs, k);
    if k > 0 {
      LengthIndex(n, shift, numProcs, k - 1);
    }
  }

  /** Growing a dimension by its index m adds one local entry exactly to the owner of m. */
  lemma LengthStep(m: int, shift: int, numProcs: int)
    requires 0 <= shift < numProcs && m >= 0
    ensures Length(m + 1, shift, numProcs)
         == Length(m, shift, numProcs) + (if m % numProcs == shift then 1 else 0)
  {
    var p := numProcs;
    if m % p == shift {
      var k := m / p;
      assert m == shift + k * p;
      assert (k - 1) * p == k * p - p;
      assert (k + 1) * p == k * p + p;
      LengthExact(m, shift, p, k);
      LengthExact(m + 1, shift, p, k + 1);
    } else {
      var a := Length(m, shift, p);
      LengthIndex(m, shift, p, a);
      if a > 0 {
        LengthIndex(m, shift, p, a - 1);
      }
      if shift + a * p == m {
        UniqueDivMod(shift, p, 0, shift);
        ModAddMultiple(shift, a, p);
      }
      LengthExact(m + 1, shift, p, a);
    }
  }

  lemma LengthMonotone(m: int, n: int, shift: int, numProcs: int)
    requires shift >= 0 && numProcs > 0 && m <= n
    ensures Length(m, shift, numProcs) <= Length(n, shift, numProcs)
  {
    var a := Length(m, shift, numProcs);
    if a > 0 {
      LengthIndex(m, shift, numProcs, a - 1);
      LengthIndex(n, shift, numProcs, a - 1);
    }
  }

  // ---------------------------------------------------------------------
  // Local <-> global maps
  // ---------------------------------------------------------------------

  /** Owner of global index i along a dimension: C++ `(i + align) % stride`. */
  function IndexOwner(i: int, align: int, stride: int): (owner: int)
    requires stride > 0
    ensures i + align >= 0 ==> 0 <= owner < stride
  {
    CMod(i + align, stride)
  }

  /** C++ test `(i - shift) % stride == 0`. */
  predicate IsLocalIndex(i: int, shift: int, stride: int)
    requires stride > 0
  {
    CMod(i - shift, stride) == 0
  }

  /** C++ `(i - shift) / stride`. */
  function LocalIndex(i: int, shift: int, stride: int): int
    requires stride > 0
  {
    CDiv(i - shift, stride)
  }

  /** Global index of local index k on a process of the given shift. */
  function GlobalIndex(k: int, shift: int, stride: int): int
  {
    shift + k * stride
  }

  /**
   * Ownership and locality agree: a process whose shift was computed from its
   * rank and the alignment holds global index i iff i's owner is that rank.
   */
  lemma LocalIffOwner(i: int, rank: int, align: int, stride: int)
    requires stride > 0 && i >= 0 && 0 <= align < stride && 0 <= rank < stride
    ensures IsLocalIndex(i, Shift(rank, align, stride), stride)
        <==> IndexOwner(i, align, stride) == rank
  {
    var s := Shift(rank, align, stride);
    CModZeroIff(i - s, stride);
    var q := (rank - align) / stride;
    assert rank - align == q * stride + s;
    var d := (i - s) / stride;
    var e := (i - s) % stride;
    assert i - s == d * stride + e;
    assert i + align == (e + rank) + (d - q) * stride;
    ModAddMultiple(e + rank, d - q, stride);
    if e + rank < stride {
      UniqueDivMod(e + rank, stride, 0, e + rank);
    } else {
      UniqueDivMod(e + rank, stride, 1, e + rank - stride);
    }
  }

  /** LocalRow(shift + k*stride) == k: local-to-global then back is the identity. */
  lemma LocalOfGlobal(k: int, shift: int, stride: int)
    requires stride > 0 && k >= 0
    ensures IsLocalIndex(GlobalIndex(k, shift, stride), shift, stride)
    ensures LocalIndex(GlobalIndex(k, shift, stride), shift, stride) == k
  {
    DivisibleByMultiple(k, stride);
  }

  /** A local global index is recovered from its local index: global-to-local then back. */
  lemma GlobalOfLocal(i: int, shift: int, stride: int)
    requires stride > 0 && i >= 0 && 0 <= shift < stride
    requires IsLocalIndex(i, shift, stride)
    ensures LocalIndex(i, shift, stride) >= 0
    ensures GlobalIndex(LocalIndex(i, shift, stride), shift, stride) == i
  {
    CModZeroIff(i - shift, stride);
    if i < shift {
      UniqueDivMod(i - shift, stride, -1, i - shift + stride);
    }
  }

  /** Every global index below n is the image of exactly one in-range local index on its owner. */
  lemma GlobalIndexCovered(i: int, n: int, stride: int)
    requires stride > 0 && 0 <= i < n
    ensures var s := i % stride; var k := i / stride;
      0 <= k < Length(n, s, stride) && GlobalIndex(k, s, stride) == i
  {
    LengthIndex(n, i % stride, stride, i / stride);
  }

  /**
   * Sub-view arithmetic: for a parent of shift sA and a view starting at global
   * offset j, the parent's local index Length(j, sA, p) denotes the global index
   * j + (sA - j) mod p, the first index of the view held by this process.
   */
  lemma ViewOffset(j: int, sA: int, numProcs: int)
    requires numProcs > 0 && 0 <= sA < numProcs && j >= 0
    ensures GlobalIndex(Length(j, sA, numProcs), sA, numProcs) == j + (sA - j) % numProcs
  {
    if j > sA {
      var d := j - sA - 1;
      var q := d / numProcs;
      var t := d % numProcs;
      assert d == q * numProcs + t;
      assert sA - j == (-q - 1) * numProcs + (numProcs - t - 1);
      UniqueDivMod(sA - j, numProcs, -q - 1, numProcs - t - 1);
      assert Length(j, sA, numProcs) == q + 1;
      assert (q + 1) * numProcs == q * numProcs + numProcs;
    } else {
      UniqueDivMod(sA - j, numProcs, 0, sA - j);
    }
  }

  /** The shift of a rank under a view's alignment (align + j) % p is the parent's shift moved back by j. */
  lemma ViewShift(rank: int, align: int, j: int, numProcs: int)
    requires numProcs > 0
    ensures Shift(rank, (align + j) % numProcs, numProcs) == (Shift(rank, align, numProcs) - j) % numProcs
  {
    var p := numProcs;
    assert align + j == ((align + j) / p) * p + (align + j) % p;
    assert rank - (align + j) % p == (rank - align - j) + ((align + j) / p) * p;
    ModAddMultiple(rank - align - j, (align + j) / p, p);
    assert rank - align == ((rank - align) / p) * p + (rank - align) % p;
    assert (rank - align) % p - j == (rank - align - j) + (-((rank - align) / p)) * p;
    ModAddMultiple(rank - align - j, -((rank - align) / p), p);
  }
  /**
   * A view of h indices starting at global index i0 splits the parent's local
   * indices: the first Length(i0, s, p) lie before the view, the next
   * Length(h, (s - i0) % p, p) are the view's own local indices, offset by
   * i0, and together they are the parent's local indices below i0 + h.
   */
  lemma ViewSplit(i0: int, h: int, s: int, numProcs: int)
    requires numProcs > 0 && 0 <= s < numProcs && i0 >= 0 && h >= 0
    ensures Length(i0, s, numProcs) + Length(h, (s - i0) % numProcs, numProcs) == Length(i0 + h, s, numProcs)
  {
    var p := numProcs;
    var off, s2 := Length(i0, s, p), (s - i0) % p;
    var len := Length(h, s2, p);
    ViewIndex(i0, s, p, len);
    LengthIndex(h, s2, p, len);
    assert GlobalIndex(off + len, s, p) >= i0 + h;
    if len > 0 {
      LengthIndex(h, s2, p, len - 1);
      ViewIndex(i0, s, p, len - 1);
    } else if off > 0 {
      LengthIndex(i0, s, p, off - 1);
      assert GlobalIndex(off - 1, s, p) < i0;
    }
    LengthExact(i0 + h, s, p, off + len);
  }

  /** The view's local index k is the parent's local index Length(i0, s, p) + k, both denoting i0 + its view index. */
  lemma ViewIndex(i0: int, s: int, numProcs: int, k: int)
    requires numProcs > 0 && 0 <= s < numProcs && i0 >= 0
    ensures GlobalIndex(Length(i0, s, numProcs) + k, s, numProcs) == i0 + GlobalIndex(k, (s - i0) % numProcs, numProcs)
  {
    var p, off := numProcs, Length(i0, s, numProcs);
    ViewOffset(i0, s, p);
    assert (off + k) * p == off * p + k * p;
  }
}
