/**
 * Operations of a distributed matrix that work on each process's local
 * column-major buffer: SumOver (pack, AllReduce, unpack) and the diagonal
 * transforms MakeDiagonalReal / ConjugateDiagonal.
 */
module DistLocalOps {
  import opened Indexing
  import opened Grids
  import opened Locals
  import opened DistEntries
  import opened DistSubmatrices

  // ---------------------------------------------------------------------
  // SumOver
  // ---------------------------------------------------------------------

  lemma DivBound(k: int, h: nat, w: nat)
    requires 0 <= k < h * w
    ensures h > 0 && 0 <= k % h < h && 0 <= k / h < w
  {
    if h == 0 {
      MulMono(h, 0, w);
      assert false;
    }
    if k / h >= w {
      MulMono(w, k / h, h);
      assert false;
    }
  }

  /** The AllReduce of a packed h x w buffer with the other members' local matrices: entry-wise sums. */
  function Reduced(packed: seq<int>, others: seq<seq<seq<int>>>, h: nat, w: nat): (r: seq<int>)
    requires |packed| == h * w && Uniform(others, h, w)
    ensures |r| == h * w
  {
    seq(h * w, k requires 0 <= k < h * w =>
      DivBound(k, h, w);
      packed[k] + SumAt(others, h, w, k % h, k / h, |others|))
  }

  function MatrixAdd(X: seq<seq<int>>, Y: seq<seq<int>>, h: nat, w: nat): (Z: seq<seq<int>>)
    requires IsMatrix(X, h, w) && IsMatrix(Y, h, w)
    ensures IsMatrix(Z, h, w)
  {
    seq(h, i requires 0 <= i < h => seq(w, j requires 0 <= j < w => X[i][j] + Y[i][j]))
  }

  lemma ReducedMatrix(packed: seq<int>, others: seq<seq<seq<int>>>, h: nat, w: nat)
    requires |packed| == h * w && Uniform(others, h, w)
    ensures BufferMatrix(Reduced(packed, others, h, w), h, w, h)
         == MatrixAdd(BufferMatrix(packed, h, w, h), AllReduceSum(others, h, w), h, w)
  {
    var X := BufferMatrix(Reduced(packed, others, h, w), h, w, h);
    var Y := MatrixAdd(BufferMatrix(packed, h, w, h), AllReduceSum(others, h, w), h, w);
    forall i, j | 0 <= i < h && 0 <= j < w
      ensures X[i][j] == Y[i][j]
    {
      VCInRange(i, j, h, w);
      SplitRank(i, j, h);
    }
    MatrixExt(X, Y, h, w);
  }

  /**
   * SumOver on one member of the communicator: a participating process
   * packs its local matrix, sums it with those of the other members
   * (which must have the same local shape) and unpacks the sum; a
   * non-participating process does nothing.
   */
  method SumOver(participating: bool, buf: array<int>, h: nat, w: nat, ldim: nat, others: seq<seq<seq<int>>>)
    requires HoldsBlock(buf[..], h, w, ldim) && Uniform(others, h, w)
    modifies buf
    ensures !participating ==> buf[..] == old(buf[..])
    ensures participating ==>
      BufferMatrix(buf[..], h, w, ldim) == MatrixAdd(old(BufferMatrix(buf[..], h, w, ldim)), AllReduceSum(others, h, w), h, w)
    ensures forall k :: 0 <= k < buf.Length && !InBlock(k, h, w, ldim) ==> buf[k] == old(buf[k])
  {
    if !participating {
      return;
    }
    var sumBuf := new int[h * w];
    assert HoldsBlock(sumBuf[..], h, w, h);
    CopyColumns(buf, ldim, sumBuf, h, h, w);
    var reduced := Reduced(sumBuf[..], others, h, w);
    ReducedMatrix(sumBuf[..], others, h, w);
    var sumBuf2 := new int[h * w](k requires 0 <= k < h * w => reduced[k]);
    assert sumBuf2[..] == reduced;
    CopyColumns(sumBuf2, h, buf, ldim, h, w);
  }

  /** The sum over the first |s| + |t| contributions of s + t splits into the two sums. */
  lemma {:induction false} SumAppend(s: seq<seq<seq<int>>>, t: seq<seq<seq<int>>>, h: nat, w: nat, i: int, j: int, k: nat)
    requires Uniform(s, h, w) && Uniform(t, h, w) && 0 <= i < h && 0 <= j < w && k <= |t|
    ensures Uniform(s + t, h, w)
    ensures SumAt(s + t, h, w, i, j, |s| + k) == SumAt(s, h, w, i, j, |s|) + SumAt(t, h, w, i, j, k)
  {
    assert forall q :: 0 <= q < |s + t| ==> (s + t)[q] == (if q < |s| then s[q] else t[q - |s|]);
    if k == 0 {
      SumPrefix(s + t, s, h, w, i, j, |s|);
    } else {
      SumAppend(s, t, h, w, i, j, k - 1);
    }
  }

  /** A sum over the first k contributions only depends on those k. */
  lemma {:induction false} SumPrefix(s: seq<seq<seq<int>>>, t: seq<seq<seq<int>>>, h: nat, w: nat, i: int, j: int, k: nat)
    requires Uniform(s, h, w) && Uniform(t, h, w) && 0 <= i < h && 0 <= j < w && k <= |s| && k <= |t|
    requires s[..k] == t[..k]
    ensures SumAt(s, h, w, i, j, k) == SumAt(t, h, w, i, j, k)
  {
    if k > 0 {
      assert s[k - 1] == s[..k][k - 1];
      assert s[..k - 1] == s[..k][..k - 1];
      assert t[..k - 1] == t[..k][..k - 1];
      SumPrefix(s, t, h, w, i, j, k - 1);
    }
  }

  /** After SumOver every member holds the same matrix: the sum over the whole communicator. */
  lemma SumOverAgrees(group: seq<seq<seq<int>>>, h: nat, w: nat, me: int)
    requires Uniform(group, h, w) && 0 <= me < |group|
    ensures Uniform(group[..me] + group[me + 1..], h, w)
    ensures MatrixAdd(group[me], AllReduceSum(group[..me] + group[me + 1..], h, w), h, w) == AllReduceSum(group, h, w)
  {
    var s, t := group[..me], group[me + 1..];
    assert group == s + [group[me]] + t;
    var X := MatrixAdd(group[me], AllReduceSum(s + t, h, w), h, w);
    var Y := AllReduceSum(group, h, w);
    forall i, j | 0 <= i < h && 0 <= j < w
      ensures X[i][j] == Y[i][j]
    {
      SumAppend(s, t, h, w, i, j, |t|);
      SumAppend(s + [group[me]], t, h, w, i, j, |t|);
      SumAppend(s, [group[me]], h, w, i, j, 1);
    }
    MatrixExt(X, Y, h, w);
  }

  // ---------------------------------------------------------------------
  // MakeDiagonalReal / ConjugateDiagonal
  // ---------------------------------------------------------------------

  /** The global matrix with f applied to every diagonal entry. */
  function MapDiagonal(A: seq<seq<int>>, m: nat, n: nat, f: int -> int): (B: seq<seq<int>>)
    requires IsMatrix(A, m, n)
    ensures IsMatrix(B, m, n)
  {
    seq(m, i requires 0 <= i < m => seq(n, j requires 0 <= j < n => if i == j then f(A[i][j]) else A[i][j]))
  }

  /** Process q's local matrix with f applied to every local entry that lies on the global diagonal. */
  function MapLocalDiagonal(L: Layout, q: int, local: seq<seq<int>>, f: int -> int): (r: seq<seq<int>>)
    requires L.Valid() && IsMatrix(local, L.LocalHeight(q), L.LocalWidth(q))
    ensures IsMatrix(r, L.LocalHeight(q), L.LocalWidth(q))
  {
    seq(L.LocalHeight(q), iLoc requires 0 <= iLoc < L.LocalHeight(q) =>
      seq(L.LocalWidth(q), jLoc requires 0 <= jLoc < L.LocalWidth(q) =>
        if L.GlobalRow(q, iLoc) == L.GlobalCol(q, jLoc) then f(local[iLoc][jLoc]) else local[iLoc][jLoc]))
  }

  /**
   * Local column jLoc of q meets the global diagonal in local row iLoc
   * exactly when its global index j is below min(height, width), row j is
   * local to q and iLoc is j's local row: the test the source performs.
   */
  lemma DiagonalOfColumn(L: Layout, q: int, jLoc: int)
    requires L.Valid() && 0 <= jLoc < L.LocalWidth(q)
    ensures var j := L.GlobalCol(q, jLoc);
      var minDim := if L.height < L.width then L.height else L.width;
      forall iLoc :: 0 <= iLoc < L.LocalHeight(q) ==>
        ((L.GlobalRow(q, iLoc) == j) <==> (j < minDim && L.IsLocalRow(q, j) && L.IsLocalCol(q, j) && L.LocalRow(q, j) == iLoc))
  {
    var j := L.GlobalCol(q, jLoc);
    forall iLoc | 0 <= iLoc < L.LocalHeight(q)
      ensures L.GlobalRow(q, iLoc) == j ==> L.IsLocalCol(q, j) && j < L.height && j < L.width
    {
      GlobalInRange(L, q, iLoc, jLoc);
    }
    if 0 <= j < L.height {
      forall iLoc | 0 <= iLoc < L.LocalHeight(q)
        ensures (L.GlobalRow(q, iLoc) == j) <==> (L.IsLocalRow(q, j) && L.LocalRow(q, j) == iLoc)
      {
        RowMatch(L, q, iLoc, j);
      }
    }
  }

  /**
   * The loop of MakeDiagonalReal and ConjugateDiagonal on process q: for
   * each local column whose global index j is below min(height, width)
   * and whose diagonal entry (j, j) is local, that entry is transformed by
   * f (making it real, or conjugating it).
   */
  method TransformDiagonal(L: Layout, q: int, local: array2<int>, f: int -> int)
    requires L.Valid() && local.Length0 == L.LocalHeight(q) && local.Length1 == L.LocalWidth(q)
    modifies local
    ensures Contents(local) == MapLocalDiagonal(L, q, old(Contents(local)), f)
  {
    ghost var L0 := Contents(local);
    var h, w := local.Length0, local.Length1;
    var minDim := if L.height < L.width then L.height else L.width;
    var rowShift := L.RowShift(q);
    var jLoc := 0;
    while jLoc < w
      invariant 0 <= jLoc <= w
      invariant forall iLoc, jl :: 0 <= iLoc < h && 0 <= jl < w ==>
        local[iLoc, jl] == (if jl < jLoc && L.GlobalRow(q, iLoc) == L.GlobalCol(q, jl) then f(L0[iLoc][jl]) else L0[iLoc][jl])
    {
      var j := rowShift + jLoc * L.rowStride;
      assert j == L.GlobalCol(q, jLoc);
      DiagonalOfColumn(L, q, jLoc);
      if j < minDim && L.IsLocalRow(q, j) && L.IsLocalCol(q, j) {
        LocalRowInRange(L, q, j);
        var iLoc := L.LocalRow(q, j);
        local[iLoc, jLoc] := f(local[iLoc, jLoc]);
      }
      jLoc := jLoc + 1;
    }
    MatrixExt(Contents(local), MapLocalDiagonal(L, q, L0, f), h, w);
  }

  /** Transforming every process's local diagonal entries transforms the global diagonal. */
  lemma MapDiagonalDistributed(L: Layout, A: seq<seq<int>>, f: int -> int, q: int)
    requires L.Valid() && IsMatrix(A, L.height, L.width) && 0 <= q < L.Procs()
    ensures MapLocalDiagonal(L, q, Distribute(L, A)[q], f) == Distribute(L, MapDiagonal(A, L.height, L.width, f))[q]
  {
    var X := MapLocalDiagonal(L, q, Distribute(L, A)[q], f);
    var Y := Distribute(L, MapDiagonal(A, L.height, L.width, f))[q];
    forall iLoc, jLoc | 0 <= iLoc < L.LocalHeight(q) && 0 <= jLoc < L.LocalWidth(q)
      ensures X[iLoc][jLoc] == Y[iLoc][jLoc]
    {
      GlobalInRange(L, q, iLoc, jLoc);
    }
    MatrixExt(X, Y, L.LocalHeight(q), L.LocalWidth(q));
  }

  /** Two diagonal transforms in a row are one transform by their composition (so conjugating twice is the identity). */
  lemma MapDiagonalCompose(A: seq<seq<int>>, m: nat, n: nat, f: int -> int, g: int -> int)
    requires IsMatrix(A, m, n)
    ensures MapDiagonal(MapDiagonal(A, m, n, f), m, n, g) == MapDiagonal(A, m, n, x => g(f(x)))
  {
    var X := MapDiagonal(MapDiagonal(A, m, n, f), m, n, g);
    var Y := MapDiagonal(A, m, n, x => g(f(x)));
    forall i, j | 0 <= i < m && 0 <= j < n
      ensures X[i][j] == Y[i][j]
    {
    }
    MatrixExt(X, Y, m, n);
  }
}
