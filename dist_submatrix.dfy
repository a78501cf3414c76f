/**
 * Arbitrary-submatrix access on a distributed matrix (GetSubmatrix,
 * SetSubmatrix, UpdateSubmatrix).  Each process runs the nested loops over
 * the requested row and column indices on its own local matrix; a gather
 * then sums the per-process contributions.  Every operation is tied to its
 * effect on the global matrix of `Distribute`.
 */
module DistSubmatrices {
  import opened Indexing
  import opened Locals
  import opened DistEntries

  /** The requested rows lie in [0, height) and the requested columns in [0, width). */
  predicate IndicesInRange(L: Layout, rowInd: seq<int>, colInd: seq<int>)
  {
    (forall a :: 0 <= a < |rowInd| ==> 0 <= rowInd[a] < L.height)
    && (forall b :: 0 <= b < |colInd| ==> 0 <= colInd[b] < L.width)
  }

  // ---------------------------------------------------------------------
  // GetSubmatrix
  // ---------------------------------------------------------------------

  /** What process q puts at a slot for entry (i, j): its local copy if it holds one, else 0. */
  function ContributionEntry(L: Layout, q: int, local: seq<seq<int>>, i: int, j: int): int
    requires L.Valid() && IsMatrix(local, L.LocalHeight(q), L.LocalWidth(q))
    requires 0 <= i < L.height && 0 <= j < L.width
  {
    if L.IsLocalRow(q, i) && L.IsLocalCol(q, j) then
      LocalRowInRange(L, q, i);
      LocalColInRange(L, q, j);
      local[L.LocalRow(q, i)][L.LocalCol(q, j)]
    else 0
  }

  function Contribution(L: Layout, q: int, local: seq<seq<int>>, rowInd: seq<int>, colInd: seq<int>): (C: seq<seq<int>>)
    requires L.Valid() && IsMatrix(local, L.LocalHeight(q), L.LocalWidth(q)) && IndicesInRange(L, rowInd, colInd)
    ensures IsMatrix(C, |rowInd|, |colInd|)
  {
    seq(|rowInd|, a requires 0 <= a < |rowInd| =>
      seq(|colInd|, b requires 0 <= b < |colInd| => ContributionEntry(L, q, local, rowInd[a], colInd[b])))
  }

  /**
   * The local half of GetSubmatrix on process q: a zeroed m x n buffer in
   * which every requested entry that q holds is filled from its local matrix.
   */
  method FillOwnedEntries(L: Layout, q: int, local: array2<int>, rowInd: seq<int>, colInd: seq<int>)
    returns (ASub: array2<int>)
    requires L.Valid() && local.Length0 == L.LocalHeight(q) && local.Length1 == L.LocalWidth(q)
    requires IndicesInRange(L, rowInd, colInd)
    ensures fresh(ASub) && ASub.Length0 == |rowInd| && ASub.Length1 == |colInd|
    ensures Contents(ASub) == Contribution(L, q, Contents(local), rowInd, colInd)
  {
    var m, n := |rowInd|, |colInd|;
    ghost var C := Contribution(L, q, Contents(local), rowInd, colInd);
    ASub := new int[m, n]((_, _) => 0);
    var jSub := 0;
    while jSub < n
      invariant 0 <= jSub <= n
      invariant forall a, b :: 0 <= a < m && 0 <= b < n ==> ASub[a, b] == (if b < jSub then C[a][b] else 0)
    {
      var j := colInd[jSub];
      if L.IsLocalCol(q, j) {
        LocalColInRange(L, q, j);
        var jLoc := L.LocalCol(q, j);
        var iSub := 0;
        while iSub < m
          invariant 0 <= iSub <= m
          invariant forall a, b :: 0 <= a < m && 0 <= b < n ==>
            ASub[a, b] == (if b < jSub || (b == jSub && a < iSub) then C[a][b] else 0)
        {
          var i := rowInd[iSub];
          if L.IsLocalRow(q, i) {
            LocalRowInRange(L, q, i);
            ASub[iSub, jSub] := local[L.LocalRow(q, i), jLoc];
          }
          iSub := iSub + 1;
        }
      }
      jSub := jSub + 1;
    }
    MatrixExt(Contents(ASub), C, m, n);
  }

  /** Every contribution is an m x n matrix. */
  predicate Uniform(cs: seq<seq<seq<int>>>, m: nat, n: nat)
  {
    forall q :: 0 <= q < |cs| ==> IsMatrix(cs[q], m, n)
  }

  /** The entry (a, b) summed over the first k contributions. */
  function SumAt(cs: seq<seq<seq<int>>>, m: nat, n: nat, a: int, b: int, k: nat): int
    requires Uniform(cs, m, n) && k <= |cs| && 0 <= a < m && 0 <= b < n
  {
    if k == 0 then 0
    else
      assert IsMatrix(cs[k - 1], m, n);
      SumAt(cs, m, n, a, b, k - 1) + cs[k - 1][a][b]
  }

  /** A sum all of whose terms but the owner's are 0 is the owner's term. */
  lemma {:induction false} SumOneHot(cs: seq<seq<seq<int>>>, m: nat, n: nat, a: int, b: int, k: nat, owner: int, v: int)
    requires Uniform(cs, m, n) && k <= |cs| && 0 <= a < m && 0 <= b < n
    requires forall q :: 0 <= q < k ==> cs[q][a][b] == (if q == owner then v else 0)
    ensures SumAt(cs, m, n, a, b, k) == (if 0 <= owner < k then v else 0)
  {
    if k > 0 {
      SumOneHot(cs, m, n, a, b, k - 1, owner, v);
    }
  }

  /** The element-wise sum of the m x n contributions of all processes (the AllReduce). */
  function AllReduceSum(cs: seq<seq<seq<int>>>, m: nat, n: nat): (S: seq<seq<int>>)
    requires Uniform(cs, m, n)
    ensures IsMatrix(S, m, n)
  {
    seq(m, a requires 0 <= a < m => seq(n, b requires 0 <= b < n => SumAt(cs, m, n, a, b, |cs|)))
  }

  /** GetSubmatrix over the whole grid: the sum of every process's filled buffer. */
  function GetSubmatrix(L: Layout, locals: seq<seq<seq<int>>>, rowInd: seq<int>, colInd: seq<int>): (ASub: seq<seq<int>>)
    requires L.Valid() && Shaped(L, locals) && IndicesInRange(L, rowInd, colInd)
    ensures IsMatrix(ASub, |rowInd|, |colInd|)
  {
    var cs := seq(L.Procs(), q requires 0 <= q < L.Procs() => Contribution(L, q, locals[q], rowInd, colInd));
    AllReduceSum(cs, |rowInd|, |colInd|)
  }

  /**
   * The closing Broadcast(ASub, Root(), CrossComm()): the processes of the
   * root's cross group hold the summed buffer, the others their zeroed one,
   * and afterwards every process of the viewing grid holds A's submatrix.
   */
  lemma GetSubmatrixEveryProcess(L: Layout, A: seq<seq<int>>, rowInd: seq<int>, colInd: seq<int>, crossSize: nat, root: int)
    requires L.Valid() && IsMatrix(A, L.height, L.width) && IndicesInRange(L, rowInd, colInd)
    requires 0 <= root < crossSize
    ensures var before := seq(crossSize, x => seq(L.Procs(), d =>
        if x == root then GetSubmatrix(L, Distribute(L, A), rowInd, colInd) else Zeros(|rowInd|, |colInd|)));
      forall x, d :: 0 <= x < crossSize && 0 <= d < L.Procs() ==>
        CrossBroadcast(before, root)[x][d] == SubmatrixOf(A, L.height, L.width, rowInd, colInd)
  {
    GetSubmatrixDistributed(L, A, rowInd, colInd);
  }

  /** The submatrix of A picked by the index lists. */
  function SubmatrixOf(A: seq<seq<int>>, m: nat, n: nat, rowInd: seq<int>, colInd: seq<int>): (S: seq<seq<int>>)
    requires IsMatrix(A, m, n)
    requires forall a :: 0 <= a < |rowInd| ==> 0 <= rowInd[a] < m
    requires forall b :: 0 <= b < |colInd| ==> 0 <= colInd[b] < n
    ensures IsMatrix(S, |rowInd|, |colInd|)
  {
    seq(|rowInd|, a requires 0 <= a < |rowInd| =>
      seq(|colInd|, b requires 0 <= b < |colInd| => A[rowInd[a]][colInd[b]]))
  }

  /** On a distributed A, exactly the owner contributes each requested entry. */
  lemma ContributionDistributed(L: Layout, A: seq<seq<int>>, q: int, i: int, j: int)
    requires L.Valid() && IsMatrix(A, L.height, L.width) && 0 <= q < L.Procs()
    requires 0 <= i < L.height && 0 <= j < L.width
    ensures ContributionEntry(L, q, Distribute(L, A)[q], i, j) == (if q == L.Owner(i, j) then A[i][j] else 0)
  {
    HoldsIffOwner(L, q, i, j);
    if L.Owner(i, j) == q {
      LocalRowInRange(L, q, i);
      LocalColInRange(L, q, j);
      GlobalInRange(L, q, L.LocalRow(q, i), L.LocalCol(q, j));
    }
  }

  /** Because each entry has exactly one owner, GetSubmatrix of the distributed A is A's submatrix. */
  lemma GetSubmatrixDistributed(L: Layout, A: seq<seq<int>>, rowInd: seq<int>, colInd: seq<int>)
    requires L.Valid() && IsMatrix(A, L.height, L.width) && IndicesInRange(L, rowInd, colInd)
    ensures GetSubmatrix(L, Distribute(L, A), rowInd, colInd) == SubmatrixOf(A, L.height, L.width, rowInd, colInd)
  {
    var locals := Distribute(L, A);
    var m, n := |rowInd|, |colInd|;
    var cs := seq(L.Procs(), q requires 0 <= q < L.Procs() => Contribution(L, q, locals[q], rowInd, colInd));
    var lhs, rhs := GetSubmatrix(L, locals, rowInd, colInd), SubmatrixOf(A, L.height, L.width, rowInd, colInd);
    forall a, b | 0 <= a < m && 0 <= b < n
      ensures lhs[a][b] == rhs[a][b]
    {
      var i, j := rowInd[a], colInd[b];
      forall q | 0 <= q < L.Procs()
        ensures cs[q][a][b] == (if q == L.Owner(i, j) then A[i][j] else 0)
      {
        ContributionDistributed(L, A, q, i, j);
      }
      OwnerIsProcess(L, i, j);
      SumOneHot(cs, m, n, a, b, L.Procs(), L.Owner(i, j), A[i][j]);
    }
    MatrixExt(lhs, rhs, m, n);
  }

  // ---------------------------------------------------------------------
  // SetSubmatrix
  // ---------------------------------------------------------------------

  /** The last position before k at which s holds x, or -1. */
  function LastIndex(s: seq<int>, x: int, k: nat): (r: int)
    requires k <= |s|
    ensures -1 <= r < k
    ensures r >= 0 ==> s[r] == x
    ensures forall a :: r < a < k ==> s[a] != x
  {
    if k == 0 then -1 else if s[k - 1] == x then k - 1 else LastIndex(s, x, k - 1)
  }

  /**
   * A local entry after SetSubmatrix has handled the columns before kc: the
   * value of the last (row, column) pair that names its global indices, if any.
   */
  function SetEntryAt(L: Layout, q: int, local: seq<seq<int>>, rowInd: seq<int>, colInd: seq<int>, ASub: seq<seq<int>>,
                      kc: nat, iLoc: int, jLoc: int): int
    requires L.Valid() && IsMatrix(local, L.LocalHeight(q), L.LocalWidth(q))
    requires IsMatrix(ASub, |rowInd|, |colInd|) && kc <= |colInd|
    requires 0 <= iLoc < L.LocalHeight(q) && 0 <= jLoc < L.LocalWidth(q)
  {
    var a := LastIndex(rowInd, L.GlobalRow(q, iLoc), |rowInd|);
    var b := LastIndex(colInd, L.GlobalCol(q, jLoc), kc);
    if a >= 0 && b >= 0 then ASub[a][b] else local[iLoc][jLoc]
  }

  function SetStage(L: Layout, q: int, local: seq<seq<int>>, rowInd: seq<int>, colInd: seq<int>, ASub: seq<seq<int>>, kc: nat)
    : (r: seq<seq<int>>)
    requires L.Valid() && IsMatrix(local, L.LocalHeight(q), L.LocalWidth(q))
    requires IsMatrix(ASub, |rowInd|, |colInd|) && kc <= |colInd|
    ensures IsMatrix(r, L.LocalHeight(q), L.LocalWidth(q))
  {
    seq(L.LocalHeight(q), iLoc requires 0 <= iLoc < L.LocalHeight(q) =>
      seq(L.LocalWidth(q), jLoc requires 0 <= jLoc < L.LocalWidth(q) =>
        SetEntryAt(L, q, local, rowInd, colInd, ASub, kc, iLoc, jLoc)))
  }

  /** SetSubmatrix on process q: every requested entry it holds is overwritten from ASub. */
  method SetSubmatrixOnProcess(L: Layout, q: int, local: array2<int>, rowInd: seq<int>, colInd: seq<int>, ASub: seq<seq<int>>)
    requires L.Valid() && local.Length0 == L.LocalHeight(q) && local.Length1 == L.LocalWidth(q)
    requires IndicesInRange(L, rowInd, colInd) && IsMatrix(ASub, |rowInd|, |colInd|)
    modifies local
    ensures Contents(local) == SetStage(L, q, old(Contents(local)), rowInd, colInd, ASub, |colInd|)
  {
    var n := |colInd|;
    var h, w := local.Length0, local.Length1;
    ghost var L0 := Contents(local);
    var jSub := 0;
    while jSub < n
      invariant 0 <= jSub <= n
      invariant forall iLoc, jLoc :: 0 <= iLoc < h && 0 <= jLoc < w ==>
        local[iLoc, jLoc] == SetEntryAt(L, q, L0, rowInd, colInd, ASub, jSub, iLoc, jLoc)
    {
      SetColumnOnProcess(L, q, local, rowInd, colInd, ASub, jSub, L0);
      jSub := jSub + 1;
    }
    MatrixExt(Contents(local), SetStage(L, q, L0, rowInd, colInd, ASub, n), h, w);
  }

  /** Column jSub of ASub on process q: the stage moves from jSub to jSub + 1. */
  method SetColumnOnProcess(L: Layout, q: int, local: array2<int>, rowInd: seq<int>, colInd: seq<int>, ASub: seq<seq<int>>,
                            jSub: int, ghost L0: seq<seq<int>>)
    requires L.Valid() && local.Length0 == L.LocalHeight(q) && local.Length1 == L.LocalWidth(q)
    requires IndicesInRange(L, rowInd, colInd) && IsMatrix(ASub, |rowInd|, |colInd|) && 0 <= jSub < |colInd|
    requires IsMatrix(L0, local.Length0, local.Length1)
    requires forall iLoc, jLoc :: 0 <= iLoc < local.Length0 && 0 <= jLoc < local.Length1 ==>
      local[iLoc, jLoc] == SetEntryAt(L, q, L0, rowInd, colInd, ASub, jSub, iLoc, jLoc)
    modifies local
    ensures forall iLoc, jLoc :: 0 <= iLoc < local.Length0 && 0 <= jLoc < local.Length1 ==>
      local[iLoc, jLoc] == SetEntryAt(L, q, L0, rowInd, colInd, ASub, jSub + 1, iLoc, jLoc)
  {
    var w := local.Length1;
    var j := colInd[jSub];
    forall jLoc | 0 <= jLoc < w
      ensures (L.GlobalCol(q, jLoc) == j) <==> (L.IsLocalCol(q, j) && L.LocalCol(q, j) == jLoc)
    {
      ColMatch(L, q, jLoc, j);
    }
    if L.IsLocalCol(q, j) {
      LocalColInRange(L, q, j);
      var jLoc0 := L.LocalCol(q, j);
      SetColumnEntries(L, q, local, rowInd, colInd, ASub, jSub, jLoc0, L0);
    }
  }

  /** The rows of column jSub of ASub written into local column jLoc0, the one holding that global column. */
  method SetColumnEntries(L: Layout, q: int, local: array2<int>, rowInd: seq<int>, colInd: seq<int>, ASub: seq<seq<int>>,
                          jSub: int, jLoc0: int, ghost L0: seq<seq<int>>)
    requires L.Valid() && local.Length0 == L.LocalHeight(q) && local.Length1 == L.LocalWidth(q)
    requires IndicesInRange(L, rowInd, colInd) && IsMatrix(ASub, |rowInd|, |colInd|) && 0 <= jSub < |colInd|
    requires IsMatrix(L0, local.Length0, local.Length1) && 0 <= jLoc0 < local.Length1
    requires forall iLoc, jLoc :: 0 <= iLoc < local.Length0 && 0 <= jLoc < local.Length1 ==>
      local[iLoc, jLoc] == SetEntryAt(L, q, L0, rowInd, colInd, ASub, jSub, iLoc, jLoc)
    modifies local
    ensures forall iLoc, jLoc :: 0 <= iLoc < local.Length0 && 0 <= jLoc < local.Length1 ==>
      local[iLoc, jLoc] == (if jLoc == jLoc0 && LastIndex(rowInd, L.GlobalRow(q, iLoc), |rowInd|) >= 0
                            then ASub[LastIndex(rowInd, L.GlobalRow(q, iLoc), |rowInd|)][jSub]
                            else SetEntryAt(L, q, L0, rowInd, colInd, ASub, jSub, iLoc, jLoc))
  {
    var m := |rowInd|;
    var h, w := local.Length0, local.Length1;
    var iSub := 0;
    while iSub < m
      invariant 0 <= iSub <= m
      invariant forall iLoc, jLoc :: 0 <= iLoc < h && 0 <= jLoc < w ==>
        local[iLoc, jLoc] == (if jLoc == jLoc0 && LastIndex(rowInd, L.GlobalRow(q, iLoc), iSub) >= 0
                              then ASub[LastIndex(rowInd, L.GlobalRow(q, iLoc), iSub)][jSub]
                              else SetEntryAt(L, q, L0, rowInd, colInd, ASub, jSub, iLoc, jLoc))
    {
      var i := rowInd[iSub];
      forall iLoc | 0 <= iLoc < h
        ensures (L.GlobalRow(q, iLoc) == i) <==> (L.IsLocalRow(q, i) && L.LocalRow(q, i) == iLoc)
      {
        RowMatch(L, q, iLoc, i);
      }
      if L.IsLocalRow(q, i) {
        LocalRowInRange(L, q, i);
        local[L.LocalRow(q, i), jLoc0] := ASub[iSub][jSub];
      }
      iSub := iSub + 1;
    }
  }

  /** SetSubmatrix on the global matrix: each named entry takes the value of the last pair naming it. */
  function SetSubmatrixGlobal(A: seq<seq<int>>, m: nat, n: nat, rowInd: seq<int>, colInd: seq<int>, ASub: seq<seq<int>>)
    : (B: seq<seq<int>>)
    requires IsMatrix(A, m, n) && IsMatrix(ASub, |rowInd|, |colInd|)
    ensures IsMatrix(B, m, n)
  {
    seq(m, i requires 0 <= i < m => seq(n, j requires 0 <= j < n =>
      var a, b := LastIndex(rowInd, i, |rowInd|), LastIndex(colInd, j, |colInd|);
      if a >= 0 && b >= 0 then ASub[a][b] else A[i][j]))
  }

  /** Running SetSubmatrix on every process of the distributed A distributes the updated global matrix. */
  lemma SetSubmatrixDistributed(L: Layout, A: seq<seq<int>>, rowInd: seq<int>, colInd: seq<int>, ASub: seq<seq<int>>)
    requires L.Valid() && IsMatrix(A, L.height, L.width) && IndicesInRange(L, rowInd, colInd)
    requires IsMatrix(ASub, |rowInd|, |colInd|)
    ensures forall q :: 0 <= q < L.Procs() ==>
      SetStage(L, q, Distribute(L, A)[q], rowInd, colInd, ASub, |colInd|)
      == Distribute(L, SetSubmatrixGlobal(A, L.height, L.width, rowInd, colInd, ASub))[q]
  {
    var B := SetSubmatrixGlobal(A, L.height, L.width, rowInd, colInd, ASub);
    forall q | 0 <= q < L.Procs()
      ensures SetStage(L, q, Distribute(L, A)[q], rowInd, colInd, ASub, |colInd|) == Distribute(L, B)[q]
    {
      forall iLoc, jLoc | 0 <= iLoc < L.LocalHeight(q) && 0 <= jLoc < L.LocalWidth(q)
        ensures SetStage(L, q, Distribute(L, A)[q], rowInd, colInd, ASub, |colInd|)[iLoc][jLoc] == Distribute(L, B)[q][iLoc][jLoc]
      {
        GlobalInRange(L, q, iLoc, jLoc);
      }
      MatrixExt(SetStage(L, q, Distribute(L, A)[q], rowInd, colInd, ASub, |colInd|), Distribute(L, B)[q],
                L.LocalHeight(q), L.LocalWidth(q));
    }
  }

  /** With no repeated indices, a pair's last occurrence is the pair itself. */
  lemma LastIndexOfDistinct(s: seq<int>, a: int)
    requires forall x, y :: 0 <= x < y < |s| ==> s[x] != s[y]
    requires 0 <= a < |s|
    ensures LastIndex(s, s[a], |s|) == a
  {
  }

  /** Reading back what SetSubmatrix wrote, with no repeated indices, returns ASub. */
  lemma SetThenGetSubmatrix(A: seq<seq<int>>, m: nat, n: nat, rowInd: seq<int>, colInd: seq<int>, ASub: seq<seq<int>>)
    requires IsMatrix(A, m, n) && IsMatrix(ASub, |rowInd|, |colInd|)
    requires forall a :: 0 <= a < |rowInd| ==> 0 <= rowInd[a] < m
    requires forall b :: 0 <= b < |colInd| ==> 0 <= colInd[b] < n
    requires forall x, y :: 0 <= x < y < |rowInd| ==> rowInd[x] != rowInd[y]
    requires forall x, y :: 0 <= x < y < |colInd| ==> colInd[x] != colInd[y]
    ensures SubmatrixOf(SetSubmatrixGlobal(A, m, n, rowInd, colInd, ASub), m, n, rowInd, colInd) == ASub
  {
    var S := SubmatrixOf(SetSubmatrixGlobal(A, m, n, rowInd, colInd, ASub), m, n, rowInd, colInd);
    forall a, b | 0 <= a < |rowInd| && 0 <= b < |colInd|
      ensures S[a][b] == ASub[a][b]
    {
      LastIndexOfDistinct(rowInd, a);
      LastIndexOfDistinct(colInd, b);
    }
    MatrixExt(S, ASub, |rowInd|, |colInd|);
  }

  /** Entries outside the named rows or columns keep their values. */
  lemma SetSubmatrixLeavesOthers(A: seq<seq<int>>, m: nat, n: nat, rowInd: seq<int>, colInd: seq<int>, ASub: seq<seq<int>>,
                                 i: int, j: int)
    requires IsMatrix(A, m, n) && IsMatrix(ASub, |rowInd|, |colInd|) && 0 <= i < m && 0 <= j < n
    requires i !in rowInd || j !in colInd
    ensures SetSubmatrixGlobal(A, m, n, rowInd, colInd, ASub)[i][j] == A[i][j]
  {
  }

  // ---------------------------------------------------------------------
  // UpdateSubmatrix
  // ---------------------------------------------------------------------

  /** alpha times the sum of ASub(a, b) over a < ka with rowInd[a] == i. */
  function ColumnMatchSum(rowInd: seq<int>, ASub: seq<seq<int>>, alpha: int, i: int, b: int, ka: nat): int
    requires ka <= |rowInd| && |ASub| == |rowInd|
    requires 0 <= b && forall a :: 0 <= a < |ASub| ==> b < |ASub[a]|
  {
    if ka == 0 then 0
    else ColumnMatchSum(rowInd, ASub, alpha, i, b, ka - 1) + (if rowInd[ka - 1] == i then alpha * ASub[ka - 1][b] else 0)
  }

  /** alpha times the sum of ASub(a, b) over all pairs with rowInd[a] == i and colInd[b] == j, b < kb. */
  function MatchSum(rowInd: seq<int>, colInd: seq<int>, ASub: seq<seq<int>>, alpha: int, i: int, j: int, kb: nat): int
    requires kb <= |colInd| && IsMatrix(ASub, |rowInd|, |colInd|)
  {
    if kb == 0 then 0
    else
      var here := if colInd[kb - 1] == j then ColumnMatchSum(rowInd, ASub, alpha, i, kb - 1, |rowInd|) else 0;
      MatchSum(rowInd, colInd, ASub, alpha, i, j, kb - 1) + here
  }

  function UpdateEntryAt(L: Layout, q: int, local: seq<seq<int>>, rowInd: seq<int>, colInd: seq<int>, alpha: int,
                         ASub: seq<seq<int>>, kc: nat, iLoc: int, jLoc: int): int
    requires L.Valid() && IsMatrix(local, L.LocalHeight(q), L.LocalWidth(q))
    requires IsMatrix(ASub, |rowInd|, |colInd|) && kc <= |colInd|
    requires 0 <= iLoc < L.LocalHeight(q) && 0 <= jLoc < L.LocalWidth(q)
  {
    local[iLoc][jLoc] + MatchSum(rowInd, colInd, ASub, alpha, L.GlobalRow(q, iLoc), L.GlobalCol(q, jLoc), kc)
  }

  function UpdateStage(L: Layout, q: int, local: seq<seq<int>>, rowInd: seq<int>, colInd: seq<int>, alpha: int,
                       ASub: seq<seq<int>>, kc: nat): (r: seq<seq<int>>)
    requires L.Valid() && IsMatrix(local, L.LocalHeight(q), L.LocalWidth(q))
    requires IsMatrix(ASub, |rowInd|, |colInd|) && kc <= |colInd|
    ensures IsMatrix(r, L.LocalHeight(q), L.LocalWidth(q))
  {
    seq(L.LocalHeight(q), iLoc requires 0 <= iLoc < L.LocalHeight(q) =>
      seq(L.LocalWidth(q), jLoc requires 0 <= jLoc < L.LocalWidth(q) =>
        UpdateEntryAt(L, q, local, rowInd, colInd, alpha, ASub, kc, iLoc, jLoc)))
  }

  /** UpdateSubmatrix on process q: every requested entry it holds gains alpha * ASub(a, b). */
  method UpdateSubmatrixOnProcess(L: Layout, q: int, local: array2<int>, rowInd: seq<int>, colInd: seq<int>,
                                  alpha: int, ASub: seq<seq<int>>)
    requires L.Valid() && local.Length0 == L.LocalHeight(q) && local.Length1 == L.LocalWidth(q)
    requires IndicesInRange(L, rowInd, colInd) && IsMatrix(ASub, |rowInd|, |colInd|)
    modifies local
    ensures Contents(local) == UpdateStage(L, q, old(Contents(local)), rowInd, colInd, alpha, ASub, |colInd|)
  {
    var m, n := |rowInd|, |colInd|;
    var h, w := local.Length0, local.Length1;
    ghost var L0 := Contents(local);
    var jSub := 0;
    while jSub < n
      invariant 0 <= jSub <= n
      invariant forall iLoc, jLoc :: 0 <= iLoc < h && 0 <= jLoc < w ==>
        local[iLoc, jLoc] == UpdateEntryAt(L, q, L0, rowInd, colInd, alpha, ASub, jSub, iLoc, jLoc)
    {
      var j := colInd[jSub];
      forall jLoc | 0 <= jLoc < w
        ensures (L.GlobalCol(q, jLoc) == j) <==> (L.IsLocalCol(q, j) && L.LocalCol(q, j) == jLoc)
      {
        ColMatch(L, q, jLoc, j);
      }
      if L.IsLocalCol(q, j) {
        LocalColInRange(L, q, j);
        var jLoc0 := L.LocalCol(q, j);
        var iSub := 0;
        while iSub < m
          invariant 0 <= iSub <= m
          invariant forall iLoc, jLoc :: 0 <= iLoc < h && 0 <= jLoc < w ==>
            local[iLoc, jLoc] == UpdateEntryAt(L, q, L0, rowInd, colInd, alpha, ASub, jSub, iLoc, jLoc)
              + (if jLoc == jLoc0 then ColumnMatchSum(rowInd, ASub, alpha, L.GlobalRow(q, iLoc), jSub, iSub) else 0)
        {
          var i := rowInd[iSub];
          forall iLoc | 0 <= iLoc < h
            ensures (L.GlobalRow(q, iLoc) == i) <==> (L.IsLocalRow(q, i) && L.LocalRow(q, i) == iLoc)
          {
            RowMatch(L, q, iLoc, i);
          }
          if L.IsLocalRow(q, i) {
            LocalRowInRange(L, q, i);
            var iLoc := L.LocalRow(q, i);
            local[iLoc, jLoc0] := local[iLoc, jLoc0] + alpha * ASub[iSub][jSub];
          }
          iSub := iSub + 1;
        }
      }
      jSub := jSub + 1;
    }
    MatrixExt(Contents(local), UpdateStage(L, q, L0, rowInd, colInd, alpha, ASub, n), h, w);
  }

  /** UpdateSubmatrix on the global matrix: every pair naming an entry adds alpha * ASub(a, b) to it. */
  function UpdateSubmatrixGlobal(A: seq<seq<int>>, m: nat, n: nat, rowInd: seq<int>, colInd: seq<int>, alpha: int,
                                 ASub: seq<seq<int>>): (B: seq<seq<int>>)
    requires IsMatrix(A, m, n) && IsMatrix(ASub, |rowInd|, |colInd|)
    ensures IsMatrix(B, m, n)
  {
    seq(m, i requires 0 <= i < m => seq(n, j requires 0 <= j < n =>
      A[i][j] + MatchSum(rowInd, colInd, ASub, alpha, i, j, |colInd|)))
  }

  lemma UpdateSubmatrixDistributed(L: Layout, A: seq<seq<int>>, rowInd: seq<int>, colInd: seq<int>, alpha: int,
                                   ASub: seq<seq<int>>)
    requires L.Valid() && IsMatrix(A, L.height, L.width) && IndicesInRange(L, rowInd, colInd)
    requires IsMatrix(ASub, |rowInd|, |colInd|)
    ensures forall q :: 0 <= q < L.Procs() ==>
      UpdateStage(L, q, Distribute(L, A)[q], rowInd, colInd, alpha, ASub, |colInd|)
      == Distribute(L, UpdateSubmatrixGlobal(A, L.height, L.width, rowInd, colInd, alpha, ASub))[q]
  {
    var B := UpdateSubmatrixGlobal(A, L.height, L.width, rowInd, colInd, alpha, ASub);
    forall q | 0 <= q < L.Procs()
      ensures UpdateStage(L, q, Distribute(L, A)[q], rowInd, colInd, alpha, ASub, |colInd|) == Distribute(L, B)[q]
    {
      forall iLoc, jLoc | 0 <= iLoc < L.LocalHeight(q) && 0 <= jLoc < L.LocalWidth(q)
        ensures UpdateStage(L, q, Distribute(L, A)[q], rowInd, colInd, alpha, ASub, |colInd|)[iLoc][jLoc]
             == Distribute(L, B)[q][iLoc][jLoc]
      {
        GlobalInRange(L, q, iLoc, jLoc);
      }
      MatrixExt(UpdateStage(L, q, Distribute(L, A)[q], rowInd, colInd, alpha, ASub, |colInd|), Distribute(L, B)[q],
                L.LocalHeight(q), L.LocalWidth(q));
    }
  }

  /** Only one pair names an entry when the column indices are distinct; then its match sum is that pair's row sum. */
  lemma {:induction false} MatchSumDistinct(rowInd: seq<int>, colInd: seq<int>, ASub: seq<seq<int>>, alpha: int, i: int, b: int, kb: nat)
    requires kb <= |colInd| && IsMatrix(ASub, |rowInd|, |colInd|) && 0 <= b < |colInd|
    requires forall x, y :: 0 <= x < y < |colInd| ==> colInd[x] != colInd[y]
    ensures MatchSum(rowInd, colInd, ASub, alpha, i, colInd[b], kb)
         == (if b < kb then ColumnMatchSum(rowInd, ASub, alpha, i, b, |rowInd|) else 0)
  {
    if kb > 0 {
      MatchSumDistinct(rowInd, colInd, ASub, alpha, i, b, kb - 1);
    }
  }

  lemma {:induction false} ColumnMatchSumDistinct(rowInd: seq<int>, ASub: seq<seq<int>>, alpha: int, a: int, b: int, ka: nat)
    requires ka <= |rowInd| && |ASub| == |rowInd| && 0 <= a < |rowInd|
    requires 0 <= b && forall x :: 0 <= x < |ASub| ==> b < |ASub[x]|
    requires forall x, y :: 0 <= x < y < |rowInd| ==> rowInd[x] != rowInd[y]
    ensures ColumnMatchSum(rowInd, ASub, alpha, rowInd[a], b, ka) == (if a < ka then alpha * ASub[a][b] else 0)
  {
    if ka > 0 {
      ColumnMatchSumDistinct(rowInd, ASub, alpha, a, b, ka - 1);
    }
  }

  /** With no repeated indices, entry (rowInd[a], colInd[b]) grows by exactly alpha * ASub(a, b). */
  lemma UpdateSubmatrixDistinct(A: seq<seq<int>>, m: nat, n: nat, rowInd: seq<int>, colInd: seq<int>, alpha: int,
                                ASub: seq<seq<int>>, a: int, b: int)
    requires IsMatrix(A, m, n) && IsMatrix(ASub, |rowInd|, |colInd|)
    requires forall x :: 0 <= x < |rowInd| ==> 0 <= rowInd[x] < m
    requires forall y :: 0 <= y < |colInd| ==> 0 <= colInd[y] < n
    requires forall x, y :: 0 <= x < y < |rowInd| ==> rowInd[x] != rowInd[y]
    requires forall x, y :: 0 <= x < y < |colInd| ==> colInd[x] != colInd[y]
    requires 0 <= a < |rowInd| && 0 <= b < |colInd|
    ensures UpdateSubmatrixGlobal(A, m, n, rowInd, colInd, alpha, ASub)[rowInd[a]][colInd[b]]
         == A[rowInd[a]][colInd[b]] + alpha * ASub[a][b]
  {
    MatchSumDistinct(rowInd, colInd, ASub, alpha, rowInd[a], b, |colInd|);
    ColumnMatchSumDistinct(rowInd, ASub, alpha, a, b, |rowInd|);
  }
}
