/**
 * Hanowa(A, n, mu): for even n = 2m, A becomes the n x n matrix
 * [[mu I, -D], [D, mu I]] with D = diag(1, ..., m), built as four calls of
 * Diagonal on the m x m block views, each with the vector d refilled first.
 */
module HanowaMatrices {
  import opened Locals
  import opened DistEntries
  import opened Errors
  import opened DiagonalMatrices

  /** The n x n Hanowa matrix. */
  function HanowaOf(n: nat, mu: int): (H: seq<seq<int>>)
    requires n % 2 == 0
    ensures IsMatrix(H, n, n)
  {
    var m := n / 2;
    seq(n, i requires 0 <= i < n => seq(n, j requires 0 <= j < n =>
      if i == j then mu
      else if j == i + m then -(i + 1)
      else if i == j + m then j + 1
      else 0))
  }

  /** The three vectors d holds in turn: m copies of mu, -(j+1) and j+1. */
  function Constant(m: nat, mu: int): (d: seq<int>)
    ensures |d| == m
  {
    seq(m, _ => mu)
  }

  function Negated(m: nat): (d: seq<int>)
    ensures |d| == m
  {
    seq(m, j => -(j + 1))
  }

  function Counted(m: nat): (d: seq<int>)
    ensures |d| == m
  {
    seq(m, j => j + 1)
  }

  /**
   * The four Diagonal calls in order (blocks (0,0) and (m,m) with mu, (0,m)
   * with -(j+1), (m,0) with j+1) leave every entry of the n x n matrix equal
   * to the Hanowa entry, whatever was there before: the blocks tile it.
   */
  lemma HanowaEntry(n: nat, mu: int, i: int, j: int, x: int)
    requires n % 2 == 0 && 0 <= i < n && 0 <= j < n
    ensures var m := n / 2;
      DiagonalBlockEntry(m, 0, Counted(m))(i, j,
        DiagonalBlockEntry(0, m, Negated(m))(i, j,
          DiagonalBlockEntry(m, m, Constant(m, mu))(i, j,
            DiagonalBlockEntry(0, 0, Constant(m, mu))(i, j, x))))
      == HanowaOf(n, mu)[i][j]
  {
    var m := n / 2;
    if i < m && j >= m {
      assert Negated(m)[i] == -(i + 1);
    } else if i >= m && j < m {
      assert Counted(m)[j] == j + 1;
    }
  }

  /** Fill the vector d with the values of f. */
  method Refill(d: array<int>, f: int -> int)
    modifies d
    ensures forall j :: 0 <= j < d.Length ==> d[j] == f(j)
  {
    var j := 0;
    while j < d.Length
      invariant 0 <= j <= d.Length
      invariant forall k :: 0 <= k < j ==> d[k] == f(k)
    {
      d[j] := f(j);
      j := j + 1;
    }
  }

  /** Hanowa on a local matrix: odd n is an error and leaves A alone; otherwise A is resized (fresh storage) and filled. */
  method Hanowa(A: array2<int>, n: nat, mu: int) returns (r: Outcome, B: array2<int>)
    ensures r == (if n % 2 == 0 then Pass else Fail("n must be an even integer"))
    ensures r.Fail? ==> B == A
    ensures r.Pass? ==> fresh(B) && B.Length0 == n && B.Length1 == n && Contents(B) == HanowaOf(n, mu)
  {
    if n % 2 != 0 {
      return Fail("n must be an even integer"), A;
    }
    B := new int[n, n];
    ghost var X := Contents(B);
    var m := n / 2;
    var d := new int[m];
    Refill(d, _ => mu);
    assert d[..] == Constant(m, mu);
    DiagonalInto(B, 0, 0, d[..]);
    DiagonalInto(B, m, m, d[..]);
    Refill(d, j => -(j + 1));
    assert d[..] == Negated(m);
    DiagonalInto(B, 0, m, d[..]);
    Refill(d, j => j + 1);
    assert d[..] == Counted(m);
    DiagonalInto(B, m, 0, d[..]);
    HanowaBlocks(X, Contents(B), n, mu);
    r := Pass;
  }

  /**
   * Hanowa on a distributed matrix, on process q: the same error; otherwise
   * the layout takes the size n x n, the local storage is reallocated, and the
   * four distributed Diagonal calls on the block views fill it with q's part
   * of the Hanowa matrix.
   */
  method HanowaDist(L0: Layout, q: int, local0: array2<int>, n: nat, mu: int)
    returns (r: Outcome, L: Layout, local: array2<int>)
    requires L0.Valid() && 0 <= q < L0.Procs()
    ensures r == (if n % 2 == 0 then Pass else Fail("n must be an even integer"))
    ensures r.Fail? ==> L == L0 && local == local0
    ensures r.Pass? ==> L == L0.(height := n, width := n) && L.Valid() && fresh(local)
    ensures r.Pass? ==> local.Length0 == L.LocalHeight(q) && local.Length1 == L.LocalWidth(q)
    ensures r.Pass? ==> Contents(local) == Distribute(L, HanowaOf(n, mu))[q]
  {
    if n % 2 != 0 {
      return Fail("n must be an even integer"), L0, local0;
    }
    L := L0.(height := n, width := n);
    local := new int[L.LocalHeight(q), L.LocalWidth(q)];
    ghost var X := Contents(local);
    var m := n / 2;
    var d := new int[m];
    Refill(d, _ => mu);
    assert d[..] == Constant(m, mu);
    DiagonalIntoDist(L, q, local, 0, 0, d[..]);
    DiagonalIntoDist(L, q, local, m, m, d[..]);
    Refill(d, j => -(j + 1));
    assert d[..] == Negated(m);
    DiagonalIntoDist(L, q, local, 0, m, d[..]);
    Refill(d, j => j + 1);
    assert d[..] == Counted(m);
    DiagonalIntoDist(L, q, local, m, 0, d[..]);
    HanowaDistributed(L, q, X, Contents(local), n, mu);
    r := Pass;
  }

  /** Four Diagonal calls on the blocks of an n x n matrix give the Hanowa matrix. */
  lemma HanowaBlocks(X: seq<seq<int>>, Y: seq<seq<int>>, n: nat, mu: int)
    requires n % 2 == 0 && IsMatrix(X, n, n)
    requires var m := n / 2;
      Y == GlobalMap(GlobalMap(GlobalMap(GlobalMap(X, n, n,
             DiagonalBlockEntry(0, 0, Constant(m, mu))), n, n, DiagonalBlockEntry(m, m, Constant(m, mu))), n, n,
             DiagonalBlockEntry(0, m, Negated(m))), n, n, DiagonalBlockEntry(m, 0, Counted(m)))
    ensures Y == HanowaOf(n, mu)
  {
    forall i, j | 0 <= i < n && 0 <= j < n
      ensures Y[i][j] == HanowaOf(n, mu)[i][j]
    {
      HanowaEntry(n, mu, i, j, X[i][j]);
    }
    MatrixExt(Y, HanowaOf(n, mu), n, n);
  }

  /** Four distributed Diagonal calls on the blocks give process q's part of the Hanowa matrix. */
  lemma HanowaDistributed(L: Layout, q: int, X: seq<seq<int>>, Y: seq<seq<int>>, n: nat, mu: int)
    requires L.Valid() && 0 <= q < L.Procs() && n % 2 == 0 && L.height == n && L.width == n
    requires IsMatrix(X, L.LocalHeight(q), L.LocalWidth(q))
    requires var m := n / 2;
      Y == LocalMap(L, q, LocalMap(L, q, LocalMap(L, q, LocalMap(L, q, X,
             DiagonalBlockEntry(0, 0, Constant(m, mu))), DiagonalBlockEntry(m, m, Constant(m, mu))),
             DiagonalBlockEntry(0, m, Negated(m))), DiagonalBlockEntry(m, 0, Counted(m)))
    ensures Y == Distribute(L, HanowaOf(n, mu))[q]
  {
    forall iLoc, jLoc | 0 <= iLoc < L.LocalHeight(q) && 0 <= jLoc < L.LocalWidth(q)
      ensures Y[iLoc][jLoc] == Distribute(L, HanowaOf(n, mu))[q][iLoc][jLoc]
    {
      GlobalInRange(L, q, iLoc, jLoc);
      HanowaEntry(n, mu, L.GlobalRow(q, iLoc), L.GlobalCol(q, jLoc), X[iLoc][jLoc]);
    }
    MatrixExt(Y, Distribute(L, HanowaOf(n, mu))[q], L.LocalHeight(q), L.LocalWidth(q));
  }

  /** Off the diagonal the Hanowa matrix is skew-symmetric; its diagonal is mu. */
  lemma HanowaSkew(n: nat, mu: int)
    requires n % 2 == 0
    ensures forall i :: 0 <= i < n ==> HanowaOf(n, mu)[i][i] == mu
    ensures forall i, j :: 0 <= i < n && 0 <= j < n && i != j ==> HanowaOf(n, mu)[i][j] == -HanowaOf(n, mu)[j][i]
  {
  }
}
