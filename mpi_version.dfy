/** mpi_version.c: the MPI solver of mpi.c with the exchange of rows replaced by an
    overwrite of row k, and the fixed, diagonally dominant test system its driver solves.
    The pivot selection, elimination, gather, back-substitution and broadcast of x are
    those of mpi.c, modelled in module Mpi. */
module MpiVersion {
  import opened LinAlg
  import opened Gauss
  import opened Utils
  import opened Partition
  import opened Mpi

  /** The relocation of mpi_version.c:132-142: when the pivot row g is not k, the owner
      of row k overwrites it, and b[k], with the broadcast pivot row; nothing else is
      written, in particular not slot g. */
  function OverwrittenAsWritten(ranks: seq<RankState>, n: nat, p: nat, k: nat, g: nat, O: nat, buf: seq<real>): (rs: seq<RankState>)
    requires ClusterShaped(ranks, n, p) && k < n && g < n && O < p && |buf| == n + 1
    ensures ClusterShaped(rs, n, p)
  {
    if g == k then ranks else ranks[O := Put(ranks[O], k, buf[..n], buf[n])]
  }

  /** The overwrite changes slot k on the owner of k and nothing else on any rank. */
  lemma OverwriteFrame(ranks: seq<RankState>, n: nat, p: nat, k: nat, g: nat, O: nat, buf: seq<real>)
    requires ClusterShaped(ranks, n, p) && k < n && g < n && O < p && |buf| == n + 1
    ensures var rs := OverwrittenAsWritten(ranks, n, p, k, g, O, buf);
      (forall r, i :: 0 <= r < p && 0 <= i < n && !(r == O && i == k) ==>
        rs[r].A[i] == ranks[r].A[i] && rs[r].b[i] == ranks[r].b[i]) &&
      (forall r :: 0 <= r < p ==> rs[r].x == ranks[r].x)
  {
  }

  /** With O the owner of k and buf the broadcast equation g != k, the overwrite leaves
      equation g in both places k and g of the distributed system and keeps every other
      equation: equation k is lost. The exchange of Mpi.Relocated is the correction. */
  lemma OverwriteDuplicatesPivot(ranks: seq<RankState>, n: nat, p: nat, k: nat, g: nat, buf: seq<real>)
    requires ClusterShaped(ranks, n, p) && k < n && g < n && g != k
    requires var L := LogicalOf(ranks, n, p); buf == L.A[g] + [L.b[g]]
    ensures var L := LogicalOf(ranks, n, p);
      var M := LogicalOf(OverwrittenAsWritten(ranks, n, p, k, g, RowOwner(n, p, k), buf), n, p);
      M.A[k] == M.A[g] == L.A[g] && M.b[k] == M.b[g] == L.b[g] &&
      forall i :: 0 <= i < n && i != k ==> M.A[i] == L.A[i] && M.b[i] == L.b[i]
  {
    var L := LogicalOf(ranks, n, p);
    var O := RowOwner(n, p, k);
    var rs := OverwrittenAsWritten(ranks, n, p, k, g, O, buf);
    var M := LogicalOf(rs, n, p);
    assert buf[..n] == L.A[g];
    LogicalHolds(ranks, n, p);
    LogicalHolds(rs, n, p);
    forall i | 0 <= i < n
      ensures M.A[i] == (if i == k then L.A[g] else L.A[i]) && M.b[i] == (if i == k then L.b[g] else L.b[i])
    {
      var o := RowOwner(n, p, i);
      assert M.A[i] == rs[o].A[i] && M.b[i] == rs[o].b[i];
      if i == k {
        assert o == O;
      } else {
        assert rs[o].A[i] == ranks[o].A[i] && rs[o].b[i] == ranks[o].b[i];
      }
    }
  }

  /** Two ranks that both hold the system A = [[1, 2], [3, 4]], b = [5, 6], as after the
      broadcast of mpi_version.c:245-247. */
  function TwoRanks(): (rs: seq<RankState>)
    ensures ClusterShaped(rs, 2, 2)
  {
    var s := RankState([[1.0, 2.0], [3.0, 4.0]], [5.0, 6.0], [0.0, 0.0]);
    [s, s]
  }

  /** On TwoRanks, row 0 is on rank 0 and row 1 on rank 1; row 1 is the pivot row of
      column 0 (Mpi.OneRankSetup shows it for the same matrix). */
  lemma TwoRanksSetup()
    ensures LogicalOf(TwoRanks(), 2, 2) == Sys([[1.0, 2.0], [3.0, 4.0]], [5.0, 6.0])
    ensures RowOwner(2, 2, 0) == 0 && RowOwner(2, 2, 1) == 1
  {
    var A := [[1.0, 2.0], [3.0, 4.0]];
    BlockOwner(2, 2, 0, 0);
    BlockOwner(2, 2, 1, 1);
    var L := LogicalOf(TwoRanks(), 2, 2);
    assert L.A == A && L.b == [5.0, 6.0];
  }

  /** With the broadcast pivot row [3, 4 | 6] of TwoRanksSetup, the overwrite leaves
      both equations 3 x0 + 4 x1 = 6: the equation x0 + 2 x1 = 5 is lost. */
  lemma OverwriteCounterexample()
    ensures LogicalOf(OverwrittenAsWritten(TwoRanks(), 2, 2, 0, 1, 0, [3.0, 4.0, 6.0]), 2, 2)
      == Sys([[3.0, 4.0], [3.0, 4.0]], [6.0, 6.0])
  {
    var ranks := TwoRanks();
    BlockOwner(2, 2, 0, 0);
    BlockOwner(2, 2, 1, 1);
    var rs := OverwrittenAsWritten(ranks, 2, 2, 0, 1, 0, [3.0, 4.0, 6.0]);
    assert rs[0].A[0] == [3.0, 4.0] && rs[0].b[0] == 6.0;
    assert rs[1].A[1] == [3.0, 4.0] && rs[1].b[1] == 6.0;
    var M := LogicalOf(rs, 2, 2);
    assert M.A == [[3.0, 4.0], [3.0, 4.0]];
    assert M.b == [6.0, 6.0];
  }

  /** On the same input the exchange of mpi.c keeps both equations, in swapped order. */
  lemma ExchangeOnTwoRanks()
    ensures LogicalOf(Relocated(TwoRanks(), 2, 2, 0, 1, 0, 1, [3.0, 4.0, 6.0]), 2, 2)
      == Sys([[3.0, 4.0], [1.0, 2.0]], [6.0, 5.0])
  {
    var ranks := TwoRanks();
    BlockOwner(2, 2, 0, 0);
    BlockOwner(2, 2, 1, 1);
    var rs := Relocated(ranks, 2, 2, 0, 1, 0, 1, [3.0, 4.0, 6.0]);
    assert rs[0].A[0] == [3.0, 4.0] && rs[0].b[0] == 6.0;
    assert rs[1].A[1] == [1.0, 2.0] && rs[1].b[1] == 5.0;
    var M := LogicalOf(rs, 2, 2);
    assert M.A == [[3.0, 4.0], [1.0, 2.0]];
    assert M.b == [6.0, 5.0];
  }

  /** The overwrite of mpi_version.c:132-142 applied to the ranks of a cluster. */
  method OverwriteRowK(c: Cluster, k: nat, g: nat, owner: nat, buf: seq<real>)
    requires c.Valid() && k < c.n && g < c.n && owner == RowOwner(c.n, c.p, k) && |buf| == c.n + 1
    modifies c
    ensures c.Valid() && c.ranks == OverwrittenAsWritten(old(c.ranks), c.n, c.p, k, g, owner, buf)
  {
    if g != k {
      c.ranks := c.ranks[owner := Put(c.ranks[owner], k, buf[..c.n], buf[c.n])];
    }
  }

  // ---------------------------------------------------------------- the test system

  /** Entry (i, j) of the fixed test matrix of mpi_version.c:7-36: n + 5 on the diagonal
      and 1 / (i + j + 1) elsewhere. */
  function FixedEntry(n: nat, i: nat, j: nat): real
  {
    if i == j then n as real + 5.0 else 1.0 / ((i + j) as real + 1.0)
  }

  function FixedMatrix(n: nat): (A: Matrix)
    ensures IsSquare(A, n)
  {
    seq(n, i requires 0 <= i < n => seq(n, j requires 0 <= j < n => FixedEntry(n, i, j)))
  }

  /** The solution the test system is built from: x[i] = i + 1. */
  function TrueX(n: nat): (x: Vector)
    ensures |x| == n && forall i :: 0 <= i < n ==> x[i] == i as real + 1.0
  {
    seq(n, i requires 0 <= i < n => i as real + 1.0)
  }

  function FixedRhs(n: nat): (b: Vector)
    ensures |b| == n
  {
    seq(n, i requires 0 <= i < n => Dot(FixedMatrix(n)[i], TrueX(n)))
  }

  /** The first loop nest of `generate_fixed_test_system` (mpi_version.c:11-19): entry
      (i, j) of every row becomes n + 5 on the diagonal and 1 / (i + j + 1) elsewhere. */
  method FillFixedMatrix(A: array<seq<real>>, n: nat)
    requires A.Length == n && forall i :: 0 <= i < n ==> |A[i]| == n
    modifies A
    ensures A[..] == FixedMatrix(n)
  {
    var i := 0;
    while i < n
      invariant 0 <= i <= n && forall r :: 0 <= r < n ==> |A[r]| == n
      invariant forall r :: 0 <= r < i ==> A[r] == FixedMatrix(n)[r]
    {
      var j := 0;
      while j < n
        invariant 0 <= j <= n && forall r :: 0 <= r < n ==> |A[r]| == n
        invariant forall r :: 0 <= r < i ==> A[r] == FixedMatrix(n)[r]
        invariant forall c :: 0 <= c < j ==> A[i][c] == FixedEntry(n, i, c)
      {
        if i == j {
          A[i] := A[i][j := n as real + 5.0];
        } else {
          A[i] := A[i][j := 1.0 / ((i + j) as real + 1.0)];
        }
        j := j + 1;
      }
      assert A[i] == FixedMatrix(n)[i];
      i := i + 1;
    }
  }

  /** `generate_fixed_test_system` (mpi_version.c:7-36): fills A, builds x[i] = i + 1 and
      accumulates b = A x row by row. */
  method GenerateFixedTestSystem(sys: LinearSystem)
    requires sys.Valid()
    modifies sys.A, sys.b
    ensures sys.Valid() && sys.A[..] == FixedMatrix(sys.n) && sys.b[..] == FixedRhs(sys.n)
  {
    var n := sys.n;
    FillFixedMatrix(sys.A, n);
    var trueX := new real[n];
    var i := 0;
    while i < n
      invariant 0 <= i <= n && sys.A[..] == FixedMatrix(n)
      invariant forall r :: 0 <= r < i ==> trueX[r] == r as real + 1.0
    {
      trueX[i] := i as real + 1.0;
      i := i + 1;
    }
    assert trueX[..] == TrueX(n);
    AccumulateRhs(sys.A, trueX, sys.b);
    assert sys.b[..] == FixedRhs(n);
  }

  /** The last loop nest of `generate_fixed_test_system` (mpi_version.c:28-33): b[i] is
      reset and then accumulates A[i][j] * x[j] over j, so that b = A x. */
  method AccumulateRhs(A: array<seq<real>>, x: array<real>, b: array<real>)
    requires A.Length == b.Length && b != x && forall i :: 0 <= i < A.Length ==> |A[i]| == x.Length
    modifies b
    ensures forall i :: 0 <= i < b.Length ==> b[i] == Dot(A[i], x[..])
  {
    var i := 0;
    while i < b.Length
      invariant 0 <= i <= b.Length
      invariant forall r :: 0 <= r < i ==> b[r] == Dot(A[r], x[..])
    {
      b[i] := 0.0;
      var j := 0;
      while j < x.Length
        invariant 0 <= j <= x.Length
        invariant forall r :: 0 <= r < i ==> b[r] == Dot(A[r], x[..])
        invariant b[i] == Sum(A[i], x[..], 0, j)
      {
        b[i] := b[i] + A[i][j] * x[j];
        j := j + 1;
      }
      i := i + 1;
    }
  }

  /** x = (1, 2, ..., n) solves the fixed test system exactly. */
  lemma FixedSystemSolved(n: nat)
    ensures Solves(FixedMatrix(n), FixedRhs(n), TrueX(n))
  {
  }

  /** The sum of |row[j]| over j in [0, m), j != i. */
  function OffDiagonal(row: Vector, i: int, m: nat): real
    requires m <= |row|
  {
    if m == 0 then 0.0 else OffDiagonal(row, i, m - 1) + (if m - 1 == i then 0.0 else Abs(row[m - 1]))
  }

  /** Every row outweighs the rest of its row on the diagonal. */
  ghost predicate StrictlyDiagonallyDominant(A: Matrix)
  {
    forall i :: 0 <= i < |A| && i < |A[i]| ==> OffDiagonal(A[i], i, |A[i]|) < Abs(A[i][i])
  }

  /** Off-diagonal entries of magnitude at most 1 sum to at most m. */
  lemma {:induction false} OffDiagonalAtMost(row: Vector, i: int, m: nat)
    requires m <= |row| && forall j :: 0 <= j < m && j != i ==> Abs(row[j]) <= 1.0
    ensures OffDiagonal(row, i, m) <= m as real
  {
    if m > 0 {
      OffDiagonalAtMost(row, i, m - 1);
    }
  }

  /** The off-diagonal entries 1 / (i + j + 1) lie in (0, 1]. */
  lemma FixedOffDiagonal(n: nat, i: nat, j: nat)
    requires i != j
    ensures 0.0 < FixedEntry(n, i, j) <= 1.0
  {
    var d := (i + j) as real + 1.0;
    assert d >= 1.0;
    assert FixedEntry(n, i, j) * d == 1.0;
  }

  /** The fixed test matrix is strictly diagonally dominant, as the comment of
      mpi_version.c:10 intends: the off-diagonal entries of a row add up to at most n,
      below the diagonal n + 5. */
  lemma FixedSystemDominant(n: nat)
    ensures StrictlyDiagonallyDominant(FixedMatrix(n))
  {
    var A := FixedMatrix(n);
    forall i | 0 <= i < n ensures OffDiagonal(A[i], i, n) < Abs(A[i][i]) {
      forall j | 0 <= j < n && j != i ensures Abs(A[i][j]) <= 1.0 {
        FixedOffDiagonal(n, i, j);
      }
      OffDiagonalAtMost(A[i], i, n);
    }
  }

  /** Whenever the solver succeeds on the fixed test system, it returns x = (1, ..., n). */
  lemma FixedSystemRecovered(n: nat)
    requires n >= 1 && Solve(Sys(FixedMatrix(n), FixedRhs(n))).Solved?
    ensures Solve(Sys(FixedMatrix(n), FixedRhs(n))).x == TrueX(n)
  {
    SolveCorrect(Sys(FixedMatrix(n), FixedRhs(n)));
    FixedSystemSolved(n);
  }
}
