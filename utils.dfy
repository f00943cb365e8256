/** The shared `LinearSystem` of utils.h and the utils.c routines that work on it in place:
    `copy_system`, `verify_solution` and `gaussian_elimination_sequential`, each proved
    against the reference functions of module Gauss. */
module Utils {
  import opened LinAlg
  import opened Gauss

  /** The residual tolerance of utils.c's `verify_solution`. */
  const SequentialTolerance: real := 0.000001

  /** The residual tolerance of the `verify_solution` routines of openmp.c, pthread.c and
      mpi.c. */
  const ParallelTolerance: real := 0.000000001

  /** A system of n equations. A row of A is a value, so exchanging two rows, which the
      source does by exchanging row pointers, is an exchange of two array elements. */
  class LinearSystem {
    const n: nat
    const A: array<seq<real>>
    const b: array<real>
    const x: array<real>

    ghost predicate Valid()
      reads this, A
    {
      A.Length == n && b.Length == n && x.Length == n && b != x &&
      forall i :: 0 <= i < n ==> |A[i]| == n
    }

    /** The system (A, b) the arrays hold now. */
    function System(): Sys
      reads this, A, b
    {
      Sys(A[..], b[..])
    }

    /** `create_system`: fresh storage for an n x n system, here zero-filled. */
    constructor (n: nat)
      ensures Valid() && this.n == n
      ensures fresh(A) && fresh(b) && fresh(x)
      ensures A[..] == seq(n, _ => Zeros(n)) && b[..] == Zeros(n) && x[..] == Zeros(n)
    {
      this.n := n;
      A := new seq<real>[n](_ => Zeros(n));
      b := new real[n](_ => 0.0);
      x := new real[n](_ => 0.0);
    }
  }

  /** Two systems that share no storage that a copy from the first to the second writes. */
  ghost predicate Separate(src: LinearSystem, dest: LinearSystem)
    reads src, dest
  {
    src.A != dest.A && src.b != dest.b && src.b != dest.x
  }

  /** `copy_system` (utils.c:141-151): dest gets src's A and b, and a zero x. */
  method CopySystem(src: LinearSystem, dest: LinearSystem)
    requires src.Valid() && dest.Valid() && src.n == dest.n && Separate(src, dest)
    modifies dest.A, dest.b, dest.x
    ensures dest.Valid()
    ensures dest.System() == old(src.System()) && dest.x[..] == Zeros(dest.n)
  {
    var i := 0;
    while i < src.n
      invariant 0 <= i <= src.n
      invariant forall r :: 0 <= r < i ==>
                  dest.A[r] == src.A[r] && dest.b[r] == src.b[r] && dest.x[r] == 0.0
      invariant forall r :: i <= r < src.n ==> |dest.A[r]| == src.n
    {
      dest.A[i] := src.A[i];
      dest.b[i] := src.b[i];
      dest.x[i] := 0.0;
      i := i + 1;
    }
    assert dest.A[..] == src.A[..] && dest.b[..] == src.b[..];
  }

  /** The row-times-vector loop `for (j = 0; j < n; j++) sum += A[i][j] * x[j]`. */
  method RowTimes(row: seq<real>, x: array<real>) returns (sum: real)
    requires |row| == x.Length
    ensures sum == Dot(row, x[..])
  {
    sum := 0.0;
    var j := 0;
    while j < x.Length
      invariant 0 <= j <= x.Length
      invariant sum == Sum(row, x[..], 0, j)
    {
      sum := sum + row[j] * x[j];
      j := j + 1;
    }
  }

  /** Every residual |A[i] . x - b[i]| is at most tol. */
  ghost predicate ResidualsWithin(A: Matrix, b: Vector, x: Vector, tol: real)
    requires |A| == |b| && forall i :: 0 <= i < |A| ==> |A[i]| == |x|
  {
    forall i :: 0 <= i < |A| ==> Abs(Dot(A[i], x) - b[i]) <= tol
  }

  /** The residual check shared by the `verify_solution` routines with a fixed tolerance:
      it stops at the first row whose residual exceeds tol. */
  method CheckResiduals(sys: LinearSystem, tol: real) returns (ok: bool)
    requires sys.Valid()
    ensures ok <==> ResidualsWithin(sys.A[..], sys.b[..], sys.x[..], tol)
  {
    var i := 0;
    while i < sys.n
      invariant 0 <= i <= sys.n
      invariant forall r :: 0 <= r < i ==> Abs(Dot(sys.A[r], sys.x[..]) - sys.b[r]) <= tol
    {
      var sum := RowTimes(sys.A[i], sys.x);
      if Abs(sum - sys.b[i]) > tol {
        return false;
      }
      i := i + 1;
    }
    return true;
  }

  /** `verify_solution` of utils.c (utils.c:111-129): tolerance 1e-6. */
  method VerifySolution(sys: LinearSystem) returns (ok: bool)
    requires sys.Valid()
    ensures ok <==> ResidualsWithin(sys.A[..], sys.b[..], sys.x[..], SequentialTolerance)
  {
    ok := CheckResiduals(sys, SequentialTolerance);
  }

  /** An exact solution passes every nonnegative tolerance. */
  lemma ExactSolutionWithin(A: Matrix, b: Vector, x: Vector, tol: real)
    requires Solves(A, b, x) && tol >= 0.0
    ensures ResidualsWithin(A, b, x, tol)
  {
  }

  /** The pivot search of step k (utils.c:166-174): the first row of maximal |A[i][k]| among
      rows k..n-1, and that magnitude. */
  method FindPivot(sys: LinearSystem, k: nat) returns (maxRow: nat, maxVal: real)
    requires sys.Valid() && k < sys.n
    ensures maxRow == Pivot(sys.A[..], k) && maxVal == Abs(sys.A[maxRow][k])
  {
    ghost var M := sys.A[..];
    maxRow, maxVal := k, Abs(sys.A[k][k]);
    var i := k + 1;
    while i < sys.n
      invariant k < i <= sys.n
      invariant Scan(M, k, i, sys.n, maxRow, maxVal) == Scan(M, k, k + 1, sys.n, k, Abs(M[k][k]))
    {
      if Abs(sys.A[i][k]) > maxVal {
        maxVal := Abs(sys.A[i][k]);
        maxRow := i;
      }
      i := i + 1;
    }
    ScanSpec(M, k, k + 1, sys.n, k, Abs(M[k][k]));
  }

  /** The row exchange (utils.c:183-193): rows k and p of A and entries k and p of b,
      skipped when p == k. */
  method SwapRows(sys: LinearSystem, k: nat, p: nat)
    requires sys.Valid() && k < sys.n && p < sys.n
    modifies sys.A, sys.b
    ensures sys.Valid() && sys.System() == Swap(old(sys.System()), k, p)
  {
    ghost var S := sys.System();
    if p != k {
      var tempRow := sys.A[k];
      sys.A[k] := sys.A[p];
      sys.A[p] := tempRow;
      var temp := sys.b[k];
      sys.b[k] := sys.b[p];
      sys.b[p] := temp;
    }
    assert sys.A[..] == S.A[k := S.A[p]][p := S.A[k]];
    assert sys.b[..] == S.b[k := S.b[p]][p := S.b[k]];
  }

  /** The update of one row below the pivot: the factor first, then columns k..n-1. */
  method ReduceRow(row: seq<real>, piv: seq<real>, k: nat) returns (r: seq<real>)
    requires k < |row| == |piv| && piv[k] != 0.0
    ensures r == ElimRow(row, piv, k)
  {
    var factor := row[k] / piv[k];
    r := row;
    var j := k;
    while j < |row|
      invariant k <= j <= |row| && |r| == |row|
      invariant forall c :: 0 <= c < |row| ==>
                  r[c] == if k <= c < j then row[c] - factor * piv[c] else row[c]
    {
      r := r[j := r[j] - factor * piv[j]];
      j := j + 1;
    }
    assert forall c :: 0 <= c < |row| ==> r[c] == ElimRow(row, piv, k)[c];
  }

  /** One iteration of the elimination loop (utils.c:197-203): row i of A and entry i of b
      are reduced against row k; nothing else changes. */
  method EliminateRow(sys: LinearSystem, k: nat, i: nat)
    requires sys.Valid() && k < sys.n && i < sys.n && i != k && sys.A[k][k] != 0.0
    modifies sys.A, sys.b
    ensures sys.Valid()
    ensures sys.A[..] == old(sys.A[..])[i := ElimRow(old(sys.A[i]), old(sys.A[k]), k)]
    ensures sys.b[..] == old(sys.b[..])[i := ElimB(old(sys.b[i]), old(sys.A[i]), old(sys.A[k]), old(sys.b[k]), k)]
  {
    var factor := sys.A[i][k] / sys.A[k][k];
    sys.A[i] := ReduceRow(sys.A[i], sys.A[k], k);
    sys.b[i] := sys.b[i] - factor * sys.b[k];
  }

  /** Eliminating row i > k, not yet among the rows eliminated against row k, adds it to
      them (utils.c:197-203 as one iteration of any elimination loop). */
  method EliminateOneMore(sys: LinearSystem, k: nat, i: nat, ghost S: Sys, ghost done: set<int>)
    requires sys.Valid() && WellFormed(S) && |S.b| == sys.n && k < i < sys.n && i !in done
    requires S.A[k][k] != 0.0 && sys.A[k] == S.A[k] && sys.b[k] == S.b[k]
    requires sys.System() == PartialElim(S, k, done, S.A[k], S.b[k])
    modifies sys.A, sys.b
    ensures sys.Valid() && sys.A[k] == S.A[k] && sys.b[k] == S.b[k]
    ensures sys.System() == PartialElim(S, k, done + {i}, S.A[k], S.b[k])
  {
    PartialElimAdd(S, k, done, i, S.A[k], S.b[k]);
    EliminateRow(sys, k, i);
  }

  /** The elimination loop of step k (utils.c:196-204): every row below k is reduced
      against row k, and b alongside it. */
  method EliminateBelow(sys: LinearSystem, k: nat)
    requires sys.Valid() && k < sys.n && sys.A[k][k] != 0.0
    modifies sys.A, sys.b
    ensures sys.Valid() && sys.System() == Eliminate(old(sys.System()), k)
  {
    ghost var S := sys.System();
    PartialElimNone(S, k, S.A[k], S.b[k]);
    var i := k + 1;
    ghost var done := Range(k + 1, i);
    while i < sys.n
      invariant k < i <= sys.n || (i == k + 1 && k + 1 > sys.n)
      invariant sys.Valid() && sys.A[k] == S.A[k] && sys.b[k] == S.b[k]
      invariant done == Range(k + 1, i)
      invariant sys.System() == PartialElim(S, k, done, S.A[k], S.b[k])
    {
      EliminateOneMore(sys, k, i, S, done);
      assert Range(k + 1, i + 1) == done + {i};
      done := Range(k + 1, i + 1);
      i := i + 1;
    }
    assert done == Range(k + 1, sys.n);
  }

  /** One row of the back-substitution loop (utils.c:215-223): x[t] becomes b[t] less the
      already-solved part of row t, divided by the diagonal entry; nothing else changes. */
  method SubstituteRow(sys: LinearSystem, t: nat)
    requires sys.Valid() && t < sys.n && sys.A[t][t] != 0.0
    modifies sys.x
    ensures sys.x[..] == old(sys.x[..])[t := Substituted(sys.System(), t, old(sys.x[..]))]
  {
    ghost var xs := sys.x[..];
    ghost var row := sys.A[t];
    sys.x[t] := sys.b[t];
    var j := t + 1;
    while j < sys.n
      invariant t < j <= sys.n
      invariant sys.x[..] == xs[t := sys.x[t]]
      invariant sys.x[t] == sys.b[t] - Sum(row, xs, t + 1, j)
    {
      assert sys.x[j] == xs[j];
      sys.x[t] := sys.x[t] - sys.A[t][j] * sys.x[j];
      j := j + 1;
    }
    sys.x[t] := sys.x[t] / sys.A[t][t];
  }

  /** The in-place back-substitution loop of utils.c:214-224: x[i] starts as b[i], each
      known x[j] is subtracted in turn, and the result is divided by A[i][i]. The
      starting contents of x are never read. */
  method BackSubstitute(sys: LinearSystem)
    requires sys.Valid() && DiagNonZero(sys.A[..], sys.n)
    modifies sys.x
    ensures sys.x[..] == BackSubst(sys.System())
  {
    ghost var S := sys.System();
    ghost var x0 := sys.x[..];
    var i := sys.n;
    while i > 0
      invariant 0 <= i <= sys.n
      invariant BackLoop(S, i, sys.x[..]) == BackLoop(S, sys.n, x0)
    {
      SubstituteRow(sys, i - 1);
      i := i - 1;
    }
    BackLoopReadsWritten(S, sys.n, x0, Zeros(sys.n));
  }

  /** The forward-elimination loop of utils.c:164-205. It reports whether every pivot test
      passed and leaves A and b as the reference forward elimination does; x is not
      touched. */
  method ForwardEliminate(sys: LinearSystem) returns (ok: bool)
    requires sys.Valid() && sys.n >= 1
    modifies sys.A, sys.b
    ensures sys.Valid()
    ensures ForwardFrom(old(sys.System()), 0) == Outcome(sys.System(), ok)
  {
    ghost var target := ForwardFrom(sys.System(), 0);
    var k := 0;
    while k < sys.n - 1
      invariant 0 <= k <= sys.n - 1 && sys.Valid()
      invariant ForwardFrom(sys.System(), k) == target
    {
      var maxRow, maxVal := FindPivot(sys, k);
      if maxVal < Tiny {
        ForwardFromFails(sys.System(), k);
        return false;
      }
      ForwardFromPasses(sys.System(), k);
      SwapRows(sys, k, maxRow);
      EliminateBelow(sys, k);
      k := k + 1;
    }
    return true;
  }

  /** `gaussian_elimination_sequential` (utils.c:157-227). It returns true exactly when the
      reference solver succeeds; A and b end as the reference leaves them, and x is the
      reference solution on success and untouched on failure. */
  method GaussianEliminationSequential(sys: LinearSystem) returns (ok: bool)
    requires sys.Valid() && sys.n >= 1
    modifies sys.A, sys.b, sys.x
    ensures sys.Valid()
    ensures ok <==> Solve(old(sys.System())).Solved?
    ensures sys.System() == Solve(old(sys.System())).S
    ensures ok ==> sys.x[..] == Solve(old(sys.System())).x
    ensures !ok ==> sys.x[..] == old(sys.x[..])
  {
    SolveCases(sys.System());
    ok := ForwardEliminate(sys);
    if !ok {
      return;
    }
    var n := sys.n;
    if Abs(sys.A[n - 1][n - 1]) < Tiny {
      return false;
    }
    BackSubstitute(sys);
  }

  /** A successful solve leaves arrays that `verify_solution` accepts, whether it is given
      the reduced system the solver leaves or the original one. */
  lemma SolvedPassesVerification(S: Sys)
    requires WellFormed(S) && |S.b| >= 1 && Solve(S).Solved?
    ensures ResidualsWithin(Solve(S).S.A, Solve(S).S.b, Solve(S).x, SequentialTolerance)
    ensures ResidualsWithin(S.A, S.b, Solve(S).x, SequentialTolerance)
  {
    SolveCorrect(S);
  }
}
