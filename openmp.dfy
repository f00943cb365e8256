/** `gaussian_elimination_openmp` of openmp.c, whose algorithm openmp_version.c repeats line
    for line. The pivot search and the row exchange run on one thread and are those of
    utils.c; the elimination loop of each step is an OpenMP parallel loop, modelled as its
    iterations run one after another in an order the runtime chooses; back-substitution
    accumulates each row's sum separately before subtracting it. */
module OpenMP {
  import opened LinAlg
  import opened Gauss
  import opened Utils
  import opened Partition

  /** The `#pragma omp parallel for` elimination loop of step k (openmp.c:155-163), its
      iterations run in the given order. Whatever the order, the outcome is the sequential
      elimination. */
  method EliminateInOrder(sys: LinearSystem, k: nat, order: seq<int>)
    requires sys.Valid() && k < sys.n && sys.A[k][k] != 0.0 && IsOrderOf(order, k + 1, sys.n)
    modifies sys.A, sys.b
    ensures sys.Valid() && sys.System() == Eliminate(old(sys.System()), k)
  {
    ghost var S := sys.System();
    ghost var done: set<int> := {};
    PartialElimNone(S, k, S.A[k], S.b[k]);
    var t := 0;
    while t < |order|
      invariant 0 <= t <= |order| && sys.Valid() && sys.A[k] == S.A[k] && sys.b[k] == S.b[k]
      invariant forall u :: 0 <= u < t ==> order[u] in done
      invariant forall u :: t <= u < |order| ==> order[u] !in done
      invariant forall r :: r in done ==> k + 1 <= r < sys.n
      invariant sys.System() == PartialElim(S, k, done, S.A[k], S.b[k])
    {
      var i := order[t];
      EliminateOneMore(sys, k, i, S, done);
      done := done + {i};
      t := t + 1;
    }
    OrderCovers(order, k + 1, sys.n, done);
  }


  /** A set holding every entry of an order of [lo, hi), and nothing outside [lo, hi), is
      [lo, hi). */
  lemma OrderCovers(order: seq<int>, lo: int, hi: int, done: set<int>)
    requires IsOrderOf(order, lo, hi)
    requires forall u :: 0 <= u < |order| ==> order[u] in done
    requires forall r :: r in done ==> lo <= r < hi
    ensures done == Range(lo, hi)
  {
    forall r | lo <= r < hi ensures r in done {
      assert r in order;
      var u :| 0 <= u < |order| && order[u] == r;
    }
  }

  /** An order for every step of forward elimination on n rows. */
  ghost predicate IsSchedule(schedule: seq<seq<int>>, n: nat)
  {
    |schedule| + 1 >= n && forall k :: 0 <= k < |schedule| && k + 1 < n ==> IsOrderOf(schedule[k], k + 1, n)
  }

  /** Step k of the forward phase (openmp.c:122-163): the pivot search, the pivot test, the
      exchange, and the parallel elimination loop run in the given order. */
  method StepOpenMP(sys: LinearSystem, k: nat, order: seq<int>) returns (ok: bool)
    requires sys.Valid() && k + 1 < sys.n && IsOrderOf(order, k + 1, sys.n)
    modifies sys.A, sys.b
    ensures sys.Valid()
    ensures Step(old(sys.System()), k) == Outcome(sys.System(), ok)
    ensures ok ==> ForwardFrom(old(sys.System()), k) == ForwardFrom(sys.System(), k + 1)
    ensures !ok ==> ForwardFrom(old(sys.System()), k) == Outcome(sys.System(), false)
  {
    var maxRow, maxVal := FindPivot(sys, k);
    if maxVal < Tiny {
      ForwardFromFails(sys.System(), k);
      return false;
    }
    ForwardFromPasses(sys.System(), k);
    SwapRows(sys, k, maxRow);
    EliminateInOrder(sys, k, order);
    return true;
  }

  /** The forward phase of openmp.c:121-164, eliminating step k in the order schedule[k]. */
  method ForwardEliminateOpenMP(sys: LinearSystem, schedule: seq<seq<int>>) returns (ok: bool)
    requires sys.Valid() && sys.n >= 1 && IsSchedule(schedule, sys.n)
    modifies sys.A, sys.b
    ensures sys.Valid()
    ensures ForwardFrom(old(sys.System()), 0) == Outcome(sys.System(), ok)
  {
    ghost var target := ForwardFrom(sys.System(), 0);
    var k := 0;
    while k < sys.n - 1
      invariant 0 <= k <= sys.n - 1 && sys.Valid()
      invariant ForwardFrom(sys.System(), k) == target
    {
      ok := StepOpenMP(sys, k, schedule[k]);
      if !ok {
        return;
      }
      k := k + 1;
    }
    return true;
  }

  /** Back-substitution with a separate sum (openmp.c:174-186): x[i] = b[i], then the sum of
      A[i][j] * x[j] over j > i is subtracted, then x[i] is divided by A[i][i]. It computes
      the same x as the in-place loop of utils.c. */
  method BackSubstituteWithSum(sys: LinearSystem)
    requires sys.Valid() && DiagNonZero(sys.A[..], sys.n)
    modifies sys.x
    ensures sys.x[..] == BackSubst(sys.System())
  {
    ghost var S := sys.System();
    ghost var x0 := sys.x[..];
    var i := sys.n;
    while i > 0
      invariant 0 <= i <= sys.n
      invariant BackLoop(S, i, sys.x[..]) == BackLoop(S, sys.n, x0)
    {
      var t := i - 1;
      ghost var xs := sys.x[..];
      sys.x[t] := sys.b[t];
      var sum := 0.0;
      var j := t + 1;
      while j < sys.n
        invariant t < j <= sys.n
        invariant sys.x[..] == xs[t := S.b[t]]
        invariant sum == Sum(S.A[t], xs, t + 1, j)
      {
        sum := sum + sys.A[t][j] * sys.x[j];
        j := j + 1;
      }
      sys.x[t] := sys.x[t] - sum;
      sys.x[t] := sys.x[t] / sys.A[t][t];
      assert sys.x[..] == xs[t := Substituted(S, t, xs)];
      i := t;
    }
    BackLoopReadsWritten(S, sys.n, x0, Zeros(sys.n));
  }

  /** `gaussian_elimination_openmp` (openmp.c:112-189; openmp_version.c:8-85). For every
      schedule of the parallel loops it returns what the sequential solver returns and
      leaves A, b and x as the sequential solver does. */
  method GaussianEliminationOpenMP(sys: LinearSystem, schedule: seq<seq<int>>) returns (ok: bool)
    requires sys.Valid() && sys.n >= 1 && IsSchedule(schedule, sys.n)
    modifies sys.A, sys.b, sys.x
    ensures sys.Valid()
    ensures ok <==> Solve(old(sys.System())).Solved?
    ensures sys.System() == Solve(old(sys.System())).S
    ensures ok ==> sys.x[..] == Solve(old(sys.System())).x
    ensures !ok ==> sys.x[..] == old(sys.x[..])
  {
    SolveCases(sys.System());
    ok := ForwardEliminateOpenMP(sys, schedule);
    if !ok {
      return;
    }
    var n := sys.n;
    if Abs(sys.A[n - 1][n - 1]) < Tiny {
      return false;
    }
    BackSubstituteWithSum(sys);
  }

  /** `verify_solution` of openmp.c (openmp.c:90-106): tolerance 1e-9. */
  method VerifySolution(sys: LinearSystem) returns (ok: bool)
    requires sys.Valid()
    ensures ok <==> ResidualsWithin(sys.A[..], sys.b[..], sys.x[..], ParallelTolerance)
  {
    ok := CheckResiduals(sys, ParallelTolerance);
  }
}
