/** `gaussian_elimination_pthread` of pthread_version.c. T threads are started once and
    each owns a fixed chunk of the rows 0..n-1 for the whole run. Every step k is four
    phases separated by barriers: the thread whose chunk starts at row 0 (the leader)
    resets the shared pivot pair, every thread merges its local maximum into it under a
    mutex, the leader tests the pivot and exchanges the rows, and every thread eliminates
    the rows of its chunk below row k. The phases are modelled as running one after
    another and, within a phase, thread after thread. */
module PthreadVersion {
  import opened LinAlg
  import opened Gauss
  import opened Utils
  import opened Partition
  import opened Pthread

  /** `find_pivot_parallel`'s local maximum (pthread_version.c:24-33): like pthread.c's, but
      a chunk that starts at or above row k is scanned from row k+1. */
  function LocalPivotFrom(A: Matrix, k: nat, start: int, end: int): (int, real)
    requires k < |A| && HasColumn(A, k)
  {
    var lo := if start > k then start else k + 1;
    var hi := if end < |A| then end else |A|;
    Scan(A, k, lo, hi, k, if start <= k then Abs(A[k][k]) else 0.0)
  }

  /** Skipping row k changes nothing, since its magnitude is the starting value and the
      comparison is strict: both variants find the same local maximum. */
  lemma LocalPivotFromAgrees(A: Matrix, k: nat, start: int, end: int)
    requires k < |A| && HasColumn(A, k)
    ensures LocalPivotFrom(A, k, start, end) == LocalPivot(A, k, start, end)
  {
    var hi := if end < |A| then end else |A|;
    if start <= k && k < hi {
      assert Scan(A, k, k, hi, k, Abs(A[k][k])) == Scan(A, k, k + 1, hi, k, Abs(A[k][k]));
    }
  }

  /** `find_pivot_parallel` (pthread_version.c:23-42): the local scan, then the merge into
      the shared pair under the mutex. */
  method FindPivotParallel(sys: LinearSystem, k: nat, start: int, end: int, pivotRow: int, pivotValue: real)
    returns (newRow: int, newValue: real)
    requires sys.Valid() && k < sys.n
    ensures (newRow, newValue) == Merge((pivotRow, pivotValue), LocalPivotFrom(sys.A[..], k, start, end))
  {
    ghost var M := sys.A[..];
    var localRow := k;
    var localVal := if start <= k then Abs(sys.A[k][k]) else 0.0;
    var i := if start > k then start else k + 1;
    ghost var lo := i;
    ghost var hi := if end < sys.n then end else sys.n;
    while i < end && i < sys.n
      invariant lo <= i && (i <= hi || hi < lo)
      invariant Scan(M, k, i, hi, localRow, localVal) == LocalPivotFrom(M, k, start, end)
      decreases sys.n - i
    {
      if Abs(sys.A[i][k]) > localVal {
        localVal := Abs(sys.A[i][k]);
        localRow := i;
      }
      i := i + 1;
    }
    newRow, newValue := pivotRow, pivotValue;
    if localVal > newValue {
      newValue := localVal;
      newRow := localRow;
    }
  }

  /** The pivot phase of step k (pthread_version.c:54-67): the leader resets the shared pair
      to (k, |A[k][k]|), then the threads, owning the chunks of rows 0..n-1, merge in the
      order the mutex grants. */
  method PivotPhase(sys: LinearSystem, k: nat, T: nat, order: seq<int>)
    returns (pivotRow: int, pivotValue: real)
    requires sys.Valid() && k < sys.n && T >= 1
    ensures (pivotRow, pivotValue) == MergeLocals(sys.A[..], k, 0, T, order, (k, Abs(sys.A[k][k])))
  {
    ghost var M := sys.A[..];
    var n := sys.n;
    pivotRow, pivotValue := k, Abs(sys.A[k][k]);
    var t := 0;
    while t < |order|
      invariant 0 <= t <= |order|
      invariant MergeLocals(M, k, 0, T, order[t..], (pivotRow, pivotValue)) ==
                MergeLocals(M, k, 0, T, order, (k, Abs(M[k][k])))
    {
      var i := order[t];
      var start, end := ThreadChunk(0, n, T, i);
      assert order[t..][1..] == order[t + 1..];
      LocalPivotFromAgrees(M, k, start, end);
      pivotRow, pivotValue := FindPivotParallel(sys, k, start, end, pivotRow, pivotValue);
      t := t + 1;
    }
  }

  /** Where thread i's chunk starts, or n once every thread of the team has run. */
  function OwnCovered(n: nat, T: nat, i: int): int
    requires T >= 1
  {
    if i >= T then n else ChunkStart(0, n, T, i)
  }

  /** Thread i's part of the elimination phase of step k (pthread_version.c:94-104): the
      rows of its chunk below row k. */
  method EliminationOwnChunk(sys: LinearSystem, k: nat, T: nat, i: nat, ghost S: Sys)
    requires sys.Valid() && WellFormed(S) && |S.b| == sys.n && k < sys.n && T >= 1 && i < T
    requires S.A[k][k] != 0.0 && sys.A[k] == S.A[k] && sys.b[k] == S.b[k]
    requires sys.System() == PartialElim(S, k, Range(0, OwnCovered(sys.n, T, i)), S.A[k], S.b[k])
    modifies sys.A, sys.b
    ensures sys.Valid() && sys.A[k] == S.A[k] && sys.b[k] == S.b[k]
    ensures sys.System() == PartialElim(S, k, Range(0, OwnCovered(sys.n, T, i + 1)), S.A[k], S.b[k])
  {
    var n := sys.n;
    var start, end := ThreadChunk(0, n, T, i);
    assert start == OwnCovered(n, T, i);
    ChunkBounds(0, n, T, i);
    if i < T - 1 {
      ChunkNext(0, n, T, i);
    } else {
      ChunkLast(0, n, T);
    }
    assert end == OwnCovered(n, T, i + 1);
    EliminationThread(sys, k, start, end);
    PartialElimUnion(S, k, Range(0, start), Range(start, end), S.A[k], S.b[k]);
    RangeConcat(0, start, end);
  }

  /** The elimination phase of step k (pthread_version.c:93-107): every thread in turn.
      Together they perform the sequential elimination of step k. */
  method EliminationPhaseVersion(sys: LinearSystem, k: nat, T: nat)
    requires sys.Valid() && k < sys.n && sys.A[k][k] != 0.0 && T >= 1
    modifies sys.A, sys.b
    ensures sys.Valid() && sys.System() == Eliminate(old(sys.System()), k)
  {
    ghost var S := sys.System();
    PartialElimNone(S, k, S.A[k], S.b[k]);
    assert Range(0, 0) == {};
    var i := 0;
    while i < T
      invariant 0 <= i <= T && sys.Valid() && sys.A[k] == S.A[k] && sys.b[k] == S.b[k]
      invariant sys.System() == PartialElim(S, k, Range(0, OwnCovered(sys.n, T, i)), S.A[k], S.b[k])
    {
      EliminationOwnChunk(sys, k, T, i, S);
      i := i + 1;
    }
    PartialElimBelowOnly(S, k, S.A[k], S.b[k]);
  }

  /** Step k of the thread bodies (pthread_version.c:52-108) with the mutex granted in
      thread order: on a pivot below 1e-12 the step reports failure, otherwise the leader
      exchanges the rows once and the team eliminates. */
  method StepVersion(sys: LinearSystem, k: nat, T: nat) returns (ok: bool)
    requires sys.Valid() && k + 1 < sys.n && T >= 1
    modifies sys.A, sys.b
    ensures sys.Valid()
    ensures Step(old(sys.System()), k) == Outcome(sys.System(), ok)
    ensures ok ==> ForwardFrom(old(sys.System()), k) == ForwardFrom(sys.System(), k + 1)
    ensures !ok ==> ForwardFrom(old(sys.System()), k) == Outcome(sys.System(), false)
  {
    var pivotRow, pivotValue := PivotPhase(sys, k, T, Iota(T));
    PivotSearchInOrder(sys.A[..], k, 0, T);
    if pivotValue < Tiny {
      ForwardFromFails(sys.System(), k);
      return false;
    }
    ForwardFromPasses(sys.System(), k);
    SwapRows(sys, k, pivotRow);
    EliminationPhaseVersion(sys, k, T);
    return true;
  }

  /** The forward phase the thread team runs (pthread_version.c:51-109). */
  method ForwardEliminateVersion(sys: LinearSystem, T: nat) returns (ok: bool)
    requires sys.Valid() && sys.n >= 1 && T >= 1
    modifies sys.A, sys.b
    ensures sys.Valid()
    ensures ForwardFrom(old(sys.System()), 0) == Outcome(sys.System(), ok)
  {
    ghost var target := ForwardFrom(sys.System(), 0);
    var k := 0;
    while k < sys.n - 1
      invariant 0 <= k <= sys.n - 1 && sys.Valid()
      invariant ForwardFrom(sys.System(), k) == target
    {
      ok := StepVersion(sys, k, T);
      if !ok {
        return;
      }
      k := k + 1;
    }
    return true;
  }

  /** `gaussian_elimination_pthread` of pthread_version.c (pthread_version.c:116-180), with a
      failed pivot test ending the run with failure. It returns what the sequential solver
      returns and leaves A, b and x as it does. */
  method GaussianEliminationPthreadVersion(sys: LinearSystem, T: nat) returns (ok: bool)
    requires sys.Valid() && sys.n >= 1 && T >= 1
    modifies sys.A, sys.b, sys.x
    ensures sys.Valid()
    ensures ok <==> Solve(old(sys.System())).Solved?
    ensures sys.System() == Solve(old(sys.System())).S
    ensures ok ==> sys.x[..] == Solve(old(sys.System())).x
    ensures !ok ==> sys.x[..] == old(sys.x[..])
  {
    SolveCases(sys.System());
    ok := ForwardEliminateVersion(sys, T);
    if !ok {
      return;
    }
    var n := sys.n;
    if Abs(sys.A[n - 1][n - 1]) < Tiny {
      return false;
    }
    BackSubstitute(sys);
  }

  /** As written, a failed pivot test makes the leader call `pthread_exit`
      (pthread_version.c:70-75). With one thread the main thread's join then returns, and it
      goes on to the final test of A[n-1][n-1] (pthread_version.c:157-163) on the system the
      failed step left: this is what it returns. */
  ghost function SingleThreadVerdictAsWritten(S: Sys): bool
    requires WellFormed(S) && |S.b| >= 1
  {
    var n := |S.b|;
    Abs(ForwardFrom(S, 0).S.A[n - 1][n - 1]) >= Tiny
  }

  /** The written verdict agrees with the sequential solver whenever no pivot test fails. */
  lemma SingleThreadVerdictWhenNoPivotFails(S: Sys)
    requires WellFormed(S) && |S.b| >= 1 && ForwardFrom(S, 0).ok
    ensures SingleThreadVerdictAsWritten(S) <==> Solve(S).Solved?
  {
    SolveCases(S);
  }

  /** A singular system the written code reports solved with one thread: the pivot of
      column 0 is 0, the leader exits, and A[1][1] = 1 passes the final test. Back
      substitution then divides by A[0][0] = 0. */
  lemma SingleThreadExitCounterexample()
    ensures var S := Sys([[0.0, 0.0], [0.0, 1.0]], [0.0, 1.0]);
      WellFormed(S) && SingleThreadVerdictAsWritten(S) && Solve(S).Singular?
  {
    var S := Sys([[0.0, 0.0], [0.0, 1.0]], [0.0, 1.0]);
    assert WellFormed(S);
    var p := Pivot(S.A, 0);
    assert Abs(S.A[p][0]) == 0.0;
    ForwardFromFails(S, 0);
    SolveCases(S);
  }

  /** Thread i is a leader when its chunk starts at row 0 (pthread_version.c:55, 70). */
  predicate IsLeader(n: nat, T: nat, i: int)
    requires T >= 1
  {
    ChunkStart(0, n, T, i) == 0
  }

  /** The number of leaders among threads 0..m-1. */
  function CountLeaders(n: nat, T: nat, m: nat): nat
    requires T >= 1
  {
    if m == 0 then 0 else CountLeaders(n, T, m - 1) + (if IsLeader(n, T, m - 1) then 1 else 0)
  }

  /** With no more threads than rows only thread 0 leads; with more threads than rows every
      chunk but the last is empty, every thread starts at row 0, and every thread leads. */
  lemma {:induction false} LeadersCounted(n: nat, T: nat, m: nat)
    requires T >= 1 && 1 <= m <= T
    ensures T <= n ==> CountLeaders(n, T, m) == 1
    ensures T > n ==> CountLeaders(n, T, m) == m
  {
    LeaderIff(n, T, m - 1);
    if m > 1 {
      LeadersCounted(n, T, m - 1);
    }
  }

  lemma LeaderIff(n: nat, T: nat, i: nat)
    requires T >= 1
    ensures IsLeader(n, T, i) <==> (i == 0 || T > n)
  {
    var q := n / T;
    if T > n {
      assert q == 0;
    } else {
      assert q * T <= n < (q + 1) * T;
      assert q >= 1;
      assert i * q >= i;
    }
  }

  /** As written every leader tests the pivot and exchanges rows k and p
      (pthread_version.c:70-87): with L leaders running one after another the exchange is
      applied L times. */
  function LeaderSwapsAsWritten(S: Sys, k: nat, p: nat, L: nat): (R: Sys)
    requires WellFormed(S) && k < |S.b| && p < |S.b|
    ensures WellFormed(R) && |R.b| == |S.b|
  {
    if L == 0 then S else Swap(LeaderSwapsAsWritten(S, k, p, L - 1), k, p)
  }

  /** An even number of exchanges undoes itself; an odd number is one exchange. */
  lemma {:induction false} LeaderSwapsParity(S: Sys, k: nat, p: nat, L: nat)
    requires WellFormed(S) && k < |S.b| && p < |S.b|
    ensures LeaderSwapsAsWritten(S, k, p, L) == if L % 2 == 0 then S else Swap(S, k, p)
  {
    if L > 0 {
      LeaderSwapsParity(S, k, p, L - 1);
      if L % 2 == 0 {
        SwapTwice(S, k, p);
      }
    }
  }

  lemma SwapTwice(S: Sys, k: nat, p: nat)
    requires WellFormed(S) && k < |S.b| && p < |S.b|
    ensures Swap(Swap(S, k, p), k, p) == S
  {
    var R := Swap(Swap(S, k, p), k, p);
    assert R.A == S.A;
    assert R.b == S.b;
  }

  /** Two rows, four threads: every thread leads, the four exchanges cancel, and the zero
      A[0][0] stays where the single exchange of the intended code would put a 1, so the
      elimination that follows divides by zero. */
  lemma LeaderRaceCounterexample()
    ensures var S := Sys([[0.0, 1.0], [1.0, 0.0]], [1.0, 1.0]);
      WellFormed(S) && CountLeaders(2, 4, 4) == 4 && Pivot(S.A, 0) == 1 &&
      LeaderSwapsAsWritten(S, 0, 1, 4).A[0][0] == 0.0 && Swap(S, 0, 1).A[0][0] == 1.0
  {
    var S := Sys([[0.0, 1.0], [1.0, 0.0]], [1.0, 1.0]);
    assert WellFormed(S);
    LeadersCounted(2, 4, 4);
    var p := Pivot(S.A, 0);
    assert IsFirstMax(S.A, 0, 0, 2, p);
    assert Abs(S.A[1][0]) == 1.0 && Abs(S.A[0][0]) == 0.0;
    LeaderSwapsParity(S, 0, 1, 4);
  }
}
