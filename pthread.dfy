/** `gaussian_elimination_pthread` of pthread.c. Each forward step starts a team of threads
    to search a chunk of rows k..n-1 for the pivot, each merging its local maximum into a
    shared (row, value) pair under a mutex, and then a second team to eliminate the chunks
    of rows k+1..n-1. The threads of a team are modelled as running one after another: the
    pivot merges in any order the mutex grants, the elimination chunks in index order (they
    write disjoint rows and read only row k, which none of them writes). */
module Pthread {
  import opened LinAlg
  import opened Gauss
  import opened Utils
  import opened Partition

  /** A thread's local maximum (pthread.c:134-144): it starts from row k with |A[k][k]| when
      its chunk starts at or above k and from 0 otherwise, and scans its chunk's rows that
      are at or below k and inside the matrix. */
  function LocalPivot(A: Matrix, k: nat, start: int, end: int): (int, real)
    requires k < |A| && HasColumn(A, k)
  {
    var lo := if start > k then start else k;
    var hi := if end < |A| then end else |A|;
    Scan(A, k, lo, hi, k, if start <= k then Abs(A[k][k]) else 0.0)
  }

  /** The merge under the mutex (pthread.c:147-152): a local maximum replaces the shared one
      only when strictly larger. */
  function Merge(shared: (int, real), local: (int, real)): (r: (int, real))
    ensures r == shared || r == local
    ensures r.1 >= shared.1 && r.1 >= local.1
  {
    if local.1 > shared.1 then local else shared
  }

  /** The local maximum, on step k, of thread i of T whose chunks cut the rows from base
      to n - 1. */
  function ChunkLocal(A: Matrix, k: nat, base: nat, T: nat, i: int): (int, real)
    requires k < |A| && HasColumn(A, k) && base <= k && T >= 1
  {
    LocalPivot(A, k, ChunkStart(base, |A| - base, T, i), ChunkEnd(base, |A| - base, T, i))
  }

  /** The shared pair after the threads listed in order have merged, one after another. */
  function MergeLocals(A: Matrix, k: nat, base: nat, T: nat, order: seq<int>, shared: (int, real)): (int, real)
    requires k < |A| && HasColumn(A, k) && base <= k && T >= 1
    decreases |order|
  {
    if |order| == 0 then shared
    else MergeLocals(A, k, base, T, order[1..], Merge(shared, ChunkLocal(A, k, base, T, order[0])))
  }

  /** The threads 0, 1, ..., T-1. */
  function Iota(T: nat): (s: seq<int>)
    ensures |s| == T && forall i :: 0 <= i < T ==> s[i] == i
  {
    seq(T, i => i)
  }

  /** `find_pivot_thread` (pthread.c:130-155): the local scan of the chunk [start, end),
      then the merge into the shared pair. */
  method FindPivotThread(sys: LinearSystem, k: nat, start: int, end: int, pivotRow: int, pivotValue: real)
    returns (newRow: int, newValue: real)
    requires sys.Valid() && k < sys.n
    ensures (newRow, newValue) == Merge((pivotRow, pivotValue), LocalPivot(sys.A[..], k, start, end))
  {
    ghost var M := sys.A[..];
    var localRow := k;
    var localVal := if start <= k then Abs(sys.A[k][k]) else 0.0;
    var i := if start > k then start else k;
    ghost var lo := i;
    ghost var hi := if end < sys.n then end else sys.n;
    while i < end && i < sys.n
      invariant lo <= i && (i <= hi || hi < lo)
      invariant Scan(M, k, i, hi, localRow, localVal) == LocalPivot(M, k, start, end)
      decreases sys.n - i
    {
      if Abs(sys.A[i][k]) > localVal {
        localVal := Abs(sys.A[i][k]);
        localRow := i;
      }
      i := i + 1;
    }
    newRow, newValue := pivotRow, pivotValue;
    if localVal > newValue {
      newValue := localVal;
      newRow := localRow;
    }
  }

  /** The pivot phase of step k (pthread.c:193-233): the shared pair starts as
      (k, |A[k][k]|) and the T threads merge into it in the order the mutex grants. */
  method PivotSearch(sys: LinearSystem, k: nat, T: nat, order: seq<int>)
    returns (pivotRow: int, pivotValue: real)
    requires sys.Valid() && k < sys.n && T >= 1
    ensures (pivotRow, pivotValue) == MergeLocals(sys.A[..], k, k, T, order, (k, Abs(sys.A[k][k])))
  {
    ghost var M := sys.A[..];
    var n := sys.n;
    pivotRow, pivotValue := k, Abs(sys.A[k][k]);
    var t := 0;
    while t < |order|
      invariant 0 <= t <= |order|
      invariant MergeLocals(M, k, k, T, order[t..], (pivotRow, pivotValue)) ==
                MergeLocals(M, k, k, T, order, (k, Abs(M[k][k])))
    {
      var i := order[t];
      var start, end := ThreadChunk(k, n - k, T, i);
      assert order[t..][1..] == order[t + 1..];
      pivotRow, pivotValue := FindPivotThread(sys, k, start, end, pivotRow, pivotValue);
      t := t + 1;
    }
  }

  /** Scanning [lo, mid) and then [mid, hi) is scanning [lo, hi). */
  lemma {:induction false} ScanConcat(A: Matrix, k: nat, lo: int, mid: int, hi: int, row: int, val: real)
    requires 0 <= lo <= mid <= hi <= |A| && HasColumn(A, k)
    ensures var m := Scan(A, k, lo, mid, row, val);
      Scan(A, k, lo, hi, row, val) == Scan(A, k, mid, hi, m.0, m.1)
    decreases mid - lo
  {
    if lo < mid {
      if Abs(A[lo][k]) > val {
        ScanConcat(A, k, lo + 1, mid, hi, lo, Abs(A[lo][k]));
      } else {
        ScanConcat(A, k, lo + 1, mid, hi, row, val);
      }
    }
  }

  /** Scanning a range from a starting value no larger than the shared one, then merging,
      is scanning that range from the shared pair: the strict comparisons keep the first
      row of the larger maximum either way. */
  lemma ScanRestart(A: Matrix, k: nat, lo: int, hi: int, shared: (int, real), row: int, init: real)
    requires 0 <= lo <= hi <= |A| && HasColumn(A, k) && init <= shared.1
    ensures Merge(shared, Scan(A, k, lo, hi, row, init)) == Scan(A, k, lo, hi, shared.0, shared.1)
  {
    var l := Scan(A, k, lo, hi, row, init);
    var g := Scan(A, k, lo, hi, shared.0, shared.1);
    ScanSpec(A, k, lo, hi, row, init);
    ScanSpec(A, k, lo, hi, shared.0, shared.1);
    if g.1 > shared.1 {
      assert Abs(A[g.0][k]) <= l.1;
      assert l.1 == g.1;
      assert !(l.0 < g.0) && !(g.0 < l.0);
    } else {
      assert g == shared;
    }
  }

  /** A thread's local maximum is the scan of the part of its chunk at or below row k,
      or the starting pair when its chunk lies above row k. */
  lemma ChunkLocalIsScan(A: Matrix, k: nat, base: nat, T: nat, i: int)
    requires k < |A| && HasColumn(A, k) && base <= k && T >= 1 && 0 <= i < T
    ensures var s, e := ChunkStart(base, |A| - base, T, i), ChunkEnd(base, |A| - base, T, i);
      base <= s <= e <= |A| &&
      ChunkLocal(A, k, base, T, i) ==
        if e <= k then (k, Abs(A[k][k]))
        else Scan(A, k, if s > k then s else k, e, k, if s <= k then Abs(A[k][k]) else 0.0)
  {
    ChunkBounds(base, |A| - base, T, i);
  }

  /** The rows [k, c) the in-order merges have scanned before thread t: up to where thread
      t's chunk starts, or to n once every thread has merged. */
  function Covered(A: Matrix, k: nat, base: nat, T: nat, t: int): int
    requires k < |A| && base <= k && T >= 1
  {
    if t >= T then |A|
    else var s := ChunkStart(base, |A| - base, T, t); if s > k then s else k
  }

  lemma {:induction false} InOrderFrom(A: Matrix, k: nat, base: nat, T: nat, t: nat)
    requires k < |A| && HasColumn(A, k) && base <= k && T >= 1 && t <= T
    ensures k <= Covered(A, k, base, T, t) <= |A|
    ensures var c := Scan(A, k, k, Covered(A, k, base, T, t), k, Abs(A[k][k]));
      MergeLocals(A, k, base, T, Iota(T)[t..], c) == Scan(A, k, k, |A|, k, Abs(A[k][k]))
    decreases T - t
  {
    var v0 := Abs(A[k][k]);
    var len := |A| - base;
    if t < T {
      var s, e := ChunkStart(base, len, T, t), ChunkEnd(base, len, T, t);
      ChunkLocalIsScan(A, k, base, T, t);
      if t < T - 1 {
        ChunkNext(base, len, T, t);
      } else {
        ChunkLast(base, len, T);
      }
      var lo := Covered(A, k, base, T, t);
      var c := Scan(A, k, k, lo, k, v0);
      ScanSpec(A, k, k, lo, k, v0);
      if e <= k {
        assert lo == k && Covered(A, k, base, T, t + 1) == k;
        assert Merge(c, ChunkLocal(A, k, base, T, t)) == c;
      } else {
        assert Covered(A, k, base, T, t + 1) == e;
        var init := if s <= k then v0 else 0.0;
        ScanRestart(A, k, lo, e, c, k, init);
        ScanConcat(A, k, k, lo, e, k, v0);
        assert Merge(c, ChunkLocal(A, k, base, T, t)) == Scan(A, k, k, e, k, v0);
      }
      assert Iota(T)[t..][0] == t && Iota(T)[t..][1..] == Iota(T)[t + 1..];
      InOrderFrom(A, k, base, T, t + 1);
    }
  }

  /** When the mutex is granted in thread order the shared pair ends as the sequential
      pivot search of utils.c leaves it: the first row of maximal |A[i][k]| and that
      magnitude. */
  lemma PivotSearchInOrder(A: Matrix, k: nat, base: nat, T: nat)
    requires k < |A| && HasColumn(A, k) && base <= k && T >= 1
    ensures MergeLocals(A, k, base, T, Iota(T), (k, Abs(A[k][k]))) == (Pivot(A, k), Abs(A[Pivot(A, k)][k]))
  {
    var v0 := Abs(A[k][k]);
    ChunksTile(base, |A| - base, T);
    assert Covered(A, k, base, T, 0) == k;
    InOrderFrom(A, k, base, T, 0);
    assert Iota(T)[0..] == Iota(T);
    ScanConcat(A, k, k, k + 1, |A|, k, v0);
    assert Scan(A, k, k, k + 1, k, v0) == (k, v0);
    ScanSpec(A, k, k + 1, |A|, k, v0);
  }

  /** Folding any thread order into a shared pair that names a row of [k, n) and its
      magnitude yields a pair that does too, at least as large as the start and as every
      merged local maximum. */
  lemma {:induction false} MergeLocalsBounds(A: Matrix, k: nat, base: nat, T: nat, order: seq<int>, shared: (int, real))
    requires k < |A| && HasColumn(A, k) && base <= k && T >= 1
    requires k <= shared.0 < |A| && Abs(A[shared.0][k]) == shared.1
    ensures var r := MergeLocals(A, k, base, T, order, shared);
      k <= r.0 < |A| && Abs(A[r.0][k]) == r.1 && r.1 >= shared.1 &&
      forall u :: 0 <= u < |order| ==> r.1 >= ChunkLocal(A, k, base, T, order[u]).1
    decreases |order|
  {
    if |order| > 0 {
      var l := ChunkLocal(A, k, base, T, order[0]);
      var s, e := ChunkStart(base, |A| - base, T, order[0]), ChunkEnd(base, |A| - base, T, order[0]);
      var lo := if s > k then s else k;
      var hi := if e < |A| then e else |A|;
      if lo <= hi {
        ScanSpec(A, k, lo, hi, k, if s <= k then Abs(A[k][k]) else 0.0);
      }
      var m := Merge(shared, l);
      MergeLocalsBounds(A, k, base, T, order[1..], m);
      forall u | 0 <= u < |order|
        ensures MergeLocals(A, k, base, T, order, shared).1 >= ChunkLocal(A, k, base, T, order[u]).1
      {
        if u > 0 {
          assert order[u] == order[1..][u - 1];
        }
      }
    }
  }

  /** Whatever order the mutex is granted in, the shared pair ends with the largest
      magnitude of column k on or below row k, and names a row of [k, n) having it. With
      ties between chunks the row named may be another than the sequential search names. */
  lemma PivotSearchAnyOrder(A: Matrix, k: nat, base: nat, T: nat, order: seq<int>)
    requires k < |A| && HasColumn(A, k) && base <= k && T >= 1 && IsOrderOf(order, 0, T)
    ensures var r := MergeLocals(A, k, base, T, order, (k, Abs(A[k][k])));
      k <= r.0 < |A| && Abs(A[r.0][k]) == r.1 && r.1 == Abs(A[Pivot(A, k)][k])
  {
    var r := MergeLocals(A, k, base, T, order, (k, Abs(A[k][k])));
    var len := |A| - base;
    MergeLocalsBounds(A, k, base, T, order, (k, Abs(A[k][k])));
    forall i | k <= i < |A| ensures Abs(A[i][k]) <= r.1 {
      ChunkOwnerUnique(base, len, T, i);
      var c :| 0 <= c < T && ChunkStart(base, len, T, c) <= i < ChunkEnd(base, len, T, c);
      assert c in order;
      var u :| 0 <= u < |order| && order[u] == c;
      ChunkLocalIsScan(A, k, base, T, c);
      var s := ChunkStart(base, len, T, c);
      ScanSpec(A, k, if s > k then s else k, ChunkEnd(base, len, T, c), k, if s <= k then Abs(A[k][k]) else 0.0);
    }
  }

  /** `elimination_thread` (pthread.c:160-179): the rows of [start, end) inside the matrix
      and below row k are reduced against row k; nothing else changes. */
  method EliminationThread(sys: LinearSystem, k: nat, start: nat, end: int)
    requires sys.Valid() && k < sys.n && sys.A[k][k] != 0.0
    modifies sys.A, sys.b
    ensures sys.Valid()
    ensures sys.System() ==
      PartialElim(old(sys.System()), k, Range(start, if end < sys.n then end else sys.n),
                  old(sys.A[k]), old(sys.b[k]))
  {
    ghost var S := sys.System();
    ghost var hi := if end < sys.n then end else sys.n;
    ghost var top := if hi < start then start else hi;
    PartialElimNone(S, k, S.A[k], S.b[k]);
    var i := start;
    ghost var done := Range(start, i);
    while i < end && i < sys.n
      invariant start <= i <= top
      invariant sys.Valid() && sys.A[k] == S.A[k] && sys.b[k] == S.b[k]
      invariant done == Range(start, i)
      invariant sys.System() == PartialElim(S, k, done, S.A[k], S.b[k])
      decreases sys.n - i
    {
      GuardedEliminate(sys, k, start, i, S);
      done := Range(start, i + 1);
      i := i + 1;
    }
    assert Range(start, i) == Range(start, hi);
  }

  /** One iteration of the loop of pthread.c:166-176: row i is reduced when it lies below
      row k and skipped otherwise, so [start, i) grows to [start, i + 1). */
  method GuardedEliminate(sys: LinearSystem, k: nat, start: int, i: nat, ghost S: Sys)
    requires sys.Valid() && WellFormed(S) && |S.b| == sys.n && k < sys.n && start <= i < sys.n
    requires S.A[k][k] != 0.0 && sys.A[k] == S.A[k] && sys.b[k] == S.b[k]
    requires sys.System() == PartialElim(S, k, Range(start, i), S.A[k], S.b[k])
    modifies sys.A, sys.b
    ensures sys.Valid() && sys.A[k] == S.A[k] && sys.b[k] == S.b[k]
    ensures sys.System() == PartialElim(S, k, Range(start, i + 1), S.A[k], S.b[k])
  {
    assert Range(start, i + 1) == Range(start, i) + {i};
    if i > k {
      EliminateOneMore(sys, k, i, S, Range(start, i));
    } else {
      PartialElimSkip(S, k, Range(start, i), i, S.A[k], S.b[k]);
    }
  }

  /** Eliminating one set of rows and then a disjoint one, against the same pivot row, is
      eliminating their union. */
  lemma PartialElimUnion(S: Sys, k: nat, R1: set<int>, R2: set<int>, piv: Vector, pb: real)
    requires WellFormed(S) && k < |S.b| && |piv| == |S.b| && piv[k] != 0.0 && R1 !! R2
    ensures PartialElim(PartialElim(S, k, R1, piv, pb), k, R2, piv, pb) == PartialElim(S, k, R1 + R2, piv, pb)
  {
    var M := PartialElim(S, k, R1, piv, pb);
    var L := PartialElim(M, k, R2, piv, pb);
    var R := PartialElim(S, k, R1 + R2, piv, pb);
    assert forall i :: 0 <= i < |S.b| ==> L.A[i] == R.A[i];
    assert forall i :: 0 <= i < |S.b| ==> L.b[i] == R.b[i];
  }

  /** Hence the elimination threads of a step may finish in any order. */
  lemma EliminationOrderFree(S: Sys, k: nat, R1: set<int>, R2: set<int>, piv: Vector, pb: real)
    requires WellFormed(S) && k < |S.b| && |piv| == |S.b| && piv[k] != 0.0 && R1 !! R2
    ensures PartialElim(PartialElim(S, k, R1, piv, pb), k, R2, piv, pb) ==
            PartialElim(PartialElim(S, k, R2, piv, pb), k, R1, piv, pb)
  {
    PartialElimUnion(S, k, R1, R2, piv, pb);
    PartialElimUnion(S, k, R2, R1, piv, pb);
    assert R1 + R2 == R2 + R1;
  }

  /** The elimination phase of step k (pthread.c:255-293): rows k+1..n-1 are cut into T
      chunks, a thread is started for each chunk that is not empty and lies inside the
      matrix, and all are joined. The result is the sequential elimination of step k. */
  method EliminationPhase(sys: LinearSystem, k: nat, T: nat)
    requires sys.Valid() && k + 1 < sys.n && sys.A[k][k] != 0.0 && T >= 1
    modifies sys.A, sys.b
    ensures sys.Valid() && sys.System() == Eliminate(old(sys.System()), k)
  {
    ghost var S := sys.System();
    PartialElimNone(S, k, S.A[k], S.b[k]);
    assert Range(k + 1, k + 1) == {};
    var i := 0;
    while i < T
      invariant 0 <= i <= T && sys.Valid() && sys.A[k] == S.A[k] && sys.b[k] == S.b[k]
      invariant sys.System() == PartialElim(S, k, Range(k + 1, ElimCovered(sys.n, k, T, i)), S.A[k], S.b[k])
    {
      EliminationThreadAt(sys, k, T, i, S);
      i := i + 1;
    }
  }

  /** Where elimination thread i's chunk of step k starts, or n once every thread of the
      team has run. */
  function ElimCovered(n: nat, k: nat, T: nat, i: int): int
    requires k + 1 < n && T >= 1
  {
    if i >= T then n else ChunkStart(k + 1, n - k - 1, T, i)
  }

  /** Elimination thread i of step k (pthread.c:264-283): its chunk's bounds, and the
      thread when the chunk is not empty and starts inside the matrix. */
  method EliminationThreadAt(sys: LinearSystem, k: nat, T: nat, i: nat, ghost S: Sys)
    requires sys.Valid() && WellFormed(S) && |S.b| == sys.n && k + 1 < sys.n && T >= 1 && i < T
    requires S.A[k][k] != 0.0 && sys.A[k] == S.A[k] && sys.b[k] == S.b[k]
    requires sys.System() == PartialElim(S, k, Range(k + 1, ElimCovered(sys.n, k, T, i)), S.A[k], S.b[k])
    modifies sys.A, sys.b
    ensures sys.Valid() && sys.A[k] == S.A[k] && sys.b[k] == S.b[k]
    ensures sys.System() == PartialElim(S, k, Range(k + 1, ElimCovered(sys.n, k, T, i + 1)), S.A[k], S.b[k])
  {
    var n := sys.n;
    var start, end := ThreadChunk(k + 1, n - k - 1, T, i);
    ElimCoveredChunk(n, k, T, i);
    EliminationChunk(sys, k, k + 1, start, end, S);
  }

  /** Thread i's chunk of step k runs from the rows covered by threads below i to those
      covered by threads up to i, inside [k + 1, n]. */
  lemma ElimCoveredChunk(n: nat, k: nat, T: nat, i: nat)
    requires k + 1 < n && T >= 1 && i < T
    ensures ElimCovered(n, k, T, i) == ChunkStart(k + 1, n - k - 1, T, i)
    ensures ElimCovered(n, k, T, i + 1) == ChunkEnd(k + 1, n - k - 1, T, i)
    ensures k + 1 <= ChunkStart(k + 1, n - k - 1, T, i) <= ChunkEnd(k + 1, n - k - 1, T, i) <= n
  {
    ChunkBounds(k + 1, n - k - 1, T, i);
    if i < T - 1 {
      ChunkNext(k + 1, n - k - 1, T, i);
    } else {
      ChunkLast(k + 1, n - k - 1, T);
    }
  }

  /** One thread of an elimination phase, started only for a chunk [start, end) that is
      not empty and starts inside the matrix: the rows eliminated so far, [lo, start), grow
      to [lo, end). */
  method EliminationChunk(sys: LinearSystem, k: nat, lo: int, start: int, end: int, ghost S: Sys)
    requires sys.Valid() && WellFormed(S) && |S.b| == sys.n && k < sys.n
    requires 0 <= lo <= start <= end <= sys.n
    requires S.A[k][k] != 0.0 && sys.A[k] == S.A[k] && sys.b[k] == S.b[k]
    requires sys.System() == PartialElim(S, k, Range(lo, start), S.A[k], S.b[k])
    modifies sys.A, sys.b
    ensures sys.Valid() && sys.A[k] == S.A[k] && sys.b[k] == S.b[k]
    ensures sys.System() == PartialElim(S, k, Range(lo, end), S.A[k], S.b[k])
  {
    if start < end && start < sys.n {
      EliminationThread(sys, k, start, end);
      PartialElimUnion(S, k, Range(lo, start), Range(start, end), S.A[k], S.b[k]);
      RangeConcat(lo, start, end);
    }
  }

  /** Step k (pthread.c:187-293): the pivot phase with the mutex granted in thread order,
      the pivot test, the exchange and the elimination phase. */
  method StepPthread(sys: LinearSystem, k: nat, T: nat) returns (ok: bool)
    requires sys.Valid() && k + 1 < sys.n && T >= 1
    modifies sys.A, sys.b
    ensures sys.Valid()
    ensures Step(old(sys.System()), k) == Outcome(sys.System(), ok)
    ensures ok ==> ForwardFrom(old(sys.System()), k) == ForwardFrom(sys.System(), k + 1)
    ensures !ok ==> ForwardFrom(old(sys.System()), k) == Outcome(sys.System(), false)
  {
    var pivotRow, pivotValue := PivotSearch(sys, k, T, Iota(T));
    PivotSearchInOrder(sys.A[..], k, k, T);
    if pivotValue < Tiny {
      ForwardFromFails(sys.System(), k);
      return false;
    }
    ForwardFromPasses(sys.System(), k);
    SwapRows(sys, k, pivotRow);
    EliminationPhase(sys, k, T);
    return true;
  }

  /** `gaussian_elimination_pthread` (pthread.c:184-320) with T threads per team. It returns
      what the sequential solver returns and leaves A, b and x as it does. */
  method GaussianEliminationPthread(sys: LinearSystem, T: nat) returns (ok: bool)
    requires sys.Valid() && sys.n >= 1 && T >= 1
    modifies sys.A, sys.b, sys.x
    ensures sys.Valid()
    ensures ok <==> Solve(old(sys.System())).Solved?
    ensures sys.System() == Solve(old(sys.System())).S
    ensures ok ==> sys.x[..] == Solve(old(sys.System())).x
    ensures !ok ==> sys.x[..] == old(sys.x[..])
  {
    SolveCases(sys.System());
    ok := ForwardEliminatePthread(sys, T);
    if !ok {
      return;
    }
    var n := sys.n;
    if Abs(sys.A[n - 1][n - 1]) < Tiny {
      return false;
    }
    BackSubstitute(sys);
  }

  /** The forward phase of pthread.c:187-294. */
  method ForwardEliminatePthread(sys: LinearSystem, T: nat) returns (ok: bool)
    requires sys.Valid() && sys.n >= 1 && T >= 1
    modifies sys.A, sys.b
    ensures sys.Valid()
    ensures ForwardFrom(old(sys.System()), 0) == Outcome(sys.System(), ok)
  {
    ghost var target := ForwardFrom(sys.System(), 0);
    var k := 0;
    while k < sys.n - 1
      invariant 0 <= k <= sys.n - 1 && sys.Valid()
      invariant ForwardFrom(sys.System(), k) == target
    {
      ok := StepPthread(sys, k, T);
      if !ok {
        return;
      }
      k := k + 1;
    }
    return true;
  }
}
