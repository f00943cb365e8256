/** The sequential reference algorithm of utils.c (`gaussian_elimination_sequential`) as pure
    functions over exact reals, with the facts every parallel variant is proved against:
    the pivot is the first row of maximal magnitude, a swap permutes the equations, a step
    zeroes its column below the diagonal and keeps the solution set, and back-substitution
    solves the resulting upper-triangular system. */
module Gauss {
  import opened LinAlg

  /** The near-zero threshold 1e-12 used by every pivot and diagonal test. */
  const Tiny: real := 0.000000000001

  /** The augmented system: coefficient matrix A and right-hand side b. */
  datatype Sys = Sys(A: Matrix, b: Vector)

  ghost predicate WellFormed(S: Sys)
  {
    IsSquare(S.A, |S.b|)
  }

  /** Every row of A has an entry in column k. */
  ghost predicate HasColumn(A: Matrix, k: nat)
  {
    forall i :: 0 <= i < |A| ==> k < |A[i]|
  }

  /** The strict-`>` running-maximum scan of |A[i][k]| over the rows lo, lo+1, ..., hi-1,
      starting from the candidate (row, val). Every pivot search in the repository is an
      instance of this loop with its own range and starting candidate. */
  function Scan(A: Matrix, k: nat, lo: int, hi: int, row: int, val: real): (int, real)
    requires 0 <= lo && hi <= |A| && HasColumn(A, k)
    decreases hi - lo
  {
    if hi <= lo then (row, val)
    else if Abs(A[lo][k]) > val then Scan(A, k, lo + 1, hi, lo, Abs(A[lo][k]))
    else Scan(A, k, lo + 1, hi, row, val)
  }

  /** What a scan finds: the maximum of the starting value and the scanned magnitudes, and
      either the starting row (nothing strictly larger was seen) or the first scanned row
      reaching that maximum. */
  lemma {:induction false} ScanSpec(A: Matrix, k: nat, lo: int, hi: int, row: int, val: real)
    requires 0 <= lo <= hi <= |A| && HasColumn(A, k)
    ensures var res := Scan(A, k, lo, hi, row, val);
      res.1 >= val &&
      (forall i :: lo <= i < hi ==> Abs(A[i][k]) <= res.1) &&
      (res.1 == val ==> res.0 == row) &&
      (res.1 > val ==> lo <= res.0 < hi && Abs(A[res.0][k]) == res.1 &&
                       forall i :: lo <= i < res.0 ==> Abs(A[i][k]) < res.1)
    decreases hi - lo
  {
    if lo < hi {
      if Abs(A[lo][k]) > val {
        ScanSpec(A, k, lo + 1, hi, lo, Abs(A[lo][k]));
      } else {
        ScanSpec(A, k, lo + 1, hi, row, val);
      }
    }
  }

  /** p is the lowest index in [lo, hi) whose |A[p][k]| is maximal over [lo, hi). */
  ghost predicate IsFirstMax(A: Matrix, k: nat, lo: int, hi: int, p: int)
    requires 0 <= lo && hi <= |A| && HasColumn(A, k)
  {
    lo <= p < hi &&
    (forall i :: lo <= i < hi ==> Abs(A[i][k]) <= Abs(A[p][k])) &&
    (forall i :: lo <= i < p ==> Abs(A[i][k]) < Abs(A[p][k]))
  }

  lemma FirstMaxUnique(A: Matrix, k: nat, lo: int, hi: int, p: int, q: int)
    requires 0 <= lo && hi <= |A| && HasColumn(A, k)
    requires IsFirstMax(A, k, lo, hi, p) && IsFirstMax(A, k, lo, hi, q)
    ensures p == q
  {
    assert Abs(A[q][k]) == Abs(A[p][k]);
    assert !(p < q);
    assert !(q < p);
  }

  /** The pivot row of step k (utils.c:166-174): the scan of rows k+1..n-1 starting from
      (k, |A[k][k]|). Because the comparison is strict it is the first maximal row. */
  function Pivot(A: Matrix, k: nat): (p: nat)
    requires k < |A| && HasColumn(A, k)
    ensures IsFirstMax(A, k, k, |A|, p)
  {
    ScanSpec(A, k, k + 1, |A|, k, Abs(A[k][k]));
    Scan(A, k, k + 1, |A|, k, Abs(A[k][k])).0
  }

  /** The equations of a system, each row of A paired with its entry of b. */
  function Equations(S: Sys): seq<(Vector, real)>
    requires |S.A| == |S.b|
  {
    seq(|S.b|, i requires 0 <= i < |S.b| => (S.A[i], S.b[i]))
  }

  /** Exchange rows k and p of A and the matching entries of b together. */
  function Swap(S: Sys, k: nat, p: nat): (R: Sys)
    requires WellFormed(S) && k < |S.b| && p < |S.b|
    ensures WellFormed(R) && |R.b| == |S.b|
  {
    Sys(S.A[k := S.A[p]][p := S.A[k]], S.b[k := S.b[p]][p := S.b[k]])
  }

  /** A swap permutes the equations and touches no equation other than k and p. */
  lemma SwapPermutes(S: Sys, k: nat, p: nat)
    requires WellFormed(S) && k < |S.b| && p < |S.b|
    ensures var R := Swap(S, k, p);
      multiset(Equations(R)) == multiset(Equations(S)) &&
      R.A[k] == S.A[p] && R.b[k] == S.b[p] && R.A[p] == S.A[k] && R.b[p] == S.b[k] &&
      forall i :: 0 <= i < |S.b| && i != k && i != p ==> R.A[i] == S.A[i] && R.b[i] == S.b[i]
  {
    var E := Equations(S);
    var R := Swap(S, k, p);
    assert Equations(R) == E[k := E[p]][p := E[k]];
  }

  /** R has exactly the solutions of S. */
  ghost predicate SameSolutions(S: Sys, R: Sys)
  {
    forall x :: Solves(S.A, S.b, x) <==> Solves(R.A, R.b, x)
  }

  lemma SwapSameSolutions(S: Sys, k: nat, p: nat)
    requires WellFormed(S) && k < |S.b| && p < |S.b|
    ensures SameSolutions(S, Swap(S, k, p))
  {
    var R := Swap(S, k, p);
    var n := |S.b|;
    forall x | Solves(S.A, S.b, x) ensures Solves(R.A, R.b, x) {
      forall i | 0 <= i < n ensures Dot(R.A[i], x) == R.b[i] {
        var src := if i == k then p else if i == p then k else i;
        assert R.A[i] == S.A[src] && R.b[i] == S.b[src];
      }
    }
    forall x | Solves(R.A, R.b, x) ensures Solves(S.A, S.b, x) {
      forall i | 0 <= i < n ensures Dot(S.A[i], x) == S.b[i] {
        var dst := if i == k then p else if i == p then k else i;
        assert R.A[dst] == S.A[i] && R.b[dst] == S.b[i];
      }
    }
  }

  /** Row i after subtracting (row[k] / piv[k]) times the pivot row from columns k..n-1;
      the factor is computed once, before the column loop, as in every variant. */
  function ElimRow(row: Vector, piv: Vector, k: nat): (r: Vector)
    requires k < |row| == |piv| && piv[k] != 0.0
    ensures |r| == |row| && r[k] == 0.0
    ensures forall j :: 0 <= j < k ==> r[j] == row[j]
  {
    var f := row[k] / piv[k];
    seq(|row|, j requires 0 <= j < |row| => if j < k then row[j] else row[j] - f * piv[j])
  }

  /** The matching update of b[i]. */
  function ElimB(bi: real, row: Vector, piv: Vector, pb: real, k: nat): real
    requires k < |row| == |piv| && piv[k] != 0.0
  {
    bi - (row[k] / piv[k]) * pb
  }

  /** The integers of [lo, hi). */
  function Range(lo: int, hi: int): (s: set<int>)
    ensures forall i :: i in s <==> lo <= i < hi
    decreases hi - lo
  {
    if hi <= lo then {} else Range(lo, hi - 1) + {hi - 1}
  }

  /** Adjacent ranges join. */
  lemma RangeConcat(lo: int, mid: int, hi: int)
    requires lo <= mid <= hi
    ensures Range(lo, mid) + Range(mid, hi) == Range(lo, hi)
  {
  }

  /** Eliminate, against the pivot row (piv, pb), every row i > k listed in rows; all other
      rows stay as they are. The thread and rank variants each apply this to the rows they
      own or are handed. */
  function PartialElim(S: Sys, k: nat, rows: set<int>, piv: Vector, pb: real): (R: Sys)
    requires WellFormed(S) && k < |S.b| && |piv| == |S.b| && piv[k] != 0.0
    ensures WellFormed(R) && |R.b| == |S.b|
  {
    var n := |S.b|;
    Sys(seq(n, i requires 0 <= i < n =>
              if i in rows && k < i then ElimRow(S.A[i], piv, k) else S.A[i]),
        seq(n, i requires 0 <= i < n =>
              if i in rows && k < i then ElimB(S.b[i], S.A[i], piv, pb, k) else S.b[i]))
  }

  /** Eliminating one more row i > k is the update of that row alone. */
  lemma PartialElimAdd(S: Sys, k: nat, rows: set<int>, i: nat, piv: Vector, pb: real)
    requires WellFormed(S) && k < i < |S.b| && |piv| == |S.b| && piv[k] != 0.0 && i !in rows
    ensures var R := PartialElim(S, k, rows, piv, pb);
      R.A[i] == S.A[i] && R.b[i] == S.b[i] &&
      PartialElim(S, k, rows + {i}, piv, pb) ==
        Sys(R.A[i := ElimRow(S.A[i], piv, k)], R.b[i := ElimB(S.b[i], S.A[i], piv, pb, k)])
  {
    var R := PartialElim(S, k, rows, piv, pb);
    var R' := PartialElim(S, k, rows + {i}, piv, pb);
    assert R'.A == R.A[i := ElimRow(S.A[i], piv, k)];
    assert R'.b == R.b[i := ElimB(S.b[i], S.A[i], piv, pb, k)];
  }

  /** Listing a row at or above k as well changes nothing. */
  lemma PartialElimSkip(S: Sys, k: nat, rows: set<int>, i: int, piv: Vector, pb: real)
    requires WellFormed(S) && k < |S.b| && |piv| == |S.b| && piv[k] != 0.0 && i <= k
    ensures PartialElim(S, k, rows + {i}, piv, pb) == PartialElim(S, k, rows, piv, pb)
  {
    assert PartialElim(S, k, rows + {i}, piv, pb).A == PartialElim(S, k, rows, piv, pb).A;
    assert PartialElim(S, k, rows + {i}, piv, pb).b == PartialElim(S, k, rows, piv, pb).b;
  }

  /** Eliminating no row changes nothing. */
  lemma PartialElimNone(S: Sys, k: nat, piv: Vector, pb: real)
    requires WellFormed(S) && k < |S.b| && |piv| == |S.b| && piv[k] != 0.0
    ensures PartialElim(S, k, {}, piv, pb) == S
  {
    assert PartialElim(S, k, {}, piv, pb).A == S.A;
    assert PartialElim(S, k, {}, piv, pb).b == S.b;
  }

  /** Listing rows at or above k changes nothing: only rows below k are eliminated. */
  lemma PartialElimBelowOnly(S: Sys, k: nat, piv: Vector, pb: real)
    requires WellFormed(S) && k < |S.b| && |piv| == |S.b| && piv[k] != 0.0
    ensures PartialElim(S, k, Range(0, |S.b|), piv, pb) == PartialElim(S, k, Range(k + 1, |S.b|), piv, pb)
  {
    var L := PartialElim(S, k, Range(0, |S.b|), piv, pb);
    var R := PartialElim(S, k, Range(k + 1, |S.b|), piv, pb);
    assert L.A == R.A;
    assert L.b == R.b;
  }

  /** Eliminate below the diagonal in column k against row k (utils.c:196-204). */
  function Eliminate(T: Sys, k: nat): (R: Sys)
    requires WellFormed(T) && k < |T.b| && T.A[k][k] != 0.0
    ensures WellFormed(R) && |R.b| == |T.b|
    ensures forall i :: 0 <= i <= k ==> R.A[i] == T.A[i] && R.b[i] == T.b[i]
    ensures forall i :: k < i < |T.b| ==>
              R.A[i] == ElimRow(T.A[i], T.A[k], k) && R.b[i] == ElimB(T.b[i], T.A[i], T.A[k], T.b[k], k)
  {
    PartialElim(T, k, Range(k + 1, |T.b|), T.A[k], T.b[k])
  }

  /** A row reduced against a pivot row that is zero left of column k: its product with any x
      is the original product less the factor times the pivot row's product. */
  lemma ElimRowDot(row: Vector, piv: Vector, k: nat, x: Vector)
    requires k < |row| == |piv| == |x| && piv[k] != 0.0
    requires forall j :: 0 <= j < k ==> piv[j] == 0.0
    ensures Dot(ElimRow(row, piv, k), x) == Dot(row, x) - (row[k] / piv[k]) * Dot(piv, x)
  {
    var f := row[k] / piv[k];
    var r := ElimRow(row, piv, k);
    assert forall j :: 0 <= j < |x| ==> r[j] == row[j] - f * piv[j];
    SumAxpy(r, row, piv, f, x, 0, |x|);
  }

  /** Row i > k after elimination, times x, is row i times x less the factor times the
      pivot row times x. */
  lemma EliminatedRowDot(T: Sys, k: nat, i: nat, x: Vector)
    requires WellFormed(T) && k < i < |T.b| && T.A[k][k] != 0.0 && |x| == |T.b|
    requires forall j :: 0 <= j < k ==> T.A[k][j] == 0.0
    ensures var R := Eliminate(T, k); var f := T.A[i][k] / T.A[k][k];
      Dot(R.A[i], x) == Dot(T.A[i], x) - f * Dot(T.A[k], x) &&
      R.b[i] == T.b[i] - f * T.b[k]
  {
    ElimRowDot(T.A[i], T.A[k], k, x);
  }

  /** Eliminating against a pivot row that is zero left of column k keeps the solution set. */
  /** Row i of the eliminated system holds at x exactly when row i of T does, given that
      the pivot row k holds at x in both. */
  lemma EliminatedRowHolds(T: Sys, k: nat, i: nat, x: Vector)
    requires WellFormed(T) && k < |T.b| && i < |T.b| && T.A[k][k] != 0.0 && |x| == |T.b|
    requires forall j :: 0 <= j < k ==> T.A[k][j] == 0.0
    requires Dot(T.A[k], x) == T.b[k]
    ensures Dot(Eliminate(T, k).A[i], x) == Eliminate(T, k).b[i] <==> Dot(T.A[i], x) == T.b[i]
  {
    if i > k {
      EliminatedRowDot(T, k, i, x);
      var R := Eliminate(T, k);
      var g := (T.A[i][k] / T.A[k][k]) * T.b[k];
      assert Dot(R.A[i], x) == Dot(T.A[i], x) - g;
      assert R.b[i] == T.b[i] - g;
    }
  }

  lemma EliminateSameSolutions(T: Sys, k: nat)
    requires WellFormed(T) && k < |T.b| && T.A[k][k] != 0.0
    requires forall j :: 0 <= j < k ==> T.A[k][j] == 0.0
    ensures SameSolutions(T, Eliminate(T, k))
  {
    var R := Eliminate(T, k);
    var n := |T.b|;
    forall x | Solves(T.A, T.b, x) ensures Solves(R.A, R.b, x) {
      forall i | 0 <= i < n ensures Dot(R.A[i], x) == R.b[i] {
        EliminatedRowHolds(T, k, i, x);
      }
    }
    forall x | Solves(R.A, R.b, x) ensures Solves(T.A, T.b, x) {
      assert Dot(T.A[k], x) == T.b[k] by { assert Dot(R.A[k], x) == R.b[k]; }
      forall i | 0 <= i < n ensures Dot(T.A[i], x) == T.b[i] {
        EliminatedRowHolds(T, k, i, x);
      }
    }
  }

  /** The outcome of one or more forward steps: the system reached and whether no pivot
      test failed. */
  datatype Outcome = Outcome(S: Sys, ok: bool)

  /** Step k of forward elimination (utils.c:164-205): pick the pivot, give up when its
      magnitude is below 1e-12, otherwise swap it into row k and eliminate below it. */
  function Step(S: Sys, k: nat): (o: Outcome)
    requires WellFormed(S) && k + 1 < |S.b|
    ensures WellFormed(o.S) && |o.S.b| == |S.b|
  {
    var p := Pivot(S.A, k);
    if Abs(S.A[p][k]) < Tiny then Outcome(S, false)
    else Outcome(Eliminate(Swap(S, k, p), k), true)
  }

  /** Columns 0..k-1 are zero below the diagonal. */
  ghost predicate LowerZero(A: Matrix, k: int)
  {
    forall i, j :: 0 <= j < k && j < i < |A| && j < |A[i]| ==> A[i][j] == 0.0
  }

  /** The first m diagonal entries have magnitude at least 1e-12. */
  ghost predicate DiagNonTiny(A: Matrix, m: int)
  {
    forall t :: 0 <= t < m && t < |A| && t < |A[t]| ==> Abs(A[t][t]) >= Tiny
  }

  /** The first m diagonal entries are nonzero. */
  ghost predicate DiagNonZero(A: Matrix, m: int)
  {
    forall t :: 0 <= t < m && t < |A| && t < |A[t]| ==> A[t][t] != 0.0
  }

  /** One step: a failing pivot test changes nothing; otherwise the step leaves rows above k
      alone, puts the pivot row at k, zeroes column k below the diagonal, extends the
      echelon shape by one column and keeps the solution set. */
  lemma StepSpec(S: Sys, k: nat)
    requires WellFormed(S) && k + 1 < |S.b| && LowerZero(S.A, k) && DiagNonTiny(S.A, k)
    ensures var o := Step(S, k);
      SameSolutions(S, o.S) &&
      (!o.ok <==> Abs(S.A[Pivot(S.A, k)][k]) < Tiny) &&
      (!o.ok ==> o.S == S) &&
      (forall i :: 0 <= i < k ==> o.S.A[i] == S.A[i] && o.S.b[i] == S.b[i]) &&
      (o.ok ==> o.S.A[k] == S.A[Pivot(S.A, k)] && o.S.b[k] == S.b[Pivot(S.A, k)]) &&
      (o.ok ==> forall i :: k < i < |S.b| ==> o.S.A[i][k] == 0.0) &&
      (o.ok ==> LowerZero(o.S.A, k + 1) && DiagNonTiny(o.S.A, k + 1))
  {
    var p := Pivot(S.A, k);
    if Abs(S.A[p][k]) >= Tiny {
      var T := Swap(S, k, p);
      SwapPermutes(S, k, p);
      SwapSameSolutions(S, k, p);
      SwapKeepsEchelon(S, k, p);
      EliminateSameSolutions(T, k);
      EliminateExtendsEchelon(T, k);
      SameSolutionsTrans(S, T, Eliminate(T, k));
    }
  }

  /** Exchanging row k with a row p >= k keeps the echelon shape of the first k columns. */
  lemma SwapKeepsEchelon(S: Sys, k: nat, p: nat)
    requires WellFormed(S) && k <= p < |S.b| && LowerZero(S.A, k) && DiagNonTiny(S.A, k)
    ensures var T := Swap(S, k, p);
      LowerZero(T.A, k) && DiagNonTiny(T.A, k) && forall j :: 0 <= j < k ==> T.A[k][j] == 0.0
  {
    var T := Swap(S, k, p);
    SwapPermutes(S, k, p);
    forall i, j | 0 <= j < k && j < i < |T.A| ensures T.A[i][j] == 0.0 {
      var src := if i == k then p else if i == p then k else i;
      assert T.A[i] == S.A[src];
    }
    forall t | 0 <= t < k ensures T.A[t] == S.A[t] {
    }
  }

  /** Eliminating against row k, whose magnitude in column k passes the pivot test, extends
      the echelon shape by column k. */
  lemma EliminateExtendsEchelon(T: Sys, k: nat)
    requires WellFormed(T) && k < |T.b| && LowerZero(T.A, k) && DiagNonTiny(T.A, k)
    requires Abs(T.A[k][k]) >= Tiny
    ensures T.A[k][k] != 0.0
    ensures LowerZero(Eliminate(T, k).A, k + 1) && DiagNonTiny(Eliminate(T, k).A, k + 1)
  {
    var R := Eliminate(T, k);
    forall i, j | 0 <= j < k + 1 && j < i < |R.A| ensures R.A[i][j] == 0.0 {
      if i > k {
        assert R.A[i] == ElimRow(T.A[i], T.A[k], k);
      } else {
        assert R.A[i] == T.A[i];
      }
    }
  }

  lemma SameSolutionsTrans(S: Sys, M: Sys, R: Sys)
    requires SameSolutions(S, M) && SameSolutions(M, R)
    ensures SameSolutions(S, R)
  {
  }

  /** Forward elimination from step k on (the k-loop of utils.c:164-205). It stops at the
      first failing pivot test, leaving the system as that step found it. */
  function ForwardFrom(S: Sys, k: nat): (o: Outcome)
    requires WellFormed(S) && k <= |S.b|
    ensures WellFormed(o.S) && |o.S.b| == |S.b|
    decreases |S.b| - k
  {
    if k + 1 >= |S.b| then Outcome(S, true)
    else
      var o := Step(S, k);
      if !o.ok then o else ForwardFrom(o.S, k + 1)
  }

  /** Unfolding ForwardFrom at a step whose pivot test fails, and at one where it passes. */
  lemma ForwardFromFails(S: Sys, k: nat)
    requires WellFormed(S) && k + 1 < |S.b| && Abs(S.A[Pivot(S.A, k)][k]) < Tiny
    ensures ForwardFrom(S, k) == Outcome(S, false) && Step(S, k) == Outcome(S, false)
  {
  }

  lemma ForwardFromPasses(S: Sys, k: nat)
    requires WellFormed(S) && k + 1 < |S.b| && Abs(S.A[Pivot(S.A, k)][k]) >= Tiny
    ensures S.A[Pivot(S.A, k)][k] != 0.0
    ensures Swap(S, k, Pivot(S.A, k)).A[k][k] != 0.0
    ensures ForwardFrom(S, k) == ForwardFrom(Eliminate(Swap(S, k, Pivot(S.A, k)), k), k + 1)
    ensures Step(S, k) == Outcome(Eliminate(Swap(S, k, Pivot(S.A, k)), k), true)
  {
  }

  lemma ForwardFromUnfold(S: Sys, k: nat)
    requires WellFormed(S) && k + 1 < |S.b|
    ensures Step(S, k).ok ==> ForwardFrom(S, k) == ForwardFrom(Step(S, k).S, k + 1)
    ensures !Step(S, k).ok ==> ForwardFrom(S, k) == Step(S, k)
  {
  }

  /** Forward elimination ends, when no pivot test fails, in an upper-triangular system whose
      first n-1 diagonal entries pass the pivot test; whether or not it fails, the system it
      stops at has the solutions of the one it started from. */
  lemma {:induction false} ForwardFromSpec(S: Sys, k: nat)
    requires WellFormed(S) && k <= |S.b| && LowerZero(S.A, k) && DiagNonTiny(S.A, k)
    ensures var o := ForwardFrom(S, k);
      SameSolutions(S, o.S) &&
      (o.ok ==> UpperTriangular(o.S.A) && DiagNonTiny(o.S.A, |S.b| - 1))
    decreases |S.b| - k
  {
    if k + 1 < |S.b| {
      var o := Step(S, k);
      ForwardFromUnfold(S, k);
      StepSpec(S, k);
      if o.ok {
        ForwardFromSpec(o.S, k + 1);
        SameSolutionsTrans(S, o.S, ForwardFrom(o.S, k + 1).S);
      }
    }
  }

  /** The value back-substitution gives x[t] once x[t+1..n-1] are known. */
  function Substituted(S: Sys, t: nat, x: Vector): real
    requires WellFormed(S) && t < |S.b| && |x| == |S.b| && S.A[t][t] != 0.0
  {
    (S.b[t] - Sum(S.A[t], x, t + 1, |x|)) / S.A[t][t]
  }

  /** The descending back-substitution loop (utils.c:214-224) with rows i-1, ..., 0 still
      to do, applied to the vector x. */
  function BackLoop(S: Sys, i: nat, x: Vector): (r: Vector)
    requires WellFormed(S) && i <= |S.b| && |x| == |S.b| && DiagNonZero(S.A, i)
    ensures |r| == |x|
    decreases i
  {
    if i == 0 then x
    else BackLoop(S, i - 1, x[i - 1 := Substituted(S, i - 1, x)])
  }

  /** The zero vector the solvers start x from. */
  function Zeros(n: nat): (z: Vector)
    ensures |z| == n && forall i :: 0 <= i < n ==> z[i] == 0.0
  {
    seq(n, _ => 0.0)
  }

  /** The solution of a triangular system with nonzero diagonal. */
  function BackSubst(S: Sys): (x: Vector)
    requires WellFormed(S) && DiagNonZero(S.A, |S.b|)
    ensures |x| == |S.b|
  {
    BackLoop(S, |S.b|, Zeros(|S.b|))
  }

  /** The loop leaves entries i..n-1 alone and makes every entry t < i the substituted value
      of the final vector. */
  lemma {:induction false} BackLoopSpec(S: Sys, i: nat, x: Vector)
    requires WellFormed(S) && i <= |S.b| && |x| == |S.b| && DiagNonZero(S.A, i)
    ensures var r := BackLoop(S, i, x);
      (forall t :: i <= t < |x| ==> r[t] == x[t]) &&
      (forall t :: 0 <= t < i ==> r[t] == Substituted(S, t, r))
    decreases i
  {
    if i > 0 {
      var t := i - 1;
      var y := x[t := Substituted(S, t, x)];
      BackLoopSpec(S, t, y);
      var r := BackLoop(S, t, y);
      SumAgree(S.A[t], r, S.A[t], x, t + 1, |x|);
    }
  }

  /** The loop reads only the entries it has already written. */
  lemma {:induction false} BackLoopReadsWritten(S: Sys, i: nat, x: Vector, y: Vector)
    requires WellFormed(S) && i <= |S.b| && |x| == |y| == |S.b| && DiagNonZero(S.A, i)
    requires forall t :: i <= t < |x| ==> x[t] == y[t]
    ensures BackLoop(S, i, x) == BackLoop(S, i, y)
    decreases i
  {
    if i == 0 {
      assert x == y;
    } else {
      var t := i - 1;
      SumAgree(S.A[t], x, S.A[t], y, t + 1, |x|);
      BackLoopReadsWritten(S, t, x[t := Substituted(S, t, x)], y[t := Substituted(S, t, y)]);
    }
  }

  /** A vector whose entries below i are already their substituted values is a fixed point. */
  lemma {:induction false} BackLoopFixpoint(S: Sys, i: nat, y: Vector)
    requires WellFormed(S) && i <= |S.b| && |y| == |S.b| && DiagNonZero(S.A, i)
    requires forall t :: 0 <= t < i ==> y[t] == Substituted(S, t, y)
    ensures BackLoop(S, i, y) == y
    decreases i
  {
    if i > 0 {
      assert y[i - 1 := Substituted(S, i - 1, y)] == y;
      BackLoopFixpoint(S, i - 1, y);
    }
  }

  /** Row t of an upper-triangular A times x, split at the diagonal. */
  lemma TriangularRow(S: Sys, t: nat, x: Vector)
    requires WellFormed(S) && UpperTriangular(S.A) && t < |S.b| && |x| == |S.b|
    ensures Dot(S.A[t], x) == S.A[t][t] * x[t] + Sum(S.A[t], x, t + 1, |x|)
  {
    var n := |x|;
    SumSplit(S.A[t], x, 0, t, n);
    SumSplit(S.A[t], x, t, t + 1, n);
    SumOfZeros(S.A[t], x, 0, t);
  }

  /** Back-substitution solves an upper-triangular system with nonzero diagonal ... */
  lemma BackSubstSolves(S: Sys)
    requires WellFormed(S) && UpperTriangular(S.A) && DiagNonZero(S.A, |S.b|)
    ensures Solves(S.A, S.b, BackSubst(S))
  {
    var x := BackSubst(S);
    BackLoopSpec(S, |S.b|, Zeros(|S.b|));
    assert x == BackLoop(S, |S.b|, Zeros(|S.b|));
    forall t | 0 <= t < |S.b| ensures Dot(S.A[t], x) == S.b[t] {
      TriangularRow(S, t, x);
      assert x[t] == Substituted(S, t, x);
    }
  }

  /** ... and that solution is the only one. */
  lemma BackSubstUnique(S: Sys, y: Vector)
    requires WellFormed(S) && UpperTriangular(S.A) && DiagNonZero(S.A, |S.b|)
    requires Solves(S.A, S.b, y)
    ensures y == BackSubst(S)
  {
    var n := |S.b|;
    forall t | 0 <= t < n ensures y[t] == Substituted(S, t, y) {
      TriangularRow(S, t, y);
      assert Dot(S.A[t], y) == S.b[t];
    }
    BackLoopFixpoint(S, n, y);
    BackLoopReadsWritten(S, n, Zeros(n), y);
  }

  /** The result of `gaussian_elimination_sequential`: failure (it returns 0), or the
      reduced system together with the solution (it returns 1). */
  datatype Result = Singular(S: Sys) | Solved(S: Sys, x: Vector)

  /** utils.c:157-227 on an n x n system, n >= 1: forward elimination, the final test of
      |A[n-1][n-1]| against 1e-12, back-substitution. */
  function Solve(S: Sys): (r: Result)
    requires WellFormed(S) && |S.b| >= 1
  {
    var n := |S.b|;
    var f := ForwardFrom(S, 0);
    if !f.ok || Abs(f.S.A[n - 1][n - 1]) < Tiny then Singular(f.S)
    else
      ForwardFromSpec(S, 0);
      Solved(f.S, BackSubst(f.S))
  }

  /** How Solve's result is made of the forward elimination's outcome. */
  lemma SolveCases(S: Sys)
    requires WellFormed(S) && |S.b| >= 1
    ensures var f := ForwardFrom(S, 0); var n := |S.b|;
      SameSolutions(S, f.S) && Solve(S).S == f.S &&
      (Solve(S).Solved? <==> f.ok && Abs(f.S.A[n - 1][n - 1]) >= Tiny) &&
      (Solve(S).Solved? ==>
        UpperTriangular(f.S.A) && DiagNonZero(f.S.A, n) && Solve(S).x == BackSubst(f.S))
  {
    ForwardFromSpec(S, 0);
  }

  /** When the solver succeeds, the reduced A is upper triangular with nonzero diagonal, x
      solves both the reduced and the original system exactly, and it is their only
      solution. Either way the reduced system has the solutions of the original. */
  lemma SolveCorrect(S: Sys)
    requires WellFormed(S) && |S.b| >= 1
    ensures SameSolutions(S, Solve(S).S)
    ensures Solve(S).Solved? ==>
      var r := Solve(S);
      UpperTriangular(r.S.A) && DiagNonZero(r.S.A, |S.b|) &&
      Solves(r.S.A, r.S.b, r.x) && Solves(S.A, S.b, r.x) &&
      forall y :: Solves(S.A, S.b, y) ==> y == r.x
  {
    SolveCases(S);
    var r := Solve(S);
    if r.Solved? {
      BackSubstSolves(r.S);
      forall y | Solves(S.A, S.b, y) ensures y == r.x {
        BackSubstUnique(r.S, y);
      }
    }
  }
}
