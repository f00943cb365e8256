/** Dense vectors and matrices over exact reals, and the sums the solvers accumulate. */
module LinAlg {

  type Vector = seq<real>
  type Matrix = seq<seq<real>>

  function Abs(v: real): (r: real)
    ensures r >= 0.0 && (r == v || r == -v)
  {
    if v < 0.0 then -v else v
  }

  /** Every row of `A` has length `n` and there are `n` rows. */
  ghost predicate IsSquare(A: Matrix, n: nat)
  {
    |A| == n && forall i :: 0 <= i < n ==> |A[i]| == n
  }

  /** row[lo]*x[lo] + ... + row[hi-1]*x[hi-1], accumulated in ascending order of j
      exactly as the `for (j = lo; j < hi; j++) sum += A[i][j] * x[j]` loops do. */
  function Sum(row: Vector, x: Vector, lo: int, hi: int): real
    requires 0 <= lo && hi <= |row| && hi <= |x|
    decreases hi - lo
  {
    if hi <= lo then 0.0 else Sum(row, x, lo, hi - 1) + row[hi - 1] * x[hi - 1]
  }

  /** The scalar product of a row of A with x. */
  function Dot(row: Vector, x: Vector): real
    requires |row| == |x|
  {
    Sum(row, x, 0, |x|)
  }

  /** x solves the square system A x = b exactly. */
  ghost predicate Solves(A: Matrix, b: Vector, x: Vector)
  {
    |A| == |b| == |x| &&
    (forall i :: 0 <= i < |A| ==> |A[i]| == |x|) &&
    forall i :: 0 <= i < |A| ==> Dot(A[i], x) == b[i]
  }

  /** Every entry strictly below the diagonal is zero. */
  ghost predicate UpperTriangular(A: Matrix)
  {
    forall i, j :: 0 <= j < i < |A| && j < |A[i]| ==> A[i][j] == 0.0
  }

  lemma {:induction false} SumSplit(row: Vector, x: Vector, lo: int, mid: int, hi: int)
    requires 0 <= lo <= mid <= hi <= |row| && hi <= |x|
    ensures Sum(row, x, lo, hi) == Sum(row, x, lo, mid) + Sum(row, x, mid, hi)
    decreases hi
  {
    if hi > mid {
      SumSplit(row, x, lo, mid, hi - 1);
    }
  }

  /** A sum reads only the entries in [lo, hi) of the row and of x. */
  lemma {:induction false} SumAgree(r1: Vector, x1: Vector, r2: Vector, x2: Vector, lo: int, hi: int)
    requires 0 <= lo && hi <= |r1| && hi <= |x1| && hi <= |r2| && hi <= |x2|
    requires forall j :: lo <= j < hi ==> r1[j] == r2[j] && x1[j] == x2[j]
    ensures Sum(r1, x1, lo, hi) == Sum(r2, x2, lo, hi)
    decreases hi - lo
  {
    if hi > lo {
      SumAgree(r1, x1, r2, x2, lo, hi - 1);
    }
  }

  lemma {:induction false} SumOfZeros(row: Vector, x: Vector, lo: int, hi: int)
    requires 0 <= lo && hi <= |row| && hi <= |x|
    requires forall j :: lo <= j < hi ==> row[j] == 0.0
    ensures Sum(row, x, lo, hi) == 0.0
    decreases hi - lo
  {
    if hi > lo {
      SumOfZeros(row, x, lo, hi - 1);
    }
  }

  /** Sums are linear in the row: the basis of every row operation of elimination. */
  lemma {:induction false} SumAxpy(r: Vector, s: Vector, p: Vector, f: real, x: Vector, lo: int, hi: int)
    requires 0 <= lo && hi <= |r| && hi <= |s| && hi <= |p| && hi <= |x|
    requires forall j :: lo <= j < hi ==> r[j] == s[j] - f * p[j]
    ensures Sum(r, x, lo, hi) == Sum(s, x, lo, hi) - f * Sum(p, x, lo, hi)
    decreases hi - lo
  {
    if hi > lo {
      SumAxpy(r, s, p, f, x, lo, hi - 1);
      var a, c, t := Sum(s, x, lo, hi - 1), Sum(p, x, lo, hi - 1), x[hi - 1];
      calc {
        Sum(r, x, lo, hi);
        Sum(r, x, lo, hi - 1) + r[hi - 1] * t;
        (a - f * c) + (s[hi - 1] - f * p[hi - 1]) * t;
        { assert (s[hi - 1] - f * p[hi - 1]) * t == s[hi - 1] * t - f * (p[hi - 1] * t); }
        (a + s[hi - 1] * t) - f * (c + p[hi - 1] * t);
      }
    }
  }
}
