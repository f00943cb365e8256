/** `gaussian_elimination_mpi` and `verify_solution` of mpi.c as a bulk-synchronous
    simulation: p ranks, each with its own full-size copy of A, b and x, run the same
    program; a collective (MPI_Allreduce, MPI_Bcast) is a function of all ranks' values,
    a matched send and receive is a copy from one rank's state to another's, and a
    barrier is nothing at all. Row i of the distributed system is row i as held by the
    rank whose block contains i (mpi.c:132-136); the copies of other rows on other ranks
    are stale and never read. */
module Mpi {
  import opened LinAlg
  import opened Gauss
  import opened Utils
  import opened Partition

  /** One rank's storage: its copy of A, b and x. */
  datatype RankState = RankState(A: Matrix, b: Vector, x: Vector)

  ghost predicate Shaped(s: RankState, n: nat)
  {
    IsSquare(s.A, n) && |s.b| == n && |s.x| == n
  }

  ghost predicate ClusterShaped(ranks: seq<RankState>, n: nat, p: nat)
  {
    p >= 1 && |ranks| == p && forall r :: 0 <= r < p ==> Shaped(ranks[r], n)
  }

  /** The distributed system: each row taken from the rank that owns it. */
  ghost function LogicalOf(ranks: seq<RankState>, n: nat, p: nat): (L: Sys)
    requires ClusterShaped(ranks, n, p)
    ensures WellFormed(L) && |L.b| == n
  {
    Sys(seq(n, i requires 0 <= i < n => ranks[RowOwner(n, p, i)].A[i]),
        seq(n, i requires 0 <= i < n => ranks[RowOwner(n, p, i)].b[i]))
  }

  /** Every rank holds the rows of L on its own block. */
  ghost predicate Holds(ranks: seq<RankState>, n: nat, p: nat, L: Sys)
    requires ClusterShaped(ranks, n, p) && WellFormed(L) && |L.b| == n
  {
    forall r, i :: 0 <= r < p && 0 <= i < n && BlockStart(n, p, r) <= i < BlockEnd(n, p, r) ==>
      ranks[r].A[i] == L.A[i] && ranks[r].b[i] == L.b[i]
  }

  /** A system the ranks hold on their blocks is the distributed system. */
  lemma HoldsLogical(ranks: seq<RankState>, n: nat, p: nat, L: Sys)
    requires ClusterShaped(ranks, n, p) && WellFormed(L) && |L.b| == n && Holds(ranks, n, p, L)
    ensures LogicalOf(ranks, n, p) == L
  {
    var M := LogicalOf(ranks, n, p);
    assert M.A == L.A;
    assert M.b == L.b;
  }

  /** A rank whose block holds row i holds row i of the distributed system. */
  lemma LogicalRow(ranks: seq<RankState>, n: nat, p: nat, r: nat, i: nat)
    requires ClusterShaped(ranks, n, p) && r < p && i < n
    requires BlockStart(n, p, r) <= i < BlockEnd(n, p, r)
    ensures ranks[r].A[i] == LogicalOf(ranks, n, p).A[i] && ranks[r].b[i] == LogicalOf(ranks, n, p).b[i]
  {
    BlockOwner(n, p, r, i);
  }

  /** The ranks hold the distributed system on their blocks. */
  lemma LogicalHolds(ranks: seq<RankState>, n: nat, p: nat)
    requires ClusterShaped(ranks, n, p)
    ensures Holds(ranks, n, p, LogicalOf(ranks, n, p))
  {
    forall r, i | 0 <= r < p && 0 <= i < n && BlockStart(n, p, r) <= i < BlockEnd(n, p, r) {
      LogicalRow(ranks, n, p, r, i);
    }
  }

  /** Only the rows and entries of b matter to the distributed system. */
  lemma SameRowsSameSystem(R0: seq<RankState>, R1: seq<RankState>, n: nat, p: nat)
    requires ClusterShaped(R0, n, p) && ClusterShaped(R1, n, p)
    requires forall r :: 0 <= r < p ==> R1[r].A == R0[r].A && R1[r].b == R0[r].b
    ensures LogicalOf(R1, n, p) == LogicalOf(R0, n, p)
  {
    assert LogicalOf(R1, n, p).A == LogicalOf(R0, n, p).A;
    assert LogicalOf(R1, n, p).b == LogicalOf(R0, n, p).b;
  }

  // ---------------------------------------------------------------- pivot selection

  /** The candidate one rank sends at step k (mpi.c:167-177): the strict-`>` scan of its
      rows start..end-1 that are at or below k, starting from (k, -1.0). */
  function LocalCandidate(A: Matrix, k: nat, start: int, end: int): (int, real)
    requires HasColumn(A, k)
  {
    Scan(A, k, if start < k then k else start, if end <= |A| then end else |A|, k, -1.0)
  }

  /** Two scans over the same column entries agree. */
  lemma {:induction false} ScanAgree(A1: Matrix, A2: Matrix, k: nat, lo: int, hi: int, row: int, val: real)
    requires 0 <= lo && hi <= |A1| && hi <= |A2| && HasColumn(A1, k) && HasColumn(A2, k)
    requires forall i :: lo <= i < hi ==> A1[i][k] == A2[i][k]
    ensures Scan(A1, k, lo, hi, row, val) == Scan(A2, k, lo, hi, row, val)
    decreases hi - lo
  {
    if lo < hi {
      ScanAgree(A1, A2, k, lo + 1, hi, lo, Abs(A1[lo][k]));
      ScanAgree(A1, A2, k, lo + 1, hi, row, val);
    }
  }

  /** MPI_MAXLOC on (value, rank) pairs, as section 5.9.4 of the MPI-3.1 standard defines
      it: the larger value, and for equal values the lower rank. */
  function MaxLoc(u: (real, int), v: (real, int)): (m: (real, int))
    ensures m.0 >= u.0 && m.0 >= v.0 && (m == u || m == v)
  {
    if u.0 > v.0 then u
    else if v.0 > u.0 then v
    else (u.0, if u.1 <= v.1 then u.1 else v.1)
  }

  /** MAXLOC does not depend on the order of its operands (the standard requires the
      operation to be commutative and associative). */
  lemma MaxLocCommutes(u: (real, int), v: (real, int), w: (real, int))
    ensures MaxLoc(u, v) == MaxLoc(v, u)
    ensures MaxLoc(MaxLoc(u, v), w) == MaxLoc(u, MaxLoc(v, w))
  {
  }

  /** MPI_Allreduce with MPI_MAXLOC over the values of ranks 0..m-1. */
  function MaxLocOver(vals: seq<real>, m: nat): (real, int)
    requires 1 <= m <= |vals|
  {
    if m == 1 then (vals[0], 0) else MaxLoc(MaxLocOver(vals, m - 1), (vals[m - 1], m - 1))
  }

  /** The reduction names the lowest rank holding the largest value. */
  lemma {:induction false} MaxLocOverSpec(vals: seq<real>, m: nat)
    requires 1 <= m <= |vals|
    ensures var w := MaxLocOver(vals, m);
      0 <= w.1 < m && w.0 == vals[w.1] &&
      (forall r :: 0 <= r < m ==> vals[r] <= w.0) &&
      (forall r :: 0 <= r < w.1 ==> vals[r] < w.0)
  {
    if m > 1 {
      MaxLocOverSpec(vals, m - 1);
    }
  }

  /** The candidates of all ranks when each rank's own rows are those of A. */
  function Candidates(A: Matrix, k: nat, p: nat): (c: seq<(int, real)>)
    requires p >= 1 && HasColumn(A, k)
    ensures |c| == p
  {
    seq(p, r requires 0 <= r < p => LocalCandidate(A, k, BlockStart(|A|, p, r), BlockEnd(|A|, p, r)))
  }

  function Values(c: seq<(int, real)>): (v: seq<real>)
    ensures |v| == |c| && forall r :: 0 <= r < |c| ==> v[r] == c[r].1
  {
    seq(|c|, r requires 0 <= r < |c| => c[r].1)
  }

  /** A rank's candidate value is at most the pivot magnitude, and below it for ranks
      before the pivot's owner. */
  lemma CandidateBound(A: Matrix, k: nat, p: nat, r: nat)
    requires p >= 1 && k < |A| && HasColumn(A, k) && r < p
    ensures var c := Candidates(A, k, p)[r]; var P := Pivot(A, k);
      c.1 <= Abs(A[P][k]) && (r < RowOwner(|A|, p, P) ==> c.1 < Abs(A[P][k]))
  {
    var n := |A|;
    var P := Pivot(A, k);
    var o := RowOwner(n, p, P);
    BlocksTile(n, p);
    var s, e := BlockStart(n, p, r), BlockEnd(n, p, r);
    var lo := if s < k then k else s;
    if lo <= e {
      ScanSpec(A, k, lo, e, k, -1.0);
      if r < o {
        BlocksOrdered(n, p, r, o);
      }
    }
  }

  /** The owner of the pivot row sends the pivot row and its magnitude. */
  lemma CandidateOfOwner(A: Matrix, k: nat, p: nat)
    requires p >= 1 && k < |A| && HasColumn(A, k)
    ensures var P := Pivot(A, k);
      Candidates(A, k, p)[RowOwner(|A|, p, P)] == (P, Abs(A[P][k]))
  {
    var n := |A|;
    var P := Pivot(A, k);
    var o := RowOwner(n, p, P);
    BlocksTile(n, p);
    var s, e := BlockStart(n, p, o), BlockEnd(n, p, o);
    var lo := if s < k then k else s;
    ScanSpec(A, k, lo, e, k, -1.0);
    var res := Scan(A, k, lo, e, k, -1.0);
    assert Abs(A[P][k]) <= res.1;
    assert res.0 == P;
  }

  /** MAXLOC over the candidates picks the owner of the sequential pivot row
      (utils.c:166-174), and that owner's candidate row is the pivot row. */
  lemma PivotByMaxLoc(A: Matrix, k: nat, p: nat)
    requires p >= 1 && k < |A| && HasColumn(A, k)
    ensures var c := Candidates(A, k, p); var w := MaxLocOver(Values(c), p); var P := Pivot(A, k);
      w.1 == RowOwner(|A|, p, P) && c[w.1] == (P, Abs(A[P][k])) && w.0 == Abs(A[P][k])
  {
    var c := Candidates(A, k, p);
    var vals := Values(c);
    var P := Pivot(A, k);
    var o := RowOwner(|A|, p, P);
    CandidateOfOwner(A, k, p);
    forall r | 0 <= r < p ensures vals[r] <= Abs(A[P][k]) && (r < o ==> vals[r] < Abs(A[P][k])) {
      CandidateBound(A, k, p, r);
    }
    MaxLocOverSpec(vals, p);
    var w := MaxLocOver(vals, p);
    assert vals[w.1] == Abs(A[P][k]);
    assert !(w.1 < o);
    assert !(o < w.1);
  }

  /** A rank whose block ends at or above row k has no candidate: it sends -1.0 and is not
      the winner. */
  lemma NoCandidateNeverWins(A: Matrix, k: nat, p: nat, r: nat)
    requires p >= 1 && k < |A| && HasColumn(A, k) && r < p && BlockEnd(|A|, p, r) <= k
    ensures Candidates(A, k, p)[r] == (k, -1.0)
    ensures MaxLocOver(Values(Candidates(A, k, p)), p).1 != r
  {
    PivotByMaxLoc(A, k, p);
    var P := Pivot(A, k);
    var o := RowOwner(|A|, p, P);
    assert BlockEnd(|A|, p, o) > k;
  }

  /** Every rank receives the root's buffer (MPI_Bcast). */
  function Broadcast(buf: seq<real>, p: nat): (bufs: seq<seq<real>>)
    ensures |bufs| == p && forall r :: 0 <= r < p ==> bufs[r] == buf
  {
    seq(p, _ => buf)
  }

  /** Every rank tests its own copy of the broadcast pivot row against 1e-12
      (mpi.c:205-211), so all ranks leave the solver together or none does. */
  lemma FailureAgreed(buf: seq<real>, p: nat, k: nat)
    requires k < |buf|
    ensures var bufs := Broadcast(buf, p);
      forall r, q :: 0 <= r < p && 0 <= q < p ==> (Abs(bufs[r][k]) < Tiny <==> Abs(bufs[q][k]) < Tiny)
  {
  }

  // ---------------------------------------------------------------- relocation

  /** Store row and bi in slot i of a rank. */
  function Put(s: RankState, i: nat, row: Vector, bi: real): (t: RankState)
    requires i < |s.A| && i < |s.b|
    ensures t.x == s.x
  {
    RankState(s.A[i := row], s.b[i := bi], s.x)
  }

  /** The exchange of rows k and g between the owner O of row k and the winner W, which
      owns g: O's row k and b[k] go to slot g on W, and O puts the broadcast pivot row buf
      into slot k. When O is W the one rank does both. */
  function Relocated(ranks: seq<RankState>, n: nat, p: nat, k: nat, g: nat, O: nat, W: nat, buf: seq<real>): (rs: seq<RankState>)
    requires ClusterShaped(ranks, n, p) && k < n && g < n && O < p && W < p && |buf| == n + 1
    ensures ClusterShaped(rs, n, p)
  {
    if g == k then ranks
    else
      var sent := ranks[W := Put(ranks[W], g, ranks[O].A[k], ranks[O].b[k])];
      sent[O := Put(sent[O], k, buf[..n], buf[n])]
  }

  /** The relocation as mpi.c:214-246 writes it: the receive into slot g is guarded by
      `rank != pivot_owner`, so when the owner of row k also won, nothing is written to
      slot g. */
  function RelocatedAsWritten(ranks: seq<RankState>, n: nat, p: nat, k: nat, g: nat, O: nat, W: nat, buf: seq<real>): (rs: seq<RankState>)
    requires ClusterShaped(ranks, n, p) && k < n && g < n && O < p && W < p && |buf| == n + 1
    ensures ClusterShaped(rs, n, p)
  {
    if g == k then ranks
    else
      var sent := if W != O then ranks[W := Put(ranks[W], g, ranks[O].A[k], ranks[O].b[k])] else ranks;
      sent[O := Put(sent[O], k, buf[..n], buf[n])]
  }

  /** With O the owner of k, W the owner of g and buf the broadcast row g, the relocation
      exchanges equations k and g of the distributed system. */
  lemma RelocatedSwaps(ranks: seq<RankState>, n: nat, p: nat, k: nat, g: nat, buf: seq<real>)
    requires ClusterShaped(ranks, n, p) && k < n && g < n
    requires var L := LogicalOf(ranks, n, p); buf == L.A[g] + [L.b[g]]
    ensures var L := LogicalOf(ranks, n, p);
      LogicalOf(Relocated(ranks, n, p, k, g, RowOwner(n, p, k), RowOwner(n, p, g), buf), n, p) == Swap(L, k, g)
  {
    var L := LogicalOf(ranks, n, p);
    var O, W := RowOwner(n, p, k), RowOwner(n, p, g);
    var rs := Relocated(ranks, n, p, k, g, O, W, buf);
    var T := Swap(L, k, g);
    var M := LogicalOf(rs, n, p);
    assert buf[..n] == L.A[g];
    RelocatedFrame(ranks, n, p, k, g, O, W, buf);
    forall i | 0 <= i < n ensures M.A[i] == T.A[i] && M.b[i] == T.b[i] {
      var o := RowOwner(n, p, i);
      LogicalRow(ranks, n, p, o, i);
      LogicalRow(rs, n, p, o, i);
      if g != k && i == k {
        assert o == O && rs[o].A[i] == buf[..n] && rs[o].b[i] == buf[n];
      } else if g != k && i == g {
        LogicalRow(ranks, n, p, O, k);
        assert o == W && rs[o].A[i] == ranks[O].A[k] && rs[o].b[i] == ranks[O].b[k];
      } else {
        assert rs[o].A[i] == ranks[o].A[i] && rs[o].b[i] == ranks[o].b[i];
      }
    }
    RowsAgree(M.A, T.A);
    RowsAgree(M.b, T.b);
  }

  /** The relocation writes slot g on the winner and slot k on the owner of k and nothing
      else: no other row of any rank, and no x, changes. */
  lemma RelocatedFrame(ranks: seq<RankState>, n: nat, p: nat, k: nat, g: nat, O: nat, W: nat, buf: seq<real>)
    requires ClusterShaped(ranks, n, p) && k < n && g < n && O < p && W < p && |buf| == n + 1
    ensures var rs := Relocated(ranks, n, p, k, g, O, W, buf);
      forall r, i :: 0 <= r < p && 0 <= i < n && !(r == W && i == g) && !(r == O && i == k) ==>
        rs[r].A[i] == ranks[r].A[i] && rs[r].b[i] == ranks[r].b[i]
    ensures var rs := Relocated(ranks, n, p, k, g, O, W, buf);
      forall r :: 0 <= r < p ==> rs[r].x == ranks[r].x
  {
  }

  /** When the owner of k and the winner differ, mpi.c's relocation is the exchange. */
  lemma RelocatedAsWrittenWhenRanksDiffer(ranks: seq<RankState>, n: nat, p: nat, k: nat, g: nat, O: nat, W: nat, buf: seq<real>)
    requires ClusterShaped(ranks, n, p) && k < n && g < n && O < p && W < p && |buf| == n + 1 && O != W
    ensures RelocatedAsWritten(ranks, n, p, k, g, O, W, buf) == Relocated(ranks, n, p, k, g, O, W, buf)
  {
  }

  /** mpi.c's relocation as written, seen on the distributed system L: the exchange of rows k
      and g, except when one rank owns both rows and g != k. Then row k is overwritten by
      row g and row g stays where it is. */
  function ExchangeAsWritten(L: Sys, n: nat, p: nat, k: nat, g: nat): (M: Sys)
    requires WellFormed(L) && |L.b| == n && k < n && g < n && p >= 1
    ensures WellFormed(M) && |M.b| == n && M.A[k] == L.A[g] && M.b[k] == L.b[g]
  {
    if g != k && RowOwner(n, p, k) == RowOwner(n, p, g) then Sys(L.A[k := L.A[g]], L.b[k := L.b[g]])
    else Swap(L, k, g)
  }

  /** The relocation as written, with O the owner of k, W the owner of g and buf the
      broadcast row g, is ExchangeAsWritten of the distributed system. */
  lemma RelocatedAsWrittenLogical(ranks: seq<RankState>, n: nat, p: nat, k: nat, g: nat, buf: seq<real>)
    requires ClusterShaped(ranks, n, p) && k < n && g < n
    requires var L := LogicalOf(ranks, n, p); buf == L.A[g] + [L.b[g]]
    ensures LogicalOf(RelocatedAsWritten(ranks, n, p, k, g, RowOwner(n, p, k), RowOwner(n, p, g), buf), n, p)
      == ExchangeAsWritten(LogicalOf(ranks, n, p), n, p, k, g)
  {
    var L := LogicalOf(ranks, n, p);
    var O, W := RowOwner(n, p, k), RowOwner(n, p, g);
    RelocatedSwaps(ranks, n, p, k, g, buf);
    if O != W {
      RelocatedAsWrittenWhenRanksDiffer(ranks, n, p, k, g, O, W, buf);
    } else if g != k {
      var rs := RelocatedAsWritten(ranks, n, p, k, g, O, W, buf);
      assert rs == ranks[O := Put(ranks[O], k, buf[..n], buf[n])];
      var M := LogicalOf(rs, n, p);
      var E := ExchangeAsWritten(L, n, p, k, g);
      assert buf[..n] == L.A[g];
      forall i | 0 <= i < n ensures M.A[i] == E.A[i] && M.b[i] == E.b[i] {
        var o := RowOwner(n, p, i);
        LogicalRow(ranks, n, p, o, i);
        LogicalRow(rs, n, p, o, i);
        if i != k {
          assert rs[o].A[i] == ranks[o].A[i] && rs[o].b[i] == ranks[o].b[i];
        }
      }
      RowsAgree(M.A, E.A);
      RowsAgree(M.b, E.b);
    }
  }

  /** One rank holding A = [[1, 2], [3, 4]], b = [5, 6]: it owns both rows. */
  function OneRank(): (rs: seq<RankState>)
    ensures ClusterShaped(rs, 2, 1)
  {
    [RankState([[1.0, 2.0], [3.0, 4.0]], [5.0, 6.0], [0.0, 0.0])]
  }

  /** On OneRank, rank 0 owns rows 0 and 1, row 1 is the pivot row of column 0, and the
      broadcast buffer is [3, 4 | 6]. */
  lemma OneRankSetup()
    ensures LogicalOf(OneRank(), 2, 1) == Sys([[1.0, 2.0], [3.0, 4.0]], [5.0, 6.0])
    ensures RowOwner(2, 1, 0) == 0 && RowOwner(2, 1, 1) == 0
    ensures Pivot([[1.0, 2.0], [3.0, 4.0]], 0) == 1
  {
    var A := [[1.0, 2.0], [3.0, 4.0]];
    BlockOwner(2, 1, 0, 0);
    BlockOwner(2, 1, 0, 1);
    var L := LogicalOf(OneRank(), 2, 1);
    assert L.A == A && L.b == [5.0, 6.0];
    assert Scan(A, 0, 1, 2, 0, 1.0) == (1, 3.0);
  }

  /** When the owner of row k also wins (here the only rank), mpi.c as written only
      overwrites row k: both equations become 3 x0 + 4 x1 = 6 and x0 + 2 x1 = 5 is lost. */
  lemma RelocatedAsWrittenLosesRow()
    ensures LogicalOf(RelocatedAsWritten(OneRank(), 2, 1, 0, 1, 0, 0, [3.0, 4.0, 6.0]), 2, 1)
      == Sys([[3.0, 4.0], [3.0, 4.0]], [6.0, 6.0])
  {
    BlockOwner(2, 1, 0, 0);
    BlockOwner(2, 1, 0, 1);
    var rs := RelocatedAsWritten(OneRank(), 2, 1, 0, 1, 0, 0, [3.0, 4.0, 6.0]);
    assert rs[0].A[0] == [3.0, 4.0] && rs[0].b[0] == 6.0;
    assert rs[0].A[1] == [3.0, 4.0] && rs[0].b[1] == 6.0;
    var M := LogicalOf(rs, 2, 1);
    assert M.A == [[3.0, 4.0], [3.0, 4.0]];
    assert M.b == [6.0, 6.0];
  }

  /** On the same input the corrected exchange swaps the two equations. */
  lemma ExchangeOnOneRank()
    ensures LogicalOf(Relocated(OneRank(), 2, 1, 0, 1, 0, 0, [3.0, 4.0, 6.0]), 2, 1)
      == Sys([[3.0, 4.0], [1.0, 2.0]], [6.0, 5.0])
  {
    BlockOwner(2, 1, 0, 0);
    BlockOwner(2, 1, 0, 1);
    var rs := Relocated(OneRank(), 2, 1, 0, 1, 0, 0, [3.0, 4.0, 6.0]);
    assert rs[0].A[0] == [3.0, 4.0] && rs[0].b[0] == 6.0;
    assert rs[0].A[1] == [1.0, 2.0] && rs[0].b[1] == 5.0;
    var M := LogicalOf(rs, 2, 1);
    assert M.A == [[3.0, 4.0], [1.0, 2.0]];
    assert M.b == [6.0, 5.0];
  }

  // ---------------------------------------------------------------- elimination

  /** A rank's state after it has eliminated, against (piv, pb), the rows of `rows` below
      k; its x is untouched. */
  function ElimOwn(s: RankState, k: nat, rows: set<int>, piv: Vector, pb: real): (t: RankState)
    requires WellFormed(Sys(s.A, s.b)) && k < |s.b| && |piv| == |s.b| && piv[k] != 0.0
    ensures IsSquare(t.A, |s.b|) && |t.b| == |s.b| && t.x == s.x
  {
    var R := PartialElim(Sys(s.A, s.b), k, rows, piv, pb);
    RankState(R.A, R.b, s.x)
  }

  /** When every rank eliminates the rows of its own block, the distributed system is
      eliminated on all rows. */
  lemma ElimOwnLogical(R0: seq<RankState>, R1: seq<RankState>, n: nat, p: nat, k: nat, piv: Vector, pb: real)
    requires ClusterShaped(R0, n, p) && ClusterShaped(R1, n, p) && k < n && |piv| == n && piv[k] != 0.0
    requires forall r :: 0 <= r < p ==>
      R1[r] == ElimOwn(R0[r], k, Range(BlockStart(n, p, r), BlockEnd(n, p, r)), piv, pb)
    ensures LogicalOf(R1, n, p) == PartialElim(LogicalOf(R0, n, p), k, Range(0, n), piv, pb)
  {
    var L0 := LogicalOf(R0, n, p);
    var L1 := PartialElim(L0, k, Range(0, n), piv, pb);
    var M := LogicalOf(R1, n, p);
    forall i | 0 <= i < n
      ensures M.A[i] == L1.A[i] && M.b[i] == L1.b[i]
    {
      var r := RowOwner(n, p, i);
      assert R0[r].A[i] == L0.A[i] && R0[r].b[i] == L0.b[i];
      assert M.A[i] == R1[r].A[i] && M.b[i] == R1[r].b[i];
      ElimOwnAgrees(R0[r], L0, k, BlockStart(n, p, r), BlockEnd(n, p, r), piv, pb, i);
    }
    RowsAgree(M.A, L1.A);
    RowsAgree(M.b, L1.b);
  }

  /** Row i of a rank whose block holds i, after ElimOwn, is row i of the eliminated
      distributed system. */
  lemma ElimOwnAgrees(s: RankState, L: Sys, k: nat, lo: int, hi: int, piv: Vector, pb: real, i: nat)
    requires WellFormed(Sys(s.A, s.b)) && WellFormed(L) && |L.b| == |s.b|
    requires k < |s.b| && |piv| == |s.b| && piv[k] != 0.0 && lo <= i < hi && i < |s.b|
    requires s.A[i] == L.A[i] && s.b[i] == L.b[i]
    ensures var t := ElimOwn(s, k, Range(lo, hi), piv, pb);
      var M := PartialElim(L, k, Range(0, |L.b|), piv, pb);
      t.A[i] == M.A[i] && t.b[i] == M.b[i]
  {
    ElimOwnRow(s, k, Range(lo, hi), piv, pb, i);
    assert i in Range(lo, hi) && i in Range(0, |L.b|);
  }

  /** Row i of a rank after ElimOwn. */
  lemma ElimOwnRow(s: RankState, k: nat, rows: set<int>, piv: Vector, pb: real, i: nat)
    requires WellFormed(Sys(s.A, s.b)) && k < |s.b| && |piv| == |s.b| && piv[k] != 0.0 && i < |s.b|
    ensures var t := ElimOwn(s, k, rows, piv, pb);
      t.A[i] == (if i in rows && k < i then ElimRow(s.A[i], piv, k) else s.A[i]) &&
      t.b[i] == (if i in rows && k < i then ElimB(s.b[i], s.A[i], piv, pb, k) else s.b[i])
  {
  }

  /** A rank's candidate is computed from its own rows only, which are those of the
      distributed system. */
  lemma CandidateAgrees(ranks: seq<RankState>, n: nat, p: nat, k: nat, r: nat)
    requires ClusterShaped(ranks, n, p) && k < n && r < p
    ensures var L := LogicalOf(ranks, n, p);
      LocalCandidate(ranks[r].A, k, BlockStart(n, p, r), BlockEnd(n, p, r)) == Candidates(L.A, k, p)[r]
  {
    var L := LogicalOf(ranks, n, p);
    var A := ranks[r].A;
    BlockBounds(n, p, r);
    var s, e := BlockStart(n, p, r), BlockEnd(n, p, r);
    var lo := if s < k then k else s;
    forall i | lo <= i < e ensures A[i][k] == L.A[i][k] {
      LogicalRow(ranks, n, p, r, i);
    }
    ScanAgree(A, L.A, k, lo, e, k, -1.0);
    assert Candidates(L.A, k, p)[r] == LocalCandidate(L.A, k, s, e);
  }

  /** The loop of mpi.c:250-259 over rows start..end-1 of one rank's copy: each row
      below k is reduced against (piv, pb) from column k on, and its b entry with it. */
  method EliminateRange(A: Matrix, b: Vector, k: nat, start: nat, end: nat, piv: Vector, pb: real)
    returns (A': Matrix, b': Vector)
    requires WellFormed(Sys(A, b)) && k < |b| && |piv| == |b| && piv[k] != 0.0 && start <= end <= |b|
    ensures Sys(A', b') == PartialElim(Sys(A, b), k, Range(start, end), piv, pb)
  {
    ghost var S0 := Sys(A, b);
    A', b' := A, b;
    PartialElimNone(S0, k, piv, pb);
    assert Range(start, start) == {};
    var i := start;
    while i < end
      invariant start <= i <= end
      invariant Sys(A', b') == PartialElim(S0, k, Range(start, i), piv, pb)
    {
      assert Range(start, i + 1) == Range(start, i) + {i};
      if i > k {
        PartialElimAdd(S0, k, Range(start, i), i, piv, pb);
        var row := ReduceRow(A'[i], piv, k);
        b' := b'[i := ElimB(b'[i], A'[i], piv, pb, k)];
        A' := A'[i := row];
      } else {
        PartialElimSkip(S0, k, Range(start, i), i, piv, pb);
      }
      i := i + 1;
    }
  }

  /** Rank 0's state after it has received rows lo..hi-1 and their b entries from src. */
  function Received(s: RankState, src: RankState, lo: int, hi: int): (t: RankState)
    requires |s.A| == |src.A| && |s.b| == |src.b|
    ensures |t.A| == |s.A| && |t.b| == |s.b| && t.x == s.x
    ensures forall j :: 0 <= j < |s.A| ==> t.A[j] == if lo <= j < hi then src.A[j] else s.A[j]
    ensures forall j :: 0 <= j < |s.b| ==> t.b[j] == if lo <= j < hi then src.b[j] else s.b[j]
  {
    RankState(seq(|s.A|, j requires 0 <= j < |s.A| => if lo <= j < hi then src.A[j] else s.A[j]),
              seq(|s.b|, j requires 0 <= j < |s.b| => if lo <= j < hi then src.b[j] else s.b[j]),
              s.x)
  }

  /** Rank 0's receives from one rank (mpi.c:268-275), matched by that rank's sends
      (mpi.c:288-293): rows procStart..procStart+procRows-1 and their b entries are
      copied from src into rank 0's state. */
  method ReceiveRows(root: RankState, src: RankState, procStart: nat, procRows: nat) returns (root': RankState)
    requires |root.A| == |src.A| && |root.b| == |src.b| == |root.A| && procStart + procRows <= |root.A|
    ensures root' == Received(root, src, procStart, procStart + procRows)
  {
    root' := root;
    assert root == Received(root, src, procStart, procStart);
    var i := 0;
    while i < procRows
      invariant 0 <= i <= procRows
      invariant root' == Received(root, src, procStart, procStart + i)
    {
      root' := Put(root', procStart + i, src.A[procStart + i], src.b[procStart + i]);
      i := i + 1;
      assert root' == Received(root, src, procStart, procStart + i);
    }
  }

  /** Rank 0 holds the distributed system on its own block. */
  lemma GatherStart(ranks: seq<RankState>, n: nat, p: nat)
    requires ClusterShaped(ranks, n, p)
    ensures var L := LogicalOf(ranks, n, p);
      forall j :: 0 <= j < n && j < BlockEnd(n, p, 0) ==> ranks[0].A[j] == L.A[j] && ranks[0].b[j] == L.b[j]
  {
    LogicalHolds(ranks, n, p);
    assert BlockStart(n, p, 0) == 0;
  }

  /** After rank 0 receives the block of rank proc, it holds the distributed system on
      every row up to the end of that block. */
  lemma GatherStep(ranks: seq<RankState>, n: nat, p: nat, root: RankState, root': RankState, proc: nat)
    requires ClusterShaped(ranks, n, p) && Shaped(root, n) && 1 <= proc < p
    requires var L := LogicalOf(ranks, n, p);
      forall j :: 0 <= j < n && j < BlockStart(n, p, proc) ==> root.A[j] == L.A[j] && root.b[j] == L.b[j]
    requires root' == Received(root, ranks[proc], BlockStart(n, p, proc), BlockEnd(n, p, proc))
    ensures Shaped(root', n) && root'.x == root.x
    ensures var L := LogicalOf(ranks, n, p);
      forall j :: 0 <= j < n && j < BlockEnd(n, p, proc) ==> root'.A[j] == L.A[j] && root'.b[j] == L.b[j]
  {
    var L := LogicalOf(ranks, n, p);
    LogicalHolds(ranks, n, p);
    forall j | 0 <= j < n && j < BlockEnd(n, p, proc)
      ensures root'.A[j] == L.A[j] && root'.b[j] == L.b[j]
    {
      if BlockStart(n, p, proc) <= j {
        assert root'.A[j] == ranks[proc].A[j] && root'.b[j] == ranks[proc].b[j];
      }
    }
  }

  /** Rank 0 holding all of the distributed system leaves the distributed system as it
      was. */
  lemma GatherDone(ranks: seq<RankState>, n: nat, p: nat, L: Sys, root: RankState)
    requires ClusterShaped(ranks, n, p) && WellFormed(L) && |L.b| == n && Holds(ranks, n, p, L)
    requires Shaped(root, n) && root.A == L.A && root.b == L.b
    ensures ClusterShaped(ranks[0 := root], n, p) && LogicalOf(ranks[0 := root], n, p) == L
  {
    var rs := ranks[0 := root];
    assert ClusterShaped(rs, n, p);
    var M := LogicalOf(rs, n, p);
    forall i | 0 <= i < n
      ensures M.A[i] == L.A[i] && M.b[i] == L.b[i]
    {
      var r := RowOwner(n, p, i);
      assert M.A[i] == rs[r].A[i] && M.b[i] == rs[r].b[i];
      if r != 0 {
        assert ranks[r].A[i] == L.A[i] && ranks[r].b[i] == L.b[i];
      }
    }
    RowsAgree(M.A, L.A);
    RowsAgree(M.b, L.b);
  }

  /** Rank 0's side of the gather (mpi.c:266-276): for each rank proc >= 1 in turn, it
      receives that rank's block of rows. It ends holding the distributed system, with
      its own x. */
  method GatherRows(ranks: seq<RankState>, n: nat, p: nat) returns (root: RankState)
    requires ClusterShaped(ranks, n, p)
    ensures Shaped(root, n) && root.x == ranks[0].x
    ensures root.A == LogicalOf(ranks, n, p).A && root.b == LogicalOf(ranks, n, p).b
  {
    ghost var L := LogicalOf(ranks, n, p);
    var rowsPerProc := n / p;
    var extraRows := n % p;
    root := ranks[0];
    GatherStart(ranks, n, p);
    var proc := 1;
    ghost var covered := BlockEnd(n, p, 0);
    while proc < p
      invariant 1 <= proc <= p && Shaped(root, n) && root.x == ranks[0].x
      invariant covered == BlockEnd(n, p, proc - 1)
      invariant forall j :: 0 <= j < n && j < covered ==> root.A[j] == L.A[j] && root.b[j] == L.b[j]
    {
      var procStart := proc * rowsPerProc + (if proc < extraRows then proc else extraRows);
      var procRows := rowsPerProc + (if proc < extraRows then 1 else 0);
      BlockNext(n, p, proc - 1);
      BlockBounds(n, p, proc);
      assert procStart == BlockStart(n, p, proc) == covered;
      assert procStart + procRows == BlockEnd(n, p, proc) <= n;
      var root' := ReceiveRows(root, ranks[proc], procStart, procRows);
      GatherStep(ranks, n, p, root, root', proc);
      root := root';
      covered := BlockEnd(n, p, proc);
      proc := proc + 1;
    }
    BlockLast(n, p);
    RowsAgree(root.A, L.A);
    RowsAgree(root.b, L.b);
  }

  /** Sequences of one length that agree at every index are equal. */
  lemma RowsAgree<T>(s: seq<T>, t: seq<T>)
    requires |s| == |t| && forall j :: 0 <= j < |s| ==> s[j] == t[j]
    ensures s == t
  {
  }

  // ---------------------------------------------------------------- the ranks

  /** p ranks solving one n x n system together. */
  class Cluster {
    const n: nat
    const p: nat
    var ranks: seq<RankState>

    ghost predicate Valid()
      reads this
    {
      ClusterShaped(ranks, n, p)
    }

    /** The distributed system the ranks hold. */
    ghost function System(): (S: Sys)
      reads this
      requires Valid()
      ensures WellFormed(S) && |S.b| == n
    {
      LogicalOf(ranks, n, p)
    }

    /** Every rank's `create_system` followed by the broadcast of rank 0's A and b
        (mpi.c:362-380): every rank starts with the whole system and a zero x. */
    constructor (S: Sys, p: nat)
      requires WellFormed(S) && p >= 1
      ensures Valid() && n == |S.b| && this.p == p
      ensures ranks == seq(p, _ => RankState(S.A, S.b, Zeros(|S.b|)))
      ensures System() == S
    {
      n := |S.b|;
      this.p := p;
      ranks := seq(p, _ => RankState(S.A, S.b, Zeros(|S.b|)));
      new;
      HoldsLogical(ranks, n, p, S);
    }

    /** Rank r's scan of its own rows for step k (mpi.c:167-177). */
    method LocalPivotScan(r: nat, k: nat) returns (row: int, val: real)
      requires Valid() && r < p && k < n
      ensures (row, val) == LocalCandidate(ranks[r].A, k, BlockStart(n, p, r), BlockEnd(n, p, r))
    {
      var rowsPerProc := n / p;
      var extraRows := n % p;
      var start := r * rowsPerProc + (if r < extraRows then r else extraRows);
      var end := start + rowsPerProc + (if r < extraRows then 1 else 0);
      assert start == BlockStart(n, p, r) && end == BlockEnd(n, p, r);
      BlockBounds(n, p, r);
      var A := ranks[r].A;
      assert HasColumn(A, k);
      ghost var target := LocalCandidate(A, k, start, end);
      val := -1.0;
      row := k;
      var i := start;
      while i < end
        invariant start <= i <= end
        invariant i <= k ==> row == k && val == -1.0
        invariant Scan(A, k, if i < k then k else i, end, row, val) == target
      {
        if i >= k && Abs(A[i][k]) > val {
          val := Abs(A[i][k]);
          row := i;
        }
        i := i + 1;
      }
    }

    /** The candidates the ranks send are those of the distributed system. */
    lemma CandidatesOfSystem(k: nat)
      requires Valid() && k < n
      ensures forall r :: 0 <= r < p ==>
        LocalCandidate(ranks[r].A, k, BlockStart(n, p, r), BlockEnd(n, p, r)) == Candidates(System().A, k, p)[r]
    {
      var L := System();
      LogicalHolds(ranks, n, p);
      forall r | 0 <= r < p
        ensures LocalCandidate(ranks[r].A, k, BlockStart(n, p, r), BlockEnd(n, p, r)) == Candidates(L.A, k, p)[r]
      {
        CandidateAgrees(ranks, n, p, k, r);
      }
    }

    /** The pivot selection of step k (mpi.c:167-202): each rank scans its own rows,
        MPI_Allreduce with MPI_MAXLOC names the winning rank, and the winner's candidate
        row, with its b entry, is broadcast. The row is the sequential pivot row
        (utils.c:166-174), its winner is its owner, and the buffer is that equation of
        the distributed system. */
    method SelectPivot(k: nat) returns (winner: nat, g: nat, buf: seq<real>)
      requires Valid() && k < n
      ensures g == Pivot(System().A, k) && winner == RowOwner(n, p, g)
      ensures buf == System().A[g] + [System().b[g]]
    {
      var cands: seq<(int, real)> := [];
      var r := 0;
      while r < p
        invariant 0 <= r <= p && |cands| == r
        invariant forall q :: 0 <= q < r ==>
          cands[q] == LocalCandidate(ranks[q].A, k, BlockStart(n, p, q), BlockEnd(n, p, q))
      {
        var row, val := LocalPivotScan(r, k);
        cands := cands + [(row, val)];
        r := r + 1;
      }
      ghost var L := System();
      CandidatesOfSystem(k);
      assert cands == Candidates(L.A, k, p);
      PivotByMaxLoc(L.A, k, p);
      var best := MaxLocOver(Values(cands), p);
      winner := best.1;
      g := cands[winner].0;
      LogicalHolds(ranks, n, p);
      buf := ranks[winner].A[g] + [ranks[winner].b[g]];
    }

    /** The row relocation of step k (mpi.c:214-246), corrected so that an owner of row k
        that also won stores its row k in slot g: the equations k and g of the
        distributed system are exchanged, as the sequential solver exchanges them. */
    method Relocate(k: nat, g: nat, owner: nat, winner: nat, buf: seq<real>)
      requires Valid() && k < n && g < n && owner == RowOwner(n, p, k) && winner == RowOwner(n, p, g)
      requires buf == System().A[g] + [System().b[g]]
      modifies this
      ensures Valid() && ranks == Relocated(old(ranks), n, p, k, g, owner, winner, buf)
      ensures System() == Swap(old(System()), k, g)
      ensures forall r :: 0 <= r < p ==> ranks[r].x == old(ranks[r].x)
    {
      RelocatedSwaps(ranks, n, p, k, g, buf);
      RelocatedFrame(ranks, n, p, k, g, owner, winner, buf);
      if g != k {
        // the owner of row k sends it with b[k]; the winner stores them in slot g
        var sentRow, sentB := ranks[owner].A[k], ranks[owner].b[k];
        ranks := ranks[winner := Put(ranks[winner], g, sentRow, sentB)];
        // the owner of row k stores the broadcast pivot row in slot k
        ranks := ranks[owner := Put(ranks[owner], k, buf[..n], buf[n])];
      }
    }

    /** mpi.c:214-246 as written: the winner receives row k only when it is not itself the
        owner of row k, so on one rank holding both rows slot g keeps its old content. */
    method RelocateAsWritten(k: nat, g: nat, owner: nat, winner: nat, buf: seq<real>)
      requires Valid() && k < n && g < n && owner == RowOwner(n, p, k) && winner == RowOwner(n, p, g)
      requires buf == System().A[g] + [System().b[g]]
      modifies this
      ensures Valid() && ranks == RelocatedAsWritten(old(ranks), n, p, k, g, owner, winner, buf)
      ensures System() == ExchangeAsWritten(old(System()), n, p, k, g)
      ensures forall r :: 0 <= r < p ==> ranks[r].x == old(ranks[r].x)
    {
      RelocatedAsWrittenLogical(ranks, n, p, k, g, buf);
      if g != k {
        if winner != owner {
          var sentRow, sentB := ranks[owner].A[k], ranks[owner].b[k];
          ranks := ranks[winner := Put(ranks[winner], g, sentRow, sentB)];
        }
        ranks := ranks[owner := Put(ranks[owner], k, buf[..n], buf[n])];
      }
    }

    /** Rank r's elimination loop of step k (mpi.c:250-259): each of its own rows below k
        is reduced against the broadcast pivot row (piv, pb). */
    method EliminateOwnRows(r: nat, k: nat, piv: seq<real>, pb: real)
      requires Valid() && r < p && k < n && |piv| == n && piv[k] != 0.0
      modifies this
      ensures Valid()
      ensures ranks == old(ranks)[r := ElimOwn(old(ranks[r]), k, Range(BlockStart(n, p, r), BlockEnd(n, p, r)), piv, pb)]
    {
      var rowsPerProc := n / p;
      var extraRows := n % p;
      var start := r * rowsPerProc + (if r < extraRows then r else extraRows);
      var end := start + rowsPerProc + (if r < extraRows then 1 else 0);
      assert start == BlockStart(n, p, r) && end == BlockEnd(n, p, r);
      BlockBounds(n, p, r);
      var A, b := EliminateRange(ranks[r].A, ranks[r].b, k, start, end, piv, pb);
      ranks := ranks[r := RankState(A, b, ranks[r].x)];
    }

    /** The elimination phase of step k on all ranks: the distributed system is reduced
        below row k against (piv, pb), and no x changes. */
    method EliminationPhase(k: nat, piv: seq<real>, pb: real)
      requires Valid() && k < n && |piv| == n && piv[k] != 0.0
      modifies this
      ensures Valid()
      ensures System() == PartialElim(old(System()), k, Range(0, n), piv, pb)
      ensures forall r :: 0 <= r < p ==> ranks[r].x == old(ranks[r].x)
    {
      ghost var R0 := ranks;
      var r := 0;
      while r < p
        invariant 0 <= r <= p && Valid()
        invariant forall q :: 0 <= q < r ==>
          ranks[q] == ElimOwn(R0[q], k, Range(BlockStart(n, p, q), BlockEnd(n, p, q)), piv, pb)
        invariant forall q :: r <= q < p ==> ranks[q] == R0[q]
      {
        EliminateOwnRows(r, k, piv, pb);
        r := r + 1;
      }
      ElimOwnLogical(R0, ranks, n, p, k, piv, pb);
    }

    /** Step k of the forward phase (mpi.c:153-263). On failure nothing on any rank
        changes; on success the distributed system is the sequential solver's after step
        k. */
    method StepMpi(k: nat) returns (ok: bool)
      requires Valid() && k + 1 < n
      modifies this
      ensures Valid()
      ensures forall r :: 0 <= r < p ==> ranks[r].x == old(ranks[r].x)
      ensures Step(old(System()), k) == Outcome(System(), ok)
      ensures ok ==> ForwardFrom(old(System()), k) == ForwardFrom(System(), k + 1)
      ensures !ok ==> ForwardFrom(old(System()), k) == Outcome(System(), false) && ranks == old(ranks)
    {
      var owner := FindOwner(n, p, k);
      var winner, g, buf := SelectPivot(k);
      ghost var L := System();
      assert buf[k] == L.A[g][k];
      if Abs(buf[k]) < Tiny {
        ForwardFromFails(L, k);
        return false;
      }
      ForwardFromPasses(L, k);
      Relocate(k, g, owner, winner, buf);
      ghost var T := Swap(L, k, g);
      assert buf[..n] == T.A[k] && buf[n] == T.b[k];
      PartialElimBelowOnly(T, k, T.A[k], T.b[k]);
      EliminationPhase(k, buf[..n], buf[n]);
      return true;
    }

    /** The forward phase (mpi.c:153-263). */
    method ForwardEliminateMpi() returns (ok: bool)
      requires Valid() && n >= 1
      modifies this
      ensures Valid()
      ensures forall r :: 0 <= r < p ==> ranks[r].x == old(ranks[r].x)
      ensures ForwardFrom(old(System()), 0) == Outcome(System(), ok)
    {
      ghost var target := ForwardFrom(System(), 0);
      ghost var R0 := ranks;
      var k := 0;
      while k < n - 1
        invariant 0 <= k <= n - 1 && Valid()
        invariant forall r :: 0 <= r < p ==> ranks[r].x == R0[r].x
        invariant ForwardFrom(System(), k) == target
      {
        ok := StepMpi(k);
        if !ok {
          return;
        }
        k := k + 1;
      }
      return true;
    }

    /** One step k of mpi.c's forward phase as written (mpi.c:167-262): the same pivot
        selection, failure test and elimination as StepMpi, around the relocation as
        written. */
    method StepMpiAsWritten(k: nat) returns (ok: bool)
      requires Valid() && k + 1 < n
      modifies this
      ensures Valid()
      ensures forall r :: 0 <= r < p ==> ranks[r].x == old(ranks[r].x)
      ensures StepAsWritten(old(System()), p, k) == Outcome(System(), ok)
    {
      var owner := FindOwner(n, p, k);
      var winner, g, buf := SelectPivot(k);
      ghost var L := System();
      assert buf[k] == L.A[g][k];
      if Abs(buf[k]) < Tiny {
        return false;
      }
      RelocateAsWritten(k, g, owner, winner, buf);
      ghost var T := ExchangeAsWritten(L, n, p, k, g);
      assert buf[..n] == T.A[k] && buf[n] == T.b[k];
      PartialElimBelowOnly(T, k, T.A[k], T.b[k]);
      EliminationPhase(k, buf[..n], buf[n]);
      return true;
    }

    /** The k loop of mpi.c:153-263 as written; its verdict is what mpi.c's solver returns,
        since no final test follows. */
    method ForwardEliminateMpiAsWritten() returns (ok: bool)
      requires Valid() && n >= 1
      modifies this
      ensures Valid()
      ensures forall r :: 0 <= r < p ==> ranks[r].x == old(ranks[r].x)
      ensures ForwardAsWritten(old(System()), p, 0) == Outcome(System(), ok)
      ensures ok == MpiVerdictAsWritten(old(System()), p)
    {
      ghost var target := ForwardAsWritten(System(), p, 0);
      ghost var R0 := ranks;
      var k := 0;
      while k < n - 1
        invariant 0 <= k <= n - 1 && Valid()
        invariant forall r :: 0 <= r < p ==> ranks[r].x == R0[r].x
        invariant ForwardAsWritten(System(), p, k) == target
      {
        ok := StepMpiAsWritten(k);
        if !ok {
          return;
        }
        k := k + 1;
      }
      return true;
    }

    /** The gather of mpi.c:266-276: rank 0 receives the rows of every other rank's
        block, with b, so that it holds the whole distributed system. */
    method Gather()
      requires Valid()
      modifies this
      ensures Valid() && System() == old(System())
      ensures ranks[0].A == System().A && ranks[0].b == System().b
      ensures ranks[0].x == old(ranks[0].x) && forall r :: 1 <= r < p ==> ranks[r] == old(ranks[r])
    {
      var root := GatherRows(ranks, n, p);
      LogicalHolds(ranks, n, p);
      GatherDone(ranks, n, p, System(), root);
      ranks := ranks[0 := root];
    }

    /** Back-substitution on rank 0 (mpi.c:278-287), on the system it holds. */
    method BackSubstituteRoot()
      requires Valid() && DiagNonZero(ranks[0].A, n)
      modifies this
      ensures Valid()
      ensures ranks == old(ranks)[0 := RankState(old(ranks[0].A), old(ranks[0].b), BackSubst(Sys(old(ranks[0].A), old(ranks[0].b))))]
      ensures System() == old(System())
    {
      var A, b, x := ranks[0].A, ranks[0].b, ranks[0].x;
      ghost var S := Sys(A, b);
      ghost var x0 := x;
      var i := n;
      while i > 0
        invariant 0 <= i <= n && |x| == n
        invariant BackLoop(S, i, x) == BackLoop(S, n, x0)
      {
        var t := i - 1;
        ghost var xs := x;
        x := x[t := b[t]];
        var j := t + 1;
        while j < n
          invariant t < j <= n && |x| == n
          invariant x == xs[t := x[t]]
          invariant x[t] == S.b[t] - Sum(S.A[t], xs, t + 1, j)
        {
          x := x[t := x[t] - A[t][j] * x[j]];
          j := j + 1;
        }
        x := x[t := x[t] / A[t][t]];
        assert x == xs[t := Substituted(S, t, xs)];
        i := t;
      }
      BackLoopReadsWritten(S, n, x0, Zeros(n));
      ghost var R0 := ranks;
      ranks := ranks[0 := RankState(A, b, x)];
      SameRowsSameSystem(R0, ranks, n, p);
    }

    /** MPI_Bcast of rank 0's x to every rank (mpi.c:297). */
    method BroadcastSolution()
      requires Valid()
      modifies this
      ensures Valid() && System() == old(System())
      ensures forall r :: 0 <= r < p ==>
        ranks[r] == RankState(old(ranks[r].A), old(ranks[r].b), old(ranks[0].x))
    {
      var bufs := Broadcast(ranks[0].x, p);
      var R0 := ranks;
      ranks := seq(p, r requires 0 <= r < p => RankState(R0[r].A, R0[r].b, bufs[r]));
      SameRowsSameSystem(R0, ranks, n, p);
    }

    /** `gaussian_elimination_mpi` (mpi.c:125-301) with the exchange corrected and the
        final test of |A[n-1][n-1]| against 1e-12 that utils.c makes: it succeeds exactly
        when the sequential solver does, the distributed system ends as the sequential
        solver leaves A and b, and on success every rank holds the sequential solution;
        on failure no x is written. */
    method GaussianEliminationMpi() returns (ok: bool)
      requires Valid() && n >= 1
      modifies this
      ensures Valid()
      ensures ok <==> Solve(old(System())).Solved?
      ensures System() == Solve(old(System())).S
      ensures ok ==> forall r :: 0 <= r < p ==> ranks[r].x == Solve(old(System())).x
      ensures !ok ==> forall r :: 0 <= r < p ==> ranks[r].x == old(ranks[r].x)
      ensures ok ==> ranks[0].A == System().A && ranks[0].b == System().b
    {
      ghost var S0 := System();
      ok := ForwardEliminateMpi();
      ghost var R := System();
      SolveAfterForward(S0, R, ok);
      if !ok {
        return;
      }
      Gather();
      assert Sys(ranks[0].A, ranks[0].b) == R;
      if Abs(ranks[0].A[n - 1][n - 1]) < Tiny {
        return false;
      }
      BackSubstituteRoot();
      BroadcastSolution();
    }
  }

  /** The sequential solver's verdict and answer, read off the outcome (R, ok) of the
      forward phase: it succeeds iff ok and the last diagonal entry passes the test, and
      its answer is then the back-substitution of R. */
  lemma SolveAfterForward(S: Sys, R: Sys, ok: bool)
    requires WellFormed(S) && |S.b| >= 1 && ForwardFrom(S, 0) == Outcome(R, ok)
    ensures WellFormed(R) && |R.b| == |S.b| && Solve(S).S == R
    ensures Solve(S).Solved? <==> ok && Abs(R.A[|S.b| - 1][|S.b| - 1]) >= Tiny
    ensures Solve(S).Solved? ==> DiagNonZero(R.A, |S.b|) && Solve(S).x == BackSubst(R)
  {
    SolveCases(S);
  }

  /** One step k of mpi.c's forward phase as written (mpi.c:167-262), on the distributed
      system S held by p ranks. The MAXLOC reduction selects Pivot (PivotByMaxLoc), the step
      fails on a tiny pivot (mpi.c:205-211), the relocation is the one as written, and every
      row below k is eliminated against the broadcast pivot row. */
  function StepAsWritten(S: Sys, p: nat, k: nat): (o: Outcome)
    requires WellFormed(S) && k + 1 < |S.b| && p >= 1
    ensures WellFormed(o.S) && |o.S.b| == |S.b|
    ensures !o.ok <==> Abs(S.A[Pivot(S.A, k)][k]) < Tiny
  {
    var g := Pivot(S.A, k);
    if Abs(S.A[g][k]) < Tiny then Outcome(S, false)
    else Outcome(Eliminate(ExchangeAsWritten(S, |S.b|, p, k, g), k), true)
  }

  /** mpi.c's forward phase as written, from step k on. */
  function ForwardAsWritten(S: Sys, p: nat, k: nat): (o: Outcome)
    requires WellFormed(S) && k <= |S.b| && p >= 1
    ensures WellFormed(o.S) && |o.S.b| == |S.b|
    decreases |S.b| - k
  {
    if k + 1 >= |S.b| then Outcome(S, true)
    else
      var o := StepAsWritten(S, p, k);
      if !o.ok then o else ForwardAsWritten(o.S, p, k + 1)
  }

  /** Along the sequential forward phase from k, every step that passes its pivot test finds
      the pivot at row k or on another rank than row k, so no relocation loses a row. */
  ghost predicate ExchangesHappen(S: Sys, p: nat, k: nat)
    requires WellFormed(S) && k <= |S.b| && p >= 1
    decreases |S.b| - k
  {
    k + 1 >= |S.b| ||
    var g := Pivot(S.A, k);
    Abs(S.A[g][k]) < Tiny ||
    ((g == k || RowOwner(|S.b|, p, k) != RowOwner(|S.b|, p, g)) && ExchangesHappen(Step(S, k).S, p, k + 1))
  }

  /** Where every relocation is a real exchange, mpi.c's forward phase as written is the
      sequential one. */
  lemma {:induction false} ForwardAsWrittenAgrees(S: Sys, p: nat, k: nat)
    requires WellFormed(S) && k <= |S.b| && p >= 1 && ExchangesHappen(S, p, k)
    ensures ForwardAsWritten(S, p, k) == ForwardFrom(S, k)
    decreases |S.b| - k
  {
    if k + 1 < |S.b| {
      var g := Pivot(S.A, k);
      if Abs(S.A[g][k]) >= Tiny {
        assert ExchangeAsWritten(S, |S.b|, p, k, g) == Swap(S, k, g);
        assert StepAsWritten(S, p, k) == Step(S, k);
        ForwardAsWrittenAgrees(Step(S, k).S, p, k + 1);
      }
    }
  }

  /** With at least as many ranks as rows, every rank holds one row at most, so every
      relocation is a real exchange. */
  lemma {:induction false} ExchangesHappenWhenRanksCoverRows(S: Sys, p: nat, k: nat)
    requires WellFormed(S) && k <= |S.b| && p >= |S.b| && p >= 1
    ensures ExchangesHappen(S, p, k)
    decreases |S.b| - k
  {
    if k + 1 < |S.b| {
      var g := Pivot(S.A, k);
      OwnRowEach(|S.b|, p, k);
      OwnRowEach(|S.b|, p, g);
      ExchangesHappenWhenRanksCoverRows(Step(S, k).S, p, k + 1);
    }
  }

  /** The verdict of mpi.c's solver as written (mpi.c:153-300): it returns 1 whenever no
      pivot test of its own forward phase fails, since it has no final test of
      A[n-1][n-1]. */
  ghost predicate MpiVerdictAsWritten(S: Sys, p: nat)
    requires WellFormed(S) && |S.b| >= 1 && p >= 1
  {
    ForwardAsWritten(S, p, 0).ok
  }

  /** Where every relocation is a real exchange, the verdict as written together with the
      missing final test is exactly the sequential solver's verdict. */
  lemma MpiVerdictAsWrittenAgrees(S: Sys, p: nat)
    requires WellFormed(S) && |S.b| >= 1 && p >= 1
    ensures ExchangesHappen(S, p, 0) ==>
      var f := ForwardAsWritten(S, p, 0); var n := |S.b|;
      (Solve(S).Solved? <==> MpiVerdictAsWritten(S, p) && Abs(f.S.A[n - 1][n - 1]) >= Tiny)
  {
    if ExchangesHappen(S, p, 0) {
      ForwardAsWrittenAgrees(S, p, 0);
    }
    SolveCases(S);
  }

  /** A = [[1, 1], [1, 1]], b = [1, 1], on any number of ranks: the one pivot test passes
      with the pivot in place, the reduced A[1][1] is 0, and mpi.c reports success and
      divides by zero, while the sequential solver reports a singular system. */
  lemma MpiVerdictCounterexample(p: nat)
    requires p >= 1
    ensures var S := Sys([[1.0, 1.0], [1.0, 1.0]], [1.0, 1.0]);
      MpiVerdictAsWritten(S, p) && ForwardAsWritten(S, p, 0).S.A[1][1] == 0.0 && !Solve(S).Solved?
  {
    var S := Sys([[1.0, 1.0], [1.0, 1.0]], [1.0, 1.0]);
    assert Scan(S.A, 0, 1, 2, 0, 1.0) == (0, 1.0);
    assert Pivot(S.A, 0) == 0;
    assert Swap(S, 0, 0) == S;
    var E := Eliminate(S, 0);
    assert E.A[1][1] == 0.0;
    assert ForwardFrom(S, 0) == ForwardFrom(E, 1);
    assert ExchangesHappen(S, p, 0);
    ForwardAsWrittenAgrees(S, p, 0);
  }

  /** The 3 x 3 system of LostRowVerdictCounterexample, and what the first step makes of it
      as written on one rank and sequentially. */
  function LostRowSystem(): (S: Sys)
    ensures WellFormed(S) && |S.b| == 3
  {
    Sys([[1.0, 1.0, 0.0], [2.0, 0.0, 1.0], [0.0, 0.0, 1.0]], [0.0, 0.0, 0.0])
  }

  function LostRowAsWritten(): (S: Sys)
    ensures WellFormed(S) && |S.b| == 3
  {
    Sys([[2.0, 0.0, 1.0], [0.0, 0.0, 0.0], [0.0, 0.0, 1.0]], [0.0, 0.0, 0.0])
  }

  function LostRowSequential(): (S: Sys)
    ensures WellFormed(S) && |S.b| == 3
  {
    Sys([[2.0, 0.0, 1.0], [0.0, 1.0, -0.5], [0.0, 0.0, 1.0]], [0.0, 0.0, 0.0])
  }

  /** Step 0 as written on one rank: pivot row 1 overwrites row 0, and row 1 then
      eliminates to zero. */
  lemma LostRowStep0AsWritten()
    ensures StepAsWritten(LostRowSystem(), 1, 0) == Outcome(LostRowAsWritten(), true)
  {
    var S, R := LostRowSystem(), LostRowAsWritten();
    assert Pivot(S.A, 0) == 1;
    BlockOwner(3, 1, 0, 0);
    BlockOwner(3, 1, 0, 1);
    var M := ExchangeAsWritten(S, 3, 1, 0, 1);
    assert M == Sys([[2.0, 0.0, 1.0], [2.0, 0.0, 1.0], [0.0, 0.0, 1.0]], [0.0, 0.0, 0.0]);
    var E := Eliminate(M, 0);
    assert E.A[1] == ElimRow(M.A[1], M.A[0], 0);
    assert E.A[1][1] == 0.0 && E.A[1][2] == 0.0;
    assert E.A[2] == ElimRow(M.A[2], M.A[0], 0);
    assert E.A[2][2] == 1.0;
    assert E.A[0] == R.A[0] && E.A[1] == R.A[1] && E.A[2] == R.A[2];
    assert E.A == R.A;
    assert E.b == R.b;
  }

  /** Sequential step 0: rows 0 and 1 are exchanged and the new row 1 is reduced. */
  lemma LostRowStep0Sequential()
    ensures Step(LostRowSystem(), 0) == Outcome(LostRowSequential(), true)
  {
    var S, R := LostRowSystem(), LostRowSequential();
    assert Pivot(S.A, 0) == 1;
    var T := Swap(S, 0, 1);
    assert T == Sys([[2.0, 0.0, 1.0], [1.0, 1.0, 0.0], [0.0, 0.0, 1.0]], [0.0, 0.0, 0.0]);
    var E := Eliminate(T, 0);
    assert E.A[1] == ElimRow(T.A[1], T.A[0], 0);
    assert E.A[1][1] == 1.0 && E.A[1][2] == -0.5;
    assert E.A[2] == ElimRow(T.A[2], T.A[0], 0);
    assert E.A[2][2] == 1.0;
    assert E.A[0] == R.A[0] && E.A[1] == R.A[1] && E.A[2] == R.A[2];
    assert E.A == R.A;
    assert E.b == R.b;
  }

  /** Sequential step 1 keeps row 1 as pivot and leaves row 2 as it is. */
  lemma LostRowStep1Sequential()
    ensures Step(LostRowSequential(), 1) == Outcome(LostRowSequential(), true)
  {
    var R := LostRowSequential();
    assert Pivot(R.A, 1) == 1;
    assert Swap(R, 1, 1) == R;
    var E := Eliminate(R, 1);
    assert E.A[2] == ElimRow(R.A[2], R.A[1], 1);
    assert E.A[2][2] == 1.0;
    assert E.A[0] == R.A[0] && E.A[1] == R.A[1] && E.A[2] == R.A[2];
    assert E.A == R.A;
    assert E.b == R.b;
  }

  /** One rank, A = [[1, 1, 0], [2, 0, 1], [0, 0, 1]], b = [0, 0, 0]: the sequential solver
      succeeds. mpi.c as written overwrites row 0 with the pivot row 1 at k = 0; row 1 then
      eliminates to zero, and the pivot test at k = 1 fails, so it reports a nonsingular
      system as singular. */
  lemma LostRowVerdictCounterexample()
    ensures !MpiVerdictAsWritten(LostRowSystem(), 1) && Solve(LostRowSystem()).Solved?
  {
    var S := LostRowSystem();
    LostRowStep0AsWritten();
    var R := LostRowAsWritten();
    assert Pivot(R.A, 1) == 1;
    assert !StepAsWritten(R, 1, 1).ok;
    assert ForwardAsWritten(S, 1, 0) == ForwardAsWritten(R, 1, 1);
    LostRowStep0Sequential();
    LostRowStep1Sequential();
    assert ForwardFrom(S, 0) == Outcome(LostRowSequential(), true);
    SolveCases(S);
  }

  /** The largest residual |A[i] . x - b[i]| accepted for n > 2000 (mpi.c:112). */
  const AdaptiveTolerance: real := 0.000001

  /** `verify_solution` of mpi.c (mpi.c:89-119), on rank 0's A, b and x: it accepts when
      no residual exceeds 1e-9, or when n > 2000 and the largest residual is at most
      1e-6. */
  method VerifySolutionMpi(A: Matrix, b: Vector, x: Vector) returns (ok: bool)
    requires IsSquare(A, |x|) && |b| == |x|
    ensures ok <==> ResidualsWithin(A, b, x, ParallelTolerance) ||
                    (|x| > 2000 && ResidualsWithin(A, b, x, AdaptiveTolerance))
  {
    var n := |x|;
    var maxError := 0.0;
    var errorCount := 0;
    var i := 0;
    while i < n
      invariant 0 <= i <= n && 0 <= errorCount <= i && maxError >= 0.0
      invariant forall r :: 0 <= r < i ==> Abs(Dot(A[r], x) - b[r]) <= maxError
      invariant maxError == 0.0 || exists r :: 0 <= r < i && Abs(Dot(A[r], x) - b[r]) == maxError
      invariant errorCount == 0 <==> forall r :: 0 <= r < i ==> Abs(Dot(A[r], x) - b[r]) <= ParallelTolerance
    {
      var sum := 0.0;
      var j := 0;
      while j < n
        invariant 0 <= j <= n && sum == Sum(A[i], x, 0, j)
      {
        sum := sum + A[i][j] * x[j];
        j := j + 1;
      }
      var error := Abs(sum - b[i]);
      if error > maxError {
        maxError := error;
      }
      if error > ParallelTolerance {
        errorCount := errorCount + 1;
      }
      i := i + 1;
    }
    var adaptiveTolerance := if n > 2000 then AdaptiveTolerance else ParallelTolerance;
    if n > 2000 && maxError <= adaptiveTolerance {
      return true;
    }
    return errorCount == 0;
  }

  /** A successful solve leaves on rank 0 a system and solution that `verify_solution`
      accepts. */
  lemma SolvedPassesVerificationMpi(S: Sys)
    requires WellFormed(S) && |S.b| >= 1 && Solve(S).Solved?
    ensures ResidualsWithin(Solve(S).S.A, Solve(S).S.b, Solve(S).x, ParallelTolerance)
  {
    SolveCorrect(S);
    ExactSolutionWithin(Solve(S).S.A, Solve(S).S.b, Solve(S).x, ParallelTolerance);
  }
}
