/** The integer row partitions of the parallel variants.

    Chunks: the threaded variants split len rows starting at base into T pieces of len / T
    rows, the last piece also taking the len % T left over (pthread.c:200-215 and 259-271,
    pthread_version.c:127-141).

    Blocks: the MPI variants give each of p ranks n / p rows, the ranks below n % p one row
    more (mpi.c:132-136, mpi_version.c:49-53), and find the owner of a row by searching the
    ranks in order (mpi.c:158-165, mpi_version.c:76-83). */
module Partition {

  function ChunkStart(base: int, len: nat, T: nat, i: int): int
    requires T >= 1
  {
    base + i * (len / T)
  }

  function ChunkEnd(base: int, len: nat, T: nat, i: int): int
    requires T >= 1
  {
    base + (i + 1) * (len / T) + (if i == T - 1 then len % T else 0)
  }

  /** Thread i's chunk as pthread.c (200-215, 259-271) and pthread_version.c (127-141)
      compute it: len / T rows from base + i (len / T), the last thread also taking the
      len mod T rows left over. */
  method ThreadChunk(base: int, len: nat, T: nat, i: int) returns (start: int, end: int)
    requires T >= 1
    ensures start == ChunkStart(base, len, T, i) && end == ChunkEnd(base, len, T, i)
  {
    var rowsPerThread := len / T;
    var remainingRows := len % T;
    start := base + i * rowsPerThread;
    end := base + (i + 1) * rowsPerThread;
    if i == T - 1 {
      end := end + remainingRows;
    }
  }

  /** The chunks tile [base, base + len): the first starts at base, each ends where the next
      starts, the last ends at base + len, and every chunk has len / T rows except the last,
      which has len / T + len % T. */
  lemma ChunksTile(base: int, len: nat, T: nat)
    requires T >= 1
    ensures ChunkStart(base, len, T, 0) == base
    ensures ChunkEnd(base, len, T, T - 1) == base + len
    ensures forall i :: 0 <= i < T - 1 ==> ChunkEnd(base, len, T, i) == ChunkStart(base, len, T, i + 1)
    ensures forall i :: 0 <= i < T ==>
      ChunkEnd(base, len, T, i) - ChunkStart(base, len, T, i) ==
        len / T + (if i == T - 1 then len % T else 0)
  {
    var q := len / T;
    assert T * q + len % T == len;
    assert (T - 1 + 1) * q == T * q;
    forall i | 0 <= i < T
      ensures ChunkEnd(base, len, T, i) - ChunkStart(base, len, T, i) ==
        q + (if i == T - 1 then len % T else 0)
    {
      assert (i + 1) * q == i * q + q;
    }
  }

  /** Chunks are ordered and disjoint: a chunk never starts before an earlier one ends. */
  lemma ChunksOrdered(base: int, len: nat, T: nat, i: int, j: int)
    requires T >= 1 && 0 <= i < j < T
    ensures ChunkStart(base, len, T, i) <= ChunkEnd(base, len, T, i) <= ChunkStart(base, len, T, j)
  {
    var q := len / T;
    assert (i + 1) * q <= j * q by {
      assert q >= 0 && i + 1 <= j;
      assert (j - (i + 1)) * q >= 0;
    }
    assert (i + 1) * q == i * q + q;
  }

  /** Every row of [base, base + len) lies in exactly one chunk. */
  lemma ChunkOwnerUnique(base: int, len: nat, T: nat, row: int)
    requires T >= 1 && base <= row < base + len
    ensures exists i :: 0 <= i < T && ChunkStart(base, len, T, i) <= row < ChunkEnd(base, len, T, i)
    ensures forall i, j ::
      (0 <= i < T && 0 <= j < T &&
       ChunkStart(base, len, T, i) <= row < ChunkEnd(base, len, T, i) &&
       ChunkStart(base, len, T, j) <= row < ChunkEnd(base, len, T, j)) ==> i == j
  {
    ChunksTile(base, len, T);
    var i := ChunkContaining(base, len, T, 0, row);
    forall i, j | 0 <= i < T && 0 <= j < T &&
      ChunkStart(base, len, T, i) <= row < ChunkEnd(base, len, T, i) &&
      ChunkStart(base, len, T, j) <= row < ChunkEnd(base, len, T, j)
      ensures i == j
    {
      if i < j {
        ChunksOrdered(base, len, T, i, j);
      } else if j < i {
        ChunksOrdered(base, len, T, j, i);
      }
    }
  }

  /** Every chunk lies inside [base, base + len). */
  lemma ChunkBounds(base: int, len: nat, T: nat, i: int)
    requires T >= 1 && 0 <= i < T
    ensures base <= ChunkStart(base, len, T, i) <= ChunkEnd(base, len, T, i) <= base + len
  {
    ChunkLast(base, len, T);
    if i < T - 1 {
      ChunksOrdered(base, len, T, i, T - 1);
    } else {
      var q := len / T;
      assert (i + 1) * q == i * q + q;
    }
  }

  /** The chunk among i..T-1 that holds row, found by walking the chunks in order. */
  lemma {:induction false} ChunkContaining(base: int, len: nat, T: nat, i: nat, row: int) returns (c: nat)
    requires T >= 1 && i < T && ChunkStart(base, len, T, i) <= row < base + len
    ensures i <= c < T && ChunkStart(base, len, T, c) <= row < ChunkEnd(base, len, T, c)
    decreases T - i
  {
    if row < ChunkEnd(base, len, T, i) {
      c := i;
    } else {
      ChunkLast(base, len, T);
      assert i < T - 1;
      ChunkNext(base, len, T, i);
      c := ChunkContaining(base, len, T, i + 1, row);
    }
  }

  lemma ChunkNext(base: int, len: nat, T: nat, i: int)
    requires T >= 1 && 0 <= i < T - 1
    ensures ChunkEnd(base, len, T, i) == ChunkStart(base, len, T, i + 1)
  {
  }

  lemma ChunkLast(base: int, len: nat, T: nat)
    requires T >= 1
    ensures ChunkEnd(base, len, T, T - 1) == base + len
  {
    var q := len / T;
    assert T * q + len % T == len;
    assert (T - 1 + 1) * q == T * q;
  }

  /** The first row of rank r's block and the number of rows it holds. */
  function BlockStart(n: nat, p: nat, r: int): int
    requires p >= 1
  {
    r * (n / p) + (if r < n % p then r else n % p)
  }

  function BlockRows(n: nat, p: nat, r: int): int
    requires p >= 1
  {
    n / p + (if r < n % p then 1 else 0)
  }

  function BlockEnd(n: nat, p: nat, r: int): int
    requires p >= 1
  {
    BlockStart(n, p, r) + BlockRows(n, p, r)
  }

  /** The blocks tile [0, n) for every p >= 1: rank 0 starts at 0, each rank ends where the
      next starts and the last ends at n. */
  lemma BlocksTile(n: nat, p: nat)
    requires p >= 1
    ensures BlockStart(n, p, 0) == 0
    ensures BlockEnd(n, p, p - 1) == n
    ensures forall r :: 0 <= r < p - 1 ==> BlockEnd(n, p, r) == BlockStart(n, p, r + 1)
    ensures forall r :: 0 <= r < p ==> 0 <= BlockStart(n, p, r) <= BlockEnd(n, p, r) <= n
  {
    var q, e := n / p, n % p;
    assert p * q + e == n && 0 <= e < p && q >= 0;
    MulSucc(p - 1, q);
    forall r | 0 <= r < p - 1 ensures BlockEnd(n, p, r) == BlockStart(n, p, r + 1) {
      MulSucc(r, q);
    }
    forall r | 0 <= r < p ensures 0 <= BlockStart(n, p, r) <= BlockEnd(n, p, r) <= n {
      MulMono(0, r, q);
      MulMono(r, p - 1, q);
    }
  }

  /** (r + 1) q = r q + q, kept apart so that the block proofs stay linear. */
  lemma MulSucc(r: int, q: int)
    ensures (r + 1) * q == r * q + q
  {
  }

  /** Multiplication by q >= 0 is monotonic. */
  lemma MulMono(r: int, s: int, q: int)
    requires r <= s && q >= 0
    ensures r * q <= s * q
  {
    assert s * q - r * q == (s - r) * q;
  }

  /** One rank's block lies inside [0, n). */
  lemma BlockBounds(n: nat, p: nat, r: int)
    requires p >= 1 && 0 <= r < p
    ensures 0 <= BlockStart(n, p, r) <= BlockEnd(n, p, r) <= n
  {
    BlocksTile(n, p);
  }

  /** Each block ends where the next begins. */
  lemma BlockNext(n: nat, p: nat, r: int)
    requires p >= 1 && 0 <= r < p - 1
    ensures BlockEnd(n, p, r) == BlockStart(n, p, r + 1)
  {
    BlocksTile(n, p);
  }

  /** The last block ends at n. */
  lemma BlockLast(n: nat, p: nat)
    requires p >= 1
    ensures BlockEnd(n, p, p - 1) == n
  {
    BlocksTile(n, p);
  }

  /** With more ranks than rows, ranks below n hold one row each and the others none. */
  lemma BlocksWhenRanksExceedRows(n: nat, p: nat)
    requires p > n
    ensures forall r :: 0 <= r < p ==> BlockRows(n, p, r) == (if r < n then 1 else 0)
    ensures forall r :: 0 <= r < p ==> BlockStart(n, p, r) == (if r < n then r else n)
  {
    assert n / p == 0 && n % p == n by {
      assert p * 0 + n == n && 0 <= n < p;
    }
  }

  /** The blocks are balanced: a lower rank holds as many rows as a higher one, or one
      more, and the block sizes add up to n. */
  lemma BlocksBalanced(n: nat, p: nat, r: int, s: int)
    requires p >= 1 && 0 <= r <= s < p
    ensures BlockRows(n, p, s) <= BlockRows(n, p, r) <= BlockRows(n, p, s) + 1
    ensures BlockRows(n, p, r) >= 0 && BlockEnd(n, p, p - 1) - BlockStart(n, p, 0) == n
  {
    BlocksTile(n, p);
  }

  /** Blocks are ordered and disjoint. */
  lemma BlocksOrdered(n: nat, p: nat, r: int, s: int)
    requires p >= 1 && 0 <= r < s < p
    ensures BlockEnd(n, p, r) <= BlockStart(n, p, s)
  {
    var q := n / p;
    MulMono(r + 1, s, q);
    MulSucc(r, q);
  }

  /** The first rank among r..p-1 whose block holds row k, or -1 when there is none. */
  function OwnerFrom(n: nat, p: nat, k: int, r: nat): (o: int)
    requires p >= 1
    ensures o == -1 || (r <= o < p && BlockStart(n, p, o) <= k < BlockEnd(n, p, o))
    decreases p - r
  {
    if r >= p then -1
    else if BlockStart(n, p, r) <= k < BlockEnd(n, p, r) then r
    else OwnerFrom(n, p, k, r + 1)
  }

  function Owner(n: nat, p: nat, k: int): int
    requires p >= 1
  {
    OwnerFrom(n, p, k, 0)
  }

  /** The owner of a row of [0, n), with the block fact that identifies it. */
  function RowOwner(n: nat, p: nat, i: int): (o: nat)
    requires p >= 1 && 0 <= i < n
    ensures o < p && BlockStart(n, p, o) <= i < BlockEnd(n, p, o)
  {
    OwnerCorrect(n, p, i);
    Owner(n, p, i)
  }

  /** A rank whose block holds row i is its owner. */
  lemma BlockOwner(n: nat, p: nat, r: int, i: int)
    requires p >= 1 && 0 <= r < p && 0 <= i < n && BlockStart(n, p, r) <= i < BlockEnd(n, p, r)
    ensures RowOwner(n, p, i) == r
  {
    OwnerCorrect(n, p, i);
  }

  /** With at least as many ranks as rows, rank i holds row i alone, so distinct rows have
      distinct owners. */
  lemma OwnRowEach(n: nat, p: nat, i: int)
    requires p >= n && p >= 1 && 0 <= i < n
    ensures RowOwner(n, p, i) == i
  {
    if p > n {
      BlocksWhenRanksExceedRows(n, p);
      assert BlockStart(n, p, i) == i && BlockRows(n, p, i) == 1;
    } else {
      assert n / p == 1 && n % p == 0 by { assert p * 1 + 0 == n; }
      assert BlockStart(n, p, i) == i && BlockRows(n, p, i) == 1;
    }
    BlockOwner(n, p, i, i);
  }

  /** For a row k of [0, n) the owner is the one rank whose block holds k; outside [0, n)
      there is no owner. */
  lemma OwnerCorrect(n: nat, p: nat, k: int)
    requires p >= 1
    ensures 0 <= k < n ==>
      0 <= Owner(n, p, k) < p &&
      BlockStart(n, p, Owner(n, p, k)) <= k < BlockEnd(n, p, Owner(n, p, k)) &&
      forall r :: 0 <= r < p && BlockStart(n, p, r) <= k < BlockEnd(n, p, r) ==> r == Owner(n, p, k)
    ensures !(0 <= k < n) ==> Owner(n, p, k) == -1
  {
    BlocksTile(n, p);
    if 0 <= k < n {
      var r := BlockContaining(n, p, 0, k);
      OwnerFromFinds(n, p, k, 0, r);
      forall s | 0 <= s < p && BlockStart(n, p, s) <= k < BlockEnd(n, p, s)
        ensures s == Owner(n, p, k)
      {
        var o := Owner(n, p, k);
        if s < o {
          BlocksOrdered(n, p, s, o);
        } else if o < s {
          BlocksOrdered(n, p, o, s);
        }
      }
    } else {
      OwnerFromNone(n, p, k, 0);
    }
  }

  lemma {:induction false} BlockContaining(n: nat, p: nat, r: nat, k: int) returns (c: nat)
    requires p >= 1 && r < p && BlockStart(n, p, r) <= k < n
    ensures r <= c < p && BlockStart(n, p, c) <= k < BlockEnd(n, p, c)
    decreases p - r
  {
    if k < BlockEnd(n, p, r) {
      c := r;
    } else {
      if r == p - 1 {
        BlockLast(n, p);
      }
      BlockNext(n, p, r);
      c := BlockContaining(n, p, r + 1, k);
    }
  }

  lemma {:induction false} OwnerFromFinds(n: nat, p: nat, k: int, r: nat, c: nat)
    requires p >= 1 && r <= c < p && BlockStart(n, p, c) <= k < BlockEnd(n, p, c)
    ensures OwnerFrom(n, p, k, r) != -1
    decreases c - r
  {
    if r < c && !(BlockStart(n, p, r) <= k < BlockEnd(n, p, r)) {
      OwnerFromFinds(n, p, k, r + 1, c);
    }
  }

  lemma {:induction false} OwnerFromNone(n: nat, p: nat, k: int, r: nat)
    requires p >= 1 && !(0 <= k < n)
    ensures OwnerFrom(n, p, k, r) == -1
    decreases p - r
  {
    BlocksTile(n, p);
    if r < p {
      OwnerFromNone(n, p, k, r + 1);
    }
  }

  /** The owner lookup loop (mpi.c:158-165): the first rank whose block holds k, -1 if none.
      Every rank runs it on the same n, p and k, so every rank finds the same owner. */
  method FindOwner(n: nat, p: nat, k: int) returns (owner: int)
    requires p >= 1
    ensures owner == Owner(n, p, k)
  {
    owner := -1;
    var i := 0;
    while i < p
      invariant 0 <= i <= p
      invariant OwnerFrom(n, p, k, i) == Owner(n, p, k)
    {
      var procStart := i * (n / p) + (if i < n % p then i else n % p);
      var procRows := n / p + (if i < n % p then 1 else 0);
      if k >= procStart && k < procStart + procRows {
        owner := i;
        return;
      }
      i := i + 1;
    }
  }

  /** order lists every index of [lo, hi) exactly once, in some order. */
  ghost predicate IsOrderOf(order: seq<int>, lo: int, hi: int)
  {
    (forall t :: 0 <= t < |order| ==> lo <= order[t] < hi) &&
    (forall t, u :: 0 <= t < u < |order| ==> order[t] != order[u]) &&
    (forall i :: lo <= i < hi ==> i in order)
  }
}
