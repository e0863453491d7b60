/**
 * The range computation of prime_number_search.cpp (lines 84-89): every rank
 * derives its own half-open range of [0, N) from N, the rank count P and its
 * rank, without communicating.
 */
module RangePartition {
  import opened Arith

  /** A half-open range [start, end); it is empty whenever start >= end. */
  datatype Range = Range(start: nat, end: nat)

  predicate Contains(rg: Range, n: nat)
  {
    rg.start <= n < rg.end
  }

  const Uint64Limit: nat := 0x1_0000_0000_0000_0000
  const IntLimit: nat := 0x8000_0000

  /**
   * What the source's integer types demand of a run: at least one rank, a rank
   * count that fits an `int`, and `N + P - 1` within `uint64_t`.
   */
  predicate ValidRun(N: nat, P: nat)
  {
    1 <= P < IntLimit && N + P - 1 < Uint64Limit
  }

  /** `numbers_per_node`: the rounded-up share of each rank. */
  function Chunk(N: nat, P: nat): (chunk: nat)
    requires P >= 1
    ensures chunk * P >= N && chunk * P < N + P
  {
    CeilDiv(N, P)
  }

  /**
   * Rank r's range as the source computes it: [r * chunk, (r + 1) * chunk),
   * except that the last rank's end is N. Only the last end is clamped.
   */
  function RankRange(N: nat, P: nat, r: nat): (rg: Range)
    requires ValidRun(N, P) && r < P
    ensures rg.start < Uint64Limit && rg.end < Uint64Limit
  {
    var chunk := Chunk(N, P);
    MulLeMono(r + 1, P, chunk);
    Range(r * chunk, if r == P - 1 then N else (r + 1) * chunk)
  }

  /** How far the ranges of all ranks reach together: the larger of N and the last rank's start. */
  function Reach(N: nat, P: nat): nat
    requires P >= 1
  {
    Max(N, (P - 1) * Chunk(N, P))
  }

  /** Consecutive ranks abut: each rank below the last is a proper range ending where the next begins. */
  lemma RangesAbut(N: nat, P: nat, r: nat)
    requires ValidRun(N, P) && r + 1 < P
    ensures RankRange(N, P, r).start <= RankRange(N, P, r).end == RankRange(N, P, r + 1).start
  {
    MulSucc(r, Chunk(N, P));
  }

  /** Ranges are ordered by rank: a lower rank's range ends before a higher rank's starts. */
  lemma RangesOrdered(N: nat, P: nat, r: nat, s: nat)
    requires ValidRun(N, P) && r < s < P
    ensures RankRange(N, P, r).end <= RankRange(N, P, s).start
    ensures RankRange(N, P, r).start <= RankRange(N, P, s).start
  {
    MulLeMono(r + 1, s, Chunk(N, P));
    MulLeMono(r, s, Chunk(N, P));
  }

  /** No number is scanned by two ranks. */
  lemma RangesDisjoint(N: nat, P: nat, r: nat, s: nat, n: nat)
    requires ValidRun(N, P) && r < P && s < P && r != s
    ensures !(Contains(RankRange(N, P, r), n) && Contains(RankRange(N, P, s), n))
  {
    if r < s { RangesOrdered(N, P, r, s); } else { RangesOrdered(N, P, s, r); }
  }

  /** The rank that scans n, for every n below the ranges' reach. */
  function Owner(N: nat, P: nat, n: nat): (r: nat)
    requires ValidRun(N, P) && n < Reach(N, P)
    ensures r < P && Contains(RankRange(N, P, r), n)
  {
    var chunk := Chunk(N, P);
    if n < (P - 1) * chunk then
      var r := n / chunk;
      BlockBelowLast(n, chunk, P - 1);
      assert RankRange(N, P, r) == Range(r * chunk, (r + 1) * chunk);
      r
    else
      assert RankRange(N, P, P - 1) == Range((P - 1) * chunk, N);
      P - 1
  }

  lemma BlockBelowLast(n: nat, chunk: nat, last: nat)
    requires n < last * chunk
    ensures chunk > 0 && n / chunk < last
    ensures (n / chunk) * chunk <= n < (n / chunk + 1) * chunk
  {
    MulZero(last);
    assert chunk != 0;
    var q := n / chunk;
    DivBlock(n, chunk);
    MulSucc(q, chunk);
    if q >= last {
      MulLeMono(last, q, chunk);
    }
  }

  /** Whatever a rank scans lies below the ranges' reach. */
  lemma ScannedBelowReach(N: nat, P: nat, r: nat, n: nat)
    requires ValidRun(N, P) && r < P && Contains(RankRange(N, P, r), n)
    ensures n < Reach(N, P)
  {
    if r < P - 1 {
      MulLeMono(r + 1, P - 1, Chunk(N, P));
    }
  }

  /**
   * The ranges together cover exactly [0, Reach(N, P)): every n < N is scanned,
   * and so is every n below the last rank's start, even when that exceeds N.
   */
  lemma ScannedIff(N: nat, P: nat, n: nat)
    requires ValidRun(N, P)
    ensures (exists r :: 0 <= r < P && Contains(RankRange(N, P, r), n)) <==> n < Reach(N, P)
  {
    if n < Reach(N, P) {
      var r := Owner(N, P, n);
      assert Contains(RankRange(N, P, r), n);
    }
    if exists r :: 0 <= r < P && Contains(RankRange(N, P, r), n) {
      var r :| 0 <= r < P && Contains(RankRange(N, P, r), n);
      ScannedBelowReach(N, P, r, n);
    }
  }

  /**
   * The overshoot: the ranks reach past N exactly when the last rank's start
   * exceeds N; then the last rank's range is empty with start > end, and the
   * rank before it ends past N.
   */
  lemma OvershootIff(N: nat, P: nat)
    requires ValidRun(N, P)
    ensures Reach(N, P) > N <==> RankRange(N, P, P - 1).start > RankRange(N, P, P - 1).end
    ensures Reach(N, P) > N ==> P >= 2 && RankRange(N, P, P - 2).end > N
  {
    if Reach(N, P) > N {
      assert P >= 2;
      RangesAbut(N, P, P - 2);
    }
  }

  /** N = 5 on 4 ranks: chunk 2, rank 2 scans [4, 6) and the last rank gets [6, 5). */
  lemma OvershootExample()
    ensures Chunk(5, 4) == 2
    ensures RankRange(5, 4, 2) == Range(4, 6) && RankRange(5, 4, 3) == Range(6, 5)
    ensures Reach(5, 4) == 6
  {
    assert CeilDiv(5, 4) == 8 / 4 == 2;
  }

  /** N = 10 on 3 ranks: chunk 4 and ranges [0, 4), [4, 8), [8, 10). */
  lemma UnevenExample()
    ensures RankRange(10, 3, 0) == Range(0, 4)
    ensures RankRange(10, 3, 1) == Range(4, 8)
    ensures RankRange(10, 3, 2) == Range(8, 10)
  {
    assert CeilDiv(10, 3) == 12 / 3 == 4;
  }

  /** The evidently intended range: both ends clamped to N, so trailing ranks get empty ranges at N. */
  function ClampedRange(N: nat, P: nat, r: nat): (rg: Range)
    requires ValidRun(N, P) && r < P
    ensures rg.start <= rg.end <= N
  {
    var chunk := Chunk(N, P);
    MulSucc(r, chunk);
    Range(Min(r * chunk, N), if r == P - 1 then N else Min((r + 1) * chunk, N))
  }

  /** Clamped ranges abut like the source's. */
  lemma ClampedAbut(N: nat, P: nat, r: nat)
    requires ValidRun(N, P) && r + 1 < P
    ensures ClampedRange(N, P, r).end == ClampedRange(N, P, r + 1).start
  {
  }

  /** Where the source does not overshoot, the clamped range is the source's range. */
  lemma ClampedAgrees(N: nat, P: nat, r: nat)
    requires ValidRun(N, P) && r < P
    requires Reach(N, P) == N
    ensures ClampedRange(N, P, r) == RankRange(N, P, r)
  {
    if r < P - 1 {
      MulLeMono(r + 1, P - 1, Chunk(N, P));
    }
    MulLeMono(r, P - 1, Chunk(N, P));
  }

  /** The clamped ranges cover exactly [0, N), each number once. */
  lemma {:induction false} ClampedCoverage(N: nat, P: nat, n: nat)
    requires ValidRun(N, P)
    ensures (exists r :: 0 <= r < P && Contains(ClampedRange(N, P, r), n)) <==> n < N
    ensures forall r, s :: 0 <= r < s < P ==> !(Contains(ClampedRange(N, P, r), n) && Contains(ClampedRange(N, P, s), n))
  {
    var chunk := Chunk(N, P);
    if n < N {
      ScannedIff(N, P, n);
      var r :| 0 <= r < P && Contains(RankRange(N, P, r), n);
      assert Contains(ClampedRange(N, P, r), n);
    }
    forall r, s | 0 <= r < s < P
      ensures !(Contains(ClampedRange(N, P, r), n) && Contains(ClampedRange(N, P, s), n))
    {
      MulLeMono(r + 1, s, chunk);
    }
  }
}
