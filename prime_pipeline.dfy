/**
 * One whole run of prime_number_search.cpp, with the message passing replaced
 * by its data effect: each rank scans its range (lines 84-91), the root
 * gathers the counts and then the primes (lines 93-143), and shows the
 * largest ten (lines 147-158).
 */
module PrimePipeline {
  import opened Arith
  import opened Seqs
  import opened PrimeSearch
  import opened RangePartition
  import opened Gather

  /** The ranges of ranks 0 .. P - 1 as the source computes them. */
  function Ranges(N: nat, P: nat): (rs: seq<Range>)
    requires ValidRun(N, P)
    ensures |rs| == P
    ensures forall r :: 0 <= r < P ==> rs[r] == RankRange(N, P, r)
  {
    seq(P, r requires 0 <= r < P => RankRange(N, P, r))
  }

  /** The ranges with both ends clamped to N. */
  function ClampedRanges(N: nat, P: nat): (rs: seq<Range>)
    requires ValidRun(N, P)
    ensures |rs| == P
    ensures forall r :: 0 <= r < P ==> rs[r] == ClampedRange(N, P, r)
  {
    seq(P, r requires 0 <= r < P => ClampedRange(N, P, r))
  }

  /** What each rank's scan returns. */
  ghost function LocalPrimes(rs: seq<Range>): (ls: seq<seq<nat>>)
    ensures |ls| == |rs|
    ensures forall r :: 0 <= r < |rs| ==> ls[r] == PrimesIn(rs[r].start, rs[r].end)
  {
    seq(|rs|, r requires 0 <= r < |rs| => PrimesIn(rs[r].start, rs[r].end))
  }

  /** The root's gathered vector for a run with the source's ranges. */
  ghost function Gathered(N: nat, P: nat): seq<nat>
    requires ValidRun(N, P)
  {
    Concat<nat>(LocalPrimes(Ranges(N, P)))
  }

  /** Ranges that follow on from each other: all but the last are proper, and each ends where the next begins. */
  predicate Chained(rs: seq<Range>)
  {
    forall r :: 0 <= r < |rs| - 1 ==> rs[r].start <= rs[r].end == rs[r + 1].start
  }

  /** Scanning chained ranges in rank order finds the primes from the first start to the furthest point reached. */
  lemma {:induction false} ChainedGathers(rs: seq<Range>)
    requires |rs| > 0 && Chained(rs)
    ensures rs[0].start <= rs[|rs| - 1].start
    ensures Concat<nat>(LocalPrimes(rs)) == PrimesIn(rs[0].start, Max(rs[|rs| - 1].start, rs[|rs| - 1].end))
  {
    var n := |rs|;
    var last := rs[n - 1];
    ConcatSnoc<nat>(LocalPrimes(rs));
    if n == 1 {
      assert LocalPrimes(rs)[..0] == [];
    } else {
      var init := rs[..n - 1];
      assert Chained(init);
      ChainedGathers(init);
      assert LocalPrimes(rs)[..n - 1] == LocalPrimes(init);
      assert init[n - 2].start <= init[n - 2].end == last.start;
      if last.start <= last.end {
        PrimesInSplit(rs[0].start, last.start, last.end);
      }
    }
  }

  lemma RangesChained(N: nat, P: nat)
    requires ValidRun(N, P)
    ensures Chained(Ranges(N, P)) && RankOrdered(Ranges(N, P))
  {
    var rs := Ranges(N, P);
    forall r | 0 <= r < P - 1
      ensures rs[r].start <= rs[r].end == rs[r + 1].start
      ensures rs[r].end <= rs[r + 1].start && rs[r].start <= rs[r + 1].start
    {
      RangesAbut(N, P, r);
      RangesOrdered(N, P, r, r + 1);
    }
  }

  /**
   * The source's gathered vector holds exactly the primes below Reach(N, P):
   * every prime below N, and also the primes in [N, Reach(N, P)) whenever the
   * ranks below the last run past N.
   */
  lemma GatheredContents(N: nat, P: nat)
    requires ValidRun(N, P)
    ensures Gathered(N, P) == PrimesIn(0, Reach(N, P))
  {
    RangesChained(N, P);
    ChainedGathers(Ranges(N, P));
  }

  /**
   * The claim of lines 132-133: gathering in rank order yields a sorted
   * vector. It follows from the ranges' rank order and each scan's order,
   * without a merge.
   */
  lemma GatheredAscending(N: nat, P: nat)
    requires ValidRun(N, P)
    ensures StrictlyAscending(Gathered(N, P))
  {
    var rs := Ranges(N, P);
    var locals := LocalPrimes(rs);
    RangesChained(N, P);
    forall r | 0 <= r < P
      ensures StrictlyAscending(locals[r]) && WithinRange(locals[r], rs[r])
    {
      PrimesInAscending(rs[r].start, rs[r].end);
      PrimesInBounds(rs[r].start, rs[r].end);
    }
    RankOrderedConcatAscending(locals, rs);
  }

  /** N = 3 on 8 ranks: chunk 1, ranks 0 .. 6 scan [0, 7), so 5 is gathered although it is not below N. */
  lemma GatheredPastNExample()
    ensures Reach(3, 8) == 7
    ensures 5 in Gathered(3, 8) && 5 !in PrimesIn(0, 3)
  {
    assert Chunk(3, 8) == 1 by { assert CeilDiv(3, 8) == 10 / 8; }
    GatheredContents(3, 8);
    assert Prime(5) by {
      assert !Divides(2, 5) && !Divides(3, 5) && !Divides(4, 5);
    }
    PrimesInMembership(0, 7, 5);
    PrimesInMembership(0, 3, 5);
  }

  /** With the clamped ranges the gathered vector is exactly the primes below N. */
  lemma ClampedGathersExactly(N: nat, P: nat)
    requires ValidRun(N, P)
    ensures Concat<nat>(LocalPrimes(ClampedRanges(N, P))) == PrimesIn(0, N)
    ensures StrictlyAscending(Concat<nat>(LocalPrimes(ClampedRanges(N, P))))
  {
    var rs := ClampedRanges(N, P);
    forall r | 0 <= r < P - 1 ensures rs[r].start <= rs[r].end == rs[r + 1].start {
      ClampedAbut(N, P, r);
    }
    assert rs[0].start == 0 by { assert ClampedRange(N, P, 0).start == Min(0 * Chunk(N, P), N); }
    ChainedGathers(rs);
    PrimesInAscending(0, N);
  }

  /**
   * N itself, which the usage text names as the largest number examined and the
   * banner includes in "[0, N]", is gathered only when the ranges overshoot
   * N and N is prime: no rank tests N on its own account.
   */
  lemma MaxGatheredIff(N: nat, P: nat)
    requires ValidRun(N, P)
    ensures N in Gathered(N, P) <==> N < Reach(N, P) && Prime(N)
  {
    GatheredContents(N, P);
    PrimesInMembership(0, Reach(N, P), N);
  }

  /** N = 7 on one rank: 7 is prime, yet the run over "[0, 7]" does not gather it. */
  lemma MaxNotGatheredExample()
    ensures Prime(7) && 7 !in Gathered(7, 1)
  {
    assert Reach(7, 1) == 7 by {
      assert Chunk(7, 1) == 7 by { assert CeilDiv(7, 1) == 7 / 1; }
    }
    assert Prime(7) by {
      assert !Divides(2, 7) && !Divides(3, 7) && !Divides(4, 7) && !Divides(5, 7) && !Divides(6, 7);
    }
    MaxGatheredIff(7, 1);
  }

  /**
   * The run over [0, N] the usage text and banner describe: clamped ranges of
   * [0, N + 1) gather the primes up to and including N, ascending.
   */
  lemma InclusiveGathersMax(N: nat, P: nat)
    requires ValidRun(N + 1, P)
    ensures Concat<nat>(LocalPrimes(ClampedRanges(N + 1, P))) == PrimesIn(0, N + 1)
    ensures StrictlyAscending(Concat<nat>(LocalPrimes(ClampedRanges(N + 1, P))))
    ensures N in Concat<nat>(LocalPrimes(ClampedRanges(N + 1, P))) <==> Prime(N)
  {
    ClampedGathersExactly(N + 1, P);
    PrimesInMembership(0, N + 1, N);
  }

  /**
   * What rank r does before the gathers (lines 84-91): derive its range and
   * scan it. Its result is ascending and lies inside its range.
   */
  method RankScan(N: nat, P: nat, r: nat) returns (local: seq<nat>)
    requires ValidRun(N, P) && r < P
    ensures local == LocalPrimes(Ranges(N, P))[r]
    ensures StrictlyAscending(local) && WithinRange(local, RankRange(N, P, r))
  {
    var rg := RankRange(N, P, r);
    local := FindPrimesRanged(rg.start, rg.end);
    PrimesInBounds(rg.start, rg.end);
  }

  /**
   * The root's side of a run (lines 93-143), given what every rank's scan
   * returned: it gathers the counts and then the primes. The result is every
   * prime below Reach(N, P), ascending. Each rank's count and each
   * displacement must fit the `int32_t` the root narrows them to.
   */
  method RootGather(N: nat, P: nat, locals: seq<seq<nat>>) returns (all: seq<nat>)
    requires ValidRun(N, P)
    requires locals == LocalPrimes(Ranges(N, P))
    requires LayoutFitsInt32(Lengths(locals))
    ensures all == PrimesIn(0, Reach(N, P))
    ensures StrictlyAscending(all)
  {
    GatheredContents(N, P);
    GatheredAscending(N, P);
    all := GatherAtRoot<nat>(locals);
  }

  lemma ReachBound(N: nat, P: nat)
    requires ValidRun(N, P)
    ensures Reach(N, P) < N + P
  {
    MulLeMono(P - 1, P, Chunk(N, P));
  }

  const DisplayCount: nat := 10

  /** The positions lines 151-152 read: `all.end() - i - 1` for i in [0, 10). */
  function DisplayIndicesAsWritten(len: nat): (idx: seq<int>)
    ensures |idx| == DisplayCount
  {
    seq(DisplayCount, i requires 0 <= i < DisplayCount => len - 1 - i)
  }

  /** Every position the display reads is inside the vector exactly when it holds at least ten primes. */
  lemma DisplayInBoundsIff(len: nat)
    ensures (forall i :: 0 <= i < DisplayCount ==> 0 <= DisplayIndicesAsWritten(len)[i] < len) <==> len >= DisplayCount
  {
    if len < DisplayCount {
      assert DisplayIndicesAsWritten(len)[DisplayCount - 1] < 0;
    }
  }

  /** N = 3 on 8 ranks gathers at most 7 primes, so the display reads before the vector's start. */
  lemma DisplayOutOfBoundsExample()
    ensures |Gathered(3, 8)| < DisplayCount
    ensures DisplayIndicesAsWritten(|Gathered(3, 8)|)[DisplayCount - 1] < 0
  {
    assert Reach(3, 8) == 7 by { assert Chunk(3, 8) == 1 by { assert CeilDiv(3, 8) == 10 / 8; } }
    GatheredContents(3, 8);
    PrimesInLength(0, 7);
  }

  /**
   * The display with the count clamped to the vector's length: the last
   * min(10, |all|) elements, largest first. On an ascending vector these are
   * descending and larger than everything not shown.
   */
  method DisplayLargest(all: seq<nat>) returns (shown: seq<nat>)
    ensures |shown| == Min(DisplayCount, |all|)
    ensures forall i :: 0 <= i < |shown| ==> shown[i] == all[|all| - 1 - i]
    ensures StrictlyAscending(all) ==> forall i, j :: 0 <= i < j < |shown| ==> shown[i] > shown[j]
    ensures StrictlyAscending(all) ==> forall k, i :: 0 <= k < |all| - |shown| && 0 <= i < |shown| ==> all[k] < shown[i]
  {
    var count := Min(DisplayCount, |all|);
    shown := [];
    var i := 0;
    while i < count
      invariant 0 <= i <= count
      invariant |shown| == i
      invariant forall j :: 0 <= j < i ==> shown[j] == all[|all| - 1 - j]
    {
      shown := shown + [all[|all| - 1 - i]];
      i := i + 1;
    }
  }
}
