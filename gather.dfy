/**
 * The root's side of the two-phase aggregation in prime_number_search.cpp
 * (lines 93-143): the count table gathered from every rank, the displacement
 * loop that lays the counts out in one buffer, and the MPI_Gatherv that puts
 * each rank's results at its displacement (section 5.5 of the MPI 3.1
 * standard). Element types are generic: the aggregation does not depend on
 * the predicate the ranks searched with.
 */
module Gather {
  import opened Seqs
  import opened RangePartition

  /** `int32_t`, the type of the receive counts and displacements. */
  newtype Int32 = x: int | -0x8000_0000 <= x < 0x8000_0000

  const Int32Limit: nat := 0x8000_0000

  /** The exclusive prefix sums of the counts: where each rank's slice starts. */
  function Displacements(counts: seq<nat>): (d: seq<nat>)
    ensures |d| == |counts|
    ensures |counts| > 0 ==> d[0] == 0
    ensures forall i :: 0 <= i < |counts| ==> d[i] <= Sum(counts)
  {
    forall i | 0 <= i < |counts| ensures Sum(counts[..i]) <= Sum(counts) {
      SumPrefixMono(counts, i, |counts|);
      assert counts[..|counts|] == counts;
    }
    seq(|counts|, i requires 0 <= i < |counts| => Sum(counts[..i]))
  }

  /** The offset recurrence: the first slice starts at 0 and each slice starts where the previous one ends; the last one ends at the total. */
  lemma DisplacementsRecurrence(counts: seq<nat>, i: nat)
    requires i < |counts|
    ensures Displacements(counts)[0] == 0
    ensures i + 1 < |counts| ==> Displacements(counts)[i + 1] == Displacements(counts)[i] + counts[i]
    ensures i + 1 == |counts| ==> Displacements(counts)[i] + counts[i] == Sum(counts)
  {
    SumPrefixStep(counts, i);
    assert counts[..|counts|] == counts;
  }

  /** Slices tile the buffer: a lower rank's slice ends before a higher rank's starts, and every slice ends within the total. */
  lemma SlicesTile(counts: seq<nat>, r: nat, s: nat)
    requires r < s < |counts|
    ensures Displacements(counts)[r] + counts[r] <= Displacements(counts)[s]
  {
    SumPrefixStep(counts, r);
    SumPrefixMono(counts, r + 1, s);
  }

  lemma SliceWithinTotal(counts: seq<nat>, r: nat)
    requires r < |counts|
    ensures Displacements(counts)[r] + counts[r] <= Sum(counts)
  {
    SumPrefixStep(counts, r);
    SumPrefixMono(counts, r + 1, |counts|);
    assert counts[..|counts|] == counts;
  }

  /**
   * The values the root narrows to `int32_t` (lines 120-121): every count and
   * every displacement. The running offset and the total stay `uint64_t`, so
   * the total itself may reach past 2^31.
   */
  predicate LayoutFitsInt32(counts: seq<nat>)
  {
    forall i {:trigger Displacements(counts)[i]} :: 0 <= i < |counts| ==> counts[i] < Int32Limit && Displacements(counts)[i] < Int32Limit
  }

  /**
   * Two ranks with 2^31 - 1 results each: every count and displacement fits
   * `int32_t`, while the `uint64_t` total reaches past 2^31.
   */
  lemma WideTotalFits()
    ensures LayoutFitsInt32([Int32Limit - 1, Int32Limit - 1])
    ensures Sum([Int32Limit - 1, Int32Limit - 1]) >= Int32Limit
  {
    var counts: seq<nat> := [Int32Limit - 1, Int32Limit - 1];
    assert counts[..1][..0] == [];
  }

  /** One turn of the layout loop: rank i's count and offset fit, and the offset advances by the count. */
  lemma LayoutStep(counts: seq<nat>, i: nat)
    requires LayoutFitsInt32(counts) && i < |counts|
    ensures counts[i] < Int32Limit && Sum(counts[..i]) < Int32Limit
    ensures Displacements(counts)[i] == Sum(counts[..i])
    ensures Sum(counts[..i + 1]) == Sum(counts[..i]) + counts[i]
  {
    assert Displacements(counts)[i] < Int32Limit;
    SumPrefixStep(counts, i);
  }

  /**
   * The root's loop (lines 117-126): copies each count into `recv_counts`,
   * records the running offset in `displacements`, and returns the total.
   */
  method ComputeLayout(counts: seq<nat>, recvCounts: array<Int32>, displs: array<Int32>) returns (total: nat)
    requires recvCounts.Length == |counts| && displs.Length == |counts|
    requires recvCounts != displs
    requires LayoutFitsInt32(counts)
    modifies recvCounts, displs
    ensures total == Sum(counts)
    ensures forall i :: 0 <= i < |counts| ==> recvCounts[i] as int == counts[i]
    ensures forall i :: 0 <= i < |counts| ==> displs[i] as int == Displacements(counts)[i]
  {
    var offset: nat := 0;
    var i := 0;
    while i < |counts|
      invariant 0 <= i <= |counts|
      invariant offset == Sum(counts[..i])
      invariant forall j :: 0 <= j < i ==> recvCounts[j] as int == counts[j]
      invariant forall j :: 0 <= j < i ==> displs[j] as int == Displacements(counts)[j]
    {
      LayoutStep(counts, i);
      recvCounts[i] := counts[i] as Int32;
      displs[i] := offset as Int32;
      offset := offset + counts[i];
      i := i + 1;
    }
    assert counts[..|counts|] == counts;
    total := offset;
  }

  /**
   * MPI_Gatherv at the root: rank r's `recvCounts[r]` elements land at
   * `out[displs[r] ..]`. Each rank's declared count must equal the length of
   * what it sends, and the displacements are the ones the root computed.
   */
  method Gatherv<T>(locals: seq<seq<T>>, recvCounts: seq<Int32>, displs: seq<Int32>, out: array<T>)
    requires |recvCounts| == |locals| && |displs| == |locals|
    requires forall r :: 0 <= r < |locals| ==> recvCounts[r] as int == |locals[r]|
    requires forall r :: 0 <= r < |locals| ==> displs[r] as int == Displacements(Lengths(locals))[r]
    requires out.Length == Sum(Lengths(locals))
    modifies out
    ensures out[..] == Concat(locals)
  {
    var counts := Lengths(locals);
    var r := 0;
    while r < |locals|
      invariant 0 <= r <= |locals|
      invariant Sum(counts[..r]) <= out.Length
      invariant out[..Sum(counts[..r])] == Concat(locals[..r])
    {
      var base := displs[r] as int;
      var n := recvCounts[r] as int;
      SliceWithinTotal(counts, r);
      SumPrefixStep(counts, r);
      ghost var prev := out[..];
      forall k | 0 <= k < n {
        out[base + k] := locals[r][k];
      }
      assert locals[..r + 1][..r] == locals[..r];
      assert out[..base + n] == prev[..base] + locals[r];
      r := r + 1;
    }
    assert locals[..|locals|] == locals;
    assert counts[..|locals|] == counts;
  }

  /**
   * Where each rank's data lands: element k of rank r sits at rank r's
   * displacement plus k, inside the total.
   */
  lemma SliceAt<T>(locals: seq<seq<T>>, r: nat, k: nat)
    requires r < |locals| && k < |locals[r]|
    ensures Displacements(Lengths(locals))[r] + k < |Concat(locals)|
    ensures Concat(locals)[Displacements(Lengths(locals))[r] + k] == locals[r][k]
  {
    ConcatAt(locals, r, k);
  }

  /**
   * The root's side of lines 93-143 as one step: gather the counts, lay them
   * out, allocate the result vector and gather every rank's results into it.
   * The result holds the ranks' sequences in rank order, each at its offset.
   */
  method GatherAtRoot<T(0)>(locals: seq<seq<T>>) returns (all: seq<T>)
    requires LayoutFitsInt32(Lengths(locals))
    ensures |all| == Sum(Lengths(locals))
    ensures all == Concat(locals)
  {
    var counts := Lengths(locals);
    var recvCounts := new Int32[|locals|];
    var displs := new Int32[|locals|];
    var total := ComputeLayout(counts, recvCounts, displs);
    var out := new T[total];
    Gatherv(locals, recvCounts[..], displs[..], out);
    all := out[..];
    ConcatLength(locals);
  }

  /** Ranges in rank order: each ends no later than the next starts, and starts never go down. */
  predicate RankOrdered(rs: seq<Range>)
  {
    forall r :: 0 <= r < |rs| - 1 ==> rs[r].end <= rs[r + 1].start && rs[r].start <= rs[r + 1].start
  }

  predicate WithinRange(xs: seq<nat>, rg: Range)
  {
    forall i :: 0 <= i < |xs| ==> rg.start <= xs[i] < rg.end
  }

  /** Everything the ranks before m found lies below rank m's start. */
  lemma {:induction false} EarlierRanksBelow(locals: seq<seq<nat>>, rs: seq<Range>, m: nat)
    requires |locals| == |rs| && RankOrdered(rs) && m < |rs|
    requires forall r :: 0 <= r < |locals| ==> WithinRange(locals[r], rs[r])
    ensures forall i :: 0 <= i < |Concat<nat>(locals[..m])| ==> Concat<nat>(locals[..m])[i] < rs[m].start
  {
    if m > 0 {
      EarlierRanksBelow(locals, rs, m - 1);
      assert locals[..m][..m - 1] == locals[..m - 1];
      var before := Concat<nat>(locals[..m - 1]);
      var prev := locals[m - 1];
      ConcatSnoc<nat>(locals[..m]);
      assert Concat<nat>(locals[..m]) == before + prev;
      assert rs[m - 1].end <= rs[m].start && rs[m - 1].start <= rs[m].start;
      assert WithinRange(prev, rs[m - 1]);
      forall i | 0 <= i < |before + prev| ensures (before + prev)[i] < rs[m].start {
        if i >= |before| {
          assert (before + prev)[i] == prev[i - |before|];
        }
      }
    }
  }

  /**
   * With ranges in rank order and each rank's results ascending within its
   * range, the rank-ordered concatenation is ascending: no merge step needed.
   */
  lemma {:induction false} RankOrderedConcatAscending(locals: seq<seq<nat>>, rs: seq<Range>)
    requires |locals| == |rs| && RankOrdered(rs)
    requires forall r :: 0 <= r < |locals| ==> StrictlyAscending(locals[r]) && WithinRange(locals[r], rs[r])
    ensures StrictlyAscending(Concat<nat>(locals))
  {
    var n := |locals|;
    if n > 0 {
      var init := locals[..n - 1];
      var last := locals[n - 1];
      ConcatSnoc<nat>(locals);
      assert RankOrdered(rs[..n - 1]);
      RankOrderedConcatAscending(init, rs[..n - 1]);
      EarlierRanksBelow(locals, rs, n - 1);
      assert WithinRange(last, rs[n - 1]);
      var before := Concat<nat>(init);
      forall i, j | 0 <= i < |before| && 0 <= j < |last| ensures before[i] < last[j] {
        assert before[i] < rs[n - 1].start <= last[j];
      }
      StrictlyAscendingAppend(before, last);
    }
  }
}
