/**
 * `scatter_patterns` of pattern_match.cpp (lines 105-156): the root lays the
 * patterns out in NUL-padded slots of one width, every rank receives a block
 * of `ceil(total / size)` consecutive slots (MPI_Scatter, section 5.6 of the
 * MPI 3.1 standard), and each rank cuts every slot at its first NUL and keeps
 * the non-empty strings.
 *
 * Offsets are written with `Times` (k * w by repeated addition) and bytes are
 * placed with `SlotOf` / `OffsetIn` (m / w and m % w by repeated
 * subtraction); Arith proves both equal to the operators the source uses.
 */
module PatternScatter {
  import opened Arith
  import opened Seqs
  import opened CStrings

  /** The width a slot has even when every pattern is shorter. */
  const MinSlotWidth: nat := 32

  const Root: nat := 0

  /** The slot width once the loop at lines 109-114 has seen `ps`: the longest pattern length, never below 32. */
  function SlotWidth(ps: seq<string>): (w: nat)
    ensures w >= MinSlotWidth
    ensures forall i :: 0 <= i < |ps| ==> |ps[i]| <= w
    ensures w == MinSlotWidth || exists i :: 0 <= i < |ps| && |ps[i]| == w
  {
    if ps == [] then MinSlotWidth
    else
      var w0 := SlotWidth(ps[..|ps| - 1]);
      if |ps[|ps| - 1]| > w0 then |ps[|ps| - 1]| else w0
  }

  /** The loop at lines 109-114: raise the width to each longer pattern in turn. */
  method ComputeSlotWidth(ps: seq<string>) returns (w: nat)
    ensures w == SlotWidth(ps)
  {
    w := MinSlotWidth;
    for i := 0 to |ps|
      invariant w == SlotWidth(ps[..i])
    {
      assert ps[..i + 1][..i] == ps[..i];
      if |ps[i]| > w {
        w := |ps[i]|;
      }
    }
    assert ps[..|ps|] == ps;
  }

  /** Byte m of the root's send buffer: character o of pattern k at m = k * w + o, NUL everywhere else. */
  function EncodedAt(ps: seq<string>, w: nat, m: nat): char
    requires w > 0
  {
    var k := SlotOf(m, w);
    var o := OffsetIn(m, w);
    if k < |ps| && o < |ps[k]| then ps[k][o] else Nul
  }

  /** buf is the root's send buffer for ps: nslots slots of width w, pattern k in slot k, NUL in every other byte. */
  predicate IsEncoding(buf: string, ps: seq<string>, w: nat, nslots: nat)
  {
    w > 0 && |buf| == Times(nslots, w) &&
    forall m {:trigger EncodedAt(ps, w, m)} :: 0 <= m < |buf| ==> buf[m] == EncodedAt(ps, w, m)
  }

  /**
   * Lines 122-131: a buffer of nslots * w NULs into which pattern i is copied
   * at offset i * w. Every pattern fits its slot.
   */
  method FlattenPatterns(ps: seq<string>, w: nat, nslots: nat) returns (buf: string)
    requires w > 0 && |ps| <= nslots
    requires forall i :: 0 <= i < |ps| ==> |ps[i]| <= w
    ensures |buf| == nslots * w
    ensures IsEncoding(buf, ps, w, nslots)
  {
    TimesIsProduct(nslots, w);
    var a := new char[nslots * w](_ => Nul);
    for i := 0 to |ps|
      invariant forall m :: 0 <= m < a.Length ==> a[m] == (if m < Times(i, w) then EncodedAt(ps, w, m) else Nul)
    {
      var base := Times(i, w);
      TimesMono(i + 1, nslots, w);
      var p := ps[i];
      for j := 0 to |p|
        invariant forall m :: 0 <= m < a.Length ==>
          a[m] == (if m < base then EncodedAt(ps, w, m) else if m < base + j then p[m - base] else Nul)
      {
        a[base + j] := p[j];
      }
      forall m | base <= m < base + w
        ensures EncodedAt(ps, w, m) == (if m < base + |p| then p[m - base] else Nul)
      {
        SlotOfBlock(i, m - base, w);
      }
    }
    forall m | Times(|ps|, w) <= m < a.Length
      ensures EncodedAt(ps, w, m) == Nul
    {
      SlotOfAtLeast(m, |ps|, w);
    }
    buf := a[..];
  }

  /** Slot k of a buffer of width-w slots: bytes [k * w, (k + 1) * w), or nothing when the buffer is shorter. */
  function Slot(buf: string, w: nat, k: nat): (s: string)
    ensures Times(k + 1, w) <= |buf| ==> |s| == w
  {
    if Times(k + 1, w) <= |buf| then buf[Times(k, w)..Times(k + 1, w)] else []
  }

  /** What slot k holds: pattern k padded with NULs to the width, or only NULs past the last pattern. */
  function ExpectedSlot(ps: seq<string>, w: nat, k: nat): (s: string)
    requires forall i :: 0 <= i < |ps| ==> |ps[i]| <= w
  {
    if k < |ps| then ps[k] + Nuls(w - |ps[k]|) else Nuls(w)
  }

  /** Each slot of the send buffer holds its padded pattern, and nothing else was written. */
  lemma EncodingSlots(buf: string, ps: seq<string>, w: nat, nslots: nat, k: nat)
    requires IsEncoding(buf, ps, w, nslots) && k < nslots
    requires forall i :: 0 <= i < |ps| ==> |ps[i]| <= w
    ensures Slot(buf, w, k) == ExpectedSlot(ps, w, k)
  {
    TimesMono(k + 1, nslots, w);
    var s := Slot(buf, w, k);
    forall o | 0 <= o < w
      ensures s[o] == ExpectedSlot(ps, w, k)[o]
    {
      SlotOfBlock(k, o, w);
      assert s[o] == buf[Times(k, w) + o] == EncodedAt(ps, w, Times(k, w) + o);
    }
  }

  /**
   * The round trip of lines 125-130 and 145-148: cutting slot k at its first
   * NUL gives back pattern k up to its own first NUL, so pattern k itself when
   * it has none; a padding slot gives the empty string.
   */
  lemma DecodeSlotRoundTrip(buf: string, ps: seq<string>, w: nat, nslots: nat, k: nat)
    requires IsEncoding(buf, ps, w, nslots) && k < nslots
    requires forall i :: 0 <= i < |ps| ==> |ps[i]| <= w
    ensures k < |ps| ==> UpToNul(Slot(buf, w, k)) == UpToNul(ps[k])
    ensures k < |ps| && NulFree(ps[k]) ==> UpToNul(Slot(buf, w, k)) == ps[k]
    ensures k >= |ps| ==> UpToNul(Slot(buf, w, k)) == []
  {
    EncodingSlots(buf, ps, w, nslots, k);
    if k < |ps| {
      UpToNulPadded(ps[k], w - |ps[k]|);
      if NulFree(ps[k]) {
        UpToNulOfNulFree(ps[k]);
      }
    } else {
      assert Nuls(w)[0] == Nul;
    }
  }

  /** MPI_Scatter: rank `rank` receives the rank-th of the equal blocks of blockLen bytes of the root's buffer. */
  function ScatterBlock(buf: string, blockLen: nat, rank: nat): (b: string)
    requires Times(rank + 1, blockLen) <= |buf|
    ensures |b| == blockLen
  {
    buf[Times(rank, blockLen)..Times(rank + 1, blockLen)]
  }

  lemma SubSlice(s: string, base: nat, len: nat, start: nat, w: nat)
    requires base + len <= |s| && start + w <= len
    ensures s[base..base + len][start..start + w] == s[base + start..base + start + w]
  {
    var inner := s[base..base + len][start..start + w];
    forall j | 0 <= j < w ensures inner[j] == s[base + start + j] {
    }
  }

  lemma SlotAt(buf: string, w: nat, k: nat, start: nat)
    requires start == Times(k, w) && start + w <= |buf|
    ensures Slot(buf, w, k) == buf[start..start + w]
  {
  }

  /** Slot i of the block rank r receives is slot r * ppp + i of the root's buffer. */
  lemma ScatterBlockSlots(buf: string, ppp: nat, w: nat, rank: nat, i: nat)
    requires Times(rank + 1, Times(ppp, w)) <= |buf| && i < ppp
    ensures Slot(ScatterBlock(buf, Times(ppp, w), rank), w, i) == Slot(buf, w, Times(rank, ppp) + i)
  {
    var blockLen := Times(ppp, w);
    var base := Times(rank, blockLen);
    var start := Times(i, w);
    var j := Times(rank, ppp) + i;
    var recv := ScatterBlock(buf, blockLen, rank);
    assert recv == buf[base..base + blockLen];
    assert start + w <= blockLen by {
      TimesMono(i + 1, ppp, w);
    }
    assert Times(j, w) == base + start by {
      TimesAdd(Times(rank, ppp), i, w);
      TimesAssoc(rank, ppp, w);
    }
    SlotAt(recv, w, i, start);
    SlotAt(buf, w, j, base + start);
    SubSlice(buf, base, blockLen, start, w);
  }

  /** The strings lines 144-148 build: slot i of the received block cut at its first NUL, for i below count. */
  function DecodedSlots(recv: string, w: nat, count: nat): (ds: seq<string>)
    ensures |ds| == count
  {
    seq(count, i requires 0 <= i < count => UpToNul(Slot(recv, w, i)))
  }

  /** The non-empty strings of xs, in their order. */
  function NonEmpty(xs: seq<string>): (ys: seq<string>)
    ensures |ys| <= |xs|
  {
    if xs == [] then [] else NonEmpty(xs[..|xs| - 1]) + (if xs[|xs| - 1] == [] then [] else [xs[|xs| - 1]])
  }

  /** NonEmpty keeps exactly the non-empty strings. */
  lemma {:induction false} NonEmptyMembers(xs: seq<string>)
    ensures forall y :: y in NonEmpty(xs) <==> y in xs && y != []
  {
    if xs != [] {
      var init := xs[..|xs| - 1];
      NonEmptyMembers(init);
      assert xs == init + [xs[|xs| - 1]];
    }
  }

  /**
   * Lines 143-153: every slot of the received block is cut at its first NUL
   * and kept when non-empty.
   */
  method DecodeSlots(recv: string, w: nat, count: nat) returns (local: seq<string>)
    ensures local == NonEmpty(DecodedSlots(recv, w, count))
  {
    local := [];
    for i := 0 to count
      invariant local == NonEmpty(DecodedSlots(recv, w, i))
    {
      assert DecodedSlots(recv, w, i + 1)[..i] == DecodedSlots(recv, w, i);
      var pattern := Slot(recv, w, i);
      pattern := UpToNul(pattern);
      if pattern != [] {
        local := local + [pattern];
      }
    }
  }

  lemma {:induction false} NonEmptyAppend(a: seq<string>, b: seq<string>)
    ensures NonEmpty(a + b) == NonEmpty(a) + NonEmpty(b)
  {
    if b != [] {
      assert (a + b)[..|a + b| - 1] == a + b[..|b| - 1];
      NonEmptyAppend(a, b[..|b| - 1]);
    } else {
      assert a + b == a;
    }
  }

  function Empties(n: nat): (es: seq<string>)
    ensures |es| == n && forall i :: 0 <= i < n ==> es[i] == []
  {
    seq(n, _ => [])
  }

  lemma {:induction false} NonEmptyOfEmpties(n: nat)
    ensures NonEmpty(Empties(n)) == []
  {
    if n > 0 {
      assert Empties(n)[..n - 1] == Empties(n - 1);
      NonEmptyOfEmpties(n - 1);
    }
  }

  /** Dropping empty strings removes the padding after a list. */
  lemma KeepDropsPadding(xs: seq<string>, k: nat)
    ensures NonEmpty(xs + Empties(k)) == NonEmpty(xs)
  {
    NonEmptyAppend(xs, Empties(k));
    NonEmptyOfEmpties(k);
    assert NonEmpty(xs) + [] == NonEmpty(xs);
  }

  /** `std::string(p.c_str())` on every string. */
  function MapUpToNul(xs: seq<string>): (ys: seq<string>)
    ensures |ys| == |xs|
  {
    seq(|xs|, i requires 0 <= i < |xs| => UpToNul(xs[i]))
  }

  lemma MapUpToNulOfNulFree(xs: seq<string>)
    requires forall i :: 0 <= i < |xs| ==> NulFree(xs[i])
    ensures MapUpToNul(xs) == xs
  {
    forall i | 0 <= i < |xs| ensures MapUpToNul(xs)[i] == xs[i] {
      UpToNulOfNulFree(xs[i]);
    }
  }

  lemma MapUpToNulSlice(xs: seq<string>, a: nat, b: nat)
    requires a <= b <= |xs|
    ensures MapUpToNul(xs[a..b]) == MapUpToNul(xs)[a..b]
  {
  }

  lemma MapUpToNulAppend(a: seq<string>, b: seq<string>)
    ensures MapUpToNul(a + b) == MapUpToNul(a) + MapUpToNul(b)
  {
  }

  /** Line 120: `ceil(total / size)` patterns per rank. */
  function PatternsPerProcess(total: nat, size: nat): (ppp: nat)
    requires size > 0
    ensures ppp * size >= total && ppp * size < total + size
  {
    CeilDiv(total, size)
  }

  /** Where rank n's block starts in the pattern list: n * ppp, cut at the end of the list. */
  function BlockStart(ps: seq<string>, size: nat, n: nat): (i: nat)
    requires size > 0
    ensures i <= |ps|
  {
    Min(Times(n, PatternsPerProcess(|ps|, size)), |ps|)
  }

  /** The patterns rank `rank` is responsible for: indices [rank * ppp, (rank + 1) * ppp), cut at the end of the list. */
  function BlockOf(ps: seq<string>, size: nat, rank: nat): (b: seq<string>)
    requires size > 0
    ensures |b| <= PatternsPerProcess(|ps|, size)
  {
    ps[BlockStart(ps, size, rank)..BlockStart(ps, size, rank + 1)]
  }

  /** What rank `rank` ends up with: its block's patterns cut at their first NUL, empties dropped. */
  function ExpectedLocal(ps: seq<string>, size: nat, rank: nat): seq<string>
    requires size > 0
  {
    NonEmpty(MapUpToNul(BlockOf(ps, size, rank)))
  }

  /** Rank `rank`'s block of ppp slots of w bytes lies inside the buffer of ppp * size slots. */
  lemma BlockFits(ppp: nat, size: nat, w: nat, rank: nat)
    requires rank < size
    ensures Times(rank + 1, Times(ppp, w)) <= Times(Times(size, ppp), w)
    ensures Times(rank, ppp) + ppp <= Times(size, ppp)
  {
    TimesMono(rank + 1, size, Times(ppp, w));
    TimesAssoc(size, ppp, w);
    TimesMono(rank + 1, size, ppp);
  }

  /**
   * The round trip over the whole send buffer: decoding every slot gives the
   * patterns cut at NUL, then an empty string for each padding slot.
   */
  lemma EncodingDecodes(buf: string, ps: seq<string>, w: nat, nslots: nat)
    requires IsEncoding(buf, ps, w, nslots) && |ps| <= nslots
    requires forall i :: 0 <= i < |ps| ==> |ps[i]| <= w
    ensures DecodedSlots(buf, w, nslots) == MapUpToNul(ps) + Empties(nslots - |ps|)
  {
    var rhs := MapUpToNul(ps) + Empties(nslots - |ps|);
    forall k | 0 <= k < nslots ensures DecodedSlots(buf, w, nslots)[k] == rhs[k] {
      DecodeSlotRoundTrip(buf, ps, w, nslots, k);
    }
  }

  lemma ScatterDecodedSlotAt(buf: string, ppp: nat, w: nat, rank: nat, nslots: nat, i: nat)
    requires Times(rank + 1, Times(ppp, w)) <= |buf| && Times(rank, ppp) + ppp <= nslots && i < ppp
    ensures DecodedSlots(ScatterBlock(buf, Times(ppp, w), rank), w, ppp)[i]
      == DecodedSlots(buf, w, nslots)[Times(rank, ppp) + i]
  {
    var recv := ScatterBlock(buf, Times(ppp, w), rank);
    var j := Times(rank, ppp) + i;
    ScatterBlockSlots(buf, ppp, w, rank, i);
    assert DecodedSlots(recv, w, ppp)[i] == UpToNul(Slot(recv, w, i));
    assert DecodedSlots(buf, w, nslots)[j] == UpToNul(Slot(buf, w, j));
  }

  /** The slots rank `rank` decodes are slots rank * ppp .. rank * ppp + ppp of the root's buffer. */
  lemma ScatterDecodedSlots(buf: string, ppp: nat, w: nat, rank: nat, nslots: nat)
    requires Times(rank + 1, Times(ppp, w)) <= |buf| && Times(rank, ppp) + ppp <= nslots
    ensures DecodedSlots(ScatterBlock(buf, Times(ppp, w), rank), w, ppp)
      == DecodedSlots(buf, w, nslots)[Times(rank, ppp)..Times(rank, ppp) + ppp]
  {
    var base := Times(rank, ppp);
    var lhs := DecodedSlots(ScatterBlock(buf, Times(ppp, w), rank), w, ppp);
    var rhs := DecodedSlots(buf, w, nslots)[base..base + ppp];
    forall i | 0 <= i < ppp ensures lhs[i] == rhs[i] {
      ScatterDecodedSlotAt(buf, ppp, w, rank, nslots, i);
    }
  }

  /** A window of a list padded with empty strings: the part of the list it covers, then padding. */
  lemma PaddedWindow(xs: seq<string>, total: nat, lo: nat, len: nat)
    requires |xs| <= total && lo + len <= total
    ensures var a := Min(lo, |xs|);
      var b := Min(lo + len, |xs|);
      (xs + Empties(total - |xs|))[lo..lo + len] == xs[a..b] + Empties(len - (b - a))
  {
    var a := Min(lo, |xs|);
    var b := Min(lo + len, |xs|);
    var padded := xs + Empties(total - |xs|);
    var rhs := xs[a..b] + Empties(len - (b - a));
    forall i | 0 <= i < len ensures padded[lo + i] == rhs[i] {
    }
  }

  /** The last block ends at the end of the list: size blocks of ceil(total / size) patterns cover it. */
  lemma BlocksCoverList(ps: seq<string>, size: nat)
    requires size > 0
    ensures |ps| <= Times(size, PatternsPerProcess(|ps|, size))
    ensures BlockStart(ps, size, size) == |ps|
  {
    var ppp := PatternsPerProcess(|ps|, size);
    TimesIsProduct(size, ppp);
    assert ppp * size >= |ps|;
    assert size * ppp == ppp * size;
  }

  /** Cutting rank `rank`'s window out of the padded pattern list gives its block followed by padding. */
  lemma PaddedBlock(ps: seq<string>, size: nat, rank: nat)
    requires size > 0 && rank < size
    ensures |ps| <= Times(size, PatternsPerProcess(|ps|, size))
    ensures var ppp := PatternsPerProcess(|ps|, size);
      var nslots := Times(size, ppp);
      var padded := MapUpToNul(ps) + Empties(nslots - |ps|);
      var block := BlockOf(ps, size, rank);
      Times(rank, ppp) + ppp <= |padded| &&
      padded[Times(rank, ppp)..Times(rank, ppp) + ppp] == MapUpToNul(block) + Empties(ppp - |block|)
  {
    var ppp := PatternsPerProcess(|ps|, size);
    var nslots := Times(size, ppp);
    var lo := Times(rank, ppp);
    var xs := MapUpToNul(ps);
    BlocksCoverList(ps, size);
    assert lo + ppp <= nslots by {
      TimesMono(rank + 1, size, ppp);
    }
    var a := BlockStart(ps, size, rank);
    var b := BlockStart(ps, size, rank + 1);
    var block := BlockOf(ps, size, rank);
    assert a == Min(lo, |xs|) && b == Min(lo + ppp, |xs|);
    assert block == ps[a..b] && |block| == b - a;
    assert MapUpToNul(block) == xs[a..b] by {
      MapUpToNulSlice(ps, a, b);
    }
    assert (xs + Empties(nslots - |xs|))[lo..lo + ppp] == xs[a..b] + Empties(ppp - (b - a)) by {
      PaddedWindow(xs, nslots, lo, ppp);
    }
  }

  /**
   * The slots rank `rank` decodes from its block of the root's buffer are its
   * patterns cut at NUL, followed by an empty string for each padding slot.
   */
  lemma DecodedBlock(buf: string, ps: seq<string>, size: nat, rank: nat, w: nat)
    requires size > 0 && rank < size
    requires |ps| <= Times(size, PatternsPerProcess(|ps|, size))
    requires var nslots := Times(size, PatternsPerProcess(|ps|, size));
      DecodedSlots(buf, w, nslots) == MapUpToNul(ps) + Empties(nslots - |ps|)
    requires Times(rank + 1, Times(PatternsPerProcess(|ps|, size), w)) <= |buf|
    ensures var ppp := PatternsPerProcess(|ps|, size);
      var block := BlockOf(ps, size, rank);
      DecodedSlots(ScatterBlock(buf, Times(ppp, w), rank), w, ppp) == MapUpToNul(block) + Empties(ppp - |block|)
  {
    var ppp := PatternsPerProcess(|ps|, size);
    PaddedBlock(ps, size, rank);
    ScatterDecodedSlots(buf, ppp, w, rank, Times(size, ppp));
  }

  /**
   * What a rank keeps from its block of the root's buffer: the non-empty
   * strings among its patterns cut at NUL; the padding slots add nothing.
   */
  lemma ScatterDecodes(buf: string, ps: seq<string>, size: nat, rank: nat)
    requires size > 0 && rank < size
    requires IsEncoding(buf, ps, SlotWidth(ps), Times(size, PatternsPerProcess(|ps|, size)))
    ensures Times(rank + 1, Times(PatternsPerProcess(|ps|, size), SlotWidth(ps))) <= |buf|
    ensures var ppp := PatternsPerProcess(|ps|, size);
      var recv := ScatterBlock(buf, Times(ppp, SlotWidth(ps)), rank);
      NonEmpty(DecodedSlots(recv, SlotWidth(ps), ppp)) == ExpectedLocal(ps, size, rank)
  {
    var ppp := PatternsPerProcess(|ps|, size);
    var w := SlotWidth(ps);
    var nslots := Times(size, ppp);
    var block := BlockOf(ps, size, rank);
    BlockFits(ppp, size, w, rank);
    BlocksCoverList(ps, size);
    EncodingDecodes(buf, ps, w, nslots);
    DecodedBlock(buf, ps, size, rank, w);
    KeepDropsPadding(MapUpToNul(block), ppp - |block|);
  }

  /** For patterns without NUL, a rank keeps exactly the non-empty patterns of its block, in order. */
  lemma ExpectedLocalOfNulFree(ps: seq<string>, size: nat, rank: nat)
    requires size > 0
    requires forall i :: 0 <= i < |ps| ==> NulFree(ps[i])
    ensures ExpectedLocal(ps, size, rank) == NonEmpty(BlockOf(ps, size, rank))
  {
    MapUpToNulOfNulFree(BlockOf(ps, size, rank));
  }

  /** The counts the source computes with `*` and `/` are the ones the model lays out with Times and CeilDiv. */
  lemma ScatterCounts(ps: seq<string>, size: nat, ppp: nat, w: nat)
    requires size > 0 && ppp == (|ps| + size - 1) / size
    ensures ppp == PatternsPerProcess(|ps|, size)
    ensures ppp * size == Times(size, ppp) && ppp * w == Times(ppp, w)
    ensures |ps| <= ppp * size
  {
    assert ppp * size == Times(size, ppp) by {
      TimesIsProduct(size, ppp);
      assert size * ppp == ppp * size;
    }
    assert ppp * w == Times(ppp, w) by {
      TimesIsProduct(ppp, w);
    }
    BlocksCoverList(ps, size);
  }

  /**
   * `scatter_patterns` for rank `rank` of `size`, with every rank using the
   * slot width the root computed: the rank ends up with the non-empty
   * patterns of its block, each cut at its first NUL.
   */
  method ScatterPatterns(rootPatterns: seq<string>, size: nat, rank: nat) returns (local: seq<string>)
    requires 0 < size && rank < size
    ensures local == ExpectedLocal(rootPatterns, size, rank)
  {
    var w := ComputeSlotWidth(rootPatterns);
    var total := |rootPatterns|;
    var ppp := (total + size - 1) / size;
    ScatterCounts(rootPatterns, size, ppp, w);
    var nslots := ppp * size;
    var sendBuffer := FlattenPatterns(rootPatterns, w, nslots);
    ScatterDecodes(sendBuffer, rootPatterns, size, rank);
    var recvBuffer := ScatterBlock(sendBuffer, ppp * w, rank);
    local := DecodeSlots(recvBuffer, w, ppp);
  }

  /** The results of ranks 0 .. size - 1, in rank order. */
  function AllLocals(ps: seq<string>, size: nat): (ls: seq<seq<string>>)
    requires size > 0
    ensures |ls| == size
  {
    seq(size, r requires 0 <= r < size => ExpectedLocal(ps, size, r))
  }

  lemma LocalsSnoc(ps: seq<string>, size: nat, n: nat)
    requires size > 0 && 0 < n <= size
    ensures Concat<string>(AllLocals(ps, size)[..n])
      == Concat<string>(AllLocals(ps, size)[..n - 1]) + ExpectedLocal(ps, size, n - 1)
  {
    var ls := AllLocals(ps, size)[..n];
    ConcatSnoc<string>(ls);
    assert ls[..n - 1] == AllLocals(ps, size)[..n - 1];
  }

  lemma KeepSplit(ps: seq<string>, a: nat, b: nat)
    requires a <= b <= |ps|
    ensures NonEmpty(MapUpToNul(ps[..b])) == NonEmpty(MapUpToNul(ps[..a])) + NonEmpty(MapUpToNul(ps[a..b]))
  {
    assert ps[..b] == ps[..a] + ps[a..b];
    MapUpToNulAppend(ps[..a], ps[a..b]);
    NonEmptyAppend(MapUpToNul(ps[..a]), MapUpToNul(ps[a..b]));
  }

  /** Ranks 0 .. n - 1 together hold the non-empty patterns among the first n blocks. */
  lemma {:induction false} RanksPrefixCover(ps: seq<string>, size: nat, n: nat)
    requires size > 0 && n <= size
    ensures Concat<string>(AllLocals(ps, size)[..n]) == NonEmpty(MapUpToNul(ps[..BlockStart(ps, size, n)]))
  {
    if n > 0 {
      LocalsSnoc(ps, size, n);
      RanksPrefixCover(ps, size, n - 1);
      KeepSplit(ps, BlockStart(ps, size, n - 1), BlockStart(ps, size, n));
    }
  }

  /**
   * Over all ranks the scatter hands out every non-empty pattern (cut at
   * NUL) exactly once, in the original order: the blocks of ceil(total /
   * size) patterns cover the whole list.
   */
  lemma AllRanksCoverPatterns(ps: seq<string>, size: nat)
    requires size > 0
    ensures Concat<string>(AllLocals(ps, size)) == NonEmpty(MapUpToNul(ps))
  {
    RanksPrefixCover(ps, size, size);
    BlocksCoverList(ps, size);
    assert AllLocals(ps, size)[..size] == AllLocals(ps, size);
    assert ps[..|ps|] == ps;
  }

  /** For patterns without NUL, the ranks together hold exactly the non-empty patterns, in order. */
  lemma AllRanksCoverNulFree(ps: seq<string>, size: nat)
    requires size > 0
    requires forall i :: 0 <= i < |ps| ==> NulFree(ps[i])
    ensures Concat<string>(AllLocals(ps, size)) == NonEmpty(ps)
  {
    AllRanksCoverPatterns(ps, size);
    MapUpToNulOfNulFree(ps);
  }

  /**
   * The slot width each rank computes as written (lines 109-114): only the
   * root holds the patterns, so every other rank runs the loop over an empty
   * list and keeps 32, never more than the root's width.
   */
  function RankSlotWidthAsWritten(rootPatterns: seq<string>, rank: nat): (w: nat)
    ensures rank == Root ==> w == SlotWidth(rootPatterns)
    ensures rank != Root ==> w == MinSlotWidth
    ensures w <= SlotWidth(rootPatterns)
  {
    if rank == Root then SlotWidth(rootPatterns) else SlotWidth([])
  }

  /** With two or more ranks, all ranks agree on the width exactly when no pattern is longer than 32. */
  lemma RankWidthsAgreeIff(ps: seq<string>, size: nat)
    requires size >= 2
    ensures (forall r :: 0 <= r < size ==> RankSlotWidthAsWritten(ps, r) == SlotWidth(ps))
      <==> (forall i :: 0 <= i < |ps| ==> |ps[i]| <= MinSlotWidth)
  {
    assert RankSlotWidthAsWritten(ps, 1) == MinSlotWidth;
  }

  /** Bytes the root sends each rank (lines 137-138): the length of the block ScatterBlock hands out. */
  function SendCount(rootPatterns: seq<string>, size: nat): (c: nat)
    requires size > 0
    ensures c == Times(PatternsPerProcess(|rootPatterns|, size), SlotWidth(rootPatterns))
  {
    var ppp := PatternsPerProcess(|rootPatterns|, size);
    TimesIsProduct(ppp, SlotWidth(rootPatterns));
    ppp * SlotWidth(rootPatterns)
  }

  /** Bytes rank `rank` expects to receive as written (lines 134, 139): never more than the root sends. */
  function RecvCountAsWritten(rootPatterns: seq<string>, size: nat, rank: nat): (c: nat)
    requires size > 0
    ensures c == Times(PatternsPerProcess(|rootPatterns|, size), RankSlotWidthAsWritten(rootPatterns, rank))
    ensures c <= SendCount(rootPatterns, size)
  {
    var ppp := PatternsPerProcess(|rootPatterns|, size);
    TimesIsProduct(ppp, RankSlotWidthAsWritten(rootPatterns, rank));
    MulLeMono(RankSlotWidthAsWritten(rootPatterns, rank), SlotWidth(rootPatterns), ppp);
    ppp * RankSlotWidthAsWritten(rootPatterns, rank)
  }

  /**
   * The scatter's counts agree on rank `rank` exactly when it is the root or
   * no pattern is longer than 32.
   */
  lemma CountsAgreeIff(ps: seq<string>, size: nat, rank: nat)
    requires size > 0
    ensures RecvCountAsWritten(ps, size, rank) == SendCount(ps, size)
      <==> rank == Root || SlotWidth(ps) == MinSlotWidth
  {
    if rank != Root && SlotWidth(ps) != MinSlotWidth {
      assert ps != [];
      TimesStrict(PatternsPerProcess(|ps|, size), MinSlotWidth, SlotWidth(ps));
    }
  }

  /**
   * One pattern of 33 characters and two ranks: the root sends 33 bytes to
   * rank 1, which expects 32, so the scatter's send and receive counts
   * disagree.
   */
  lemma WidthMismatchExample()
    ensures var ps := [seq(33, _ => 'x')];
      SendCount(ps, 2) == 33 && RecvCountAsWritten(ps, 2, 1) == 32
  {
    var ps := [seq(33, _ => 'x')];
    assert SlotWidth(ps[..0]) == MinSlotWidth;
    assert SlotWidth(ps) == 33;
  }
}
