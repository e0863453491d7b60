# MPIPlayground cores in Dafny

This project models the two integer and string cores of the MPIPlayground
programs and proves what they promise.

**Prime search** (`src/prime_number_search.cpp`):

- Every rank derives a half-open range of `[0, N)` from `N`, the rank count
  `P` and its rank, using `ceil(N / P)` numbers per rank. Only the last
  rank's end is clamped to `N`.
- Each rank scans its range with a trial-division test.
- The root gathers the per-rank counts, turns them into displacements
  (exclusive prefix sums), and gathers every rank's primes with
  `MPI_Gatherv` (section 5.5 of the MPI 3.1 standard).
- The root prints the ten largest primes.

The model proves the program's one real claim: gathering in rank order
yields a strictly ascending vector without a merge step. It also proves
that the vector holds exactly the primes below `Reach(N, P)`. That bound is
`N` unless the ranges overshoot.

**Pattern scatter and search** (`src/pattern_match.cpp`):

- `pattern_match` is the naive `strncmp` search. It returns the first match
  or -1.
- `scatter_patterns` lays the root's patterns out in NUL-padded slots of one
  width, at least 32.
- `MPI_Scatter` (section 5.6 of the MPI 3.1 standard) hands every rank a
  block of `ceil(total / size)` slots.
- Each rank cuts every slot at its first NUL and keeps the non-empty
  strings.

The model proves several properties of the scatter:

- the slot round trip;
- what each rank receives;
- that the ranks together receive every non-empty pattern exactly once, in
  the input order.

MPI calls are modelled by their data effect on per-rank sequences:

- The gather of counts is `Lengths` of the ranks' results.
- `MPI_Gatherv` writes each rank's slice at its displacement in an array.
- `MPI_Scatter` hands rank r the r-th of the equal blocks of the send
  buffer.
- A broadcast value is a parameter every rank shares.

Code that updates state step by step is modelled by methods with loops:
`is_prime`, `find_primes_ranged`, the displacement loop, the gather, the
width loop, the flatten, the decode and the search. Each method is proved
against a specification function. The partition arithmetic is modelled by
functions.

Modules:

- `Arith`: the ceiling division, and the slot arithmetic `Times`, `SlotOf`
  and `OffsetIn`, proved equal to `*`, `/` and `%`.
- `Seqs`: sums, concatenation and ordering.
- `RangePartition`: the ranges.
- `PrimeSearch`: the primality test and the scan.
- `Gather`: the displacements and `MPI_Gatherv`.
- `PrimePipeline`: a whole run and the display.
- `CStrings`: `c_str`, `strncmp`, and cutting at NUL.
- `PatternMatching`: the search.
- `PatternScatter`: the scatter.

## Model

| member | source | states |
|---|---|---|
| Arith.CeilDiv | src/prime_number_search.cpp:84 | `(a + b - 1) / b` is the smallest multiple count covering a: q * b >= a and q * b < a + b |
| Arith.TimesIsProduct | src/pattern_match.cpp:125-129 | the repeated-addition product used for slot offsets equals k * w |
| Arith.SlotOfBlock | src/pattern_match.cpp:127-129 | byte o of slot k (o < w) lies in slot k at offset o |
| Arith.SlotOfIsQuotient | src/pattern_match.cpp:127-129 | the slot of byte m is m / w and its offset m % w |
| Arith.TimesStrict | src/pattern_match.cpp:134-139 | with at least one slot, a wider slot gives a strictly larger byte count |
| Seqs.Lengths | src/prime_number_search.cpp:93-104 | the gathered counts: one per rank, count i being the length of rank i's result |
| PrimeSearch.TrialDivisionCorrect | src/prime_number_search.cpp:15-25 | testing divisors i with i * i <= n decides primality: n >= 2 with no divisor in [2, n) |
| PrimeSearch.IsPrime | src/prime_number_search.cpp:15-25 | false for n < 2; otherwise true exactly when no i >= 2 with i * i <= n divides n, i.e. when n is prime |
| PrimeSearch.PrimesInMembership | src/prime_number_search.cpp:27-37 | x is in the scan of [lo, hi) exactly when lo <= x < hi and x is prime |
| PrimeSearch.PrimesInAscending | src/prime_number_search.cpp:31-35 | the scan lists its primes strictly ascending |
| PrimeSearch.PrimesInBounds | src/prime_number_search.cpp:27-37 | every element of the scan of [lo, hi) lies in [lo, hi) |
| PrimeSearch.PrimesInSplit | src/prime_number_search.cpp:27-37 | scanning [a, b) then [b, c) gives the scan of [a, c) |
| PrimeSearch.PrimesInLength | src/prime_number_search.cpp:27-37 | the scan of [lo, hi) finds at most hi - lo numbers |
| PrimeSearch.PrimesInFacts | src/prime_number_search.cpp:27-37 | the scan is ascending, holds exactly the primes of [start, end), and is empty when start >= end |
| PrimeSearch.FindPrimesRanged | src/prime_number_search.cpp:27-37 | returns exactly the primes of [start, end), strictly ascending, empty when start >= end |
| RangePartition.Chunk | src/prime_number_search.cpp:84 | `numbers_per_node` is the least count whose P-fold covers N: chunk * P >= N and chunk * P < N + P |
| RangePartition.RankRange | src/prime_number_search.cpp:84-89 | both ends of rank r's range fit `uint64_t` |
| RangePartition.RangesAbut | src/prime_number_search.cpp:84-89 | every rank below the last has start <= end, and its end is the next rank's start |
| RangePartition.RangesOrdered | src/prime_number_search.cpp:84-89 | a lower rank's range ends no later than a higher rank's starts |
| RangePartition.RangesDisjoint | src/prime_number_search.cpp:84-89 | no number lies in two ranks' ranges |
| RangePartition.Owner | src/prime_number_search.cpp:84-89 | every n below the ranges' reach lies in the range of some rank |
| RangePartition.ScannedIff | src/prime_number_search.cpp:84-89 | n is scanned by some rank exactly when n < max(N, (P - 1) * chunk) |
| RangePartition.OvershootIff | src/prime_number_search.cpp:84-89 | the ranges reach past N exactly when the last range has start > end, and then the second-last rank ends past N |
| RangePartition.OvershootExample | src/prime_number_search.cpp:84-89 | N = 5, P = 4: chunk 2, rank 2 gets [4, 6), the last rank gets [6, 5) |
| RangePartition.UnevenExample | src/prime_number_search.cpp:84-89 | N = 10, P = 3: ranges [0, 4), [4, 8), [8, 10) |
| RangePartition.ClampedRange | src/prime_number_search.cpp:84-89 | the corrected range, clamped at both ends, lies inside [0, N] with start <= end |
| RangePartition.ClampedAbut | src/prime_number_search.cpp:84-89 | clamped ranges abut like the source's |
| RangePartition.ClampedAgrees | src/prime_number_search.cpp:84-89 | when the source does not overshoot, the clamped range is the source's range |
| RangePartition.ClampedCoverage | src/prime_number_search.cpp:84-89 | the clamped ranges cover exactly [0, N), no number twice |
| Gather.Displacements | src/prime_number_search.cpp:117-126 | one displacement per rank, the first 0, each at most the total count |
| Gather.DisplacementsRecurrence | src/prime_number_search.cpp:117-126 | disp[0] = 0, disp[i + 1] = disp[i] + count[i], and the last slice ends at the total |
| Gather.SlicesTile | src/prime_number_search.cpp:134-143 | a lower rank's slice ends at or before a higher rank's slice starts |
| Gather.SliceWithinTotal | src/prime_number_search.cpp:117-126 | every slice ends within the total |
| Gather.WideTotalFits | src/prime_number_search.cpp:115-126 | counts 2^31 - 1 and 2^31 - 1 have every count and displacement within `int32_t`, while the total reaches past 2^31 |
| Gather.ComputeLayout | src/prime_number_search.cpp:117-126 | recv_counts[i] = count[i], displacements[i] = the sum of the earlier counts, and the result is the sum of all counts |
| Gather.Gatherv | src/prime_number_search.cpp:134-143 | with the root's counts and displacements, the output holds each rank's data at its displacement: the rank-ordered concatenation |
| Gather.SliceAt | src/prime_number_search.cpp:134-143 | element k of rank r sits at disp[r] + k, inside the total |
| Gather.GatherAtRoot | src/prime_number_search.cpp:93-143 | the count gather, the layout and Gatherv together yield the concatenation of the ranks' results, of length the sum of the counts |
| Gather.EarlierRanksBelow | src/prime_number_search.cpp:132-133 | everything the ranks before m found lies below rank m's start |
| Gather.RankOrderedConcatAscending | src/prime_number_search.cpp:132-133 | rank-ordered ranges, with each rank ascending within its range, give an ascending concatenation |
| PrimePipeline.Ranges | src/prime_number_search.cpp:84-89 | the P ranks' ranges, rank r's being RankRange(N, P, r) |
| PrimePipeline.ClampedRanges | src/prime_number_search.cpp:84-89 | the P ranks' clamped ranges |
| PrimePipeline.LocalPrimes | src/prime_number_search.cpp:91 | rank r's result is the scan of its range |
| PrimePipeline.ChainedGathers | src/prime_number_search.cpp:84-143 | scanning abutting ranges in rank order finds the primes from the first start to the furthest point reached |
| PrimePipeline.RangesChained | src/prime_number_search.cpp:84-89 | the source's ranges abut and are in rank order |
| PrimePipeline.GatheredContents | src/prime_number_search.cpp:84-143 | the gathered vector is exactly the primes below max(N, (P - 1) * chunk) |
| PrimePipeline.GatheredAscending | src/prime_number_search.cpp:132-133 | the gathered vector is strictly ascending without a merge |
| PrimePipeline.GatheredPastNExample | src/prime_number_search.cpp:84-89 | N = 3, P = 8 gathers 5, which is not below N |
| PrimePipeline.ClampedGathersExactly | src/prime_number_search.cpp:84-89 | with clamped ranges the gathered vector is exactly the primes below N, ascending |
| PrimePipeline.RankScan | src/prime_number_search.cpp:84-91 | a rank's result is the scan of its range, ascending and inside the range |
| PrimePipeline.RootGather | src/prime_number_search.cpp:93-143 | when every rank's count and every displacement fit `int32_t`, the root obtains from the ranks' results every prime below the reach, strictly ascending; the total itself is unbounded, like the source's `uint64_t` |
| PrimePipeline.ReachBound | src/prime_number_search.cpp:84-89 | the ranges reach less than N + P |
| PrimePipeline.MaxGatheredIff | src/prime_number_search.cpp:71-89 | N, which the usage text names as the largest number examined, is gathered exactly when the ranges overshoot N and N is prime |
| PrimePipeline.MaxNotGatheredExample | src/prime_number_search.cpp:71-89 | N = 7, P = 1: 7 is prime and is not gathered, though the banner announces [0, 7] |
| PrimePipeline.InclusiveGathersMax | src/prime_number_search.cpp:71-89 | clamped ranges over [0, N + 1) gather the primes up to and including N, ascending, so N is gathered exactly when it is prime |
| PrimePipeline.DisplayIndicesAsWritten | src/prime_number_search.cpp:151-152 | the display reads ten positions |
| PrimePipeline.DisplayInBoundsIff | src/prime_number_search.cpp:149-157 | all ten positions are in bounds exactly when the vector holds at least ten elements |
| PrimePipeline.DisplayOutOfBoundsExample | src/prime_number_search.cpp:149-157 | N = 3, P = 8 gathers fewer than ten primes, so the display reads before the vector's start |
| PrimePipeline.DisplayLargest | src/prime_number_search.cpp:149-157 | the corrected display shows the last min(10, len) elements, largest first; on an ascending vector they descend and exceed everything not shown |
| CStrings.StrNEqual | src/pattern_match.cpp:35 | `strncmp(x, y, n) == 0` holds exactly when x and y agree at every position below n that is not past a NUL of x |
| CStrings.StrNEqualIsPrefix | src/pattern_match.cpp:35 | for a pattern without NUL, `strncmp(x, p, len p) == 0` holds exactly when p is a prefix of x |
| CStrings.UpToNul | src/pattern_match.cpp:148 | `std::string(s.c_str())` is a NUL-free prefix of s, followed in s by a NUL when shorter |
| CStrings.UpToNulOfNulFree | src/pattern_match.cpp:148 | a string without NUL is kept whole |
| CStrings.UpToNulPadded | src/pattern_match.cpp:125-148 | NUL padding does not change where a string is cut |
| PatternMatching.FirstMatchFrom | src/pattern_match.cpp:34-38 | the result is -1 or a position in [i, len src - len p] where strncmp matches, and no earlier tried position matches |
| PatternMatching.PatternMatch | src/pattern_match.cpp:29-38 | the corrected search returns the first strncmp match among positions 0 .. len src - len p, -1 when there is none or the pattern is longer, and 0 for an empty pattern |
| PatternMatching.FirstMatchIsFirstOccurrence | src/pattern_match.cpp:29-38 | for a pattern without NUL the result is -1 exactly when p does not occur in src, and otherwise the first occurrence |
| PatternMatching.LoopBoundAsWritten | src/pattern_match.cpp:34 | the unsigned 64-bit loop bound is below 2^64 |
| PatternMatching.LoopBoundWraps | src/pattern_match.cpp:34 | when the pattern is longer than the text, the bound is 2^64 - (len p - len src), beyond every uint32_t index |
| PatternMatching.OverrunExample | src/pattern_match.cpp:34-35 | "ab" searched for "abc": bound 2^64 - 1 and no match at positions 0 .. 2, so the loop reads position 3 |
| PatternScatter.SlotWidth | src/pattern_match.cpp:109-114 | the width is at least 32, fits every pattern, and is 32 or the length of some pattern |
| PatternScatter.ComputeSlotWidth | src/pattern_match.cpp:109-114 | the loop computes SlotWidth of the list |
| PatternScatter.FlattenPatterns | src/pattern_match.cpp:122-131 | the buffer has nslots * w bytes: pattern k's characters at k * w onwards, NUL everywhere else |
| PatternScatter.Slot | src/pattern_match.cpp:145-147 | a slot inside the buffer has w bytes |
| PatternScatter.EncodingSlots | src/pattern_match.cpp:125-130 | slot k of the send buffer is pattern k padded with NULs to w, or only NULs past the last pattern |
| PatternScatter.DecodeSlotRoundTrip | src/pattern_match.cpp:125-148 | decoding slot k gives pattern k cut at its first NUL, pattern k itself when it has no NUL, and "" for a padding slot |
| PatternScatter.ScatterBlock | src/pattern_match.cpp:137-140 | each rank receives a block of the send count's length |
| PatternScatter.ScatterBlockSlots | src/pattern_match.cpp:137-147 | slot i of rank r's block is slot r * ppp + i of the root's buffer |
| PatternScatter.NonEmpty | src/pattern_match.cpp:149-150 | the filter keeps at most as many strings as it is given |
| PatternScatter.NonEmptyMembers | src/pattern_match.cpp:149-150 | the filter keeps exactly the non-empty strings |
| PatternScatter.DecodeSlots | src/pattern_match.cpp:143-153 | the decode loop returns the non-empty slots, each cut at its first NUL, in slot order |
| PatternScatter.KeepDropsPadding | src/pattern_match.cpp:149-150 | padding slots add nothing to a rank's result |
| PatternScatter.MapUpToNulOfNulFree | src/pattern_match.cpp:148 | cutting NUL-free patterns at NUL keeps them |
| PatternScatter.PatternsPerProcess | src/pattern_match.cpp:120 | `patterns_per_process` is the least count whose size-fold covers the list: ppp * size >= total and < total + size |
| PatternScatter.BlockStart | src/pattern_match.cpp:120 | a rank's first pattern index min(n * ppp, total) lies within the list |
| PatternScatter.BlockOf | src/pattern_match.cpp:120 | a rank's block holds at most ceil(total / size) patterns |
| PatternScatter.EncodingDecodes | src/pattern_match.cpp:125-148 | decoding every slot of the send buffer gives the patterns cut at NUL, then "" for each padding slot |
| PatternScatter.ScatterDecodedSlots | src/pattern_match.cpp:137-148 | rank r decodes slots r * ppp .. r * ppp + ppp of the root's buffer |
| PatternScatter.BlocksCoverList | src/pattern_match.cpp:120-125 | size blocks of ceil(total / size) patterns cover the list, and the last block ends at the list's end |
| PatternScatter.ScatterDecodes | src/pattern_match.cpp:137-153 | what a rank keeps from its block is the non-empty patterns of its index range, cut at NUL |
| PatternScatter.ExpectedLocalOfNulFree | src/pattern_match.cpp:143-153 | for NUL-free patterns a rank keeps exactly the non-empty patterns of its block, in order |
| PatternScatter.ScatterCounts | src/pattern_match.cpp:120-139 | the counts computed with `*` and `/` are the model's slot counts, and the slots cover the list |
| PatternScatter.ScatterPatterns | src/pattern_match.cpp:106-156 | with the root's width on every rank, rank r ends with the non-empty patterns among indices [r * ppp, min(total, (r + 1) * ppp)), cut at NUL, in order |
| PatternScatter.RanksPrefixCover | src/pattern_match.cpp:120-153 | ranks 0 .. n - 1 together hold the non-empty patterns of the first n blocks |
| PatternScatter.AllRanksCoverPatterns | src/pattern_match.cpp:120-153 | the ranks' results, in rank order, are every non-empty pattern (cut at NUL) exactly once, in input order |
| PatternScatter.AllRanksCoverNulFree | src/pattern_match.cpp:120-153 | for NUL-free patterns, the ranks together hold exactly the non-empty patterns, in order |
| PatternScatter.RankWidthsAgreeIff | src/pattern_match.cpp:109-114 | with two or more ranks, the ranks' widths as written agree exactly when no pattern is longer than 32 |
| PatternScatter.RankSlotWidthAsWritten | src/pattern_match.cpp:109-114 | the root's width as written is SlotWidth of its list, every other rank's is 32, and no rank's exceeds the root's |
| PatternScatter.SendCount | src/pattern_match.cpp:137-138 | the root sends ppp * w bytes to each rank, w being the root's width |
| PatternScatter.RecvCountAsWritten | src/pattern_match.cpp:134-139 | each rank expects ppp times its own width, never more than the root sends |
| PatternScatter.CountsAgreeIff | src/pattern_match.cpp:134-139 | a rank's expected count equals the root's send count exactly when it is the root or no pattern is longer than 32 |
| PatternScatter.WidthMismatchExample | src/pattern_match.cpp:134-139 | one 33-character pattern on two ranks: the root sends 33 bytes, and rank 1 expects 32 |

## Left out

- MPI runtime plumbing is not modelled: `MPI_Init`, `MPI_Finalize`, the rank and size queries, and the transport. Each collective is modelled by its data effect, and a broadcast value is a parameter.
- `file_pattern_match` and `count_single_threaded` (src/pattern_match.cpp:42-103) are not modelled. They are file I/O built on `std::ifstream::read` and `gcount`, whose end-of-file behaviour lies outside these sources.
- The two `main` functions are not modelled: argument parsing, reading the pattern file, broadcasting the file path, and console output. The index arithmetic of the prime display is modelled.
- The programs' console output is not modelled: the per-rank count lines, the received-pattern lines and the banner text itself (what the banner announces is a finding below).
- src/matrix_multiplication.cpp, the log Taylor approximation programs and src/hello_primitives are not part of this model. They are floating-point numerics or single collective calls.
- PrimeSearch.IsPrime: the floating-point `std::sqrt` bound is modelled as the exact integer condition i * i <= n.
- PrimeSearch.FindPrimesRanged: numbers are unbounded, so a `uint64_t` wrap near 2^64 is not modelled. RangePartition.ValidRun keeps N + P - 1 below 2^64.
- Gather.ComputeLayout: the `int32_t` counts and displacements are a newtype, and each of them is required to fit it rather than modelled as a narrowing conversion. The `uint64_t` offset and total are unbounded naturals.
- PrimePipeline.RankScan and PrimePipeline.RootGather: the ranks run concurrently. The model states each rank's step and the root's step separately, and the root's step is given every rank's result.
- PatternMatching.PatternMatch: models the search with the bound computed without wrap-around. The as-written loop past the terminator is represented only by its bound and a counterexample, not by reading memory. So a pattern that holds a NUL and is longer than the text, which the source can match against the terminator (`pattern_match("", "\0")` is 0), gives -1 in the model.
- PatternMatching.PatternMatch: the `int32_t` result requires the text to be shorter than 2^31.
- PatternScatter.ScatterPatterns: every rank uses the root's slot width. The as-written per-rank width appears only in RankSlotWidthAsWritten and the counts that follow from it.
- PatternScatter.ScatterPatterns: the `uint32_t` buffer sizes are not modelled as wrapping; the send buffer is assumed to fit.
- PatternScatter.ScatterPatterns: the broadcast of the pattern count is modelled as every rank knowing the root's list length.
- Slot offsets are stated with `Times`, `SlotOf` and `OffsetIn`. Arith.TimesIsProduct and Arith.SlotOfIsQuotient prove these equal to `*`, `/` and `%`.

## Findings

| source | as written | input that shows it | evidently intended | confidence | as-written member | corrected member |
|---|---|---|---|---|---|---|
| src/prime_number_search.cpp:84-89 | only the last rank's end is clamped to N, so earlier ranks can scan past N | N = 3, P = 8: chunk 1, ranks 0 .. 6 scan [0, 7), so 5 is gathered | every range lies inside [0, N), and the result is the primes below N | not executed | PrimePipeline.GatheredPastNExample | PrimePipeline.ClampedGathersExactly |
| src/prime_number_search.cpp:149-157 | reads all[len - 1 - i] for i < 10 without checking len | N = 3, P = 8 gathers at most 7 primes, so position len - 10 is negative | show the last min(10, len) elements | not executed | PrimePipeline.DisplayOutOfBoundsExample | PrimePipeline.DisplayLargest |
| src/pattern_match.cpp:34 | the bound `src.length() - pattern.size()` is unsigned and wraps when the pattern is longer | "ab" searched for "abc": bound 2^64 - 1, and the loop reads position 3, past the terminator | for NUL-free patterns, return -1 when the pattern is longer than the text | not executed | PatternMatching.OverrunExample | PatternMatching.PatternMatch |
| src/pattern_match.cpp:109-139 | every rank computes the slot width from its own pattern list, which is empty except on the root | one pattern of 33 characters on 2 ranks: the root sends 33 bytes, and rank 1 expects 32 | every rank uses the root's width | not executed | PatternScatter.WidthMismatchExample | PatternScatter.ScatterPatterns |
| src/prime_number_search.cpp:71-89 | the usage text names N as the largest number examined and the banner prints "[0, N]", yet the ranges end at N exclusive | N = 7, P = 1: the only range is [0, 7), so 7 is not gathered although it is prime | examine every number in [0, N], N included | not executed | PrimePipeline.MaxNotGatheredExample | PrimePipeline.InclusiveGathersMax |
