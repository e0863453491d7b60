/**
 * `pattern_match` of pattern_match.cpp (lines 27-39): the naive search that
 * compares the pattern with strncmp at every start position and returns the
 * first match or -1.
 */
module PatternMatching {
  import opened CStrings

  /** strncmp finds the pattern at position i of src. */
  predicate MatchesAt(src: string, p: string, i: nat)
    requires i <= |src|
  {
    StrNEqual(src[i..], p, |p|)
  }

  /** The plain substring relation: src holds p at position i. */
  predicate Occurs(src: string, p: string, i: nat)
  {
    i + |p| <= |src| && src[i..i + |p|] == p
  }

  /**
   * The first start position from i on where strncmp reports a match, among
   * the positions 0 .. |src| - |p| the loop tries; -1 when there is none.
   */
  function FirstMatchFrom(src: string, p: string, i: nat): (r: int)
    requires i <= |src|
    decreases |src| - i
    ensures r == -1 || (i <= r <= |src| - |p| && MatchesAt(src, p, r))
    ensures forall j :: i <= j <= |src| - |p| && (r == -1 || j < r) ==> !MatchesAt(src, p, j)
  {
    if i > |src| - |p| then -1
    else if MatchesAt(src, p, i) then i
    else if i == |src| then -1
    else FirstMatchFrom(src, p, i + 1)
  }

  /**
   * The search with its loop bound computed without wrap-around: positions
   * 0 .. |src| - |p| are tried in order and the first strncmp match is
   * returned; a pattern longer than the text is not found. The result is an
   * `int32_t`, so the text is shorter than 2^31.
   */
  method PatternMatch(src: string, p: string) returns (idx: int)
    requires |src| < 0x8000_0000
    ensures idx == FirstMatchFrom(src, p, 0)
    ensures idx == -1 || (0 <= idx <= |src| - |p| && MatchesAt(src, p, idx))
    ensures |p| == 0 ==> idx == 0
  {
    if |p| > |src| {
      return -1;
    }
    var i := 0;
    while i <= |src| - |p|
      invariant 0 <= i <= |src| - |p| + 1
      invariant forall j :: 0 <= j < i ==> !MatchesAt(src, p, j)
    {
      if StrNEqual(src[i..], p, |p|) {
        ghost var first := FirstMatchFrom(src, p, 0);
        assert MatchesAt(src, p, i);
        assert first != -1 ==> MatchesAt(src, p, first);
        return i;
      }
      i := i + 1;
    }
    return -1;
  }

  /**
   * For a pattern without NUL, strncmp matching is substring matching: the
   * search result is the first occurrence of p in src, or -1 when p does not
   * occur.
   */
  lemma FirstMatchIsFirstOccurrence(src: string, p: string)
    requires NulFree(p)
    ensures FirstMatchFrom(src, p, 0) == -1 <==> forall j :: 0 <= j <= |src| ==> !Occurs(src, p, j)
    ensures FirstMatchFrom(src, p, 0) >= 0 ==> Occurs(src, p, FirstMatchFrom(src, p, 0))
    ensures forall j :: 0 <= j < FirstMatchFrom(src, p, 0) ==> !Occurs(src, p, j)
  {
    forall j | 0 <= j <= |src| ensures MatchesAt(src, p, j) <==> Occurs(src, p, j) {
      StrNEqualIsPrefix(src[j..], p);
      if |p| <= |src| - j {
        assert src[j..][..|p|] == src[j..j + |p|];
      }
    }
  }

  /** The loop bound as written: `src.length() - pattern.size()` in unsigned 64-bit arithmetic. */
  function LoopBoundAsWritten(srcLen: nat, pLen: nat): (b: nat)
    ensures b < 0x1_0000_0000_0000_0000
  {
    (srcLen - pLen) % 0x1_0000_0000_0000_0000
  }

  /**
   * When the pattern is longer than the text (and shorter than 2^32
   * characters), the bound wraps past every value the `uint32_t` index can
   * take, so the test `i <= bound` never ends the loop.
   */
  lemma LoopBoundWraps(srcLen: nat, pLen: nat)
    requires srcLen < pLen < 0x1_0000_0000
    ensures LoopBoundAsWritten(srcLen, pLen) >= 0x1_0000_0000
    ensures LoopBoundAsWritten(srcLen, pLen) == 0x1_0000_0000_0000_0000 - (pLen - srcLen)
  {
    var k := 0x1_0000_0000_0000_0000;
    var m := k - (pLen - srcLen);
    assert srcLen - pLen == (-1) * k + m && 0 <= m < k;
  }

  /**
   * "ab" searched for "abc": the bound is 2^64 - 1, no position up to the
   * terminator matches, so the loop goes on to position 3, one past the
   * three characters of `src.c_str()`.
   */
  lemma OverrunExample()
    ensures LoopBoundAsWritten(2, 3) == 0x1_0000_0000_0000_0000 - 1
    ensures forall i :: 0 <= i <= 2 ==> !MatchesAt("ab", "abc", i)
  {
    assert !MatchesAt("ab", "abc", 0) by {
      assert Tail("ab") == "b" && Tail("abc") == "bc" && Tail("b") == "" && Tail("bc") == "c";
      assert !StrNEqual("", "c", 1);
      assert !StrNEqual("b", "bc", 2);
      assert "ab"[0..] == "ab";
    }
    assert !MatchesAt("ab", "abc", 1) by { assert At("ab"[1..], 0) != At("abc", 0); }
    assert !MatchesAt("ab", "abc", 2) by { assert At("ab"[2..], 0) != At("abc", 0); }
  }
}
