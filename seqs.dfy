/** Sums, concatenation of per-rank sequences, and ordering over sequences. */
module Seqs {
  function Sum(s: seq<nat>): nat
  {
    if s == [] then 0 else Sum(s[..|s| - 1]) + s[|s| - 1]
  }

  /** The length of each rank's sequence: the count table the root gathers. */
  function Lengths<T>(ss: seq<seq<T>>): (ls: seq<nat>)
    ensures |ls| == |ss|
    ensures forall i :: 0 <= i < |ss| ==> ls[i] == |ss[i]|
  {
    seq(|ss|, i requires 0 <= i < |ss| => |ss[i]|)
  }

  /** The per-rank sequences laid end to end in rank order. */
  function Concat<T>(ss: seq<seq<T>>): seq<T>
  {
    if ss == [] then [] else Concat(ss[..|ss| - 1]) + ss[|ss| - 1]
  }

  predicate StrictlyAscending(s: seq<nat>)
  {
    forall i, j :: 0 <= i < j < |s| ==> s[i] < s[j]
  }

  lemma {:induction false} SumAppend(a: seq<nat>, b: seq<nat>)
    ensures Sum(a + b) == Sum(a) + Sum(b)
  {
    if b == [] {
      assert a + b == a;
    } else {
      assert (a + b)[..|a + b| - 1] == a + b[..|b| - 1];
      SumAppend(a, b[..|b| - 1]);
    }
  }

  lemma SumPrefixMono(s: seq<nat>, i: nat, j: nat)
    requires i <= j <= |s|
    ensures Sum(s[..i]) <= Sum(s[..j])
  {
    assert s[..j] == s[..i] + s[i..j];
    SumAppend(s[..i], s[i..j]);
  }

  lemma SumPrefixStep(s: seq<nat>, i: nat)
    requires i < |s|
    ensures Sum(s[..i + 1]) == Sum(s[..i]) + s[i]
  {
    assert s[..i + 1][..i] == s[..i];
  }

  lemma ConcatSnoc<T>(ss: seq<seq<T>>)
    requires ss != []
    ensures Concat(ss) == Concat(ss[..|ss| - 1]) + ss[|ss| - 1]
  {
  }

  lemma {:induction false} ConcatAppend<T>(a: seq<seq<T>>, b: seq<seq<T>>)
    ensures Concat(a + b) == Concat(a) + Concat(b)
  {
    if b == [] {
      assert a + b == a;
    } else {
      var init := b[..|b| - 1];
      var last := b[|b| - 1];
      assert (a + b)[..|a + b| - 1] == a + init;
      assert Concat(a + b) == Concat(a + init) + last;
      ConcatAppend(a, init);
      assert Concat(b) == Concat(init) + last;
    }
  }

  /** The concatenation is as long as the sum of the counts. */
  lemma {:induction false} ConcatLength<T>(ss: seq<seq<T>>)
    ensures |Concat(ss)| == Sum(Lengths(ss))
  {
    if ss != [] {
      assert Lengths(ss)[..|ss| - 1] == Lengths(ss[..|ss| - 1]);
      ConcatLength(ss[..|ss| - 1]);
    }
  }

  /** Element k of sequence r sits in the concatenation at the sum of the earlier counts plus k. */
  lemma ConcatAt<T>(ss: seq<seq<T>>, r: nat, k: nat)
    requires r < |ss| && k < |ss[r]|
    ensures Sum(Lengths(ss)[..r]) + k < |Concat(ss)|
    ensures Concat(ss)[Sum(Lengths(ss)[..r]) + k] == ss[r][k]
  {
    var pre := Concat(ss[..r]);
    var upto := Concat(ss[..r + 1]);
    assert upto == pre + ss[r] by {
      assert ss[..r + 1][..r] == ss[..r];
      ConcatSnoc(ss[..r + 1]);
    }
    assert Concat(ss) == upto + Concat(ss[r + 1..]) by {
      assert ss == ss[..r + 1] + ss[r + 1..];
      ConcatAppend(ss[..r + 1], ss[r + 1..]);
    }
    assert |pre| == Sum(Lengths(ss)[..r]) by {
      ConcatLength(ss[..r]);
      assert Lengths(ss[..r]) == Lengths(ss)[..r];
    }
    assert upto[|pre| + k] == ss[r][k];
  }

  lemma StrictlyAscendingAppend(a: seq<nat>, b: seq<nat>)
    requires StrictlyAscending(a) && StrictlyAscending(b)
    requires forall i, j :: 0 <= i < |a| && 0 <= j < |b| ==> a[i] < b[j]
    ensures StrictlyAscending(a + b)
  {
  }
}
