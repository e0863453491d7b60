/**
 * What pattern_match.cpp relies on from C strings: `c_str()` views a string
 * followed by a NUL terminator, `strncmp` stops at the first NUL, and building
 * a `std::string` from a `const char*` keeps the characters before the first
 * NUL.
 */
module CStrings {
  const Nul: char := '\0'

  predicate NulFree(s: string)
  {
    Nul !in s
  }

  /** Character i of `s.c_str()`: the terminator, and whatever follows it, reads as NUL. */
  function At(s: string, i: nat): char
  {
    if i < |s| then s[i] else Nul
  }

  function Tail(s: string): string
  {
    if s == [] then [] else s[1..]
  }

  /** No NUL among the first i characters of `s.c_str()`. */
  predicate NoNulBefore(s: string, i: nat)
  {
    forall j :: 0 <= j < i ==> At(s, j) != Nul
  }

  /** x and y agree at every position below n that x reaches before its first NUL. */
  predicate AgreeBeforeNul(x: string, y: string, n: nat)
  {
    forall i :: 0 <= i < n && NoNulBefore(x, i) ==> At(x, i) == At(y, i)
  }

  /** Agreement splits into the first position and the agreement of the tails. */
  lemma AgreeBeforeNulStep(x: string, y: string, n: nat)
    requires n > 0
    ensures At(x, 0) == Nul ==> (AgreeBeforeNul(x, y, n) <==> At(y, 0) == Nul)
    ensures At(x, 0) != Nul ==>
      (AgreeBeforeNul(x, y, n) <==> At(x, 0) == At(y, 0) && AgreeBeforeNul(Tail(x), Tail(y), n - 1))
  {
    assert NoNulBefore(x, 0);
    if At(x, 0) == Nul {
      forall i | 0 < i < n ensures !NoNulBefore(x, i) {
        assert At(x, 0) == Nul;
      }
    } else {
      forall i | 0 <= i
        ensures At(Tail(x), i) == At(x, i + 1) && At(Tail(y), i) == At(y, i + 1)
        ensures NoNulBefore(Tail(x), i) <==> NoNulBefore(x, i + 1)
      {
        if NoNulBefore(x, i + 1) {
          forall j | 0 <= j < i ensures At(Tail(x), j) != Nul {
            assert At(Tail(x), j) == At(x, j + 1);
          }
        }
        if NoNulBefore(Tail(x), i) {
          forall j | 0 <= j < i + 1 ensures At(x, j) != Nul {
            if j > 0 {
              assert At(x, j) == At(Tail(x), j - 1);
            }
          }
        }
      }
      if AgreeBeforeNul(Tail(x), Tail(y), n - 1) && At(x, 0) == At(y, 0) {
        forall i | 0 <= i < n && NoNulBefore(x, i) ensures At(x, i) == At(y, i) {
          if i > 0 {
            assert NoNulBefore(Tail(x), i - 1);
          }
        }
      }
    }
  }

  /**
   * `strncmp(x.c_str(), y.c_str(), n) == 0`: compares character by character
   * and stops after n characters or at a NUL they share. It holds exactly when
   * x and y agree at every position below n that x reaches before its first NUL.
   */
  predicate StrNEqual(x: string, y: string, n: nat): (eq: bool)
    ensures eq <==> AgreeBeforeNul(x, y, n)
  {
    if n == 0 then true
    else
      AgreeBeforeNulStep(x, y, n);
      At(x, 0) == At(y, 0) && (At(x, 0) == Nul || StrNEqual(Tail(x), Tail(y), n - 1))
  }

  /** When y has no NUL, comparing its whole length with strncmp asks whether y is a prefix of x. */
  lemma {:induction false} StrNEqualIsPrefix(x: string, y: string)
    requires NulFree(y)
    ensures StrNEqual(x, y, |y|) <==> |y| <= |x| && x[..|y|] == y
  {
    if y != [] {
      assert y[0] in y;
      assert Tail(y) == y[1..] && NulFree(y[1..]);
      StrNEqualIsPrefix(Tail(x), y[1..]);
      if |x| > 0 && x[0] == y[0] {
        assert x[..|y|] == [x[0]] + Tail(x)[..|y| - 1] <== |y| <= |x|;
      }
    }
  }

  /** `std::string(s.c_str())`: the characters of s before its first NUL. */
  function UpToNul(s: string): (t: string)
    ensures NulFree(t) && t <= s
    ensures |t| < |s| ==> s[|t|] == Nul
  {
    if s == [] || s[0] == Nul then [] else [s[0]] + UpToNul(s[1..])
  }

  /** Cutting at the first NUL keeps a string without NUL whole. */
  lemma {:induction false} UpToNulOfNulFree(s: string)
    requires NulFree(s)
    ensures UpToNul(s) == s
  {
    if s != [] {
      assert s[0] in s;
      assert NulFree(s[1..]) by { forall c | c in s[1..] ensures c in s {} }
      UpToNulOfNulFree(s[1..]);
    }
  }

  function Nuls(n: nat): (z: string)
    ensures |z| == n && forall i :: 0 <= i < n ==> z[i] == Nul
  {
    seq(n, _ => Nul)
  }

  /** NUL padding after a string does not change where it is cut. */
  lemma {:induction false} UpToNulPadded(p: string, n: nat)
    ensures UpToNul(p + Nuls(n)) == UpToNul(p)
  {
    if p == [] {
      if n > 0 {
        assert (p + Nuls(n))[0] == Nul;
      }
    } else {
      assert (p + Nuls(n))[0] == p[0];
      assert (p + Nuls(n))[1..] == p[1..] + Nuls(n);
      UpToNulPadded(p[1..], n);
    }
  }
}
