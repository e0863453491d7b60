/** Integer helpers shared by the two block partitions. */
module Arith {
  /** The rounded-up quotient `(a + b - 1) / b` both programs use to size a rank's block. */
  function CeilDiv(a: nat, b: nat): (q: nat)
    requires b > 0
    ensures q * b >= a
    ensures q * b < a + b
  {
    var m := a + b - 1;
    assert m == (m / b) * b + m % b;
    m / b
  }

  function Min(a: int, b: int): int { if a <= b then a else b }

  function Max(a: int, b: int): int { if a <= b then b else a }

  lemma MulLeMono(a: nat, b: nat, c: nat)
    requires a <= b
    ensures a * c <= b * c
  {
    assert b * c == a * c + (b - a) * c;
  }

  /** The block of size c that holds n is block n / c. */
  lemma DivBlock(n: nat, c: nat)
    requires c > 0
    ensures (n / c) * c <= n < (n / c) * c + c
  {
    assert n == (n / c) * c + n % c;
  }

  lemma MulZero(a: nat)
    ensures a * 0 == 0
  {
  }

  lemma MulSucc(a: nat, c: nat)
    ensures (a + 1) * c == a * c + c
  {
  }

  /**
   * k blocks of w: the product k * w by repeated addition. The slot
   * arithmetic of the pattern scatter is stated with it so that its proofs
   * stay within linear arithmetic.
   */
  function Times(k: nat, w: nat): nat
  {
    if k == 0 then 0 else Times(k - 1, w) + w
  }

  lemma {:induction false} TimesIsProduct(k: nat, w: nat)
    ensures Times(k, w) == k * w
  {
    if k > 0 {
      TimesIsProduct(k - 1, w);
      MulSucc(k - 1, w);
    }
  }

  lemma {:induction false} TimesAdd(a: nat, b: nat, w: nat)
    ensures Times(a + b, w) == Times(a, w) + Times(b, w)
  {
    if b > 0 {
      TimesAdd(a, b - 1, w);
    }
  }

  lemma {:induction false} TimesMono(a: nat, b: nat, w: nat)
    requires a <= b
    ensures Times(a, w) <= Times(b, w)
  {
    if a < b {
      TimesMono(a, b - 1, w);
    }
  }

  lemma {:induction false} TimesAssoc(a: nat, b: nat, w: nat)
    ensures Times(Times(a, b), w) == Times(a, Times(b, w))
  {
    if a > 0 {
      TimesAssoc(a - 1, b, w);
      TimesAdd(Times(a - 1, b), b, w);
    }
  }

  /** At least one block: a wider block gives a strictly larger product. */
  lemma {:induction false} TimesStrict(k: nat, v: nat, w: nat)
    requires k >= 1 && v < w
    ensures Times(k, v) < Times(k, w)
  {
    if k > 1 {
      TimesStrict(k - 1, v, w);
    }
  }

  /** The block of w bytes that holds byte m: m / w by repeated subtraction. */
  function SlotOf(m: nat, w: nat): nat
    requires w > 0
    decreases m
  {
    if m < w then 0 else SlotOf(m - w, w) + 1
  }

  /** Where byte m sits inside its block: m % w by repeated subtraction. */
  function OffsetIn(m: nat, w: nat): nat
    requires w > 0
    decreases m
  {
    if m < w then m else OffsetIn(m - w, w)
  }

  /** Byte o of block k is byte Times(k, w) + o, and nothing else is. */
  lemma {:induction false} SlotOfBlock(k: nat, o: nat, w: nat)
    requires o < w
    ensures SlotOf(Times(k, w) + o, w) == k
    ensures OffsetIn(Times(k, w) + o, w) == o
  {
    if k > 0 {
      SlotOfBlock(k - 1, o, w);
      assert Times(k, w) + o - w == Times(k - 1, w) + o;
    }
  }

  /** A byte at or past block n lies in block n or a later one. */
  lemma {:induction false} SlotOfAtLeast(m: nat, n: nat, w: nat)
    requires w > 0 && Times(n, w) <= m
    ensures SlotOf(m, w) >= n
  {
    if n > 0 {
      SlotOfAtLeast(m - w, n - 1, w);
    }
  }

  /** The repeated-subtraction forms agree with Euclidean division and remainder. */
  lemma SlotOfIsQuotient(m: nat, w: nat)
    requires w > 0
    ensures SlotOf(m, w) == m / w && OffsetIn(m, w) == m % w
  {
    var k := m / w;
    var o := m % w;
    assert m == k * w + o;
    TimesIsProduct(k, w);
    SlotOfBlock(k, o, w);
  }
}
