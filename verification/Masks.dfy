/**
  Sets of architectures as words: one bit each, in ascending order. Testing a flag and ranking
  it by counting the bits up to it give back the set.
 */
module Masks {
  import opened Words

  predicate Ascending(bits: seq<nat>) { forall i, j :: 0 <= i < j < |bits| ==> bits[i] < bits[j] }

  /** The word of those of the first `n` architectures that are selected. */
  function Mask(bits: seq<nat>, sel: set<nat>, n: nat): (m: nat)
    requires n <= |bits|
  {
    if n == 0 then 0 else Mask(bits, sel, n - 1) + if n - 1 in sel then Pow2(bits[n - 1]) else 0
  }

  /** How many of the first `n` architectures are selected. */
  function Count(sel: set<nat>, n: nat): (c: nat)
    ensures c <= n
  {
    if n == 0 then 0 else Count(sel, n - 1) + if n - 1 in sel then 1 else 0
  }

  function Popcount(x: nat): (c: nat) {
    if x == 0 then 0 else x % 2 + Popcount(x / 2)
  }

  /** Bitwise exclusive disjunction. */
  function BitXor(a: nat, b: nat): (r: nat)
    decreases a + b
  {
    if a == 0 && b == 0 then 0 else 2 * BitXor(a / 2, b / 2) + (a + b) % 2
  }

  // ----- powers -----

  lemma {:induction false} Pow2Adds(a: nat, b: nat)
    ensures Pow2(a + b) == Pow2(a) * Pow2(b)
    decreases a
  {
    if a > 0 {
      Pow2Adds(a - 1, b);
      assert Pow2(a + b) == 2 * Pow2(a - 1 + b);
      assert 2 * (Pow2(a - 1) * Pow2(b)) == 2 * Pow2(a - 1) * Pow2(b);
    }
  }

  lemma {:induction false} Pow2Grows(a: nat, b: nat)
    requires a <= b
    ensures Pow2(a) <= Pow2(b)
    decreases b - a
  {
    if a < b {
      Pow2Grows(a, b - 1);
    }
  }

  lemma {:induction false} PopcountSplits(hi: nat, lo: nat, k: nat)
    requires lo < Pow2(k)
    ensures Popcount(Pow2(k) * hi + lo) == Popcount(hi) + Popcount(lo)
    decreases k
  {
    if k == 0 {
      assert Pow2(0) * hi + lo == hi;
    } else {
      var h := Pow2(k - 1);
      assert Pow2(k) == 2 * h;
      hide Pow2, Popcount;
      PopcountSplits(hi, lo / 2, k - 1);
      Halve(h, hi, lo);
      PopcountStep(2 * h * hi + lo);
      PopcountStep(lo);
    }
  }

  lemma PopcountStep(x: nat)
    ensures Popcount(x) == x % 2 + Popcount(x / 2)
  {
  }

  /** Exclusive disjunction with its predecessor fills a single bit up with ones. */
  lemma {:induction false} XorFills(b: nat)
    ensures BitXor(Pow2(b), Pow2(b) - 1) == Pow2(b + 1) - 1
    decreases b
  {
    if b == 0 {
      assert BitXor(1, 0) == 2 * BitXor(0, 0) + 1;
    } else {
      XorFills(b - 1);
      var p := Pow2(b - 1);
      assert Pow2(b) == 2 * p && (2 * p) / 2 == p && (2 * p - 1) / 2 == p - 1 && (2 * p + 2 * p - 1) % 2 == 1;
    }
  }

  // ----- masks -----

  lemma {:induction false} MaskBound(bits: seq<nat>, sel: set<nat>, n: nat, b: nat)
    requires n <= |bits| && Ascending(bits) && (n > 0 ==> bits[n - 1] < b)
    ensures Mask(bits, sel, n) < Pow2(b)
    decreases n
  {
    if n > 0 {
      MaskBound(bits, sel, n - 1, bits[n - 1]);
      Pow2Grows(bits[n - 1] + 1, b);
    }
  }

  /** The part of a mask above the bit of architecture `i`. */
  function High(bits: seq<nat>, sel: set<nat>, i: nat, n: nat): (h: nat)
    requires i < n <= |bits| && Ascending(bits)
  {
    if n == i + 1 then 0
    else High(bits, sel, i, n - 1) + if n - 1 in sel then Pow2(bits[n - 1] - bits[i] - 1) else 0
  }

  lemma {:induction false} MaskSplits(bits: seq<nat>, sel: set<nat>, i: nat, n: nat)
    requires i < n <= |bits| && Ascending(bits)
    ensures Mask(bits, sel, n) == Pow2(bits[i] + 1) * High(bits, sel, i, n) + Mask(bits, sel, i + 1)
    decreases n
  {
    hide Pow2;
    if n > i + 1 {
      MaskSplits(bits, sel, i, n - 1);
      Pow2Adds(bits[i] + 1, bits[n - 1] - bits[i] - 1);
      MaskSteps(bits, sel, i, n);
      hide Mask, High;
      var q := if n - 1 in sel then Pow2(bits[n - 1] - bits[i] - 1) else 0;
      Distributes(Pow2(bits[i] + 1), High(bits, sel, i, n - 1), q);
    }
  }

  lemma MaskSteps(bits: seq<nat>, sel: set<nat>, i: nat, n: nat)
    requires i + 1 < n <= |bits| && Ascending(bits)
    ensures Mask(bits, sel, n) == Mask(bits, sel, n - 1) + if n - 1 in sel then Pow2(bits[n - 1]) else 0
    ensures High(bits, sel, i, n) ==
            High(bits, sel, i, n - 1) + if n - 1 in sel then Pow2(bits[n - 1] - bits[i] - 1) else 0
  {
    hide Pow2;
  }

  lemma Distributes(p: nat, a: nat, b: nat)
    ensures p * (a + b) == p * a + p * b
  {
  }

  lemma Times2(p: nat, h: nat, s: nat)
    ensures 2 * p * h + p * s == p * (2 * h + s)
  {
  }

  /** The flag of an architecture is in a mask exactly when it is selected. */
  lemma FlagTests(bits: seq<nat>, sel: set<nat>, i: nat)
    requires i < |bits| && Ascending(bits)
    ensures BitAnd(Pow2(bits[i]), Mask(bits, sel, |bits|)) == if i in sel then Pow2(bits[i]) else 0
  {
    var p, h := Pow2(bits[i]), High(bits, sel, i, |bits|);
    var s := if i in sel then 1 else 0;
    var lo := Mask(bits, sel, i);
    assert Mask(bits, sel, i + 1) == lo + p * s && Pow2(bits[i] + 1) == 2 * p;
    hide Pow2, Mask, High, BitAnd;
    MaskSplits(bits, sel, i, |bits|);
    MaskBound(bits, sel, i, bits[i]);
    Times2(p, h, s);
    BitAndSplit(1, 0, 2 * h + s, lo, bits[i]);
    AndOne(h, s);
    AndZero(lo);
  }

  lemma AndOne(h: nat, s: nat)
    requires s <= 1
    ensures BitAnd(1, 2 * h + s) == s
  {
    BitAndStep(1, 2 * h + s);
  }

  lemma AndZero(x: nat)
    ensures BitAnd(0, x) == 0 && BitAnd(x, 0) == 0
  {
  }

  lemma {:induction false} LowBits(hi: nat, lo: nat, k: nat)
    requires lo < Pow2(k)
    ensures BitAnd(Pow2(k) * hi + lo, Pow2(k) - 1) == lo
  {
    hide Pow2, BitAnd;
    BitAndSplit(hi, lo, 0, Pow2(k) - 1, k);
    BitAndOnes(lo, k);
    AndZero(hi);
    assert Pow2(k) * 0 == 0;
  }

  /** Counting the bits of a mask up to a flag counts the architectures up to it. */
  lemma RankIsCount(bits: seq<nat>, sel: set<nat>, i: nat)
    requires i < |bits| && Ascending(bits) && i in sel
    ensures var m := Mask(bits, sel, |bits|); var found := BitAnd(Pow2(bits[i]), m);
            found > 0 && Popcount(BitAnd(m, BitXor(found, found - 1))) == Count(sel, i) + 1
  {
    hide Pow2, Mask, High, BitAnd, Popcount, BitXor;
    var k := bits[i] + 1;
    PopcountOfMask(bits, sel, i + 1);
    FlagTests(bits, sel, i);
    XorFills(bits[i]);
    MaskBound(bits, sel, i + 1, k);
    LowBits(High(bits, sel, i, |bits|), Mask(bits, sel, i + 1), k);
    MaskSplits(bits, sel, i, |bits|);
  }

  lemma {:induction false} PopcountOfMask(bits: seq<nat>, sel: set<nat>, n: nat)
    requires n <= |bits| && Ascending(bits)
    ensures Popcount(Mask(bits, sel, n)) == Count(sel, n)
    decreases n
  {
    if n > 0 {
      PopcountOfMask(bits, sel, n - 1);
      MaskBound(bits, sel, n - 1, bits[n - 1]);
      PopcountSplits(1, Mask(bits, sel, n - 1), bits[n - 1]);
    }
  }

  /** Different sets have different masks. */
  lemma MaskTells(bits: seq<nat>, a: set<nat>, b: set<nat>)
    requires Ascending(bits) && (forall i :: i in a ==> i < |bits|) && (forall i :: i in b ==> i < |bits|)
    requires Mask(bits, a, |bits|) == Mask(bits, b, |bits|)
    ensures a == b
  {
    forall i | 0 <= i < |bits| ensures i in a <==> i in b {
      FlagTests(bits, a, i);
      FlagTests(bits, b, i);
    }
  }
}
