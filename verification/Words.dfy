/**
  Unsigned machine words as the compiler and the BPF machine see them: values are naturals
  below a power of two, and bitwise conjunction is defined bit by bit, so that splitting a
  64-bit value into two 32-bit words is a statement about division and remainder.
 */
module Words {

  const WORD: nat := 0x1_0000_0000
  const UINT32_MAX: nat := 0xFFFF_FFFF
  const UINT64_MAX: nat := 0xFFFF_FFFF_FFFF_FFFF

  type u32 = x: nat | x < 0x1_0000_0000
  type u64 = x: nat | x < 0x1_0000_0000_0000_0000

  /** Bitwise conjunction. */
  function BitAnd(a: nat, b: nat): (r: nat)
    ensures r <= a && r <= b
  {
    if a == 0 || b == 0 then 0
    else 2 * BitAnd(a / 2, b / 2) + (a % 2) * (b % 2)
  }

  function Pow2(k: nat): (p: nat)
    ensures p > 0
  {
    if k == 0 then 1 else 2 * Pow2(k - 1)
  }

  function HighWord(n: u64): (w: u32) { n / WORD }

  function LowWord(n: u64): (w: u32) { n % WORD }

  lemma BitAndStep(a: nat, b: nat)
    ensures BitAnd(a, b) == 2 * BitAnd(a / 2, b / 2) + (a % 2) * (b % 2)
  {
  }

  lemma BitAndHalves(a: nat, b: nat)
    ensures BitAnd(a, b) / 2 == BitAnd(a / 2, b / 2) && BitAnd(a, b) % 2 == (a % 2) * (b % 2)
  {
    hide BitAnd;
    BitAndStep(a, b);
    BitProduct(a % 2, b % 2);
    Doubled(BitAnd(a / 2, b / 2), (a % 2) * (b % 2));
  }

  lemma BitProduct(x: nat, y: nat)
    requires x < 2 && y < 2
    ensures x * y < 2 && x * y == (if x == 1 then y else 0)
  {
  }

  lemma Doubled(x: nat, y: nat)
    requires y < 2
    ensures (2 * x + y) / 2 == x && (2 * x + y) % 2 == y
  {
  }

  lemma {:induction false} BitAndCommutes(a: nat, b: nat)
    ensures BitAnd(a, b) == BitAnd(b, a)
  {
    if a != 0 && b != 0 {
      BitAndCommutes(a / 2, b / 2);
    }
  }

  /** Masking twice with the same mask is masking once. */
  lemma {:induction false} BitAndAbsorbs(a: nat, m: nat)
    ensures BitAnd(BitAnd(a, m), m) == BitAnd(a, m)
  {
    if a != 0 && m != 0 {
      BitAndAbsorbs(a / 2, m / 2);
      BitAndHalves(a, m);
      BitAndStep(BitAnd(a, m), m);
      BitAndStep(a, m);
      hide BitAnd;
      BitProduct(a % 2, m % 2);
      BitProduct((a % 2) * (m % 2), m % 2);
    }
  }

  lemma DivUnique(x: nat, p: nat, q: nat, r: nat)
    requires p > 0 && r < p && x == p * q + r
    ensures x / p == q && x % p == r
  {
    var q', r' := x / p, x % p;
    assert p * (q - q') == r' - r;
    assert q - q' >= 1 ==> p * (q - q') >= p;
    assert q' - q >= 1 ==> p * (q' - q) >= p;
  }

  /** Conjunction acts on the part above bit `k` and on the part below it independently. */
  lemma {:induction false} BitAndSplit(ahi: nat, alo: nat, bhi: nat, blo: nat, k: nat)
    requires alo < Pow2(k) && blo < Pow2(k)
    ensures BitAnd(Pow2(k) * ahi + alo, Pow2(k) * bhi + blo) ==
            Pow2(k) * BitAnd(ahi, bhi) + BitAnd(alo, blo)
  {
    if k > 0 {
      var h := Pow2(k - 1);
      BitAndSplit(ahi, alo / 2, bhi, blo / 2, k - 1);
      Halve(h, ahi, alo);
      Halve(h, bhi, blo);
      BitAndStep(2 * h * ahi + alo, 2 * h * bhi + blo);
      BitAndStep(alo, blo);
      Halve(h, BitAnd(ahi, bhi), BitAnd(alo, blo));
    }
  }

  lemma Halve(h: nat, hi: nat, lo: nat)
    ensures (2 * h * hi + lo) / 2 == h * hi + lo / 2
    ensures (2 * h * hi + lo) % 2 == lo % 2
    ensures 2 * h * hi == 2 * (h * hi)
  {
    assert 2 * h * hi == 2 * (h * hi);
  }

  lemma Pow2Of32()
    ensures Pow2(32) == WORD
  {
    assert Pow2(8) == 256;
    assert Pow2(16) == 65536;
    assert Pow2(24) == 16777216;
  }

  /** The words of a conjunction are the conjunctions of the words. */
  lemma BitAndWords(a: u64, b: u64)
    ensures HighWord(BitAnd(a, b)) == BitAnd(HighWord(a), HighWord(b))
    ensures LowWord(BitAnd(a, b)) == BitAnd(LowWord(a), LowWord(b))
  {
    Pow2Of32();
    BitAndSplit(HighWord(a), LowWord(a), HighWord(b), LowWord(b), 32);
    DivUnique(BitAnd(a, b), WORD, BitAnd(HighWord(a), HighWord(b)), BitAnd(LowWord(a), LowWord(b)));
  }

  lemma {:induction false} BitAndOnes(a: nat, k: nat)
    requires a < Pow2(k)
    ensures BitAnd(a, Pow2(k) - 1) == a
  {
    if k > 0 && a != 0 {
      BitAndOnes(a / 2, k - 1);
      assert (Pow2(k) - 1) / 2 == Pow2(k - 1) - 1;
    }
  }

  /** A mask of all ones changes nothing. */
  lemma BitAndAllOnes(a: u64)
    ensures BitAnd(a, UINT64_MAX) == a
  {
    Pow2Of32();
    assert Pow2(40) == 0x100_0000_0000;
    assert Pow2(48) == 0x1_0000_0000_0000;
    assert Pow2(56) == 0x100_0000_0000_0000;
    assert Pow2(64) == 0x1_0000_0000_0000_0000;
    BitAndOnes(a, 64);
  }
}
