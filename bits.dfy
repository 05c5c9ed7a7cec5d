/** The bitwise operators the routines use (`&` and `|`), defined bit by bit
    on non-negative integers, with the facts about single-bit masks that the
    proofs of the routines need. */
module Bits {
  import opened Words

  function Pow2(k: nat): (p: nat)
    ensures p >= 1
  {
    if k == 0 then 1 else 2 * Pow2(k - 1)
  }

  /** `x & y`: bit i of the result is set iff bit i is set in both. */
  function BitAnd(x: nat, y: nat): nat
    decreases x
  {
    if x == 0 || y == 0 then 0
    else 2 * BitAnd(x / 2, y / 2) + (if x % 2 == 1 && y % 2 == 1 then 1 else 0)
  }

  /** `x | y`: bit i of the result is set iff bit i is set in either. */
  function BitOr(x: nat, y: nat): nat
    decreases x
  {
    if x == 0 then y
    else if y == 0 then x
    else 2 * BitOr(x / 2, y / 2) + (if x % 2 == 1 || y % 2 == 1 then 1 else 0)
  }

  lemma Pow2Constants()
    ensures Pow2(31) == TWO31 && Pow2(32) == TWO32
  {
    assert Pow2(8) == 0x100;
    assert Pow2(16) == 0x1_0000;
    assert Pow2(24) == 0x100_0000;
  }

  /** 2^k, for k no smaller than 31, is at least 2^31. */
  lemma {:induction false} Pow2Grows(k: nat)
    ensures k >= 31 ==> Pow2(k) >= TWO31
  {
    Pow2Constants();
    if k > 31 {
      Pow2Grows(k - 1);
    }
  }

  /** Halving a multiple of 2^(k+1), or 2^(k+1) itself, halves the exponent. */
  lemma HalveMultiple(m: nat, k: nat)
    ensures m * Pow2(k + 1) == 2 * (m * Pow2(k))
    ensures (m * Pow2(k + 1)) / 2 == m * Pow2(k) && (m * Pow2(k + 1)) % 2 == 0
  {
    DivModUnique(m * Pow2(k + 1), 2, m * Pow2(k), 0);
  }

  /** `x & 1` is the lowest bit of x. */
  lemma LowBit(x: nat)
    ensures BitAnd(x, 1) == x % 2
  {
  }

  /** `x & 2^k` keeps bit k of x and clears every other bit. */
  lemma {:induction false} SingleBitMask(x: nat, k: nat)
    ensures BitAnd(x, Pow2(k)) == Pow2(k) * ((x / Pow2(k)) % 2)
  {
    if k == 0 {
      LowBit(x);
    } else if x == 0 {
    } else {
      var p := Pow2(k - 1);
      assert Pow2(k) == 2 * p;
      EvenMask(x, Pow2(k));
      SingleBitMask(x / 2, k - 1);
      DivHalf(x, p);
      Double(p, (x / (2 * p)) % 2);
    }
  }

  /** With an even mask, `x & y` is twice `(x >> 1) & (y >> 1)`. */
  lemma EvenMask(x: nat, y: nat)
    requires x != 0 && y != 0 && y % 2 == 0
    ensures BitAnd(x, y) == 2 * BitAnd(x / 2, y / 2)
  {
  }

  lemma Double(p: nat, t: nat)
    ensures 2 * (p * t) == (2 * p) * t
  {
  }

  /** Dividing by 2 and then by p is dividing by 2p. */
  lemma DivHalf(x: nat, p: nat)
    requires p >= 1
    ensures (x / 2) / p == x / (2 * p)
  {
    var q, r := x / (2 * p), x % (2 * p);
    assert x == 2 * (q * p + r / 2) + r % 2;
    DivModUnique(x, 2, q * p + r / 2, r % 2);
    DivModUnique(x / 2, p, q, r / 2);
  }

  /** The sign-bit test `w & (1 << 31)` of the routines is non-zero exactly
      when the word's top bit is set, that is, when as an `int` it is negative. */
  lemma SignBit(w: Word)
    ensures BitAnd(w, TWO31) != 0 <==> w >= TWO31
    ensures BitAnd(w, TWO31) != 0 <==> ToInt(w) < 0
  {
    Pow2Constants();
    SingleBitMask(w, 31);
    if w >= TWO31 {
      DivModUnique(w, TWO31, 1, w - TWO31);
    } else {
      DivModUnique(w, TWO31, 0, w);
    }
    WordIntRoundTrip(w);
  }

  /** `x | 2^k` adds 2^k when bits 0..k of x are clear: the bit set by OR
      does not collide with one already set. */
  lemma {:induction false} OrFreshBit(m: nat, k: nat)
    ensures BitOr(m * Pow2(k + 1), Pow2(k)) == m * Pow2(k + 1) + Pow2(k)
  {
    var x := m * Pow2(k + 1);
    assert x % 2 == 0 && x / 2 == m * Pow2(k) by {
      HalveMultiple(m, k);
    }
    if k == 0 {
      OrLowBit(x);
    } else if x != 0 {
      var p := Pow2(k);
      assert p == 2 * Pow2(k - 1);
      OrEvenStep(x, p);
      OrFreshBit(m, k - 1);
    }
  }

  /** Setting bit 0 of an even number adds 1. */
  lemma OrLowBit(x: nat)
    requires x % 2 == 0
    ensures BitOr(x, 1) == x + 1
  {
    if x != 0 {
      assert BitOr(x, 1) == 2 * BitOr(x / 2, 0) + 1;
    }
  }

  /** For two even operands, `x | y` is twice `(x >> 1) | (y >> 1)`. */
  lemma OrEvenStep(x: nat, y: nat)
    requires x != 0 && y != 0 && x % 2 == 0 && y % 2 == 0
    ensures BitOr(x, y) == 2 * BitOr(x / 2, y / 2)
  {
  }
}
