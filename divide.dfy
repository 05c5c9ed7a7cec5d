/** Software division: the unsigned restoring-division kernel `__udivmod`,
    the signed adapter `__divmod`, and the four fixed-mode entry points
    `__udivsi3`, `__umodsi3`, `__divsi3` and `__modsi3`. */
module Divide {
  import opened Words
  import opened Bits

  /** What `__udivmod(a, b, mode)` promises: 0 for a zero divisor, otherwise
      the quotient when `mode` is non-zero and the remainder when it is zero. */
  function UnsignedDivMod(a: Word, b: Word, mode: Int32): Word {
    if b == 0 then 0 else if mode != 0 then a / b else a % b
  }

  /** The first loop of `__udivmod`: shift the divisor and the bit-mask `msb`
      left together while the divisor is below the dividend and its top bit
      is clear. Afterwards `msb` is a power of two, the shifted divisor is
      the divisor times `msb` (nothing was shifted out), and the dividend is
      below twice the shifted divisor. */
  method AlignDivisor(a: Word, b0: Word) returns (b: Word, msb: Word, ghost k: nat)
    requires b0 != 0
    ensures k <= 31 && msb == Pow2(k) && b == b0 * msb
    ensures a < 2 * b
  {
    msb, b, k := 1, b0, 0;
    while b < a && BitAnd(b, TWO31) == 0   // b < a && !(b & (1 << 31))
      invariant k <= 31 && msb == Pow2(k) && b == b0 * msb
      decreases 31 - k
    {
      assert b < TWO31 by { SignBit(b); }
      assert k < 31 && (2 * msb) % TWO32 == Pow2(k + 1) && (2 * b) % TWO32 == b0 * ((2 * msb) % TWO32) by {
        AlignStep(b0, msb, k, b);
      }
      msb := (2 * msb) % TWO32;            // msb <<= 1
      b := (2 * b) % TWO32;                // b <<= 1
      k := k + 1;
    }
    assert b >= 1 by { MulAtLeast(b0, msb); }
    assert BitAnd(b, TWO31) != 0 ==> b >= TWO31 by { SignBit(b); }
  }

  /** One iteration of the alignment loop, taken while the divisor's top bit
      is clear: neither shift overflows, and the shifted pair keeps
      b == b0 * msb with msb the next power of two. */
  lemma AlignStep(b0: nat, msb: nat, k: nat, b: nat)
    requires b0 != 0 && k <= 31 && msb == Pow2(k) && b == b0 * msb && b < TWO31
    ensures k < 31
    ensures (2 * msb) % TWO32 == 2 * msb == Pow2(k + 1)
    ensures (2 * b) % TWO32 == 2 * b == b0 * (2 * msb)
  {
    MulAtLeast(b0, msb);
    Pow2Grows(k);
    assert b0 * (2 * msb) == 2 * (b0 * msb);
    DivModUnique(2 * msb, TWO32, 0, 2 * msb);
    DivModUnique(2 * b, TWO32, 0, 2 * b);
  }

  /** The second loop of `__udivmod`: restoring long division. From the
      aligned divisor down to the divisor itself, subtract whenever it fits
      and record the bit of `msb` in the quotient. The result satisfies the
      division identity with a remainder below the divisor. */
  method RestoringDivide(a0: Word, b0: Word, bAligned: Word, msb0: Word, ghost k0: nat)
    returns (quotient: Word, remainder: Word)
    requires b0 != 0 && msb0 == Pow2(k0) && bAligned == b0 * msb0 && a0 < 2 * bAligned
    ensures a0 == quotient * b0 + remainder && remainder < b0
  {
    var a: Word, b: Word, msb: Word := a0, bAligned, msb0;
    var result: Word := 0;
    ghost var k: int := k0;
    ghost var hi: nat := 0;
    HalveMultiple(b0, k0);
    while a != 0 && msb != 0
      invariant -1 <= k <= k0
      invariant msb == (if k >= 0 then Pow2(k) else 0)
      invariant k >= 0 ==> b == b0 * msb
      invariant a0 == result * b0 + a
      invariant a < b0 * Pow2(k + 1)
      invariant result == hi * Pow2(k + 1)  // the bits at and below msb are clear
      decreases k + 1
    {
      assert k >= 0;
      assert msb / 2 == (if k >= 1 then Pow2(k - 1) else 0) && (k >= 1 ==> b / 2 == b0 * (msb / 2)) by {
        ShiftStep(b0, k, b, msb);
      }
      if b <= a {
        assert && a0 == BitOr(result, msb) * b0 + (a - b)
               && a - b < b0 * Pow2(k)
               && BitOr(result, msb) == (2 * hi + 1) * Pow2(k)
               && BitOr(result, msb) <= a0 by {
          SubtractStep(a0, b0, result, a, hi, k, b, msb);
        }
        a := a - b;                        // a -= b
        result := BitOr(result, msb);      // result |= msb
        hi := 2 * hi + 1;
      } else {
        assert a < b0 * Pow2(k) && result == (2 * hi) * Pow2(k) by {
          SkipStep(b0, result, a, hi, k, b, msb);
        }
        hi := 2 * hi;
      }
      msb := msb / 2;                      // msb >>= 1
      b := b / 2;                          // b >>= 1
      k := k - 1;
    }
    quotient, remainder := result, a;
  }

  /** One subtracting iteration of the restoring loop, with mask 2^k and
      divisor b0 * 2^k: the division identity and the halved bound on the
      dividend hold afterwards, and the OR adds the mask without carrying
      into bits already set. */
  lemma SubtractStep(a0: nat, b0: nat, result: nat, a: nat, hi: nat, k: nat, b: nat, msb: nat)
    requires b0 != 0 && msb == Pow2(k) && b == b0 * msb
    requires a0 == result * b0 + a && a < b0 * Pow2(k + 1) && result == hi * Pow2(k + 1)
    requires b <= a
    ensures a0 == BitOr(result, msb) * b0 + (a - b)
    ensures a - b < b0 * Pow2(k)
    ensures BitOr(result, msb) == (2 * hi + 1) * Pow2(k)
    ensures BitOr(result, msb) <= a0
  {
    HalveMultiple(hi, k);
    HalveMultiple(b0, k);
    OrFreshBit(hi, k);
    Subtract(a0, b0, result, a, hi, msb);
  }

  /** One iteration of the restoring loop that does not subtract. */
  lemma SkipStep(b0: nat, result: nat, a: nat, hi: nat, k: nat, b: nat, msb: nat)
    requires msb == Pow2(k) && b == b0 * msb && result == hi * Pow2(k + 1)
    requires a < b
    ensures a < b0 * Pow2(k)
    ensures result == (2 * hi) * Pow2(k)
  {
    HalveMultiple(hi, k);
    assert (2 * hi) * Pow2(k) == 2 * (hi * Pow2(k));
  }

  /** The right shifts at the end of an iteration halve mask and divisor
      exactly, down to the divisor itself; the last shift clears the mask. */
  lemma ShiftStep(b0: nat, k: nat, b: nat, msb: nat)
    requires msb == Pow2(k) && b == b0 * msb
    ensures msb / 2 == (if k >= 1 then Pow2(k - 1) else 0)
    ensures k >= 1 ==> b / 2 == b0 * (msb / 2)
  {
    if k >= 1 {
      HalveMultiple(1, k - 1);
      HalveMultiple(b0, k - 1);
    }
  }

  /** The subtracting branch of the restoring loop, with mask p. */
  lemma Subtract(a0: nat, b0: nat, result: nat, a: nat, hi: nat, p: nat)
    requires b0 != 0 && a0 == result * b0 + a && a < 2 * (b0 * p) && b0 * p <= a
    requires result == 2 * (hi * p)
    ensures a0 == (result + p) * b0 + (a - b0 * p)
    ensures a - b0 * p < b0 * p
    ensures result + p == (2 * hi + 1) * p
    ensures result + p <= a0
  {
    assert (result + p) * b0 == result * b0 + b0 * p;
    assert (2 * hi + 1) * p == 2 * (hi * p) + p;
    MulAtLeast(b0, result + p);
  }

  /** `__udivmod`: 0 for a zero divisor; otherwise align, divide, and return
      the quotient when `mode` is non-zero and the remainder when it is zero. */
  method UDivMod(a: Word, b: Word, mode: Int32) returns (r: Word)
    ensures r == UnsignedDivMod(a, b, mode)
  {
    if b == 0 {
      return 0;
    }
    var bAligned, msb, k := AlignDivisor(a, b);
    var quotient, remainder := RestoringDivide(a, b, bAligned, msb, k);
    DivModUnique(a, b, quotient, remainder);
    r := if mode != 0 then quotient else remainder;
  }

  /** `__divmod`: strip the signs, divide the magnitudes as `unsigned`, then
      give the quotient the sign "operands differ" and the remainder the sign
      of the dividend (`asign`, the dividend's bit 31 taken before the
      stripping). The sign flag, an `unsigned` toggled by `^= 1` in the
      source, is a boolean here; `a = -a` on INT_MIN is fixed as
      two's-complement wrap-around and `1 << 31` as the mask 0x8000_0000. */
  function DivMod(a: Int32, b: Int32, mode: Int32): Int32 {
    var asign := BitAnd(ToWord(a), TWO31);   // a & (1 << 31)
    if b == 0 then 0
    else
      var sign := a < 0;
      var a' := if a < 0 then Neg32(a) else a;
      var sign := if b < 0 then !sign else sign;
      var b' := if b < 0 then Neg32(b) else b;
      var result := UnsignedDivMod(ToWord(a'), ToWord(b'), mode);
      if mode != 0 then ToInt(if sign then NegWord(result) else result)
      else ToInt(if asign != 0 then NegWord(result) else result)
  }

  /** `__udivsi3`: the `int` operands are read as `unsigned`, the quotient
      is handed back as an `int`. */
  function UDivSi3(a: Int32, b: Int32): Int32 {
    ToInt(UnsignedDivMod(ToWord(a), ToWord(b), 1))
  }

  /** `__umodsi3`. */
  function UModSi3(a: Int32, b: Int32): Int32 {
    ToInt(UnsignedDivMod(ToWord(a), ToWord(b), 0))
  }

  /** `__divsi3`. */
  function DivSi3(a: Int32, b: Int32): Int32 {
    DivMod(a, b, 1)
  }

  /** `__modsi3`. */
  function ModSi3(a: Int32, b: Int32): Int32 {
    DivMod(a, b, 0)
  }

  // ---------------------------------------------------------------------
  // Properties of the entry points.

  /** Division by zero yields 0 in every routine and every mode; no trap. */
  lemma DivideByZero(a: Int32, w: Word, mode: Int32)
    ensures UnsignedDivMod(w, 0, mode) == 0 && DivMod(a, 0, mode) == 0
    ensures UDivSi3(a, 0) == 0 && UModSi3(a, 0) == 0
    ensures DivSi3(a, 0) == 0 && ModSi3(a, 0) == 0
  {
  }

  /** The unsigned entry points divide the `unsigned` readings of their
      operands: quotient and remainder satisfy the division identity, the
      remainder is below the divisor, and both are returned bit for bit. */
  lemma UnsignedDivModIdentity(a: Int32, b: Int32)
    requires b != 0
    ensures ToWord(UDivSi3(a, b)) == ToWord(a) / ToWord(b)
    ensures ToWord(UModSi3(a, b)) == ToWord(a) % ToWord(b)
    ensures ToWord(UDivSi3(a, b)) * ToWord(b) + ToWord(UModSi3(a, b)) == ToWord(a)
    ensures ToWord(UModSi3(a, b)) < ToWord(b)
  {
    var wa, wb := ToWord(a), ToWord(b);
    IntWordRoundTrip(b);
    assert wb != 0;
    DivisionFacts(wa, wb);
    assert UDivSi3(a, b) == ToInt(wa / wb) && UModSi3(a, b) == ToInt(wa % wb);
    WordIntRoundTrip(wa / wb);
    WordIntRoundTrip(wa % wb);
  }

  /** Applying a sign to a magnitude as the adapter does, by `unsigned`
      negation and conversion to `int`, gives the signed value whenever it
      is representable. */
  lemma ApplySign(m: nat, negative: bool)
    requires m <= TWO31 && (!negative ==> m < TWO31)
    ensures ToInt(if negative then NegWord(m) else m) == (if negative then -(m as int) else m)
  {
    if negative && m > 0 {
      NegativeWord(m);
    }
  }

  /** A quotient of magnitudes of `int`s reaches 2^31 only for 2^31 / 1. */
  lemma QuotientRange(n: nat, d: nat)
    requires n <= TWO31 && d >= 1
    ensures n / d <= TWO31
    ensures n / d == TWO31 ==> n == TWO31 && d == 1
  {
    var q := n / d;
    assert q * d + n % d == n;
    if d >= 2 {
      assert q * d >= q * 2;
    } else {
      DivModUnique(n, 1, n, 0);
    }
  }

  /** The adapter divides the magnitudes |a| and |b| and applies the
      quotient's sign ("operands differ") or the remainder's ("dividend
      negative"). */
  lemma AdapterOnMagnitudes(a: Int32, b: Int32, mode: Int32)
    requires b != 0
    ensures var u := UnsignedDivMod(Abs(a), Abs(b), mode);
            var negative := if mode != 0 then (a < 0) != (b < 0) else a < 0;
            DivMod(a, b, mode) == ToInt(if negative then NegWord(u) else u)
  {
    MagnitudeWord(a);
    MagnitudeWord(b);
    SignBit(ToWord(a));
    IntWordRoundTrip(a);
  }

  /** `__divsi3` in terms of magnitudes: the signed quotient |a| / |b|,
      exact except for INT_MIN / -1, where it agrees only in its bits. */
  lemma QuotientOnMagnitudes(a: Int32, b: Int32)
    requires b != 0
    ensures var q: int := Abs(a) / Abs(b);
            var v := if (a < 0) != (b < 0) then -q else q;
            ToWord(DivSi3(a, b)) == ToWord(v) &&
            (!(a == INT_MIN && b == -1) ==> DivSi3(a, b) == v)
  {
    AdapterOnMagnitudes(a, b, 1);
    var q := Abs(a) / Abs(b);
    var sign := (a < 0) != (b < 0);
    QuotientRange(Abs(a), Abs(b));
    if q == TWO31 && !sign {
      assert a == INT_MIN && b == -1;
      WordIntRoundTrip(TWO31);
      DivModUnique(TWO31, TWO32, 0, TWO31);
    } else {
      ApplySign(q, sign);
    }
  }

  /** `__modsi3` in terms of magnitudes: |a| mod |b| with the dividend's
      sign, for every non-zero divisor. */
  lemma RemainderOnMagnitudes(a: Int32, b: Int32)
    requires b != 0
    ensures var r: int := Abs(a) % Abs(b);
            ModSi3(a, b) == (if a < 0 then -r else r)
  {
    AdapterOnMagnitudes(a, b, 0);
    ApplySign(Abs(a) % Abs(b), a < 0);
  }

  /** Putting the signs back on a division of magnitudes restores the
      division identity of the signed operands. */
  lemma SignsRestoreIdentity(a: int, b: int, q: int, r: int)
    requires b != 0 && Abs(a) == q * Abs(b) + r
    ensures (if (a < 0) != (b < 0) then -q else q) * b + (if a < 0 then -r else r) == a
  {
    if b < 0 {
      assert q * Abs(b) == -(q * b);
    }
  }

  /** `__divsi3` and `__modsi3` are the C99 operators `/` and `%` (section
      6.5.5 of ISO/IEC 9899:1999): for a non-zero divisor and a quotient that
      fits, the division identity holds, the remainder is smaller than the
      divisor in magnitude, and it is zero or has the sign of the dividend. */
  lemma SignedDivModIdentity(a: Int32, b: Int32)
    requires b != 0 && !(a == INT_MIN && b == -1)
    ensures DivSi3(a, b) * b + ModSi3(a, b) == a
    ensures Abs(ModSi3(a, b)) < Abs(b)
    ensures ModSi3(a, b) == 0 || (ModSi3(a, b) < 0 <==> a < 0)
  {
    DivisionFacts(Abs(a), Abs(b));
    QuotientOnMagnitudes(a, b);
    RemainderOnMagnitudes(a, b);
    SignsRestoreIdentity(a, b, Abs(a) / Abs(b), Abs(a) % Abs(b));
  }

  /** The division identity modulo 2^32 holds for every non-zero divisor:
      for INT_MIN / -1 the wrapped quotient INT_MIN still gives back INT_MIN. */
  lemma SignedDivModWrapped(a: Int32, b: Int32)
    requires b != 0
    ensures ToWord(DivSi3(a, b) * b + ModSi3(a, b)) == ToWord(a)
  {
    var q, r := DivSi3(a, b), ModSi3(a, b);
    if a == INT_MIN && b == -1 {
      assert q == INT_MIN && r == 0 by { QuotientOverflow(a, b); }
      WrapsToDividend(a, q * b + r);
    } else {
      assert q * b + r == a by { SignedDivModIdentity(a, b); }
    }
  }

  /** 2^31 and INT_MIN have the same 32-bit pattern. */
  lemma WrapsToDividend(a: int, v: int)
    requires a == INT_MIN && v == TWO31
    ensures ToWord(v) == ToWord(a)
  {
    DivModUnique(v, TWO32, 0, TWO31);
    DivModUnique(a, TWO32, -1, TWO31);
  }

  /** The quotient truncates toward zero: its magnitude is |a| / |b|, its
      sign is negative exactly when the operand signs differ (unless it is
      zero); the remainder's magnitude is |a| mod |b|. */
  lemma SignedDivisionTruncates(a: Int32, b: Int32)
    requires b != 0 && !(a == INT_MIN && b == -1)
    ensures Abs(DivSi3(a, b)) == Abs(a) / Abs(b)
    ensures DivSi3(a, b) != 0 ==> (DivSi3(a, b) < 0 <==> (a < 0) != (b < 0))
    ensures Abs(ModSi3(a, b)) == Abs(a) % Abs(b)
  {
    DivisionFacts(Abs(a), Abs(b));
    QuotientOnMagnitudes(a, b);
    RemainderOnMagnitudes(a, b);
  }

  /** The three conditions of SignedDivModIdentity determine the quotient
      and the remainder: any pair meeting them is the one the entry points
      return. */
  lemma TruncatedDivisionUnique(a: Int32, b: Int32, q: int, r: int)
    requires b != 0 && !(a == INT_MIN && b == -1)
    requires q * b + r == a && Abs(r) < Abs(b) && (r == 0 || (r < 0 <==> a < 0))
    ensures q == DivSi3(a, b) && r == ModSi3(a, b)
  {
    SignedDivModIdentity(a, b);
    TruncatedPairsAgree(a, b, q, r, DivSi3(a, b), ModSi3(a, b));
  }

  /** Two pairs meeting the conditions of C's truncating division are equal. */
  lemma TruncatedPairsAgree(a: int, b: int, q: int, r: int, q': int, r': int)
    requires b != 0
    requires q * b + r == a && Abs(r) < Abs(b) && (r == 0 || (r < 0 <==> a < 0))
    requires q' * b + r' == a && Abs(r') < Abs(b) && (r' == 0 || (r' < 0 <==> a < 0))
    ensures q == q' && r == r'
  {
    assert (q - q') * b == r' - r;
    ZeroMultiple(q - q', b);
  }

  /** A multiple of d smaller than d in magnitude is zero. */
  lemma ZeroMultiple(k: int, d: int)
    requires d != 0 && Abs(k * d) < Abs(d)
    ensures k == 0
  {
    if k != 0 {
      MulAtLeast(Abs(k), Abs(d));
    }
  }

  /** INT_MIN / -1 does not fit: its magnitude 2^31 wraps to INT_MIN, and
      the remainder is 0. */
  lemma QuotientOverflow(a: Int32, b: Int32)
    requires a == INT_MIN && b == -1
    ensures DivSi3(a, b) == INT_MIN && ModSi3(a, b) == 0
  {
    assert Abs(a) == TWO31 && Abs(b) == 1;
    DivModUnique(Abs(a), Abs(b), TWO31, 0);
    QuotientOnMagnitudes(a, b);
    RemainderOnMagnitudes(a, b);
    DivModUnique(TWO31, TWO32, 0, TWO31);
    IntWordRoundTrip(DivSi3(a, b));
  }

  /** Worked cases of the signed routines: truncation toward zero and the
      remainder's sign. */
  lemma SignedDivideExamples()
    ensures DivSi3(-17, 5) == -3 && ModSi3(-17, 5) == -2
    ensures DivSi3(17, -5) == -3 && ModSi3(17, -5) == 2
    ensures DivSi3(-17, -5) == 3 && ModSi3(-17, -5) == -2
  {
    TruncatedDivisionUnique(-17, 5, -3, -2);
    TruncatedDivisionUnique(17, -5, -3, 2);
    TruncatedDivisionUnique(-17, -5, 3, -2);
  }

  /** Worked cases of the unsigned routines, among them an `int` operand
      that is read as a large `unsigned`. */
  lemma UnsignedDivideExamples()
    ensures UDivSi3(17, 5) == 3 && UModSi3(17, 5) == 2
    ensures UDivSi3(-1, 2) == 0x7fff_ffff && UModSi3(-1, 2) == 1
  {
    IntWordRoundTrip(17);
    IntWordRoundTrip(5);
    IntWordRoundTrip(2);
    IntWordRoundTrip(-1);
  }

  /** A caller of the kernel: both modes, and a divisor of 0. */
  method UDivModClient() {
    var q := UDivMod(17, 5, 1);
    var r := UDivMod(17, 5, 0);
    assert q == 3 && r == 2;
    q := UDivMod(0xffff_ffff, 1, 1);
    assert q == 0xffff_ffff;
    q := UDivMod(5, 0, 1);
    assert q == 0;
  }
}
