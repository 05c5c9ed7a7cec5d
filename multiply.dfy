/** Software multiplication: the unsigned shift-and-add kernel `__umulsi3`
    and the signed adapter `__mulsi3` built on it. */
module Multiply {
  import opened Words
  import opened Bits

  /** What `__umulsi3` promises: the product reduced modulo 2^32. */
  function WordProduct(a: Word, b: Word): Word {
    (a * b) % TWO32
  }

  /** `__umulsi3`: shift-and-add. Each iteration adds `a` when the low bit of
      `b` is set, then shifts `a` left (wrapping) and `b` right (logically).
      The ghost `steps` counts the iterations. */
  method UMulSi3(a0: Word, b0: Word) returns (result: Word, ghost steps: nat)
    ensures result == WordProduct(a0, b0)
    ensures steps <= 32
    ensures steps == 0 <==> b0 == 0
  {
    var a: Word, b: Word := a0, b0;
    result := 0;
    steps := 0;
    Pow2Constants();
    while b != 0
      invariant (result + a * b) % TWO32 == (a0 * b0) % TWO32
      invariant steps <= 32 && b < Pow2(32 - steps)
      invariant steps == 0 ==> b == b0
      invariant b0 == 0 ==> steps == 0
      decreases b
    {
      assert BitAnd(b, 1) != 0 <==> b % 2 == 1 by { LowBit(b); }
      assert steps < 32 && b / 2 < Pow2(32 - steps - 1) by { HalveBelow(b, 32 - steps); }
      MulStep(a0, b0, result, a, b);
      if BitAnd(b, 1) != 0 {             // if (b & 1)
        result := (result + a) % TWO32;  // result += a
      }
      a := (2 * a) % TWO32;              // a <<= 1
      b := b / 2;                        // b >>= 1
      steps := steps + 1;
    }
  }

  /** One iteration of `__umulsi3` keeps `result + a * b` modulo 2^32. */
  lemma MulStep(a0: nat, b0: nat, result: Word, a: Word, b: Word)
    requires (result + a * b) % TWO32 == (a0 * b0) % TWO32
    ensures var result' := if b % 2 == 1 then (result + a) % TWO32 else result;
            (result' + ((2 * a) % TWO32) * (b / 2)) % TWO32 == (a0 * b0) % TWO32
  {
    var r0 := result + (b % 2) * a;
    assert result + a * b == r0 + (2 * a) * (b / 2);
    ModLinear(r0, 2 * a, b / 2, TWO32);
    DivModUnique(r0 % TWO32, TWO32, 0, r0 % TWO32);
    if b % 2 == 0 {
      DivModUnique(result, TWO32, 0, result);
    }
  }

  /** A logical right shift of a non-zero value below 2^n, n > 0, is below
      2^(n-1): each shift brings the multiplier one bit closer to 0. */
  lemma HalveBelow(b: nat, n: nat)
    requires b != 0 && b < Pow2(n)
    ensures n >= 1 && b / 2 < Pow2(n - 1)
  {
  }

  /** `__mulsi3`: strip the signs, multiply the magnitudes as `unsigned`,
      negate the product when exactly one operand was negative. The sign
      flag, an `unsigned` toggled by `^= 1` in the source, is a boolean here;
      `a = -a` on INT_MIN is fixed as two's-complement wrap-around. */
  function MulSi3(a: Int32, b: Int32): Int32 {
    var sign := a < 0;
    var a' := if a < 0 then Neg32(a) else a;
    var sign := if b < 0 then !sign else sign;
    var b' := if b < 0 then Neg32(b) else b;
    var result := WordProduct(ToWord(a'), ToWord(b'));
    ToInt(if sign then NegWord(result) else result)
  }

  /** `__mulsi3` gives the signed product wrapped to 32 bits, for every pair
      of operands, INT_MIN included. */
  lemma MulSi3IsWrappedProduct(a: Int32, b: Int32)
    ensures MulSi3(a, b) == ToInt(ToWord(a * b))
  {
    MagnitudeWord(a);
    MagnitudeWord(b);
    SignedProductWord(a, b);
  }

  /** Negating the product of the magnitudes when exactly one factor is
      negative gives the signed product, modulo 2^32. */
  lemma SignedProductWord(a: int, b: int)
    ensures var p := (Abs(a) * Abs(b)) % TWO32;
            (if (a < 0) != (b < 0) then (-p) % TWO32 else p) == (a * b) % TWO32
  {
    var m := Abs(a) * Abs(b);
    if (a < 0) != (b < 0) {
      assert a * b == -m;
      ModNeg(m, TWO32);
    } else {
      assert a * b == m;
    }
  }

  /** Signed and unsigned multiplication agree on bit patterns: `__mulsi3`
      on two `int`s gives the bits `__umulsi3` gives on their `unsigned`
      readings. */
  lemma MulSi3MatchesUnsigned(a: Int32, b: Int32)
    ensures ToWord(MulSi3(a, b)) == WordProduct(ToWord(a), ToWord(b))
  {
    MulSi3IsWrappedProduct(a, b);
    WordIntRoundTrip(ToWord(a * b));
    ModMul(a, b, TWO32);
  }

  /** Worked cases, among them the wrap-around of products that do not fit. */
  lemma MultiplyExamples()
    ensures WordProduct(7, 6) == 42
    ensures WordProduct(0x1_0000, 0x1_0000) == 0
    ensures MulSi3(-7, 6) == -42 && MulSi3(-7, -6) == 42 && MulSi3(7, -6) == -42
    ensures MulSi3(INT_MIN, -1) == INT_MIN
    ensures MulSi3(0x1_0000, 0x8000) == INT_MIN
  {
    MulSi3IsWrappedProduct(-7, 6);
    MulSi3IsWrappedProduct(-7, -6);
    MulSi3IsWrappedProduct(7, -6);
    MulSi3IsWrappedProduct(INT_MIN, -1);
    MulSi3IsWrappedProduct(0x1_0000, 0x8000);
  }

  /** A caller of the kernel sees exactly the wrapped product. */
  method UMulSi3Client() {
    var r, steps := UMulSi3(7, 6);
    assert r == 42;
    r, steps := UMulSi3(0xffff_ffff, 0xffff_ffff);
    assert r == 1;
    r, steps := UMulSi3(123, 0);
    assert r == 0 && steps == 0;
  }
}
