/** 32-bit machine words as seen by C on a 32-bit target: `unsigned` values,
    two's-complement `int` values, and the conversions and negations between
    them that the runtime routines rely on. */
module Words {

  /** 2^32, the modulus of `unsigned` arithmetic. */
  const TWO32: int := 0x1_0000_0000
  /** 2^31, the bit pattern `1 << 31` (the sign bit). */
  const TWO31: int := 0x8000_0000
  const INT_MIN: int := -0x8000_0000

  /** An `unsigned` value. */
  type Word = w: int | 0 <= w < 0x1_0000_0000
  /** An `int` value. */
  type Int32 = x: int | -0x8000_0000 <= x < 0x8000_0000

  /** Conversion of any integer to `unsigned`: reduction modulo 2^32.
      Dafny's `%` is Euclidean, so the result is never negative. */
  function ToWord(x: int): Word {
    x % TWO32
  }

  /** Conversion of `unsigned` to `int`: the two's-complement reading of the
      bit pattern. */
  function ToInt(w: Word): Int32 {
    if w < TWO31 then w else w - TWO32
  }

  /** `-x` on an `int`, wrapping: the negation of INT_MIN is INT_MIN. */
  function Neg32(x: Int32): Int32 {
    var negated := -(x as int);
    ToInt(ToWord(negated))
  }

  /** `-w` on an `unsigned`: 2^32 - w, and 0 for 0. */
  function NegWord(w: Word): Word {
    var negated := -(w as int);
    ToWord(negated)
  }

  function Abs(x: int): nat {
    if x < 0 then -x else x
  }

  /** Converting an `int` to `unsigned` and back gives the `int` again. */
  lemma IntWordRoundTrip(x: Int32)
    ensures ToWord(x) == (if x < 0 then x + TWO32 else x)
    ensures ToInt(ToWord(x)) == x
  {
    if x < 0 {
      DivModUnique(x, TWO32, -1, x + TWO32);
    } else {
      DivModUnique(x, TWO32, 0, x);
    }
  }

  /** Converting an `unsigned` to `int` and back gives the bit pattern again. */
  lemma WordIntRoundTrip(w: Word)
    ensures ToInt(w) < 0 <==> w >= TWO31
    ensures ToWord(ToInt(w)) == w
  {
    if w < TWO31 {
      DivModUnique(w, TWO32, 0, w);
    } else {
      DivModUnique(w - TWO32, TWO32, -1, w);
    }
  }

  /** The bit pattern of a negative-side magnitude: for 0 < m <= 2^32 the
      word of -m is 2^32 - m. */
  lemma NegativeWord(m: int)
    requires 0 < m <= TWO32
    ensures ToWord(-m) == TWO32 - m
  {
    DivModUnique(-m, TWO32, -1, TWO32 - m);
  }

  /** The magnitude that sign stripping (`if (x < 0) x = -x;`) leaves, read as
      `unsigned`, is |x|, also for INT_MIN, whose wrapped negation INT_MIN
      reads as 2^31. */
  lemma MagnitudeWord(x: Int32)
    ensures ToWord(if x < 0 then Neg32(x) else x) == Abs(x)
  {
    if x < 0 {
      var m := -(x as int);
      DivModUnique(m, TWO32, 0, m);
      WordIntRoundTrip(ToWord(m));
    } else {
      DivModUnique(x, TWO32, 0, x);
    }
  }

  // ---------------------------------------------------------------------
  // Facts of Euclidean division used by the proofs of the routines.

  lemma MulAtLeast(k: int, d: int)
    requires d > 0 && k >= 1
    ensures k * d >= d
  {
  }

  /** The division identity and the bounds of Euclidean division, stated of
      plain naturals so that callers over bounded types can use them. */
  lemma DivisionFacts(m: nat, n: nat)
    requires n > 0
    ensures m / n >= 0 && 0 <= m % n < n && m == (m / n) * n + m % n
  {
  }

  /** Quotient and remainder are determined by the division identity. */
  lemma DivModUnique(x: int, d: int, q: int, r: int)
    requires d > 0 && 0 <= r < d && x == q * d + r
    ensures x / d == q && x % d == r
  {
    var q0, r0 := x / d, x % d;
    assert x == q0 * d + r0;
    assert (q - q0) * d == r0 - r;
    if q > q0 {
      MulAtLeast(q - q0, d);
    } else if q < q0 {
      MulAtLeast(q0 - q, d);
    }
  }

  /** Adding a multiple of the modulus does not change a residue. */
  lemma ModAddMultiple(n: int, t: int, d: int)
    requires d > 0
    ensures (n + d * t) % d == n % d
  {
    assert n + d * t == (n / d + t) * d + n % d;
    DivModUnique(n + d * t, d, n / d + t, n % d);
  }

  /** Residues may replace the operands of a sum of a product. */
  lemma ModLinear(x: int, y: int, z: int, d: int)
    requires d > 0
    ensures (x % d + (y % d) * z) % d == (x + y * z) % d
  {
    var qx, qy := x / d, y / d;
    assert x % d + (y % d) * z + d * (qx + qy * z) == x + y * z;
    ModAddMultiple(x % d + (y % d) * z, qx + qy * z, d);
  }

  /** Residues may replace the operands of a product. */
  lemma ModMul(x: int, y: int, d: int)
    requires d > 0
    ensures ((x % d) * (y % d)) % d == (x * y) % d
  {
    var qx, qy := x / d, y / d;
    var rx, ry := x % d, y % d;
    var t := qx * d * qy + qx * ry + rx * qy;
    calc {
      x * y;
      (d * qx + rx) * (d * qy + ry);
      rx * ry + d * t;
    }
    ModAddMultiple(rx * ry, t, d);
  }

  /** A residue may replace the operand of a negation. */
  lemma ModNeg(x: int, d: int)
    requires d > 0
    ensures (-(x % d)) % d == (-x) % d
  {
    assert -(x % d) == -x + d * (x / d);
    ModAddMultiple(-x, x / d, d);
  }
}
