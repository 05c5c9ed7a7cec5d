# Software multiply, divide and modulo for a core without M-extension

This project models `src/coremark/mylib.c`. That file holds software versions of the routines a C compiler calls for 32-bit `*`, `/` and `%` when the core has no hardware multiplier or divider:

- `__umulsi3`: an unsigned shift-and-add kernel.
- `__mulsi3`: a signed adapter over `__umulsi3`.
- `__udivmod`: an unsigned restoring-division kernel. It first aligns the divisor, then runs a long-division loop. A mode argument picks the quotient or the remainder.
- `__divmod`: a signed adapter over `__udivmod`.
- `__udivsi3`, `__umodsi3`, `__divsi3`, `__modsi3`: four fixed-mode entry points.

The two kernels, which work by loops, are Dafny methods with loop invariants. Each is proved against a specification function:

- `WordProduct(a, b)` is `a * b` mod 2^32.
- `UnsignedDivMod(a, b, mode)` is 0 for a zero divisor, otherwise `a / b` or `a % b`.

The adapters and the entry points are straight-line code. They are pure functions over those specifications: `MulSi3`, `DivMod`, `UDivSi3`, `UModSi3`, `DivSi3`, `ModSi3`. Lemmas prove what they compute.

Files:

- `words.dfy` (module `Words`): `unsigned` words (`Word`, 0 to 2^32 - 1) and `int`s (`Int32`). Also C's conversions between them (`ToWord` reduces mod 2^32, `ToInt` reads two's complement), the wrapping negations, and facts about Euclidean division.
- `bits.dfy` (module `Bits`): `&` and `|`, defined bit by bit on naturals. Also a power-of-two function and the facts the routines need about single-bit masks.
- `multiply.dfy` (module `Multiply`): `__umulsi3` and `__mulsi3`.
- `divide.dfy` (module `Divide`): `__udivmod`, `__divmod` and the four entry points.

Modelling choices the source leaves open:

- **Negating INT_MIN.** `a = -a` on INT_MIN (lines 21, 26, 67, 72) is undefined in C. The model fixes it as two's-complement wrap-around (`Neg32`), so INT_MIN stays INT_MIN. Read as `unsigned`, that is 2^31, the correct magnitude, so the sign stripping hands the kernels the right value. Every signed result is then exact except INT_MIN / -1 (below).
- **The shift `1 << 31`.** At lines 40 and 60 it is also undefined in C. The model fixes it as the mask 0x8000_0000.
- **INT_MIN / -1.** The quotient's magnitude 2^31 is handed back through the `unsigned`-to-`int` conversion. The model fixes that conversion as two's complement, so INT_MIN / -1 gives INT_MIN and INT_MIN % -1 gives 0.
- **Shifts.** On `unsigned` values both shifts are logical. `x << 1` is `2 * x` mod 2^32. `x >> 1` is `x / 2`.
- **The sign flag.** The source keeps an `unsigned` toggled by `^= 1`. The model uses a boolean.

Two details of the loops are modelled exactly as the code writes them:

- The alignment loop stops as soon as the shifted divisor is no longer below the dividend (`b < a`). It does not stop only when the divisor would exceed the dividend.
- The restoring loop also stops early once the dividend reaches 0 (`while (a && msb)`).

## Model

| member | source | states |
|---|---|---|
| `Multiply.UMulSi3` | src/coremark/mylib.c:1-13 | The returned word is `a0 * b0` mod 2^32. The loop runs at most 32 times, and runs zero times exactly when `b0 == 0`. |
| `Multiply.MulStep` | src/coremark/mylib.c:5-10 | One iteration (conditional add, wrapping left shift of `a`, right shift of `b`) keeps `result + a * b` congruent to `a0 * b0` mod 2^32. |
| `Multiply.HalveBelow` | src/coremark/mylib.c:9 | The right shift of a non-zero multiplier below 2^n leaves it below 2^(n-1). This bounds the loop at 32 iterations. |
| `Multiply.MulSi3IsWrappedProduct` | src/coremark/mylib.c:15-32 | For every pair of `int`s, INT_MIN included, `__mulsi3` returns the signed product wrapped to 32 bits. |
| `Multiply.SignedProductWord` | src/coremark/mylib.c:17-31 | Negating the product of magnitudes exactly when one operand is negative gives the signed product mod 2^32. |
| `Multiply.MulSi3MatchesUnsigned` | src/coremark/mylib.c:15-32 | `__mulsi3` on two `int`s has the same bits as `__umulsi3` on their `unsigned` readings. |
| `Multiply.MultiplyExamples` | src/coremark/mylib.c:1-32 | Worked products: 7*6, -7*6, -7*-6, 7*-6. Also wrap-around cases: 2^16*2^16 gives 0, INT_MIN*-1 gives INT_MIN, 2^16*2^15 gives INT_MIN. |
| `Divide.AlignDivisor` | src/coremark/mylib.c:39-43 | After the alignment loop: `msb` is 2^k with k <= 31; the shifted divisor is `b0 * msb` with nothing shifted out; and the dividend is below twice the shifted divisor. |
| `Divide.RestoringDivide` | src/coremark/mylib.c:45-53 | The restoring loop returns a quotient and remainder with `a0 == q * b0 + r` and `r < b0`. |
| `Divide.SubtractStep` | src/coremark/mylib.c:47-50 | A subtracting iteration keeps the division identity and halves the bound on the dividend. The OR-assignment of `msb` into `result` adds `msb` without colliding with a bit already set. |
| `Divide.SkipStep` | src/coremark/mylib.c:47 | A non-subtracting iteration keeps the halved bound on the dividend and the clear low bits of the quotient. |
| `Divide.ShiftStep` | src/coremark/mylib.c:51-52 | The right shifts halve mask and divisor exactly, down to the divisor itself. The last shift clears the mask. |
| `Divide.UDivMod` | src/coremark/mylib.c:34-56 | `__udivmod` returns 0 for a zero divisor in either mode. Otherwise it returns `a / b` when the mode is non-zero and `a % b` when it is zero. |
| `Divide.DivideByZero` | src/coremark/mylib.c:36-37 | A zero divisor gives 0 in every routine and every mode: the kernel, `__divmod` (lines 62-63) and the four entry points. |
| `Divide.UnsignedDivModIdentity` | src/coremark/mylib.c:83-91 | `__udivsi3`/`__umodsi3` divide the `unsigned` readings of their `int` operands. Their results, read back as `unsigned`, are exactly `ToWord(a) / ToWord(b)` and `ToWord(a) % ToWord(b)`. So they satisfy the division identity, and the remainder is below the divisor. |
| `Divide.AdapterOnMagnitudes` | src/coremark/mylib.c:58-81 | For a non-zero divisor, `__divmod` divides the magnitudes Abs(a) and Abs(b) as `unsigned`. It then negates the quotient when the operand signs differ, and the remainder when the dividend's bit 31 (`asign`) is set. |
| `Divide.QuotientOnMagnitudes` | src/coremark/mylib.c:65-78 | `__divsi3` returns Abs(a) / Abs(b), negated when the signs differ. This is exact except for INT_MIN / -1, and there it still has the right bits mod 2^32. |
| `Divide.RemainderOnMagnitudes` | src/coremark/mylib.c:58-81 | `__modsi3` returns Abs(a) mod Abs(b) with the dividend's sign, for every non-zero divisor, INT_MIN / -1 included. |
| `Divide.SignedDivModIdentity` | src/coremark/mylib.c:93-101 | When the quotient fits: `q * b + r == a`, Abs(r) < Abs(b), and a non-zero `r` has the dividend's sign. These are C's `/` and `%` (section 6.5.5 of ISO/IEC 9899:1999). |
| `Divide.SignedDivModWrapped` | src/coremark/mylib.c:93-101 | For every non-zero divisor, INT_MIN / -1 included, `q * b + r` wrapped to 32 bits equals `a`. |
| `Divide.SignedDivisionTruncates` | src/coremark/mylib.c:75-80 | The quotient truncates toward zero. Its magnitude is Abs(a) / Abs(b), and when non-zero it is negative exactly when the signs differ. The remainder's magnitude is Abs(a) mod Abs(b). |
| `Divide.TruncatedDivisionUnique` | src/coremark/mylib.c:93-101 | Any quotient and remainder meeting the three conditions of C's truncating division are the ones `__divsi3` and `__modsi3` return. This is the reference definition of the pair. |
| `Divide.TruncatedPairsAgree` | src/coremark/mylib.c:93-101 | On all integers, at most one quotient/remainder pair meets the conditions of truncating division. |
| `Divide.SignsRestoreIdentity` | src/coremark/mylib.c:77-80 | Putting the quotient's sign (signs differ) and the remainder's sign (dividend negative) back on a division of magnitudes restores `q * b + r == a`. |
| `Divide.ApplySign` | src/coremark/mylib.c:78-80 | `sign ? -result : result` converted to `int` gives the magnitude with the chosen sign whenever the value is representable. |
| `Divide.QuotientRange` | src/coremark/mylib.c:75 | A quotient of `int` magnitudes is at most 2^31. It reaches 2^31 only for 2^31 / 1, the INT_MIN / -1 case. |
| `Divide.QuotientOverflow` | src/coremark/mylib.c:65-78 | INT_MIN / -1 returns INT_MIN: the magnitude 2^31 wraps in the return conversion. INT_MIN % -1 returns 0. |
| `Divide.SignedDivideExamples` | src/coremark/mylib.c:93-101 | Worked cases: -17/5 is -3 rem -2, 17/-5 is -3 rem 2, and -17/-5 is 3 rem -2. |
| `Divide.UnsignedDivideExamples` | src/coremark/mylib.c:83-91 | Worked cases: 17/5 is 3 rem 2. The `int` -1 is read as 0xffff_ffff, so -1/2 gives 0x7fff_ffff rem 1. |
| `Bits.LowBit` | src/coremark/mylib.c:6 | The test `b & 1` reads the lowest bit of `b`. |
| `Bits.SingleBitMask` | src/coremark/mylib.c:40 | `x & 2^k` keeps bit k of x and clears all other bits. |
| `Bits.SignBit` | src/coremark/mylib.c:40 | `w & (1 << 31)` is non-zero exactly when the top bit is set. That is exactly when `w` read as an `int` is negative, which is how `asign` at line 60 is used. |
| `Bits.OrFreshBit` | src/coremark/mylib.c:49 | The OR-assignment of `msb` into `result` adds `msb` when every bit of `result` at or below it is clear. |
| `Divide.AlignStep` | src/coremark/mylib.c:40-42 | While bit 31 of the shifted divisor is clear, doubling `msb` and `b` loses no bit, and the exponent stays below 31. |
| `Words.IntWordRoundTrip` | src/coremark/mylib.c:83-91 | Passing an `int` where `unsigned` is expected gives x, or x + 2^32 when x is negative. Converting back gives x again. |
| `Words.WordIntRoundTrip` | src/coremark/mylib.c:85 | Returning an `unsigned` as an `int` keeps its bit pattern. The result is negative exactly when bit 31 is set. |
| `Words.MagnitudeWord` | src/coremark/mylib.c:19-27 | The sign stripping `if (x < 0) x = -x;` leaves a value whose `unsigned` reading is Abs(x), also for INT_MIN. |

## Left out

- The whole of `mylib.c` sits inside one `/* ... */` comment, so a build compiles none of it. The model treats the commented code as the routines. Whether the compiler links these or its own runtime library in their place is not modelled.
- C's undefined behaviour is fixed, not modelled as open. Negating INT_MIN wraps (`Neg32`), `1 << 31` is 0x8000_0000, and converting an out-of-range `unsigned` to `int` is two's complement. Another compiler choice could differ.
- Division by zero returns 0 in every mode, as the code does. A target whose divide instruction gives all ones for the quotient and the dividend for the remainder is not modelled, because the code does not do that.
- SignedDivModIdentity, SignedDivisionTruncates and TruncatedDivisionUnique: they exclude INT_MIN / -1, whose quotient 2^31 does not fit in an `int`. QuotientOverflow states what is returned there instead.
- Multiply.MulSi3, Divide.DivMod, Divide.UDivSi3, Divide.UModSi3, Divide.DivSi3 and Divide.ModSi3: they are functions over the specification functions WordProduct and UnsignedDivMod. They do not call the methods UMulSi3 and UDivMod. In the source they are straight-line code; the methods' `ensures` clauses connect the two.
- The `unsigned` negation `-result` (lines 31, 78, 80) is defined in C as reduction mod 2^32; `NegWord` models exactly that.
- Divide.UDivMod: the loops of `__udivmod` are split into the two methods AlignDivisor and RestoringDivide. Each carries its own invariants; the composition is the same.
- The sign flag, an `unsigned` toggled by `^= 1`, is a boolean.
- The iteration counter of UMulSi3 and the exponents of the division loops are ghost. They exist only to state the loop bounds.
- Timing, code size and the calling convention of the routines are not modelled.
