# jnanoid `MathUtils`: the integer base-2 logarithm, in Dafny

This project models `MathUtils`, the small utility class of jnanoid-enhanced
(adapted from Guava). It computes the base-2 logarithm of a positive Java
`int` under any `java.math.RoundingMode`, and it uses no floating point:

- FLOOR and DOWN take 31 minus the number of leading zeros of `x`.
- CEILING and UP take 32 minus the number of leading zeros of `x - 1`.
- UNNECESSARY first checks that `x` is a power of two, then continues as FLOOR.
- HALF_UP, HALF_DOWN and HALF_EVEN add 0 or 1 to FLOOR. They compare `x`
  with `MAX_POWER_OF_SQRT2_UNSIGNED >>> numberOfLeadingZeros(x)`, using the
  branch-free sign-bit comparison `lessThanBranchFree`.

Non-positive input raises `IllegalArgumentException` through `checkPositive`.
UNNECESSARY on a non-power-of-two raises `ArithmeticException` through
`checkRoundingUnnecessary`.

The project has three modules:

- `JavaInt` (`java_int.dfy`) models Java's 32-bit `int` as a subset of the
  mathematical integers. Every operator that can wrap in Java wraps here
  explicitly: `x - y`, `~x`, `x << n`, `x >>> n` (the shift distance is taken
  modulo 32, as in Java) and `x & y`. It also gives
  `Integer.numberOfLeadingZeros` its JDK meaning, including 32 for zero.
  Where the source does arithmetic that cannot overflow (`31 - lz`,
  `logFloor + 0/1`), the model uses plain integers. Dafny's `Int32` range
  check is then the proof that no overflow happens.
- `MathUtils` (`math_utils.dfy`) holds the source's functions, with the same
  branches, the same constant and the same error cases. Exceptions become the
  `Err` case of `Result`. `IllegalArgument` records the role (`"x"`) and the
  rejected value.
- `MathUtilsProperties` (`math_utils_properties.dfy`) gives a reference
  definition of each rounding without reals or bit tricks, in `RoundsTo`:
  - FLOOR: `2^v <= x < 2^(v+1)`.
  - CEILING: `2^(v-1) < x <= 2^v`.
  - UNNECESSARY: `2^v == x`.
  - HALF: `2^(2v-1) < x^2 < 2^(2v+1)`, so `v` is within one half of log2(x).

  It proves that each rounding has at most one value, and exactly one for
  every mode except UNNECESSARY on a non-power-of-two; `Log2` returns that
  value whenever it exists. It also proves the bit-level facts the code
  relies on: for positive `x`, `x & (x - 1)` is zero exactly when `x` is a
  power of two (for 0 and `Integer.MIN_VALUE` it is zero too, which is why
  `isPowerOfTwo` also tests `x > 0`), and `0xB504F333` is floor(sqrt(2^63)), so
  shifting it right by `lz` gives floor(2^(k + 1/2)) for k = 31 - lz.

The Javadoc of `lessThanBranchFree` says it compares "as unsigned integers".
The code compares the sign of `x - y`, which is the signed comparison. The
two agree for non-negative arguments, and `log2` only ever passes those.
`LessThanBranchFreeUnsigned` proves the agreement and
`LessThanBranchFreeIsSigned` shows an argument pair where the two differ.
The double negation `~~`, which exists for GWT, is modelled as the two bit
flips it is, and they cancel.

## Model

| member | source | states |
|---|---|---|
| `MathUtils.Log2` | src/main/java/com/soundicly/jnanoidenhanced/jnanoid/MathUtils.java:40-67 | `x <= 0` yields `IllegalArgument("x", x)` whatever the mode; the only other error is UNNECESSARY's `ArithmeticException` with the source's message; every result lies in [0, 31] |
| `MathUtils.LessThanBranchFree` | src/main/java/com/soundicly/jnanoidenhanced/jnanoid/MathUtils.java:85-94 | the result is 0 or 1, and 1 exactly when the 32-bit difference `x - y` is negative |
| `JavaInt.NumberOfLeadingZeros` | src/main/java/com/soundicly/jnanoidenhanced/jnanoid/MathUtils.java:58 | `numberOfLeadingZeros(x)` is in [0, 32]; it is 32 exactly for 0 and 0 exactly for negative `x`; otherwise the bit pattern of `x` lies in [2^(31-r), 2^(32-r)) |
| `JavaInt.Ushr` | src/main/java/com/soundicly/jnanoidenhanced/jnanoid/MathUtils.java:59 | `x >>> n` with a shift distance of 0 (mod 32) is `x`; with any other distance it is non-negative and equals the unsigned bit pattern of `x` divided by 2^(n mod 32) |
| `JavaInt.Not` | src/main/java/com/soundicly/jnanoidenhanced/jnanoid/MathUtils.java:93 | `~x` flips every bit: its unsigned pattern is 2^32 - 1 minus that of `x` |
| `JavaInt.SignBit` | src/main/java/com/soundicly/jnanoidenhanced/jnanoid/MathUtils.java:93 | `x >>> 31` is 1 for negative `x` and 0 otherwise |
| `MathUtilsProperties.RoundsToUnique` | src/main/java/com/soundicly/jnanoidenhanced/jnanoid/MathUtils.java:32-38 | for `x >= 1`, each rounding mode admits at most one value of log2(x) |
| `MathUtilsProperties.IsPowerOfTwoCorrect` | src/main/java/com/soundicly/jnanoidenhanced/jnanoid/MathUtils.java:75-83 | `isPowerOfTwo(x)` holds iff `x > 0` and `x == 2^k` for some k; it is false for 0 and for every negative value, `Integer.MIN_VALUE` included |
| `MathUtilsProperties.AndBitsSingleBit` | src/main/java/com/soundicly/jnanoidenhanced/jnanoid/MathUtils.java:82 | for `u >= 1`, `u & (u - 1)` is zero iff `u` equals the power of two of its top bit |
| `MathUtilsProperties.LessThanBranchFreeCompares` | src/main/java/com/soundicly/jnanoidenhanced/jnanoid/MathUtils.java:85-94 | when `a - b` does not overflow, `lessThanBranchFree(a, b)` is 1 iff `a < b`, else 0 |
| `MathUtilsProperties.LessThanBranchFreeUnsigned` | src/main/java/com/soundicly/jnanoidenhanced/jnanoid/MathUtils.java:86-87 | for non-negative arguments the result is 1 iff `a < b` as unsigned numbers |
| `MathUtilsProperties.LessThanBranchFreeIsSigned` | src/main/java/com/soundicly/jnanoidenhanced/jnanoid/MathUtils.java:86-87 | `lessThanBranchFree(-1, 0)` is 1 although -1 is the larger unsigned value |
| `MathUtilsProperties.Log2FloorCorrect` | src/main/java/com/soundicly/jnanoidenhanced/jnanoid/MathUtils.java:46-48 | for `x > 0`, DOWN equals FLOOR and returns the k in [0, 30] with 2^k <= x < 2^(k+1) |
| `MathUtilsProperties.Log2CeilingCorrect` | src/main/java/com/soundicly/jnanoidenhanced/jnanoid/MathUtils.java:50-52 | for `x > 0`, UP equals CEILING and returns the least k with x <= 2^k (0 for x = 1) |
| `MathUtilsProperties.CeilingVersusFloor` | src/main/java/com/soundicly/jnanoidenhanced/jnanoid/MathUtils.java:46-52 | CEILING equals FLOOR when `x` is a power of two and FLOOR + 1 otherwise |
| `MathUtilsProperties.Log2UnnecessaryCorrect` | src/main/java/com/soundicly/jnanoidenhanced/jnanoid/MathUtils.java:43-48 | for a power of two, UNNECESSARY returns the exponent (the FLOOR value); for any other positive `x` it fails with `ArithmeticException` |
| `MathUtilsProperties.Log2ExactRoundTrip` | src/test/java/com/soundicly/jnanoidenhanced/MathUtilsTest.java:47-49 | `log2(1 << i, UNNECESSARY) == i` for every i in [0, 31) |
| `MathUtilsProperties.Log2RejectsInexact` | src/test/java/com/soundicly/jnanoidenhanced/MathUtilsTest.java:57-60 | `log2(1821, UNNECESSARY)` fails with `ArithmeticException` |
| `MathUtilsProperties.MaxPowerOfSqrt2UnsignedIsFloorSqrt` | src/main/java/com/soundicly/jnanoidenhanced/jnanoid/MathUtils.java:23-26 | the constant's unsigned bit pattern is `0xB504F333`, the integer square root of 2^63 (s^2 < 2^63 < (s+1)^2) |
| `MathUtilsProperties.ShiftedSqrt` | src/main/java/com/soundicly/jnanoidenhanced/jnanoid/MathUtils.java:59-60 | shifting that constant right by j in [1, 31] places gives c with c^2 < 2^(63-2j) < (c+1)^2, so c is floor(2^(k+1/2)) for k = 31 - j |
| `MathUtilsProperties.HalfThreshold` | src/main/java/com/soundicly/jnanoidenhanced/jnanoid/MathUtils.java:58-60 | for `x > 0`, `x > cmp` iff x^2 > 2^(63-2 lz), and `x <= cmp` gives x^2 < 2^(63-2 lz) |
| `MathUtilsProperties.Log2HalfCorrect` | src/main/java/com/soundicly/jnanoidenhanced/jnanoid/MathUtils.java:54-62 | the three HALF modes agree; each returns FLOOR + 1 iff `x > (0xB504F333 >>> nlz(x))`, iff x^2 > 2^(2 FLOOR + 1), else FLOOR; the result is within one half of log2(x), so the tie rule never matters |
| `MathUtilsProperties.Log2Correct` | src/main/java/com/soundicly/jnanoidenhanced/jnanoid/MathUtils.java:32-38 | `log2` fails for `x <= 0` with `IllegalArgumentException` whatever the mode; for `x > 0` it succeeds unless UNNECESSARY is asked of a non-power-of-two; every result is log2(x) rounded by the mode |

## Left out

- The NanoID generator (`NanoIdUtils`): its source is not part of this model. Only its tests are available, and they call it from outside.
- Randomness, the seeded `java.util.Random` test vectors, and the uniqueness and distribution tests. These depend on external random-number algorithms, statistics and floating point.
- The private constructor that throws `IllegalStateException` (MathUtils.java:28-30) and the reflection tests about it. They concern Java class structure, not behaviour.
- The test oracle `slowLog2`, which uses `Math.log` and `BigDecimal`. Its integer meaning is stated instead, by `RoundsTo`.
- The `default: throw new AssertionError()` branch. The match over the eight-constructor `RoundingMode` is total, so that branch cannot be reached.
- A `null` rounding mode, which makes Java's `switch` throw `NullPointerException`. A Dafny datatype value cannot be null.
- The text of the `IllegalArgumentException` message (`role + " (" + x + ") must be > 0"`). The error keeps the role and the value instead of the formatted string.
