/** What `MathUtils.log2` and its helpers promise, stated independently of
    the bit tricks they use and proved about the model. */
module MathUtilsProperties {
  import opened JavaInt
  import opened MathUtils

  /** `n` is 2^k for some natural k */
  ghost predicate IsPowerOf2(n: int)
  {
    exists k: nat :: Pow2(k) == n
  }

  /** `v` is log2(x) rounded by `mode`, for x >= 1. Since log2(x) >= 0,
      rounding down and towards negative infinity agree, and so do rounding
      up and towards positive infinity. For the HALF policies, v is within
      one half of log2(x): 2^(2v-1) < x^2 < 2^(2v+1). */
  ghost predicate RoundsTo(mode: RoundingMode, x: int, v: int)
  {
    && 0 <= v
    && match mode
       case Floor | Down => Pow2(v) <= x < Pow2(v + 1)
       case Ceiling | Up => x <= Pow2(v) && (v == 0 || Pow2(v - 1) < x)
       case HalfUp | HalfDown | HalfEven => WithinHalf(x, v)
       case Unnecessary => Pow2(v) == x
  }

  /** log2(x) lies strictly within one half of v: 2^(2v-1) < x^2 < 2^(2v+1) */
  ghost predicate WithinHalf(x: int, v: nat)
  {
    x * x < Pow2(2 * v + 1) && (v == 0 || Pow2(2 * v - 1) < x * x)
  }

  /** The only value each rounding of log2(x) can take, in terms of bit lengths */
  lemma RoundsToValue(mode: RoundingMode, x: int, v: int)
    requires x >= 1 && RoundsTo(mode, x, v)
    ensures mode.Floor? || mode.Down? || mode.Unnecessary? ==> v == BitLength(x) - 1
    ensures mode.Ceiling? || mode.Up? ==> v == BitLength(x - 1)
    ensures mode.HalfUp? || mode.HalfDown? || mode.HalfEven? ==> v == BitLength(x * x) / 2
  {
    match mode
    case Floor | Down | Unnecessary => FloorValue(x, v);
    case Ceiling | Up => CeilingValue(x, v);
    case HalfUp | HalfDown | HalfEven => HalfValue(x * x, v);
  }

  lemma FloorValue(x: nat, v: nat)
    requires Pow2(v) <= x < Pow2(v + 1)
    ensures v == BitLength(x) - 1
  {
    BitLengthAtMost(x, v + 1);
    BitLengthAtMost(x, v);
  }

  lemma CeilingValue(x: nat, v: nat)
    requires x >= 1 && x <= Pow2(v) && (v == 0 || Pow2(v - 1) < x)
    ensures v == BitLength(x - 1)
  {
    BitLengthAtMost(x - 1, v);
    if v > 0 {
      BitLengthAtMost(x - 1, v - 1);
    }
  }

  lemma HalfValue(n: nat, v: nat)
    requires n < Pow2(2 * v + 1) && (v == 0 || Pow2(2 * v - 1) < n)
    ensures v == BitLength(n) / 2
  {
    BitLengthAtMost(n, 2 * v + 1);
    if v > 0 {
      BitLengthAtMost(n, 2 * v - 1);
    }
  }

  /** Each rounding of log2(x) has at most one value */
  lemma RoundsToUnique(mode: RoundingMode, x: int, v: int, w: int)
    requires x >= 1 && RoundsTo(mode, x, v) && RoundsTo(mode, x, w)
    ensures v == w
  {
    RoundsToValue(mode, x, v);
    RoundsToValue(mode, x, w);
  }

  // ---------------------------------------------------------------------
  // isPowerOfTwo

  /** AND-ing a number with itself changes nothing */
  lemma {:induction false} AndBitsSelf(v: nat)
    ensures AndBits(v, v) == v
  {
    if v > 0 {
      AndBitsSelf(v / 2);
    }
  }

  /** For positive `u`, `u & (u - 1)` is zero exactly when `u` is the power
      of two of its top bit */
  lemma {:induction false} AndBitsSingleBit(u: nat)
    requires u >= 1
    ensures AndBits(u, u - 1) == 0 <==> Pow2(BitLength(u) - 1) == u
  {
    if u == 1 {
      assert BitLength(1) == 1;
    } else if u % 2 == 0 {
      assert (u - 1) / 2 == u / 2 - 1;
      AndBitsSingleBit(u / 2);
    } else {
      assert (u - 1) / 2 == u / 2;
      AndBitsSelf(u / 2);
      assert AndBits(u, u - 1) == 2 * (u / 2);
      assert Pow2(BitLength(u) - 1) == 2 * Pow2(BitLength(u) - 2);
    }
  }

  /** The powers of two are the numbers whose top bit is their only bit */
  lemma PowerOf2ByBitLength(u: nat)
    requires u >= 1
    ensures IsPowerOf2(u) <==> Pow2(BitLength(u) - 1) == u
  {
    if IsPowerOf2(u) {
      var k: nat :| Pow2(k) == u;
      BitLengthAtMost(u, k + 1);
      BitLengthAtMost(u, k);
    }
  }

  /** `isPowerOfTwo(x)` holds exactly for x = 2^k; never for zero or a
      negative `x`, `Integer.MIN_VALUE` included */
  lemma IsPowerOfTwoCorrect(x: Int32)
    ensures IsPowerOfTwo(x) <==> x > 0 && IsPowerOf2(x)
  {
    if x > 0 {
      AndBitsSingleBit(x);
      PowerOf2ByBitLength(x);
      assert Sub(x, 1) == x - 1;
      assert ToSigned(AndBits(x, x - 1)) == 0 <==> AndBits(x, x - 1) == 0;
    }
  }

  // ---------------------------------------------------------------------
  // lessThanBranchFree

  /** When `a - b` does not overflow, `lessThanBranchFree(a, b)` is `a < b` */
  lemma LessThanBranchFreeCompares(a: Int32, b: Int32)
    requires MinValue <= a - b <= MaxValue
    ensures LessThanBranchFree(a, b) == (if a < b then 1 else 0)
  {
  }

  /** For non-negative arguments the comparison is also the unsigned one */
  lemma LessThanBranchFreeUnsigned(a: Int32, b: Int32)
    requires 0 <= a && 0 <= b
    ensures LessThanBranchFree(a, b) == 1 <==> Unsigned(a) < Unsigned(b)
  {
    LessThanBranchFreeCompares(a, b);
  }

  /** Outside non-negative arguments the comparison is the signed one: the
      bit pattern of -1 is the largest unsigned value, yet -1 compares below 0 */
  lemma LessThanBranchFreeIsSigned()
    ensures LessThanBranchFree(-1, 0) == 1 && Unsigned(-1) > Unsigned(0)
  {
    LessThanBranchFreeCompares(-1, 0);
  }

  // ---------------------------------------------------------------------
  // log2, mode by mode

  /** FLOOR and DOWN: the k in [0, 30] with 2^k <= x < 2^(k+1) */
  lemma Log2FloorCorrect(x: Int32)
    requires x > 0
    ensures Log2(x, Down) == Log2(x, Floor)
    ensures Log2(x, Floor).Ok? && Log2(x, Floor).value <= 30
    ensures RoundsTo(Floor, x, Log2(x, Floor).value)
  {
  }

  /** CEILING and UP: the least k with x <= 2^k; for x = 1 this relies on
      `numberOfLeadingZeros(0) == 32` */
  lemma Log2CeilingCorrect(x: Int32)
    requires x > 0
    ensures Log2(x, Up) == Log2(x, Ceiling)
    ensures Log2(x, Ceiling).Ok?
    ensures RoundsTo(Ceiling, x, Log2(x, Ceiling).value)
  {
    assert Sub(x, 1) == x - 1;
  }

  /** CEILING equals FLOOR on a power of two and exceeds it by one elsewhere */
  lemma CeilingVersusFloor(x: Int32)
    requires x > 0
    ensures Log2(x, Ceiling).Ok? && Log2(x, Floor).Ok?
    ensures Log2(x, Ceiling).value ==
      if IsPowerOf2(x) then Log2(x, Floor).value else Log2(x, Floor).value + 1
  {
    Log2FloorCorrect(x);
    Log2CeilingCorrect(x);
    var f := Log2(x, Floor).value;
    var c := Log2(x, Ceiling).value;
    if IsPowerOf2(x) {
      var k: nat :| Pow2(k) == x;
      Pow2Monotone(k, k + 1);
      RoundsToUnique(Floor, x, f, k);
      if k > 0 {
        Pow2Strict(k - 1, k);
      }
      RoundsToUnique(Ceiling, x, c, k);
    } else {
      assert Pow2(f) != x;
      RoundsToUnique(Ceiling, x, c, f + 1);
    }
  }

  /** UNNECESSARY: the exponent of a power of two, the same as FLOOR;
      `ArithmeticException` for any other positive `x` */
  lemma Log2UnnecessaryCorrect(x: Int32)
    requires x > 0
    ensures IsPowerOf2(x) ==> Log2(x, Unnecessary) == Log2(x, Floor)
    ensures IsPowerOf2(x) ==> RoundsTo(Unnecessary, x, Log2(x, Unnecessary).value)
    ensures !IsPowerOf2(x) ==> Log2(x, Unnecessary) == Err(Arithmetic(RoundingNecessaryMessage))
  {
    IsPowerOfTwoCorrect(x);
    Log2FloorCorrect(x);
    if IsPowerOf2(x) {
      var k: nat :| Pow2(k) == x;
      Pow2Monotone(k, k + 1);
      RoundsToUnique(Floor, x, Log2(x, Floor).value, k);
    }
  }

  /** `log2(1 << i, UNNECESSARY) == i` for every i in [0, 31) */
  lemma Log2ExactRoundTrip(i: nat)
    requires i < IntegerSize - 1
    ensures Log2(Shl(1, i), Unnecessary) == Ok(i)
  {
    var x := ShlOne(i);
    Log2UnnecessaryCorrect(x);
    RoundsToUnique(Unnecessary, x, Log2(x, Unnecessary).value, i);
  }

  /** `1 << i` for i in [0, 31) is the positive `int` 2^i */
  lemma ShlOne(i: nat) returns (x: Int32)
    requires i < IntegerSize - 1
    ensures x == Shl(1, i) && x == Pow2(i) && x > 0
  {
    Pow2Bounds();
    Pow2Strict(i, IntegerSize - 1);
    x := Pow2(i);
  }

  /** 1821 is not a power of two, so UNNECESSARY rounding rejects it */
  lemma Log2RejectsInexact()
    ensures Log2(1821, Unnecessary) == Err(Arithmetic(RoundingNecessaryMessage))
  {
    assert Pow2(10) == 1024 && Pow2(11) == 2048;
    FloorValue(1821, 10);
    PowerOf2ByBitLength(1821);
    Log2UnnecessaryCorrect(1821);
  }

  // ---------------------------------------------------------------------
  // the HALF policies

  const SqrtTwoBits: nat := 0xB504_F333

  /** `MAX_POWER_OF_SQRT2_UNSIGNED` read as unsigned is floor(sqrt(2^63)) */
  lemma MaxPowerOfSqrt2UnsignedIsFloorSqrt()
    ensures Unsigned(MaxPowerOfSqrt2Unsigned) == SqrtTwoBits
    ensures SqrtTwoBits * SqrtTwoBits < Pow2(63) < (SqrtTwoBits + 1) * (SqrtTwoBits + 1)
  {
    Pow2Bounds();
    Pow2Add(31, 32);
  }

  lemma SquareMonotone(a: nat, b: nat)
    requires a <= b
    ensures a * a <= b * b
  {
    MulMonotone(a, b, a);
    MulMonotone(a, b, b);
  }

  lemma SquareStrict(a: nat, b: nat)
    requires a < b
    ensures a * a < b * b
  {
    MulMonotone(a, b, a);
    assert a * b < b * b;
  }

  /** Shifting floor(sqrt(2^63)) right by j places gives floor(sqrt(2^(63 - 2j))) */
  lemma ShiftedSqrt(j: nat)
    requires 1 <= j <= 31
    ensures var c := SqrtTwoBits / Pow2(j);
      c * c < Pow2(63 - 2 * j) < (c + 1) * (c + 1)
  {
    var p := Pow2(j);
    MaxPowerOfSqrt2UnsignedIsFloorSqrt();
    Pow2Add(63 - 2 * j, 2 * j);
    Pow2Add(j, j);
    QuotientOfSqrt(SqrtTwoBits, p, Pow2(63 - 2 * j), Pow2(63));
  }

  /** If s = floor(sqrt(n p^2)) and n p^2 is not a square, then
      s / p = floor(sqrt(n)) and n is not a square either */
  lemma QuotientOfSqrt(s: nat, p: nat, n: nat, m: nat)
    requires p >= 1 && m == n * (p * p)
    requires s * s < m < (s + 1) * (s + 1)
    ensures var c := s / p; c * c < n < (c + 1) * (c + 1)
  {
    var c := s / p;
    QuotientBracket(s, p);
    assert c * p <= s < (c + 1) * p;
    assert s * s < n * (p * p) < (s + 1) * (s + 1);
    ScaledSquareBelow(c, p, s, n);
    ScaledSquareAbove(c + 1, p, s, n);
  }

  lemma QuotientBracket(s: nat, p: nat)
    requires p >= 1
    ensures (s / p) * p <= s < (s / p + 1) * p
  {
  }

  /** a * p <= s and s^2 < n * p^2 give a^2 < n */
  lemma ScaledSquareBelow(a: nat, p: nat, s: nat, n: nat)
    requires a * p <= s && s * s < n * (p * p)
    ensures a * a < n
  {
    SquareMonotone(a * p, s);
    assert (a * p) * (a * p) == (a * a) * (p * p);
    ScaledLess(a * a, n, p * p);
  }

  /** s < b * p and n * p^2 < (s + 1)^2 give n < b^2 */
  lemma ScaledSquareAbove(b: nat, p: nat, s: nat, n: nat)
    requires s < b * p && n * (p * p) < (s + 1) * (s + 1)
    ensures n < b * b
  {
    SquareMonotone(s + 1, b * p);
    assert (b * p) * (b * p) == (b * b) * (p * p);
    ScaledLess(n, b * b, p * p);
  }

  lemma ScaledLess(a: nat, b: nat, k: nat)
    requires a * k < b * k
    ensures a < b
  {
    if a >= b {
      MulMonotone(b, a, k);
    }
  }

  /** With c = floor(sqrt(n)) and n not a square, x > c exactly when x^2 > n */
  lemma NearestThreshold(x: nat, c: nat, n: nat)
    requires c * c < n < (c + 1) * (c + 1)
    ensures x > c <==> x * x > n
    ensures x <= c ==> x * x < n
  {
    if x > c {
      SquareMonotone(c + 1, x);
    } else {
      SquareMonotone(x, c);
    }
  }

  /** `MAX_POWER_OF_SQRT2_UNSIGNED >>> lz`, with lz the leading zeros of a
      positive x, is floor(2^(k + 0.5)) for k = 31 - lz = floor(log2(x)):
      x exceeds it exactly when x^2 > 2^(2k + 1) */
  lemma HalfThreshold(x: Int32)
    requires x > 0
    ensures var lz := NumberOfLeadingZeros(x);
      var cmp := Ushr(MaxPowerOfSqrt2Unsigned, lz);
      && 1 <= lz
      && 0 <= cmp
      && (x > cmp <==> x * x > Pow2(63 - 2 * lz))
      && (x <= cmp ==> x * x < Pow2(63 - 2 * lz))
  {
    var lz := NumberOfLeadingZeros(x);
    assert 1 <= lz < IntegerSize;
    assert lz % IntegerSize == lz;
    MaxPowerOfSqrt2UnsignedIsFloorSqrt();
    var cmp := Ushr(MaxPowerOfSqrt2Unsigned, lz);
    assert cmp == SqrtTwoBits / Pow2(lz);
    ShiftedSqrt(lz);
    var n := Pow2(63 - 2 * lz);
    NearestThreshold(x, cmp, n);
  }

  /** Rounding up to v is within one half when 2^(2v-1) < x^2 and x < 2^v */
  lemma HalfRoundsUp(x: nat, v: nat)
    requires v >= 1 && x < Pow2(v) && Pow2(2 * v - 1) < x * x
    ensures WithinHalf(x, v)
  {
    SquareBelowOddPow2(x, v);
  }

  /** x < 2^v gives x^2 < 2^(2v) < 2^(2v+1) */
  lemma SquareBelowOddPow2(x: nat, v: nat)
    requires x < Pow2(v)
    ensures x * x < Pow2(2 * v + 1)
  {
    SquareStrict(x, Pow2(v));
    Pow2Add(v, v);
    Pow2Strict(2 * v, 2 * v + 1);
  }

  /** Rounding down to f is within one half when x^2 < 2^(2f+1) */
  lemma HalfRoundsDown(x: nat, f: nat)
    requires Pow2(f) <= x && x * x < Pow2(2 * f + 1)
    ensures WithinHalf(x, f)
  {
    if f > 0 {
      SquareMonotone(Pow2(f), x);
      Pow2Add(f, f);
      Pow2Strict(2 * f - 1, 2 * f);
    }
  }

  /** HALF_UP, HALF_DOWN and HALF_EVEN agree; each adds one to FLOOR exactly
      when x exceeds `MAX_POWER_OF_SQRT2_UNSIGNED >>> numberOfLeadingZeros(x)`,
      that is when x^2 > 2^(2 FLOOR + 1), and the result is log2(x) rounded to
      the nearest integer */
  lemma Log2HalfCorrect(x: Int32)
    requires x > 0
    ensures Log2(x, HalfDown) == Log2(x, HalfUp) == Log2(x, HalfEven)
    ensures Log2(x, HalfUp).Ok? && Log2(x, Floor).Ok?
    ensures var f := Log2(x, Floor).value;
      && (x > Ushr(MaxPowerOfSqrt2Unsigned, NumberOfLeadingZeros(x)) <==> x * x > Pow2(2 * f + 1))
      && Log2(x, HalfUp).value == if x * x > Pow2(2 * f + 1) then f + 1 else f
    ensures RoundsTo(HalfUp, x, Log2(x, HalfUp).value)
  {
    Log2FloorCorrect(x);
    var f := Log2(x, Floor).value;
    var lz := NumberOfLeadingZeros(x);
    var cmp := Ushr(MaxPowerOfSqrt2Unsigned, lz);
    HalfThreshold(x);
    assert 63 - 2 * lz == 2 * f + 1;
    LessThanBranchFreeCompares(cmp, x);
    if x > cmp {
      assert 2 * (f + 1) - 1 == 2 * f + 1;
      HalfRoundsUp(x, f + 1);
    } else {
      HalfRoundsDown(x, f);
    }
  }

  // ---------------------------------------------------------------------
  // log2 as a whole

  /** `log2(x, mode)` fails for non-positive x whatever the mode, fails for
      UNNECESSARY exactly when x is not a power of two, and otherwise returns
      log2(x) rounded by `mode` */
  lemma Log2Correct(x: Int32, mode: RoundingMode)
    ensures x <= 0 ==> Log2(x, mode) == Err(IllegalArgument("x", x))
    ensures x > 0 ==> (Log2(x, mode).Ok? <==> mode == Unnecessary ==> IsPowerOf2(x))
    ensures Log2(x, mode).Ok? ==> RoundsTo(mode, x, Log2(x, mode).value)
  {
    if x > 0 {
      match mode
      case Floor | Down => Log2FloorCorrect(x);
      case Ceiling | Up => Log2CeilingCorrect(x);
      case HalfUp | HalfDown | HalfEven => Log2HalfCorrect(x);
      case Unnecessary => Log2UnnecessaryCorrect(x);
    }
  }
}
