/** Java's 32-bit two's-complement `int`, with the operators and the JDK
    primitive (`Integer.numberOfLeadingZeros`) that the base-2 logarithm
    relies on. Values are mathematical integers restricted to the `int` range;
    every operator that can wrap around in Java wraps around here explicitly. */
module JavaInt {

  /** `Integer.SIZE` */
  const IntegerSize: nat := 32
  /** 2^32, the number of distinct `int` bit patterns */
  const Modulus: int := 0x1_0000_0000
  /** `Integer.MIN_VALUE` and `Integer.MAX_VALUE` */
  const MinValue: int := -0x8000_0000
  const MaxValue: int := 0x7FFF_FFFF

  /** A Java `int` */
  type Int32 = x: int | -0x8000_0000 <= x < 0x8000_0000
  /** The same 32 bits read as an unsigned number */
  type UInt32 = u: int | 0 <= u < 0x1_0000_0000

  /** 2^n */
  function Pow2(n: nat): (r: nat)
    ensures r >= 1
  {
    if n == 0 then 1 else 2 * Pow2(n - 1)
  }

  lemma {:induction false} Pow2Add(a: nat, b: nat)
    ensures Pow2(a + b) == Pow2(a) * Pow2(b)
  {
    if a > 0 {
      Pow2Add(a - 1, b);
      assert Pow2(a + b) == 2 * Pow2(a - 1 + b);
    }
  }

  lemma {:induction false} Pow2Strict(a: nat, b: nat)
    requires a < b
    ensures Pow2(a) < Pow2(b)
  {
    if a + 1 < b {
      Pow2Strict(a, b - 1);
    }
  }

  lemma Pow2Monotone(a: nat, b: nat)
    requires a <= b
    ensures Pow2(a) <= Pow2(b)
  {
    if a < b {
      Pow2Strict(a, b);
    }
  }

  /** 2^32 and 2^31 as the bounds of `UInt32` and `Int32` */
  lemma Pow2Bounds()
    ensures Pow2(31) == 0x8000_0000 && Pow2(32) == Modulus
  {
    assert Pow2(4) == 16;
    Pow2Add(4, 4);
    Pow2Add(8, 8);
    Pow2Add(16, 15);
    Pow2Add(16, 16);
  }

  /** The two's-complement bit pattern of `x`, as an unsigned number */
  function Unsigned(x: Int32): (u: UInt32)
    ensures u % Modulus == x % Modulus
    ensures x >= 0 <==> u < 0x8000_0000
  {
    if x < 0 then x + Modulus else x
  }

  /** The `int` whose bit pattern is `u` */
  function ToSigned(u: UInt32): (x: Int32)
    ensures Unsigned(x) == u
    ensures u < 0x8000_0000 ==> x == u
  {
    if u < 0x8000_0000 then u else u - Modulus
  }

  /** Reading an `int`'s bit pattern back gives the same `int` */
  lemma SignedUnsignedRoundTrip(x: Int32)
    ensures ToSigned(Unsigned(x)) == x
  {
  }

  /** Reduction of a mathematical integer to the `int` with the same low 32 bits */
  function Wrap(i: int): (x: Int32)
    ensures (x - i) % Modulus == 0
    ensures MinValue <= i <= MaxValue ==> x == i
  {
    ToSigned(i % Modulus)
  }

  /** Java's `x - y` */
  function Sub(x: Int32, y: Int32): (r: Int32)
  {
    Wrap(x - y)
  }

  /** Java's `~x`: every bit flipped */
  function Not(x: Int32): (r: Int32)
    ensures Unsigned(r) == Modulus - 1 - Unsigned(x)
  {
    -1 - x
  }

  /** Java's `x << n`; the shift distance is taken modulo 32 (`n & 31`) */
  function Shl(x: Int32, n: int): (r: Int32)
  {
    Wrap(x * Pow2(n % IntegerSize))
  }

  /** Java's `x >>> n`; the shift distance is taken modulo 32 (`n & 31`)
      and zeros are shifted in from the left */
  function Ushr(x: Int32, n: int): (r: Int32)
    ensures n % IntegerSize == 0 ==> r == x
    ensures n % IntegerSize != 0 ==> 0 <= r && r == Unsigned(x) / Pow2(n % IntegerSize)
  {
    var k := n % IntegerSize;
    var q := Unsigned(x) / Pow2(k);
    QuotientBounds(Unsigned(x), k);
    SignedUnsignedRoundTrip(x);
    assert 0 <= q < Modulus;
    ToSigned(q)
  }

  /** `x >>> 31` is the sign bit of `x` */
  lemma SignBit(x: Int32)
    ensures Ushr(x, IntegerSize - 1) == if x < 0 then 1 else 0
  {
    Pow2Bounds();
  }

  /** Shifting right never grows a value, and any shift of one or more
      places clears the top bit */
  lemma QuotientBounds(u: UInt32, k: nat)
    ensures 0 <= u / Pow2(k) <= u
    ensures k > 0 ==> u / Pow2(k) < 0x8000_0000
  {
    if k > 0 {
      Pow2Monotone(1, k);
    }
    QuotientShrinks(u, Pow2(k));
  }

  lemma QuotientShrinks(u: nat, d: nat)
    requires d >= 1
    ensures 0 <= u / d <= u
    ensures d >= 2 ==> 2 * (u / d) <= u
  {
    var q, r := u / d, u % d;
    assert u == d * q + r;
    MulMonotone(1, d, q);
    if d >= 2 {
      MulMonotone(2, d, q);
    }
  }

  lemma MulMonotone(a: nat, b: nat, c: nat)
    requires a <= b
    ensures a * c <= b * c
  {
  }

  /** Bitwise AND of two non-negative numbers, one binary digit at a time */
  function AndBits(a: nat, b: nat): (r: nat)
    ensures r <= a && r <= b
  {
    if a == 0 || b == 0 then 0
    else 2 * AndBits(a / 2, b / 2) + (if a % 2 == 1 && b % 2 == 1 then 1 else 0)
  }

  /** Java's `x & y` */
  function And(x: Int32, y: Int32): (r: Int32)
  {
    ToSigned(AndBits(Unsigned(x), Unsigned(y)))
  }

  /** The number of binary digits of `u` (0 for 0) */
  function BitLength(u: nat): (r: nat)
    ensures u == 0 <==> r == 0
    ensures u < Pow2(r)
    ensures r > 0 ==> Pow2(r - 1) <= u
  {
    if u == 0 then 0 else 1 + BitLength(u / 2)
  }

  /** `u` has at most `n` binary digits exactly when it is below 2^n */
  lemma BitLengthAtMost(u: nat, n: nat)
    ensures BitLength(u) <= n <==> u < Pow2(n)
  {
    if BitLength(u) > n {
      Pow2Monotone(n, BitLength(u) - 1);
    } else {
      Pow2Monotone(BitLength(u), n);
    }
  }

  /** `Integer.numberOfLeadingZeros(x)`: the number of zero bits above the
      highest one bit of `x`'s bit pattern, 32 when `x` is zero */
  function NumberOfLeadingZeros(x: Int32): (r: nat)
    ensures r <= IntegerSize
    ensures r == IntegerSize <==> x == 0
    ensures r == 0 <==> x < 0
    ensures x != 0 ==> Pow2(IntegerSize - 1 - r) <= Unsigned(x) < Pow2(IntegerSize - r)
  {
    Pow2Bounds();
    BitLengthAtMost(Unsigned(x), IntegerSize);
    BitLengthAtMost(Unsigned(x), IntegerSize - 1);
    IntegerSize - BitLength(Unsigned(x))
  }
}
