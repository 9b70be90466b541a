/** The integer base-2 logarithm of `MathUtils`: `log2` under the eight
    `java.math.RoundingMode` policies, and its helpers. Java exceptions
    become the `Err` case of `Result`. */
module MathUtils {
  import opened JavaInt

  /** `java.math.RoundingMode` */
  datatype RoundingMode =
    | Up         // away from zero
    | Down       // towards zero
    | Ceiling    // towards positive infinity
    | Floor      // towards negative infinity
    | HalfUp     // to nearest, ties away from zero
    | HalfDown   // to nearest, ties towards zero
    | HalfEven   // to nearest, ties to the even neighbour
    | Unnecessary // the exact result, which must exist

  /** The two exceptions `log2` throws */
  datatype Error =
    | IllegalArgument(role: string, value: int)   // `IllegalArgumentException`
    | Arithmetic(message: string)                 // `ArithmeticException`

  datatype Result<T> = Ok(value: T) | Err(error: Error)

  /** A check that either passes or throws */
  datatype Outcome = Pass | Fail(error: Error)

  /** floor(2^31.5), the biggest half power of two that fits in an unsigned
      32-bit number; as a Java `int` literal it is negative */
  const MaxPowerOfSqrt2Unsigned: Int32 := ToSigned(0xB504_F333)

  const RoundingNecessaryMessage: string := "mode was UNNECESSARY, but rounding was necessary"

  /** `checkPositive`: throws `IllegalArgumentException` unless `x > 0` */
  function CheckPositive(role: string, x: Int32): (r: Outcome)
  {
    if x <= 0 then Fail(IllegalArgument(role, x)) else Pass
  }

  /** `checkRoundingUnnecessary`: throws `ArithmeticException` unless `condition` */
  function CheckRoundingUnnecessary(condition: bool): (r: Outcome)
  {
    if !condition then Fail(Arithmetic(RoundingNecessaryMessage)) else Pass
  }

  /** `isPowerOfTwo`: `x > 0 & (x & (x - 1)) == 0`. Both operands of the
      non-short-circuit `&` are evaluated; neither can fail. */
  function IsPowerOfTwo(x: Int32): (r: bool)
  {
    var positive := x > 0;
    var singleBit := And(x, Sub(x, 1)) == 0;
    positive && singleBit
  }

  /** `lessThanBranchFree`: the sign bit of `~~(x - y)`, moved to bit 0 */
  function LessThanBranchFree(x: Int32, y: Int32): (r: Int32)
    ensures r == 0 || r == 1
    ensures r == 1 <==> Sub(x, y) < 0
  {
    SignBit(Not(Not(Sub(x, y))));
    Ushr(Not(Not(Sub(x, y))), IntegerSize - 1)
  }

  /** `log2(x, mode)` */
  function Log2(x: Int32, mode: RoundingMode): (r: Result<Int32>)
    ensures x <= 0 ==> r == Err(IllegalArgument("x", x))
    ensures x > 0 && r.Err? ==> mode == Unnecessary && r.error == Arithmetic(RoundingNecessaryMessage)
    ensures r.Ok? ==> 0 <= r.value < IntegerSize
  {
    var positive := CheckPositive("x", x);
    if positive.Fail? then Err(positive.error)
    else
      match mode
      case Unnecessary =>
        // checks that x is a power of two, then falls through to FLOOR
        var exact := CheckRoundingUnnecessary(IsPowerOfTwo(x));
        if exact.Fail? then Err(exact.error)
        else Ok((IntegerSize - 1) - NumberOfLeadingZeros(x))
      case Down | Floor =>
        Ok((IntegerSize - 1) - NumberOfLeadingZeros(x))
      case Up | Ceiling =>
        Ok(IntegerSize - NumberOfLeadingZeros(Sub(x, 1)))
      case HalfDown | HalfUp | HalfEven =>
        // log2(x) - logFloor is never exactly 0.5, so the three policies agree
        var leadingZeros := NumberOfLeadingZeros(x);
        var cmp := Ushr(MaxPowerOfSqrt2Unsigned, leadingZeros);  // floor(2^(logFloor + 0.5))
        var logFloor := (IntegerSize - 1) - leadingZeros;
        Ok(logFloor + LessThanBranchFree(cmp, x))
  }
}
