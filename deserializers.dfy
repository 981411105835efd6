/** Field coercion for numeric strings in the upstream weather records.

    Both deserializers read a string and run `s.parse::<i64>()` on it. They differ only
    in what a bad string does: `i64_from_string` turns it into an absent value, while
    `sole_from_string` turns it into a deserialization error carrying the parse error.
 */
module Deserializers {
  import opened Int64
  import IntParse

  datatype Option<T> = None | Some(value: T)

  /** A sol number as delivered by upstream: a one-field wrapper over an i64. */
  datatype Sole = Sole(n: int)

  /** `serde::de::Error::custom` applied to the `ParseIntError`. */
  datatype DeError = Custom(cause: IntParse.IntErrorKind)

  datatype DeResult<T> = Success(value: T) | Failure(error: DeError)

  /** `i64_from_string`: the lenient path. A string that is not a valid i64 becomes
      `None`; this path has no failure of its own. */
  function I64FromString(s: string): (r: Option<int>)
    ensures r.Some? <==> IntParse.WellFormed(s) && InI64(IntParse.Value(s))
    ensures r.Some? ==> IntParse.WellFormed(s) && r.value == IntParse.Value(s)
  {
    IntParse.ParseI64Correct(s);
    match IntParse.ParseI64(s)
    case Ok(n) => Some(n)
    case Err(_) => None
  }

  /** `sole_from_string`: the strict path. The same parse, wrapped in `Sole`, but a bad
      string is an error rather than a default sol. */
  function SoleFromString(s: string): (r: DeResult<Sole>)
    ensures r.Success? <==> IntParse.WellFormed(s) && InI64(IntParse.Value(s))
    ensures r.Success? ==> IntParse.WellFormed(s) && r.value == Sole(IntParse.Value(s))
  {
    IntParse.ParseI64Correct(s);
    match IntParse.ParseI64(s)
    case Ok(n) => Success(Sole(n))
    case Err(e) => Failure(Custom(e))
  }

  /** The strict path succeeds with `Sole(n)` exactly when the lenient path gives `Some(n)`,
      and fails exactly when the lenient path gives `None`. */
  lemma {:induction false} StrictAgreesWithLenient(s: string, n: int)
    ensures SoleFromString(s) == Success(Sole(n)) <==> I64FromString(s) == Some(n)
    ensures SoleFromString(s).Failure? <==> I64FromString(s) == None
  {
  }

  /** Every i64 written in decimal comes back through the lenient path unchanged. */
  lemma {:induction false} I64FromStringRoundTrip(n: int)
    requires InI64(n)
    ensures I64FromString(IntParse.Render(n)) == Some(n)
  {
    IntParse.RenderParse(n);
  }

  /** The extremes of i64 are accepted by both paths. */
  lemma Boundaries()
    ensures I64FromString("9223372036854775807") == Some(I64Max)
    ensures I64FromString("-9223372036854775808") == Some(I64Min)
    ensures SoleFromString("9223372036854775807") == Success(Sole(I64Max))
    ensures SoleFromString("-9223372036854775808") == Success(Sole(I64Min))
  {
    IntParse.ParseMax();
    IntParse.ParseMin();
  }

  /** One past either extreme is rejected: `None` leniently, an overflow error strictly. */
  lemma OutOfRange()
    ensures I64FromString("9223372036854775808") == None
    ensures I64FromString("-9223372036854775809") == None
    ensures SoleFromString("9223372036854775808") == Failure(Custom(IntParse.PosOverflow))
    ensures SoleFromString("-9223372036854775809") == Failure(Custom(IntParse.NegOverflow))
  {
    IntParse.ParseMaxPlusOne();
    IntParse.ParseMinMinusOne();
  }

  /** Malformed strings give `None` on the lenient path and an error on the strict one. */
  lemma Malformed()
    ensures I64FromString("") == None && SoleFromString("") == Failure(Custom(IntParse.Empty))
    ensures I64FromString("+") == None && SoleFromString("+") == Failure(Custom(IntParse.InvalidDigit))
    ensures I64FromString("-") == None && SoleFromString("-") == Failure(Custom(IntParse.InvalidDigit))
    ensures I64FromString(" 12") == None && I64FromString("12 ") == None
    ensures I64FromString("1 2") == None && I64FromString("12a") == None
    ensures I64FromString("+-1") == None && I64FromString("1_000") == None
  {
  }

  /** Leading zeros and an explicit sign are part of the accepted language. */
  lemma LenientAccepts()
    ensures I64FromString("007") == Some(7)
    ensures I64FromString("+42") == Some(42)
    ensures I64FromString("-0") == Some(0)
  {
  }
}
