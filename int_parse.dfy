/** Rust's `str::parse::<i64>` (core's `i64::from_str_radix` with radix 10), which both
    field deserializers call.

    The parser is written the way the library runs it: an empty string is an `Empty`
    error; a sign with nothing after it is an `InvalidDigit` error; an optional `+` or
    `-` is stripped; the digits are then folded left to right with checked arithmetic,
    upward from 0 for a positive number and downward from 0 for a negative one (so
    that `i64::MIN` is reachable), and the first invalid digit or overflow met stops
    the scan.

    Beside it stands an independent description of the accepted language
    (`WellFormed`, `Value`) and the proof that the two agree.
 */
module IntParse {
  import opened Int64

  /** The kinds of `core::num::ParseIntError` that a radix-10 i64 parse can produce. */
  datatype IntErrorKind = Empty | InvalidDigit | PosOverflow | NegOverflow

  datatype ParseResult = Ok(value: int) | Err(kind: IntErrorKind)

  predicate IsDigit(c: char)
  {
    '0' <= c <= '9'
  }

  function DigitValue(c: char): (d: nat)
    requires IsDigit(c)
    ensures d < 10
  {
    (c as int) - ('0' as int)
  }

  function DigitChar(d: nat): (c: char)
    requires d < 10
    ensures IsDigit(c) && DigitValue(c) == d
  {
    (('0' as int) + d) as char
  }

  predicate AllDigits(ds: string)
  {
    forall i :: 0 <= i < |ds| ==> IsDigit(ds[i])
  }

  // ---------------------------------------------------------------------------
  // The accepted language, stated independently of the scanning algorithm
  // ---------------------------------------------------------------------------

  /** The positional value of a digit string: the last digit is the units digit. */
  function DigitsValue(ds: string): nat
    requires AllDigits(ds)
  {
    if ds == [] then 0 else DigitsValue(ds[..|ds| - 1]) * 10 + DigitValue(ds[|ds| - 1])
  }

  /** Splits off one leading sign: whether the number is negative, and the rest. */
  function SplitSign(s: string): (bool, string)
  {
    if |s| > 0 && (s[0] == '+' || s[0] == '-') then (s[0] == '-', s[1..]) else (false, s)
  }

  /** An optional `+` or `-` followed by one or more ASCII digits. */
  predicate WellFormed(s: string)
  {
    var (_, ds) := SplitSign(s);
    |ds| > 0 && AllDigits(ds)
  }

  /** The mathematical value a well-formed string denotes. */
  function Value(s: string): int
    requires WellFormed(s)
  {
    var (neg, ds) := SplitSign(s);
    var v: int := DigitsValue(ds);
    if neg then -v else v
  }

  // ---------------------------------------------------------------------------
  // The library's scan
  // ---------------------------------------------------------------------------

  /** Folds digits into a non-negative accumulator: checked `acc * 10`, then checked `+ d`. */
  function AccumulatePos(ds: string, acc: int): (r: ParseResult)
    requires 0 <= acc <= I64Max
    decreases |ds|
    ensures r.Ok? ==> 0 <= r.value <= I64Max
    ensures r.Err? ==> r.kind == InvalidDigit || r.kind == PosOverflow
  {
    if ds == [] then Ok(acc)
    else if !IsDigit(ds[0]) then Err(InvalidDigit)
    else if acc * 10 > I64Max then Err(PosOverflow)
    else if acc * 10 + DigitValue(ds[0]) > I64Max then Err(PosOverflow)
    else AccumulatePos(ds[1..], acc * 10 + DigitValue(ds[0]))
  }

  /** Folds digits into a non-positive accumulator: checked `acc * 10`, then checked `- d`. */
  function AccumulateNeg(ds: string, acc: int): (r: ParseResult)
    requires I64Min <= acc <= 0
    decreases |ds|
    ensures r.Ok? ==> I64Min <= r.value <= 0
    ensures r.Err? ==> r.kind == InvalidDigit || r.kind == NegOverflow
  {
    if ds == [] then Ok(acc)
    else if !IsDigit(ds[0]) then Err(InvalidDigit)
    else if acc * 10 < I64Min then Err(NegOverflow)
    else if acc * 10 - DigitValue(ds[0]) < I64Min then Err(NegOverflow)
    else AccumulateNeg(ds[1..], acc * 10 - DigitValue(ds[0]))
  }

  /** `s.parse::<i64>()`. */
  function ParseI64(s: string): (r: ParseResult)
    ensures r.Ok? ==> InI64(r.value)
    ensures r == Err(Empty) <==> s == ""
  {
    if |s| == 0 then Err(Empty)
    else if (s[0] == '+' || s[0] == '-') && |s| == 1 then Err(InvalidDigit)
    else if s[0] == '+' then AccumulatePos(s[1..], 0)
    else if s[0] == '-' then AccumulateNeg(s[1..], 0)
    else AccumulatePos(s, 0)
  }

  // ---------------------------------------------------------------------------
  // Agreement of the scan with the accepted language
  // ---------------------------------------------------------------------------

  /** The unchecked left-to-right fold the scan performs. */
  function Horner(acc: int, ds: string): int
    requires AllDigits(ds)
    decreases |ds|
  {
    if ds == [] then acc else Horner(acc * 10 + DigitValue(ds[0]), ds[1..])
  }

  lemma {:induction false} HornerSnoc(acc: int, ds: string, c: char)
    requires AllDigits(ds) && IsDigit(c)
    decreases |ds|
    ensures AllDigits(ds + [c])
    ensures Horner(acc, ds + [c]) == Horner(acc, ds) * 10 + DigitValue(c)
  {
    if ds != [] {
      assert (ds + [c])[0] == ds[0];
      assert (ds + [c])[1..] == ds[1..] + [c];
      HornerSnoc(acc * 10 + DigitValue(ds[0]), ds[1..], c);
    }
  }

  /** Folding from zero computes the positional value. */
  lemma {:induction false} HornerFromZero(ds: string)
    requires AllDigits(ds)
    ensures Horner(0, ds) == DigitsValue(ds)
  {
    if ds != [] {
      var init, last := ds[..|ds| - 1], ds[|ds| - 1];
      assert ds == init + [last];
      HornerFromZero(init);
      HornerSnoc(0, init, last);
    }
  }

  /** With a non-negative accumulator, further digits never decrease the fold. */
  lemma {:induction false} HornerAtLeast(acc: int, ds: string)
    requires AllDigits(ds) && acc >= 0
    decreases |ds|
    ensures Horner(acc, ds) >= acc
  {
    if ds != [] {
      HornerAtLeast(acc * 10 + DigitValue(ds[0]), ds[1..]);
    }
  }

  /** The checked positive scan succeeds exactly when the digits are valid and the
      unchecked fold stays within i64, and then returns that fold. */
  lemma {:induction false} AccumulatePosCorrect(ds: string, acc: int)
    requires 0 <= acc <= I64Max
    decreases |ds|
    ensures AccumulatePos(ds, acc).Ok? <==> AllDigits(ds) && Horner(acc, ds) <= I64Max
    ensures AccumulatePos(ds, acc).Ok? ==> AllDigits(ds) && AccumulatePos(ds, acc).value == Horner(acc, ds)
    ensures AllDigits(ds) ==> AccumulatePos(ds, acc) != Err(InvalidDigit)
  {
    if ds != [] && IsDigit(ds[0]) {
      var next := acc * 10 + DigitValue(ds[0]);
      assert AllDigits(ds) <==> AllDigits(ds[1..]) by {
        if AllDigits(ds[1..]) {
          forall i | 0 <= i < |ds| ensures IsDigit(ds[i]) {
            if i > 0 { assert ds[i] == ds[1..][i - 1]; }
          }
        }
      }
      if next > I64Max {
        if AllDigits(ds) {
          HornerAtLeast(next, ds[1..]);
        }
      } else {
        AccumulatePosCorrect(ds[1..], next);
      }
    }
  }

  /** The checked negative scan succeeds exactly when the digits are valid and the
      negated fold stays within i64, and then returns the negated fold. */
  lemma {:induction false} AccumulateNegCorrect(ds: string, acc: int)
    requires I64Min <= acc <= 0
    decreases |ds|
    ensures AccumulateNeg(ds, acc).Ok? <==> AllDigits(ds) && -Horner(-acc, ds) >= I64Min
    ensures AccumulateNeg(ds, acc).Ok? ==> AllDigits(ds) && AccumulateNeg(ds, acc).value == -Horner(-acc, ds)
    ensures AllDigits(ds) ==> AccumulateNeg(ds, acc) != Err(InvalidDigit)
  {
    if ds != [] && IsDigit(ds[0]) {
      var next := acc * 10 - DigitValue(ds[0]);
      assert AllDigits(ds) <==> AllDigits(ds[1..]) by {
        if AllDigits(ds[1..]) {
          forall i | 0 <= i < |ds| ensures IsDigit(ds[i]) {
            if i > 0 { assert ds[i] == ds[1..][i - 1]; }
          }
        }
      }
      if next < I64Min {
        if AllDigits(ds) {
          HornerAtLeast(-next, ds[1..]);
        }
      } else {
        AccumulateNegCorrect(ds[1..], next);
      }
    }
  }

  /** `s.parse::<i64>()` is `Ok(n)` exactly when `s` is an optional sign followed by one
      or more ASCII digits whose value `n` lies in the i64 range; a well-formed string
      out of range is an overflow error on the side it overflows. */
  lemma ParseI64Correct(s: string)
    ensures ParseI64(s).Ok? <==> WellFormed(s) && InI64(Value(s))
    ensures ParseI64(s).Ok? ==> WellFormed(s) && ParseI64(s).value == Value(s)
    ensures WellFormed(s) && !InI64(Value(s)) ==>
              ParseI64(s) == Err(if Value(s) < 0 then NegOverflow else PosOverflow)
  {
    var (neg, ds) := SplitSign(s);
    if |ds| > 0 {
      if neg {
        AccumulateNegCorrect(ds, 0);
      } else {
        AccumulatePosCorrect(ds, 0);
      }
      if AllDigits(ds) {
        HornerFromZero(ds);
      }
    }
  }

  // ---------------------------------------------------------------------------
  // Decimal rendering (i64's `Display`) and the round trip
  // ---------------------------------------------------------------------------

  /** The shortest decimal digit string of a natural number. */
  function DecimalDigits(n: nat): (ds: string)
    ensures |ds| > 0 && AllDigits(ds)
  {
    if n < 10 then [DigitChar(n)] else DecimalDigits(n / 10) + [DigitChar(n % 10)]
  }

  /** The decimal rendering of an integer, with `-` for negatives. */
  function Render(n: int): string
  {
    if n < 0 then "-" + DecimalDigits(-n) else DecimalDigits(n)
  }

  lemma {:induction false} DecimalDigitsValue(n: nat)
    ensures DigitsValue(DecimalDigits(n)) == n
  {
    if n >= 10 {
      var ds := DecimalDigits(n);
      assert ds[..|ds| - 1] == DecimalDigits(n / 10);
      DecimalDigitsValue(n / 10);
    }
  }

  /** Rendering then parsing gives back every i64, and an overflow error on the
      matching side for every integer outside the i64 range. */
  lemma RenderParse(n: int)
    ensures ParseI64(Render(n)) == if InI64(n) then Ok(n) else Err(if n < 0 then NegOverflow else PosOverflow)
  {
    var s := Render(n);
    if n < 0 {
      assert SplitSign(s) == (true, DecimalDigits(-n));
      DecimalDigitsValue(-n);
    } else {
      var ds := DecimalDigits(n);
      assert IsDigit(ds[0]);
      assert SplitSign(s) == (false, ds);
      DecimalDigitsValue(n);
    }
    ParseI64Correct(s);
  }

  lemma DecimalDigitsSnoc(m: nat, d: nat)
    requires m >= 1 && d < 10
    ensures DecimalDigits(m * 10 + d) == DecimalDigits(m) + [DigitChar(d)]
  {
  }

  /** The 18 leading digits shared by the renderings of the i64 extremes. */
  lemma ExtremesPrefix()
    ensures DecimalDigits(922337203685477580) == "922337203685477580"
  {
    assert DecimalDigits(9) == "9";
    DecimalDigitsSnoc(9, 2);
    assert DecimalDigits(92) == "92";
    DecimalDigitsSnoc(92, 2);
    assert DecimalDigits(922) == "922";
    DecimalDigitsSnoc(922, 3);
    assert DecimalDigits(9223) == "9223";
    DecimalDigitsSnoc(9223, 3);
    assert DecimalDigits(92233) == "92233";
    DecimalDigitsSnoc(92233, 7);
    assert DecimalDigits(922337) == "922337";
    DecimalDigitsSnoc(922337, 2);
    assert DecimalDigits(9223372) == "9223372";
    DecimalDigitsSnoc(9223372, 0);
    assert DecimalDigits(92233720) == "92233720";
    DecimalDigitsSnoc(92233720, 3);
    assert DecimalDigits(922337203) == "922337203";
    DecimalDigitsSnoc(922337203, 6);
    assert DecimalDigits(9223372036) == "9223372036";
    DecimalDigitsSnoc(9223372036, 8);
    assert DecimalDigits(92233720368) == "92233720368";
    DecimalDigitsSnoc(92233720368, 5);
    assert DecimalDigits(922337203685) == "922337203685";
    DecimalDigitsSnoc(922337203685, 4);
    assert DecimalDigits(9223372036854) == "9223372036854";
    DecimalDigitsSnoc(9223372036854, 7);
    assert DecimalDigits(92233720368547) == "92233720368547";
    DecimalDigitsSnoc(92233720368547, 7);
    assert DecimalDigits(922337203685477) == "922337203685477";
    DecimalDigitsSnoc(922337203685477, 5);
    assert DecimalDigits(9223372036854775) == "9223372036854775";
    DecimalDigitsSnoc(9223372036854775, 8);
    assert DecimalDigits(92233720368547758) == "92233720368547758";
    DecimalDigitsSnoc(92233720368547758, 0);
    assert DecimalDigits(922337203685477580) == "922337203685477580";
  }

  lemma DigitsOfMax()
    ensures DecimalDigits(9223372036854775807) == "9223372036854775807"
  {
    ExtremesPrefix();
    DecimalDigitsSnoc(922337203685477580, 7);
  }

  lemma DigitsOfMaxPlusOne()
    ensures DecimalDigits(9223372036854775808) == "9223372036854775808"
  {
    ExtremesPrefix();
    DecimalDigitsSnoc(922337203685477580, 8);
  }

  lemma DigitsOfMaxPlusTwo()
    ensures DecimalDigits(9223372036854775809) == "9223372036854775809"
  {
    ExtremesPrefix();
    DecimalDigitsSnoc(922337203685477580, 9);
  }

  /** The largest i64 is accepted. */
  lemma ParseMax()
    ensures ParseI64("9223372036854775807") == Ok(I64Max)
  {
    DigitsOfMax();
    RenderParse(I64Max);
    assert Render(I64Max) == DecimalDigits(9223372036854775807);
  }

  /** The smallest i64 is accepted: the negative scan reaches it without overflow. */
  lemma ParseMin()
    ensures ParseI64("-9223372036854775808") == Ok(I64Min)
  {
    DigitsOfMaxPlusOne();
    RenderParse(I64Min);
    assert Render(I64Min) == "-" + DecimalDigits(9223372036854775808);
  }

  /** One past the largest i64 is a positive overflow. */
  lemma ParseMaxPlusOne()
    ensures ParseI64("9223372036854775808") == Err(PosOverflow)
  {
    DigitsOfMaxPlusOne();
    RenderParse(I64Max + 1);
    assert Render(I64Max + 1) == DecimalDigits(9223372036854775808);
  }

  /** One below the smallest i64 is a negative overflow. */
  lemma ParseMinMinusOne()
    ensures ParseI64("-9223372036854775809") == Err(NegOverflow)
  {
    DigitsOfMaxPlusTwo();
    RenderParse(I64Min - 1);
    assert Render(I64Min - 1) == "-" + DecimalDigits(9223372036854775809);
  }
}
