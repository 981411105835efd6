# Martian sol conversion and numeric-string coercion (linx API)

This project models the logic of the linx weather API in Dafny:

- **Sol conversion** (`Conversion`, `conversion.dfy`). An Earth instant is turned into the
  number of Martian sols elapsed since Curiosity landed (Unix 1344230220, 2012-08-06
  05:17:00 UTC). The result is the ceiling of Δ / 88775.245, where Δ is the signed number
  of seconds since landing. The constant has exactly three decimals, so the model computes
  exactly in integers: `ceil(1000·Δ / 88775245)`. The input is the instant's whole Unix
  seconds, the value chrono's `.timestamp()` yields.
- **Integer parsing** (`IntParse`, `int_parse.dfy`). Both deserializers rely on Rust's
  `str::parse::<i64>`, so the model spells it out the way the standard library runs it.
  An empty string is an `Empty` error. A lone sign is an `InvalidDigit` error. One
  optional `+` or `-` is stripped. The digits are then folded left to right with checked
  arithmetic: upward for positive numbers and downward for negative ones, so `i64::MIN`
  parses. The first bad digit or overflow ends the scan. An independent description of
  the accepted language (`WellFormed`, `Value`) is proved equal to that scan. A decimal
  rendering (`Render`) is proved to round-trip through it.
- **Field coercion** (`Deserializers`, `deserializers.dfy`). `i64_from_string` is the
  lenient path: a string that is not a valid i64 becomes `None`. `sole_from_string` is the
  strict path: the same parse wrapped in `Sole`, and a bad string is a deserialization
  error that carries the parse error. `Sole` is declared as a one-field wrapper over an
  integer, as its use at api/src/deserializers.rs:16 shows.
- `Int64` (`int64.dfy`) holds the i64 bounds shared by both parts.

## Model

| member | source | states |
|---|---|---|
| `Conversion.CeilDiv` | api/src/conversion.rs:10 | the result is the ceiling of a / b: (q−1)·b < a ≤ q·b for a positive divisor |
| `Conversion.MartianSolsElapsed` | api/src/conversion.rs:7-11 | the sol count s for a Unix timestamp satisfies (s−1)·88775245 < 1000·Δ ≤ s·88775245, with Δ = timestamp − 1344230220 |
| `Conversion.SolIsLeastUpperCount` | api/src/conversion.rs:8-10 | the sol count is the least integer k with 1000·Δ ≤ k·88775245 (the ceiling, not any upper bound) |
| `Conversion.AtLanding` | api/src/conversion.rs:4-10 | exactly at the landing timestamp the result is 0, not 1 |
| `Conversion.FirstSol` | api/src/conversion.rs:10 | the result is 1 exactly when Δ is between 1 and 88775 seconds: a partial sol counts as started |
| `Conversion.Monotone` | api/src/conversion.rs:9-10 | a later timestamp never gives a smaller sol count |
| `Conversion.PositiveIffAfterLanding` | api/src/conversion.rs:9-10 | the function is total; the result is positive exactly when Δ > 0, so instants at or before landing give a result ≤ 0 |
| `Conversion.MartianYearAfterLanding` | api/src/conversion.rs:20-29 | Δ = 687·86400 seconds gives sol 669 |
| `Conversion.Feb2026` | api/src/conversion.rs:31-39 | Unix 1770678000 (2026-02-10T00:00:00+01:00) gives sol 4804 |
| `Conversion.FitsI64` | api/src/conversion.rs:9-10 | for Δ between −2^53 and 2^53 the result lies in the i64 range, so the final `as i64` cast does not change it |
| `IntParse.AccumulatePos` | api/src/deserializers.rs:7 | the checked upward digit fold returns only values in [0, i64::MAX] and fails only with an invalid digit or a positive overflow |
| `IntParse.AccumulateNeg` | api/src/deserializers.rs:7 | the checked downward digit fold returns only values in [i64::MIN, 0] and fails only with an invalid digit or a negative overflow |
| `IntParse.ParseI64` | api/src/deserializers.rs:7 | every parsed value lies in the i64 range; the `Empty` error occurs exactly for the empty string |
| `IntParse.AccumulatePosCorrect` | api/src/deserializers.rs:7 | the checked upward fold succeeds exactly when every character is a digit and the unchecked fold stays ≤ i64::MAX, and then returns that fold; on an all-digit string it never reports an invalid digit |
| `IntParse.AccumulateNegCorrect` | api/src/deserializers.rs:7 | the checked downward fold succeeds exactly when every character is a digit and the negated fold stays ≥ i64::MIN, and then returns it; on an all-digit string it never reports an invalid digit |
| `IntParse.ParseI64Correct` | api/src/deserializers.rs:7 | the parse gives `Ok(n)` exactly when the string is an optional sign and one or more ASCII digits whose value n lies in [−2^63, 2^63−1]; a well-formed value outside that range is an overflow on its own side |
| `IntParse.RenderParse` | api/src/deserializers.rs:7 | parsing the decimal rendering of n gives n back for every i64, and the matching overflow error for every other integer |
| `IntParse.ParseMax` | api/src/deserializers.rs:7 | "9223372036854775807" parses to i64::MAX |
| `IntParse.ParseMin` | api/src/deserializers.rs:7 | "-9223372036854775808" parses to i64::MIN |
| `IntParse.ParseMaxPlusOne` | api/src/deserializers.rs:7 | "9223372036854775808" is a positive-overflow error |
| `IntParse.ParseMinMinusOne` | api/src/deserializers.rs:7 | "-9223372036854775809" is a negative-overflow error |
| `Deserializers.I64FromString` | api/src/deserializers.rs:1-8 | the lenient path gives `Some(n)` exactly when the string is a well-formed decimal whose value n is in i64 range, and `None` on every other string (it has no parse-error case) |
| `Deserializers.SoleFromString` | api/src/deserializers.rs:10-19 | the strict path succeeds exactly on the same strings, with `Sole(n)` of the parsed value |
| `Deserializers.StrictAgreesWithLenient` | api/src/deserializers.rs:7-18 | `sole_from_string` gives `Sole(n)` exactly when `i64_from_string` gives `Some(n)`, and an error (never a default `Sole`) exactly when it gives `None` |
| `Deserializers.I64FromStringRoundTrip` | api/src/deserializers.rs:7 | every i64 written in decimal comes back through the lenient path unchanged |
| `Deserializers.Boundaries` | api/src/deserializers.rs:7-18 | both i64 extremes are accepted by both paths |
| `Deserializers.OutOfRange` | api/src/deserializers.rs:7-18 | one past either extreme gives `None` leniently and an overflow error strictly |
| `Deserializers.Malformed` | api/src/deserializers.rs:7-17 | empty strings, lone signs, surrounding or embedded blanks, non-digits and double signs give `None` leniently; strictly, the empty string is an `Empty` error and a lone sign an `InvalidDigit` error |
| `Deserializers.LenientAccepts` | api/src/deserializers.rs:7 | leading zeros, an explicit `+` and `-0` are accepted |

## Left out

- Conversion.MartianSolsElapsed: computes the exact rational ceiling, while the source divides in f64. On chrono's whole range (|Δ| < 8.3·10¹² seconds) the exact ceiling equals the f64 computation. Beyond about 3·10¹³ seconds, which chrono cannot represent, rounding of the f64 quotient can lose one sol; the model does not capture that. The model also ignores the saturating `as i64` cast. The model's input bound is |Δ| ≤ 2^53 (`Conversion.FitsI64`), which covers chrono's whole date range.
- The i64 subtraction `timestamp − landing` is computed on unbounded integers. chrono's timestamps are far from the i64 limits, so it cannot overflow for any instant chrono can represent.
- Construction of chrono `DateTime` values and RFC 3339 parsing in the tests are not modelled. The lemmas use the precomputed Unix seconds (1344230220 + 59356800, and 1770678000).
- serde plumbing is left out: `String::deserialize` and its error, and the `serde::de::Error::custom` conversion. The input is a Dafny `string`; the strict path's error is a value carrying the parse error kind, not its message text.
- Rust parses bytes, so a non-ASCII character becomes several bytes. None of those bytes is an ASCII digit. The model works on characters, and any character other than `0`–`9` is an invalid digit, which gives the same verdict.
- `naivedate_from_string` and `naivetime_from_string` are left out. They only forward to chrono's `parse_from_str` with `%Y-%m-%d` and `%H:%M`, and chrono's exact leniency is not part of this model.
- api/src/main.rs is left out. It is HTTP routing, a TCP listener, a spawned server task and Ctrl-C handling: I/O and concurrency with no logic.
