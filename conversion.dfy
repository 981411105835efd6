/** Earth instant -> number of Martian sols elapsed since Curiosity's landing.

    The source divides the signed second difference by 88775.245 (the length of
    a sol in seconds) in floating point and rounds up. Because the constant has
    exactly three decimals, the model works on exact integers: a sol is
    88775245 milliseconds, and the number of sols is the ceiling of
    1000 * delta / 88775245.
 */
module Conversion {
  import opened Int64

  /** 2012-08-06 05:17:00 UTC, in Unix seconds. */
  const LandingUnixTs: int := 1344230220

  /** Length of one sol, in milliseconds (88775.245 seconds). */
  const SolMillis: int := 88775245

  /** Largest integer magnitude an f64 holds exactly; the model's input bound on delta. */
  const F64ExactBound: int := 0x20_0000_0000_0000

  /** Ceiling of a / b for a positive divisor; `/` is Euclidean, i.e. floor for b > 0. */
  function CeilDiv(a: int, b: int): (q: int)
    requires b > 0
    ensures (q - 1) * b < a <= q * b
  {
    var f := (-a) / b;
    assert -a == f * b + (-a) % b;
    -f
  }

  /** Seconds elapsed since the landing instant (negative before landing). */
  function Delta(unixTs: int): int
  {
    unixTs - LandingUnixTs
  }

  /** calculate_no_of_martian_sol_elapsed, on the `.timestamp()` of its argument.
      The result is the least integer not below delta / 88775.245. */
  function MartianSolsElapsed(unixTs: int): (sol: int)
    ensures (sol - 1) * SolMillis < 1000 * Delta(unixTs) <= sol * SolMillis
  {
    CeilDiv(1000 * Delta(unixTs), SolMillis)
  }

  /** If s*b and t*b bracket the same value from opposite sides, then s <= t. */
  lemma {:induction false} BracketOrder(x: int, b: int, s: int, t: int)
    requires b > 0
    requires (s - 1) * b < x
    requires x <= t * b
    ensures s <= t
  {
    if s > t {
      assert s - 1 >= t;
      MulMonotone(t, s - 1, b);
      assert false;
    }
  }

  lemma {:induction false} MulMonotone(x: int, y: int, b: int)
    requires b > 0
    requires x <= y
    ensures x * b <= y * b
  {
    assert y * b - x * b == (y - x) * b;
  }

  /** The result is the smallest sol count whose duration reaches delta. */
  lemma {:induction false} SolIsLeastUpperCount(unixTs: int, k: int)
    requires 1000 * Delta(unixTs) <= k * SolMillis
    ensures MartianSolsElapsed(unixTs) <= k
  {
    BracketOrder(1000 * Delta(unixTs), SolMillis, MartianSolsElapsed(unixTs), k);
  }

  /** Exactly at the landing instant no sol has started: ceil(0) = 0, not 1. */
  lemma AtLanding()
    ensures MartianSolsElapsed(LandingUnixTs) == 0
  {
    BracketOrder(0, SolMillis, MartianSolsElapsed(LandingUnixTs), 0);
    BracketOrder(0, SolMillis, 0, MartianSolsElapsed(LandingUnixTs));
  }

  /** A partial sol counts as started: the first 88775 seconds after landing give sol 1,
      and no other delta does. */
  lemma {:induction false} FirstSol(unixTs: int)
    ensures MartianSolsElapsed(unixTs) == 1 <==> 1 <= Delta(unixTs) <= 88775
  {
    var sol := MartianSolsElapsed(unixTs);
    var d := Delta(unixTs);
    if 1 <= d <= 88775 {
      BracketOrder(1000 * d, SolMillis, sol, 1);
      BracketOrder(1000 * d, SolMillis, 1, sol);
    }
    if sol == 1 {
      assert 0 < 1000 * d <= SolMillis;
    }
  }

  /** Later instants never give fewer sols. */
  lemma {:induction false} Monotone(ts1: int, ts2: int)
    requires ts1 <= ts2
    ensures MartianSolsElapsed(ts1) <= MartianSolsElapsed(ts2)
  {
    BracketOrder(1000 * Delta(ts1), SolMillis, MartianSolsElapsed(ts1), MartianSolsElapsed(ts2));
  }

  /** The function is total; the sol count is positive exactly after landing,
      so every instant at or before landing gives a count <= 0. */
  lemma {:induction false} PositiveIffAfterLanding(unixTs: int)
    ensures MartianSolsElapsed(unixTs) > 0 <==> Delta(unixTs) > 0
  {
    var sol := MartianSolsElapsed(unixTs);
    var d := Delta(unixTs);
    if d > 0 {
      if sol <= 0 {
        MulMonotone(sol, 0, SolMillis);
        assert false;
      }
    } else {
      BracketOrder(1000 * d, SolMillis, sol, 0);
    }
  }

  /** One Earth-year-equivalent of Mars (687 days after landing) gives sol 669. */
  lemma MartianYearAfterLanding()
    ensures MartianSolsElapsed(LandingUnixTs + 687 * 86400) == 669
  {
    var ts := LandingUnixTs + 687 * 86400;
    assert 1000 * Delta(ts) == 59356800000;
    BracketOrder(59356800000, SolMillis, MartianSolsElapsed(ts), 669);
    BracketOrder(59356800000, SolMillis, 669, MartianSolsElapsed(ts));
  }

  /** 2026-02-10T00:00:00+01:00 is Unix 1770678000 and gives sol 4804. */
  lemma Feb2026()
    ensures MartianSolsElapsed(1770678000) == 4804
  {
    assert 1000 * Delta(1770678000) == 426447780000;
    BracketOrder(426447780000, SolMillis, MartianSolsElapsed(1770678000), 4804);
    BracketOrder(426447780000, SolMillis, 4804, MartianSolsElapsed(1770678000));
  }

  /** Within the exactly-representable f64 range the sol count fits in an i64,
      so the source's saturating `as i64` cast never changes it. */
  lemma {:induction false} FitsI64(unixTs: int)
    requires -F64ExactBound <= Delta(unixTs) <= F64ExactBound
    ensures InI64(MartianSolsElapsed(unixTs))
  {
    var sol := MartianSolsElapsed(unixTs);
    var d := Delta(unixTs);
    BracketOrder(1000 * d, SolMillis, sol, F64ExactBound);
    BracketOrder(1000 * d, SolMillis, -F64ExactBound + 1, sol);
  }
}
