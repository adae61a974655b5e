/** Front LED brightness: percent to raw value and back (`brightness_value`, `brightness_percent`). */
module Brightness {

  type Percent = x: int | 0 <= x <= 100

  const MAX_U32 := 0xFFFF_FFFF
  const MAX_U64 := 0xFFFF_FFFF_FFFF_FFFF

  /** `percent` of `max`, rounded. */
  function Value(percent: Percent, max: nat): (v: nat) {
    (percent * max + 50) / 100
  }

  /** `value` as a percentage of `max`, rounded; 0 of nothing. */
  function PercentOf(value: nat, max: nat): nat {
    if max == 0 then 0
    else
      var v := if value < max then value else max;
      (v * 100 + max / 2) / max
  }

  predicate RoundTrips(max: nat) {
    forall p: Percent :: PercentOf(Value(p, max), max) == p
  }

  lemma Quotient(a: int, q: int, r: int, d: int)
    requires d > 0 && 0 <= r < d && a == q * d + r
    ensures a / d == q
  {
    var k := a / d - q;
    assert k * d == r - a % d;
    AtLeastOnce(k, d);
    AtLeastOnce(-k, d);
  }

  lemma AtLeastOnce(k: int, d: int)
    requires d > 0
    ensures k >= 1 ==> k * d >= d
  {
    if k >= 1 {
      assert (k - 1) * d >= 0;
    }
  }

  /** Rounding to hundredths is off by at most half of one. */
  lemma Rounded(x: int)
    ensures -50 < 100 * ((x + 50) / 100) - x <= 50
  {
  }

  /** The raw value is the step nearest to the percentage asked for. */
  lemma NearestValue(percent: Percent, max: nat)
    ensures -50 < 100 * Value(percent, max) - percent * max <= 50
  {
    Rounded(percent * max);
  }

  /** The percentage is the one nearest to the raw value; all of nothing is 0, and more than the maximum is 100. */
  lemma NearestPercent(value: nat, max: nat)
    ensures PercentOf(value, 0) == 0 && (value >= max > 0 ==> PercentOf(value, max) == 100)
    ensures value <= max && max > 0 ==> -(max as int) <= 2 * (max * PercentOf(value, max) - 100 * value) <= max
  {
    if max > 0 {
      var v := if value < max then value else max;
      var a := v * 100 + max / 2;
      var q := a / max;
      assert q * max == a - a % max;
      if value >= max {
        Quotient(a, 100, max / 2, max);
      }
    }
  }

  /** No step overflows, and no value exceeds the maximum. */
  lemma ValueFits(p: Percent, max: nat)
    requires max <= MAX_U32
    ensures p * max + 50 <= MAX_U64 && Value(p, max) <= max
    ensures Value(p, max) * 100 + max / 2 <= MAX_U64
  {
    hide Value;
    ValueFitsMax(p, max);
    AtMostHundredfold(p, max);
  }

  lemma AtMostHundredfold(p: Percent, max: nat)
    ensures p * max <= 100 * max
  {
    assert (100 - p) * max >= 0;
  }

  lemma ReadsBack(p: Percent, max: nat)
    requires max >= 100
    ensures PercentOf(Value(p, max), max) == p
  {
    ValueFitsMax(p, max);
    var v, x := Value(p, max), p * max;
    Rounded(x);
    Quotient(v * 100 + max / 2, p, 100 * v - x + max / 2, max);
  }

  lemma ValueFitsMax(p: Percent, max: nat)
    ensures Value(p, max) <= max
  {
    AtMostHundredfold(p, max);
    Rounded(p * max);
  }

  /** Values of consecutive percentages cannot all differ when there are fewer values than percentages. */
  lemma {:induction false} DistinctValuesClimb(max: nat, k: Percent)
    requires max > 0 && RoundTrips(max)
    ensures Value(k, max) >= k
  {
    if k > 0 {
      DistinctValuesClimb(max, k - 1);
      assert Value(k - 1, max) <= Value(k, max) by {
        assert (k - 1) * max <= k * max;
      }
      assert PercentOf(Value(k - 1, max), max) == k - 1;
      assert PercentOf(Value(k, max), max) == k;
    }
  }

  /** Every percentage survives being written and read back exactly when the device has at least 100 steps. */
  lemma RoundTripsIff(max: nat)
    ensures RoundTrips(max) <==> max >= 100
  {
    if max >= 100 {
      forall p: Percent ensures PercentOf(Value(p, max), max) == p {
        ReadsBack(p, max);
      }
    } else if max == 0 {
      assert PercentOf(Value(1, 0), 0) == 0;
    } else if RoundTrips(max) {
      DistinctValuesClimb(max, 100);
    }
  }
}
