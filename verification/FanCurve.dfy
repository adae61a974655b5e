/** The fan curve in exact arithmetic (`compute_pwm` and the maximum over sensors). */
module FanCurve {
  import opened Wrappers

  type Pwm = x: int | 0 <= x <= 255

  datatype FanMode = Curve | Fixed

  /** One sensor selector: its curve endpoints, if its own, its chip's thresholds, and how old a sample may be. */
  datatype Selector = Selector(minTemp: Option<real>, maxTemp: Option<real>, warn: real, critical: real, maxAge: nat)

  datatype Profile = Profile(
    enabled: bool, mode: FanMode, fixedPwm: Option<Pwm>, sensors: seq<Selector>,
    minTemp: real, maxTemp: real, minPwm: Pwm, minStopPwm: Pwm, minStartPwm: Pwm, maxPwm: Pwm)
  {
    function MinTempOf(i: nat): real
      requires i < |sensors|
    {
      if sensors[i].minTemp.Some? then sensors[i].minTemp.value else minTemp
    }

    function MaxTempOf(i: nat): real
      requires i < |sensors|
    {
      if sensors[i].maxTemp.Some? then sensors[i].maxTemp.value else maxTemp
    }

    /** What configuration validation establishes; nothing about `minStartPwm`, or `minPwm` against `minStopPwm`. */
    predicate Valid() {
      && minTemp < maxTemp && minPwm <= maxPwm && minStopPwm <= maxPwm
      && (mode.Fixed? ==> fixedPwm.Some? && minPwm <= fixedPwm.value <= maxPwm)
      && forall i | 0 <= i < |sensors| :: MinTempOf(i) < MaxTempOf(i)
    }
  }

  /** To the nearest integer, halves away from zero. */
  function Round(x: real): int {
    if x >= 0.0 then (x + 0.5).Floor else -((-x + 0.5).Floor)
  }

  function Clamp(x: int): Pwm {
    if x < 0 then 0 else if x > 255 then 255 else x
  }

  function Line(temp: real, minTemp: real, maxTemp: real, p: Profile): real
    requires minTemp < maxTemp
  {
    Share(temp - minTemp, maxTemp - minTemp, (p.maxPwm - p.minStopPwm) as real) + p.minStopPwm as real
  }

  /** The part of `w` that `x` is of `d`. */
  function Share(x: real, d: real, w: real): real
    requires d > 0.0
  {
    x * w / d
  }

  function ComputePwm(temp: real, minTemp: real, maxTemp: real, p: Profile): Pwm
    requires minTemp < maxTemp
  {
    var raw := if temp <= minTemp then p.minPwm as real
               else if temp >= maxTemp then p.maxPwm as real
               else Line(temp, minTemp, maxTemp, p);
    Clamp(Round(raw))
  }

  /** What the hottest-demanding of the first `n` sensors asks for, if any has a reading. */
  function Demand(p: Profile, readings: seq<Option<real>>, n: nat): Option<Pwm>
    requires p.Valid() && n <= |readings| == |p.sensors|
  {
    if n == 0 then None
    else
      var rest := Demand(p, readings, n - 1);
      if readings[n - 1].None? then rest
      else
        var pwm := ComputePwm(readings[n - 1].value, p.MinTempOf(n - 1), p.MaxTempOf(n - 1), p);
        if rest.Some? && rest.value > pwm then rest else Some(pwm)
  }

  // ---------- one sensor ----------

  lemma RoundMonotone(x: real, y: real)
    requires 0.0 <= x <= y
    ensures Round(x) <= Round(y)
  {
  }

  lemma RoundOfInt(n: int)
    requires n >= 0
    ensures Round(n as real) == n
  {
  }

  /** Between the endpoints the line runs from `minStopPwm` to `maxPwm`, rising. */
  lemma LineRises(a: real, b: real, minTemp: real, maxTemp: real, p: Profile)
    requires minTemp <= a <= b <= maxTemp && minTemp < maxTemp && p.minStopPwm <= p.maxPwm
    ensures p.minStopPwm as real <= Line(a, minTemp, maxTemp, p) <= Line(b, minTemp, maxTemp, p) <= p.maxPwm as real
  {
    hide Share;
    Proportion(a - minTemp, b - minTemp, maxTemp - minTemp, (p.maxPwm - p.minStopPwm) as real);
  }

  lemma Proportion(x: real, y: real, d: real, w: real)
    requires 0.0 <= x <= y <= d && d > 0.0 && w >= 0.0
    ensures 0.0 <= Share(x, d, w) <= Share(y, d, w) <= w
  {
    ScaleMonotone(0.0, x, w);
    ScaleMonotone(x, y, w);
    ScaleMonotone(y, d, w);
    DivideMonotone(0.0, x * w, d);
    DivideMonotone(x * w, y * w, d);
    DivideMonotone(y * w, d * w, d);
    DivideBack(d * w, w, d);
  }

  lemma ScaleMonotone(x: real, y: real, w: real)
    requires x <= y && w >= 0.0
    ensures x * w <= y * w
  {
    assert (y - x) * w >= 0.0;
  }

  lemma DivideBack(x: real, w: real, d: real)
    requires d != 0.0 && x == d * w
    ensures x / d == w
  {
  }

  lemma DivideMonotone(x: real, y: real, d: real)
    requires x <= y && d > 0.0
    ensures x / d <= y / d
  {
    var q, r := x / d, y / d;
    assert q * d == x && r * d == y;
    assert q > r ==> (q - r) * d > 0.0;
  }

  lemma PwmBounds(temp: real, minTemp: real, maxTemp: real, p: Profile)
    requires p.Valid() && minTemp < maxTemp
    ensures var low := if p.minPwm < p.minStopPwm then p.minPwm else p.minStopPwm;
            low <= ComputePwm(temp, minTemp, maxTemp, p) <= p.maxPwm
    ensures temp >= maxTemp ==> ComputePwm(temp, minTemp, maxTemp, p) == p.maxPwm
    ensures temp <= minTemp ==> ComputePwm(temp, minTemp, maxTemp, p) == p.minPwm
    ensures minTemp < temp < maxTemp ==> p.minStopPwm <= ComputePwm(temp, minTemp, maxTemp, p)
  {
    hide Line;
    hide Round;
    RoundOfInt(p.minPwm);
    RoundOfInt(p.maxPwm);
    RoundOfInt(p.minStopPwm);
    if minTemp < temp < maxTemp {
      LineRises(temp, temp, minTemp, maxTemp, p);
      RoundMonotone(p.minStopPwm as real, Line(temp, minTemp, maxTemp, p));
      RoundMonotone(Line(temp, minTemp, maxTemp, p), p.maxPwm as real);
    }
  }

  /** The straight line from `minStopPwm` to `maxPwm`. */
  function Straight(temp: real, minTemp: real, maxTemp: real, p: Profile): real
    requires minTemp < maxTemp
  {
    p.minStopPwm as real + (temp - minTemp) * (p.maxPwm - p.minStopPwm) as real / (maxTemp - minTemp)
  }

  /** Between the end points the speed is within half a step of that line. */
  lemma PwmNearLine(temp: real, minTemp: real, maxTemp: real, p: Profile)
    requires p.Valid() && minTemp < temp < maxTemp
    ensures -0.5 <= ComputePwm(temp, minTemp, maxTemp, p) as real - Straight(temp, minTemp, maxTemp, p) <= 0.5
  {
    hide Round;
    hide Line;
    hide Straight;
    var line := Line(temp, minTemp, maxTemp, p);
    LineRises(temp, temp, minTemp, maxTemp, p);
    LineIsStraight(temp, minTemp, maxTemp, p);
    RoundOfInt(p.maxPwm);
    RoundMonotone(line, p.maxPwm as real);
    RoundNear(line);
  }

  lemma LineIsStraight(temp: real, minTemp: real, maxTemp: real, p: Profile)
    requires minTemp < maxTemp
    ensures Line(temp, minTemp, maxTemp, p) == Straight(temp, minTemp, maxTemp, p)
  {
  }

  lemma RoundNear(x: real)
    requires x >= 0.0
    ensures 0 <= Round(x) && -0.5 <= Round(x) as real - x <= 0.5
  {
  }

  lemma PwmMonotone(a: real, b: real, minTemp: real, maxTemp: real, p: Profile)
    requires p.Valid() && minTemp < maxTemp && a <= b && p.minPwm <= p.minStopPwm
    ensures ComputePwm(a, minTemp, maxTemp, p) <= ComputePwm(b, minTemp, maxTemp, p)
  {
    hide Line;
    hide Round;
    PwmBounds(a, minTemp, maxTemp, p);
    PwmBounds(b, minTemp, maxTemp, p);
    if minTemp < a && b < maxTemp {
      LineRises(a, b, minTemp, maxTemp, p);
      RoundMonotone(Line(a, minTemp, maxTemp, p), Line(b, minTemp, maxTemp, p));
    }
  }

  /** Some temperature just above the minimum asks for `minStopPwm`. */
  lemma JustAboveMinimum(minTemp: real, maxTemp: real, p: Profile) returns (t: real)
    requires p.Valid() && minTemp < maxTemp
    ensures minTemp < t < maxTemp && ComputePwm(t, minTemp, maxTemp, p) == p.minStopPwm
  {
    var d := maxTemp - minTemp;
    t := minTemp + d / 1000.0;
    var w := (p.maxPwm - p.minStopPwm) as real;
    assert Line(t, minTemp, maxTemp, p) == w / 1000.0 + p.minStopPwm as real by {
      DivideBack(d / 1000.0 * w, w / 1000.0, d);
    }
  }

  /** A curve never slows the fan as its sensor warms up, rounding included, exactly when `minPwm <= minStopPwm`. */
  lemma CurveMonotoneIff(minTemp: real, maxTemp: real, p: Profile)
    requires p.Valid() && minTemp < maxTemp
    ensures p.minPwm <= p.minStopPwm <==>
            forall a, b | a <= b :: ComputePwm(a, minTemp, maxTemp, p) <= ComputePwm(b, minTemp, maxTemp, p)
  {
    hide ComputePwm;
    if p.minPwm <= p.minStopPwm {
      forall a, b | a <= b ensures ComputePwm(a, minTemp, maxTemp, p) <= ComputePwm(b, minTemp, maxTemp, p) {
        PwmMonotone(a, b, minTemp, maxTemp, p);
      }
    } else {
      var t := JustAboveMinimum(minTemp, maxTemp, p);
      PwmBounds(minTemp, minTemp, maxTemp, p);
      assert ComputePwm(minTemp, minTemp, maxTemp, p) > ComputePwm(t, minTemp, maxTemp, p);
    }
  }

  // ---------- all sensors together ----------

  lemma {:induction false} DemandBounds(p: Profile, readings: seq<Option<real>>, n: nat)
    requires p.Valid() && n <= |readings| == |p.sensors|
    ensures Demand(p, readings, n).Some? <==> exists i | 0 <= i < n :: readings[i].Some?
    ensures var low := if p.minPwm < p.minStopPwm then p.minPwm else p.minStopPwm;
            Demand(p, readings, n).Some? ==> low <= Demand(p, readings, n).value <= p.maxPwm
    ensures (exists i | 0 <= i < n :: readings[i].Some? && readings[i].value >= p.MaxTempOf(i)) ==>
              Demand(p, readings, n) == Some(p.maxPwm)
  {
    hide ComputePwm;
    if n > 0 {
      DemandBounds(p, readings, n - 1);
      if readings[n - 1].Some? {
        PwmBounds(readings[n - 1].value, p.MinTempOf(n - 1), p.MaxTempOf(n - 1), p);
      }
    }
  }

  /** Sensor `i` reads, and the speed is that of its temperature between its own end points, if it has them. */
  ghost predicate AsksFor(p: Profile, readings: seq<Option<real>>, i: int, pwm: Pwm)
    requires p.Valid() && |readings| == |p.sensors|
  {
    && 0 <= i < |readings| && readings[i].Some?
    && var own := p.sensors[i];
       var low := if own.minTemp == None then p.minTemp else own.minTemp.value;
       var high := if own.maxTemp == None then p.maxTemp else own.maxTemp.value;
       low < high && pwm == ComputePwm(readings[i].value, low, high, p)
  }

  /** What is asked for in the end is what some sensor asks for, and no sensor asks for more. */
  lemma {:induction false} DemandIsMost(p: Profile, readings: seq<Option<real>>, n: nat) returns (i: int)
    requires p.Valid() && n <= |readings| == |p.sensors|
    ensures Demand(p, readings, n).Some? ==> i < n && AsksFor(p, readings, i, Demand(p, readings, n).value)
    ensures forall j, pwm: Pwm | 0 <= j < n && AsksFor(p, readings, j, pwm) ::
              Demand(p, readings, n).Some? && pwm <= Demand(p, readings, n).value
  {
    hide ComputePwm;
    i := -1;
    if n > 0 {
      i := DemandIsMost(p, readings, n - 1);
      if readings[n - 1].Some? && Demand(p, readings, n) != Demand(p, readings, n - 1) {
        i := n - 1;
      }
    }
  }

  /** A hotter reading anywhere never lowers the demand. */
  lemma {:induction false} DemandMonotone(p: Profile, cooler: seq<Option<real>>, hotter: seq<Option<real>>, n: nat)
    requires p.Valid() && p.minPwm <= p.minStopPwm && n <= |cooler| == |hotter| == |p.sensors|
    requires forall i | 0 <= i < n ::
               cooler[i].Some? == hotter[i].Some? && (cooler[i].Some? ==> cooler[i].value <= hotter[i].value)
    ensures Demand(p, cooler, n).Some? == Demand(p, hotter, n).Some?
    ensures Demand(p, cooler, n).Some? ==> Demand(p, cooler, n).value <= Demand(p, hotter, n).value
  {
    hide ComputePwm;
    if n > 0 {
      DemandMonotone(p, cooler, hotter, n - 1);
      if cooler[n - 1].Some? {
        PwmMonotone(cooler[n - 1].value, hotter[n - 1].value, p.MinTempOf(n - 1), p.MaxTempOf(n - 1), p);
      }
    }
  }
}
