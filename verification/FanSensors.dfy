/**
 A fan's view of its sensors: when a selector counts as lost and holds the
 fan at full speed, and when it is let go again (`track_sensors`); and the
 critical-temperature override (`update_critical_override`).
 */
module FanSensors {
  import opened Wrappers
  import HoldLatch
  import opened FanCurve

  /** Milliseconds. */
  const LOSS_GRACE := 10_000
  const RECOVERY_HOLD := 30_000

  datatype Sample = Sample(at: Option<int>, value: Option<real>)

  /** The latest sample's value, unless it is missing or stale. */
  function Current(sample: Sample, maxAge: nat, now: int): Option<real> {
    if sample.at.Some? && now - sample.at.value <= maxAge then sample.value else None
  }

  datatype Feed = Feed(everRead: bool, lostSince: Option<int>, held: bool, backSince: Option<int>)

  const NEW_FEED := Feed(false, None, false, None)

  function FeedStep(f: Feed, now: int, hit: bool): Feed {
    if hit then
      var f1 := f.(everRead := true, lostSince := None);
      if !f.held then f1
      else
        var since := if f.backSince.Some? then f.backSince.value else now;
        if now - since >= RECOVERY_HOLD then f1.(held := false, backSince := None)
        else f1.(backSince := Some(since))
    else if f.everRead then
      var since := if f.lostSince.Some? then f.lostSince.value else now;
      f.(backSince := None, lostSince := Some(since), held := f.held || now - since >= LOSS_GRACE)
    else f
  }

  /** Whether one selector had a reading, at one observation. */
  datatype Seen = Seen(at: int, hit: bool)

  function FeedRun(trace: seq<Seen>): Feed {
    if trace == [] then NEW_FEED
    else FeedStep(FeedRun(trace[..|trace| - 1]), trace[|trace| - 1].at, trace[|trace| - 1].hit)
  }

  // ---------- what `held` means ----------

  /** Silent from `i` to `j` after some reading, for at least the grace. */
  predicate SilentSpan(trace: seq<Seen>, i: nat, j: nat)
    requires i <= j < |trace|
  {
    && i > 0 && (forall k | i <= k <= j :: !trace[k].hit)
    && trace[j].at - trace[i].at >= 10_000 && ReadBefore(trace, i)
  }

  /** At `j` the selector, having read before, has been silent on observations spanning the grace. */
  predicate LossSpans(trace: seq<Seen>, j: nat)
    requires j < |trace|
  {
    exists i: nat | i <= j :: SilentSpan(trace, i, j)
  }

  predicate ReadBefore(trace: seq<Seen>, i: nat)
    requires i <= |trace|
  {
    exists p | 0 <= p < i :: trace[p].hit
  }

  function Trips(trace: seq<Seen>): (obs: seq<HoldLatch.Obs>)
    ensures |obs| == |trace|
    ensures forall j | 0 <= j < |trace| :: obs[j] == HoldLatch.Obs(trace[j].at, LossSpans(trace, j), trace[j].hit)
  {
    seq(|trace|, j requires 0 <= j < |trace| => HoldLatch.Obs(trace[j].at, LossSpans(trace, j), trace[j].hit))
  }

  predicate Ordered(trace: seq<Seen>) {
    forall i, j | 0 <= i <= j < |trace| :: trace[i].at <= trace[j].at
  }

  /** Where the unbroken silence at the end of the trace starts. */
  function SilenceStart(trace: seq<Seen>): (k: nat)
    ensures k <= |trace| && (forall i | k <= i < |trace| :: !trace[i].hit)
    ensures k > 0 ==> trace[k - 1].hit
  {
    if trace == [] then 0
    else if trace[|trace| - 1].hit then |trace|
    else SilenceStart(trace[..|trace| - 1])
  }

  lemma TripsOfPrefix(trace: seq<Seen>)
    requires trace != []
    ensures Trips(trace)[..|trace| - 1] == Trips(trace[..|trace| - 1])
    ensures forall j | 0 <= j < |trace| - 1 :: LossSpans(trace[..|trace| - 1], j) == LossSpans(trace, j)
  {
    var init := trace[..|trace| - 1];
    assert forall k | 0 <= k < |init| :: init[k] == trace[k];
    forall i, j | 0 <= i <= j < |init| ensures SilentSpan(init, i, j) == SilentSpan(trace, i, j) {
      assert ReadBefore(init, i) == ReadBefore(trace, i);
    }
    forall j | 0 <= j < |init| ensures LossSpans(init, j) == LossSpans(trace, j) {
    }
  }

  /** The loss timer knows whether the selector ever read, and when the present silence began. */
  lemma {:induction false} FeedTracksSilence(trace: seq<Seen>)
    ensures var f := FeedRun(trace);
            && (f.everRead <==> ReadBefore(trace, |trace|))
            && (!f.everRead ==> f.lostSince.None?)
            && (f.everRead ==>
                  if trace[|trace| - 1].hit then f.lostSince == None
                  else 0 < SilenceStart(trace) < |trace| && f.lostSince == Some(trace[SilenceStart(trace)].at))
  {
    if trace != [] {
      var init := trace[..|trace| - 1];
      FeedTracksSilence(init);
      assert forall k | 0 <= k < |init| :: init[k] == trace[k];
      assert ReadBefore(trace, |trace|) <==> ReadBefore(init, |init|) || trace[|trace| - 1].hit;
    }
  }

  lemma LossSpansIff(trace: seq<Seen>)
    requires trace != [] && Ordered(trace)
    ensures var n := |trace| - 1;
            var f := FeedRun(trace);
            LossSpans(trace, n) <==> !trace[n].hit && f.everRead && trace[n].at - f.lostSince.value >= LOSS_GRACE
  {
    hide FeedRun;
    hide Ordered;
    hide LossSpans;
    FeedTracksSilence(trace);
    LossSpansFromStart(trace);
  }

  /** If any silence up to now spans the grace, the whole present one does. */
  lemma LossSpansFromStart(trace: seq<Seen>)
    requires trace != [] && Ordered(trace)
    ensures var n, k := |trace| - 1, SilenceStart(trace);
            LossSpans(trace, n) <==>
              !trace[n].hit && ReadBefore(trace, |trace|) && trace[n].at - trace[k].at >= LOSS_GRACE
  {
    hide ReadBefore;
    var n, k := |trace| - 1, SilenceStart(trace);
    if LossSpans(trace, n) {
      var i: nat :| i <= n && SilentSpan(trace, i, n);
      assert k <= i;
      assert trace[k].at <= trace[i].at;
      ReadBeforeGrows(trace, i, |trace|);
    }
    if !trace[n].hit && ReadBefore(trace, |trace|) && trace[n].at - trace[k].at >= LOSS_GRACE {
      SilenceFollowsReading(trace);
      assert SilentSpan(trace, k, n);
    }
  }

  lemma ReadBeforeGrows(trace: seq<Seen>, i: nat, j: nat)
    requires i <= j <= |trace| && ReadBefore(trace, i)
    ensures ReadBefore(trace, j)
  {
    var p :| 0 <= p < i && trace[p].hit;
    assert trace[p].hit;
  }

  lemma SilenceFollowsReading(trace: seq<Seen>)
    requires ReadBefore(trace, |trace|)
    ensures SilenceStart(trace) > 0 && ReadBefore(trace, SilenceStart(trace))
  {
    var p :| 0 <= p < |trace| && trace[p].hit;
    var k := SilenceStart(trace);
    assert trace[k - 1].hit;
  }

  lemma {:induction false} FeedIsLatch(trace: seq<Seen>)
    requires Ordered(trace)
    ensures HoldLatch.Run(RECOVERY_HOLD, Trips(trace)) == HoldLatch.Latch(FeedRun(trace).held, FeedRun(trace).backSince)
    ensures !FeedRun(trace).everRead ==> !FeedRun(trace).held
    ensures !FeedRun(trace).held ==> FeedRun(trace).backSince.None?
  {
    if trace == [] {
      assert Trips(trace) == [];
    } else {
      hide LossSpans;
      hide ReadBefore;
      var n := |trace| - 1;
      var init := trace[..n];
      FeedIsLatch(init);
      TripsOfPrefix(trace);
      LossSpansIff(trace);
      FeedTracksSilence(init);
      FeedTracksSilence(trace);
    }
  }

  /**
   A selector is held exactly while some silence that spanned the grace (after
   it had read) has not been followed by readings on consecutive observations
   spanning the recovery hold. One that never read is never held.
   */
  lemma HeldIff(trace: seq<Seen>)
    requires Ordered(trace)
    ensures FeedRun(trace).held <==> HoldLatch.Holding(30_000, Trips(trace))
    ensures !ReadBefore(trace, |trace|) ==> !FeedRun(trace).held
  {
    FeedIsLatch(trace);
    FeedTracksSilence(trace);
    forall j | 0 <= j < |trace| && LossSpans(trace, j) ensures !trace[j].hit {
    }
    HoldLatch.OnIffHolding(RECOVERY_HOLD, Trips(trace));
  }

  // ---------- the critical override ----------

  const PLAUSIBLE_MAX := 125.0

  predicate OverRange(t: real) {
    t > PLAUSIBLE_MAX
  }

  predicate Hot(sensors: seq<Selector>, readings: seq<Option<real>>)
    requires |sensors| == |readings|
  {
    exists i | 0 <= i < |readings| ::
      readings[i].Some? && (readings[i].value >= sensors[i].critical || OverRange(readings[i].value))
  }

  predicate AllBelowWarning(sensors: seq<Selector>, readings: seq<Option<real>>)
    requires |sensors| == |readings|
  {
    forall i | 0 <= i < |readings| ::
      readings[i].Some? ==> readings[i].value < sensors[i].warn && !OverRange(readings[i].value)
  }

  predicate AnyReading(readings: seq<Option<real>>) {
    exists i | 0 <= i < |readings| :: readings[i].Some?
  }

  function OverrideStep(on: bool, sensors: seq<Selector>, readings: seq<Option<real>>): bool
    requires |sensors| == |readings|
  {
    if Hot(sensors, readings) then true
    else if on && AllBelowWarning(sensors, readings) then false
    else on
  }

  /** One observation of the override: set by a hot sensor, reset by a non-empty all-cool set. */
  function OverrideObs(at: int, sensors: seq<Selector>, readings: seq<Option<real>>): HoldLatch.Obs
    requires |sensors| == |readings|
  {
    var hot := Hot(sensors, readings);
    HoldLatch.Obs(at, hot, !hot && AnyReading(readings) && AllBelowWarning(sensors, readings))
  }

  /** In plain temperatures: what sets the override, and what counts towards its reset. */
  lemma OverrideObsMeans(at: int, sensors: seq<Selector>, readings: seq<Option<real>>)
    requires |sensors| == |readings|
    ensures OverrideObs(at, sensors, readings).at == at
    ensures OverrideObs(at, sensors, readings).trip <==>
            exists i, c | 0 <= i < |readings| && readings[i] == Some(c) :: c >= sensors[i].critical || c > 125.0
    ensures OverrideObs(at, sensors, readings).good <==>
            && (exists i | 0 <= i < |readings| :: readings[i] != None)
            && (forall i, c | 0 <= i < |readings| && readings[i] == Some(c) ::
                  c < sensors[i].critical && c < sensors[i].warn && c <= 125.0)
  {
    var obs := OverrideObs(at, sensors, readings);
    if obs.trip {
      var i :| 0 <= i < |readings| && readings[i].Some?
               && (readings[i].value >= sensors[i].critical || OverRange(readings[i].value));
      assert readings[i] == Some(readings[i].value);
    }
    forall i | 0 <= i < |readings| && readings[i].Some? ensures readings[i] == Some(readings[i].value) {
    }
  }

  /** A sample counts as long as it is not older than its sensor's samples may be. */
  lemma CurrentIff(sample: Sample, maxAge: nat, now: int, c: real)
    ensures Current(sample, maxAge, now) == Some(c)
            <==> sample.value == Some(c) && sample.at != None && now <= sample.at.value + maxAge
  {
  }

  /**
   With no reading at all the override is not consulted and keeps its state;
   otherwise it is a plain set/reset latch.
   */
  lemma OverrideIsLatch(on: bool, at: int, sensors: seq<Selector>, readings: seq<Option<real>>)
    requires |sensors| == |readings|
    ensures HoldLatch.Step(0, HoldLatch.Latch(on, None), OverrideObs(at, sensors, readings))
            == HoldLatch.Latch(if AnyReading(readings) then OverrideStep(on, sensors, readings) else on, None)
  {
  }
}
