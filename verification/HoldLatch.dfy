/**
 A latch that trips at once and resets only after a steady run: the shape of
 both the CPU power guard (trips on a critical sample, re-arms after a cool
 spell) and a fan's lost-sensor hold (trips after the loss grace, releases
 once the sensor has read steadily).
 */
module HoldLatch {
  import opened Wrappers

  /** One observation; `good` ones count towards a reset, and none is both. */
  datatype Obs = Obs(at: int, trip: bool, good: bool)

  datatype Latch = Latch(on: bool, since: Option<int>)

  const OFF := Latch(false, None)

  function Step(hold: nat, s: Latch, o: Obs): Latch {
    if o.trip then Latch(true, None)
    else if !s.on then s
    else if !o.good then s.(since := None)
    else
      var since := if s.since.Some? then s.since.value else o.at;
      if o.at - since >= hold then OFF else s.(since := Some(since))
  }

  function Run(hold: nat, trace: seq<Obs>): Latch {
    if trace == [] then OFF
    else Step(hold, Run(hold, trace[..|trace| - 1]), trace[|trace| - 1])
  }

  predicate Ordered(trace: seq<Obs>) {
    forall i, j | 0 <= i <= j < |trace| :: trace[i].at <= trace[j].at
  }

  predicate Exclusive(trace: seq<Obs>) {
    forall i | 0 <= i < |trace| :: !(trace[i].trip && trace[i].good)
  }

  // ---------- what the latch means ----------

  /** Observations `k` to `l` are all good and span the hold. */
  predicate Steady(hold: nat, trace: seq<Obs>, k: nat, l: nat) {
    k <= l < |trace| && (forall i | k <= i <= l :: trace[i].good) && trace[l].at - trace[k].at >= hold
  }

  ghost predicate NoSteadyAfter(hold: nat, trace: seq<Obs>, i: nat) {
    forall k: nat, l: nat | i < k :: !Steady(hold, trace, k, l)
  }

  /** It tripped, and no steady run has followed since. */
  ghost predicate Holding(hold: nat, trace: seq<Obs>) {
    exists i | 0 <= i < |trace| :: trace[i].trip && NoSteadyAfter(hold, trace, i)
  }

  /** Where the unbroken good run at the end of the trace starts. */
  function RunStart(trace: seq<Obs>): (k: nat)
    ensures k <= |trace| && (forall i | k <= i < |trace| :: trace[i].good)
    ensures k > 0 ==> !trace[k - 1].good
  {
    if trace == [] then 0
    else if !trace[|trace| - 1].good then |trace|
    else RunStart(trace[..|trace| - 1])
  }

  lemma RunStartGrows(trace: seq<Obs>)
    requires trace != [] && trace[|trace| - 1].good
    ensures var init := trace[..|trace| - 1];
            RunStart(trace) == if init != [] && init[|init| - 1].good then RunStart(init) else |init|
  {
  }

  lemma {:induction false} LatchTracksRun(hold: nat, trace: seq<Obs>)
    requires Exclusive(trace)
    ensures var s := Run(hold, trace);
            && (s.since.Some? ==> s.on)
            && (s.on ==> if trace[|trace| - 1].good then s.since == Some(trace[RunStart(trace)].at)
                         else s.since == None)
            && (s.on ==> trace != [])
  {
    if trace != [] {
      var init := trace[..|trace| - 1];
      LatchTracksRun(hold, init);
      if trace[|trace| - 1].good {
        RunStartGrows(trace);
      }
    }
  }

  lemma SteadyInPrefix(hold: nat, trace: seq<Obs>, k: nat, l: nat)
    requires trace != [] && l < |trace| - 1
    ensures Steady(hold, trace, k, l) <==> Steady(hold, trace[..|trace| - 1], k, l)
  {
    var init := trace[..|trace| - 1];
    assert forall i | 0 <= i < |init| :: init[i] == trace[i];
  }

  /** What one more observation does to `Holding`. */
  lemma HoldingStep(hold: nat, trace: seq<Obs>)
    requires trace != [] && Ordered(trace) && Exclusive(trace)
    ensures var n := |trace| - 1;
            var init := trace[..n];
            Holding(hold, trace) <==>
              trace[n].trip || (Holding(hold, init) && !Steady(hold, trace, RunStart(trace), n))
  {
    var n := |trace| - 1;
    var init := trace[..n];
    var start := RunStart(trace);
    assert forall i | 0 <= i < n :: init[i] == trace[i];
    if trace[n].trip {
      assert NoSteadyAfter(hold, trace, n);
    } else {
      if Holding(hold, init) && !Steady(hold, trace, start, n) {
        var i :| 0 <= i < n && init[i].trip && NoSteadyAfter(hold, init, i);
        forall k: nat, l: nat | i < k ensures !Steady(hold, trace, k, l) {
          if l < n {
            SteadyInPrefix(hold, trace, k, l);
          }
          assert Steady(hold, trace, k, l) && l == n ==> start <= k;
        }
        assert trace[i].trip && NoSteadyAfter(hold, trace, i);
      }
      if Holding(hold, trace) {
        var i :| 0 <= i < |trace| && trace[i].trip && NoSteadyAfter(hold, trace, i);
        assert i < n && init[i].trip;
        forall k: nat, l: nat | i < k ensures !Steady(hold, init, k, l) {
          if l < n {
            SteadyInPrefix(hold, trace, k, l);
          }
        }
        assert start > i;
      }
    }
  }

  /**
   The latch is on exactly while some trip has not been followed by good
   observations spanning the hold; any miss in between starts the span again.
   */
  lemma {:induction false} OnIffHolding(hold: nat, trace: seq<Obs>)
    requires Ordered(trace) && Exclusive(trace)
    ensures Run(hold, trace).on <==> Holding(hold, trace)
  {
    hide RunStart;
    hide NoSteadyAfter;
    if trace != [] {
      var n := |trace| - 1;
      var init := trace[..n];
      OnIffHolding(hold, init);
      HoldingStep(hold, trace);
      LatchTracksRun(hold, init);
      if trace[n].good {
        RunStartGrows(trace);
      }
      assert trace[n].good ==>
               Steady(hold, trace, RunStart(trace), n) == (trace[n].at - trace[RunStart(trace)].at >= hold);
    }
  }
}
