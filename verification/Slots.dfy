/**
 The socket's connection slots: a shared counter, claimed by a weak
 compare-exchange loop (`Slot::acquire`) and given back on drop, stepped by
 any number of threads in any order.
 */
module Slots {
  import opened Wrappers

  /** Where a thread is: not asking, in the loop with the count it last saw, holding a slot, or turned away. */
  datatype Pc = Idle | Trying(seen: int) | Holding | Refused

  datatype State = State(active: int, threads: map<nat, Pc>)

  /** One atomic step of thread `id`. `CasFails` is also what a weak exchange may do for no reason. */
  datatype Step =
    | Load(id: nat) | SeeFull(id: nat) | CasWins(id: nat) | CasFails(id: nat) | Drop(id: nat) | GiveUp(id: nat)

  function PcOf(s: State, id: nat): Pc {
    if id in s.threads then s.threads[id] else Idle
  }

  function Move(s: State, id: nat, pc: Pc): State {
    s.(threads := s.threads[id := pc])
  }

  /** The state after a step, if the thread can take it. */
  function Next(max: nat, s: State, step: Step): Option<State> {
    var id := step.id;
    match (step, PcOf(s, id))
    case (Load(_), Idle) => Some(Move(s, id, Trying(s.active)))
    case (SeeFull(_), Trying(seen)) => if seen >= max then Some(Move(s, id, Refused)) else None
    case (CasWins(_), Trying(seen)) =>
      if seen < max && s.active == seen then Some(Move(s.(active := seen + 1), id, Holding)) else None
    case (CasFails(_), Trying(seen)) => if seen < max then Some(Move(s, id, Trying(s.active))) else None
    case (Drop(_), Holding) => Some(Move(s.(active := s.active - 1), id, Idle))
    case (GiveUp(_), Refused) => Some(Move(s, id, Idle))
    case _ => None
  }

  /** A run: `states[k + 1]` follows `states[k]` by `steps[k]`. */
  predicate IsRun(max: nat, states: seq<State>, steps: seq<Step>) {
    && |states| == |steps| + 1 && states[0] == State(0, map[])
    && forall k | 0 <= k < |steps| :: Next(max, states[k], steps[k]) == Some(states[k + 1])
  }

  function Holders(s: State): set<nat> {
    set id | id in s.threads && s.threads[id].Holding?
  }

  /** Left to itself a new connection gets a slot exactly if one is free, and gives it back when it ends. */
  lemma AloneWinsIffFree(max: nat, s: State, id: nat)
    requires PcOf(s, id) == Idle
    ensures Next(max, s, Load(id)).Some?
    ensures var tried := Next(max, s, Load(id)).value;
            && Next(max, tried, CasWins(id)) != Next(max, tried, SeeFull(id))
            && (Next(max, tried, CasWins(id)) != None <==> s.active < max)
            && (Next(max, tried, SeeFull(id)) != None <==> s.active >= max)
            && (s.active < max ==>
                  var won := Next(max, tried, CasWins(id)).value;
                  && PcOf(won, id) == Holding && won.active == s.active + 1
                  && Next(max, won, Drop(id)).Some? && Next(max, won, Drop(id)).value.active == s.active)
            && (s.active >= max ==>
                  var refused := Next(max, tried, SeeFull(id)).value;
                  PcOf(refused, id) == Refused && refused.active == s.active && Next(max, refused, GiveUp(id)).Some?)
  {
  }

  // ---------- the counter counts the live slots ----------

  predicate Counts(max: nat, s: State) {
    s.active == |Holders(s)| && s.active <= max
  }

  lemma MoveHolders(s: State, id: nat, pc: Pc)
    ensures Holders(Move(s, id, pc)) == if pc.Holding? then Holders(s) + {id} else Holders(s) - {id}
  {
  }

  lemma StepCounts(max: nat, s: State, step: Step)
    requires Counts(max, s) && Next(max, s, step).Some?
    ensures Counts(max, Next(max, s, step).value)
    ensures step.Drop? ==> s.active >= 1
  {
    var t := Next(max, s, step).value;
    var id := step.id;
    MoveHolders(s, id, PcOf(t, id));
    assert t.threads == Move(s, id, PcOf(t, id)).threads;
    assert Holders(t) == Holders(Move(s, id, PcOf(t, id)));
    if step.Drop? {
      assert id in Holders(s);
    }
  }

  /** In every run, `active` is the number of slots held and at most `max`; a drop never takes it below zero. */
  lemma {:induction false} ActiveCountsSlots(max: nat, states: seq<State>, steps: seq<Step>, n: nat)
    requires IsRun(max, states, steps) && n <= |steps|
    ensures Counts(max, states[n]) && states[n].active >= 0
    ensures n < |steps| && steps[n].Drop? ==> states[n].active >= 1
  {
    if n == 0 {
      assert Holders(states[0]) == {};
    } else {
      ActiveCountsSlots(max, states, steps, n - 1);
      assert Next(max, states[n - 1], steps[n - 1]) == Some(states[n]);
      StepCounts(max, states[n - 1], steps[n - 1]);
    }
    if n < |steps| {
      assert Next(max, states[n], steps[n]) == Some(states[n + 1]);
      StepCounts(max, states[n], steps[n]);
    }
  }

  // ---------- a refusal is justified ----------

  /** At moment `k` the counter stood at `seen`, and the thread has been in the loop ever since, up to `n`. */
  predicate SawAt(states: seq<State>, id: nat, seen: int, k: nat, n: nat)
    requires n < |states|
  {
    k < n && states[k].active == seen && forall j | k < j <= n :: PcOf(states[j], id).Trying?
  }

  lemma {:induction false} SeenWasTrue(max: nat, states: seq<State>, steps: seq<Step>, n: nat, id: nat) returns (k: nat)
    requires IsRun(max, states, steps) && n <= |steps| && PcOf(states[n], id).Trying?
    ensures SawAt(states, id, PcOf(states[n], id).seen, k, n)
  {
    var step := steps[n - 1];
    assert Next(max, states[n - 1], step) == Some(states[n]);
    if step.id == id {
      k := n - 1;
    } else {
      k := SeenWasTrue(max, states, steps, n - 1, id);
    }
  }

  /** A thread is turned away only if, at some moment of its own attempt, all slots were held. */
  lemma RefusedOnlyWhenFull(max: nat, states: seq<State>, steps: seq<Step>, n: nat) returns (k: nat)
    requires IsRun(max, states, steps) && n < |steps| && steps[n].SeeFull?
    ensures k < n && |Holders(states[k])| == max
    ensures forall j | k < j <= n :: PcOf(states[j], steps[n].id).Trying?
  {
    assert Next(max, states[n], steps[n]) == Some(states[n + 1]);
    k := SeenWasTrue(max, states, steps, n, steps[n].id);
    ActiveCountsSlots(max, states, steps, k);
  }

  /** A slot is won at a moment when one was free, and is exactly one more. */
  lemma WinTakesAFreeSlot(max: nat, states: seq<State>, steps: seq<Step>, n: nat)
    requires IsRun(max, states, steps) && n < |steps| && steps[n].CasWins?
    ensures |Holders(states[n])| < max
    ensures Holders(states[n + 1]) == Holders(states[n]) + {steps[n].id} && steps[n].id !in Holders(states[n])
  {
    ActiveCountsSlots(max, states, steps, n);
    assert Next(max, states[n], steps[n]) == Some(states[n + 1]);
    MoveHolders(states[n].(active := states[n + 1].active), steps[n].id, Holding);
  }
}
