/**
 The scheduler (`Scheduler::poll_with`, `sync_rtc_with`): fires shutdown and
 restart rules as their minute is crossed, and keeps the RTC wake alarm set
 for the next power-on.
 */
module PowerScheduler {
  import opened Wrappers
  import opened Actions
  import opened Calendar
  import opened LocalZone
  import opened PowerRules

  const MAX_GAP := 300
  const RTC_RECHECK := 60
  const NEVER_CHECKED := -0x8000_0000_0000_0000

  /** UTC epoch seconds, away from the ends of `i64` where the source saturates. */
  type Time = x: int | -0x4000_0000_0000_0000 < x < 0x4000_0000_0000_0000

  datatype Fired = Fired(action: Action, countdownSecs: nat, name: string)

  /** Which of one sync's accesses to the wake-alarm file succeed. */
  datatype Access = Access(readOk: bool, disarmOk: bool, armOk: bool)

  const ALL_OK := Access(true, true, true)

  /** One poll: the clock's reading, and how the alarm file behaves. */
  datatype Reading = Reading(now: Time, access: Access)

  /**
   Everything a poll reads or changes. `alarm` is what the wake-alarm file
   holds and `written` everything ever written to it (0 disarms).
   */
  datatype State = State(
    checkedUntil: Option<int>, armed: Option<int>, nextRtcCheck: int, alarm: Option<int>, written: seq<int>)

  // ---------- specification ----------

  /** The last boundary in (`after`, `until`] at which a shutdown or restart is due, and the rule that wins there. */
  function LastDue(rules: seq<Rule>, after: int, until: int, local: int -> LocalTime): Option<(int, Rule)>
    decreases until - after
  {
    var m := until / 60 * 60;
    if m <= after then None
    else match Best(DueAt(rules, m, local, false))
      case Some(r) => Some((m, r))
      case None => LastDue(rules, after, m - 1, local)
  }

  /** Between two boundaries nothing changes; passing one adds that one. */
  lemma LastDueBefore(rules: seq<Rule>, after: int, m: int, now: int, local: int -> LocalTime)
    requires IsBoundary(m) && after < m && now < m
    ensures m - 60 <= now ==> LastDue(rules, after, now, local) == LastDue(rules, after, m - 1, local)
    ensures m - 60 <= after && now <= after ==> LastDue(rules, after, now, local) == None
    ensures m - 60 <= after ==> LastDue(rules, after, m - 1, local) == None
    ensures m - 60 > after ==>
              LastDue(rules, after, m - 1, local)
              == match Best(DueAt(rules, m - 60, local, false))
                 case Some(r) => Some((m - 60, r))
                 case None => LastDue(rules, after, m - 61, local)
  {
    hide DueAt;
    assert (m - 1) / 60 * 60 == m - 60;
    if m - 60 <= now {
      assert now / 60 * 60 == m - 60;
    }
  }

  function ToFire(due: Option<(int, Rule)>): Option<Fired> {
    if due.Some? && due.value.1.action.PowerOff?
    then Some(Fired(due.value.1.action.run, due.value.1.countdownSecs, due.value.1.name))
    else None
  }

  function NextPowerOn(rules: seq<Rule>, now: int, local: int -> LocalTime): Option<int> {
    match NextOccurrence(rules, now, local, true)
    case Some(next) => Some(next.0)
    case None => None
  }

  function Sync(rules: seq<Rule>, s: State, r: Reading, local: int -> LocalTime): State {
    var want := NextPowerOn(rules, r.now, local);
    var s1 := s.(nextRtcCheck := r.now + RTC_RECHECK);
    if !r.access.readOk then s1.(armed := None)
    else if s.alarm == want then s1.(armed := want)
    else if !r.access.disarmOk then s1.(armed := None)
    else
      var s2 := s1.(alarm := None, written := s.written + [0]);
      if want.None? then s2.(armed := None)
      else if !r.access.armOk then s2.(armed := None)
      else s2.(alarm := want, armed := want, written := s2.written + [want.value])
  }

  predicate Jumped(prev: int, now: int) {
    now - prev > MAX_GAP || prev - now > MAX_GAP
  }

  function Poll(rules: seq<Rule>, s: State, r: Reading, local: int -> LocalTime): (State, Option<Fired>) {
    var restart := s.checkedUntil.None? || Jumped(s.checkedUntil.value, r.now);
    var fired := if !restart && s.checkedUntil.value < r.now
                 then ToFire(LastDue(rules, s.checkedUntil.value, r.now, local)) else None;
    var s1 := if restart then s.(checkedUntil := Some(r.now), nextRtcCheck := NEVER_CHECKED)
              else if s.checkedUntil.value < r.now then s.(checkedUntil := Some(r.now))
              else s;
    if HasPowerOn(rules) && (r.now >= s1.nextRtcCheck || (s1.armed.Some? && r.now >= s1.armed.value))
    then (Sync(rules, s1, r, local), fired)
    else (s1, fired)
  }

  predicate HasPowerOn(rules: seq<Rule>) {
    exists r | r in rules :: r.action == PowerOn
  }

  // ---------- the scheduler ----------

  /** The kernel's wake-alarm file; a write that fails changes nothing. */
  class WakeAlarm {
    var alarm: Option<int>
    var written: seq<int>

    method Disarm(ok: bool)
      modifies this
      ensures ok ==> alarm == None && written == old(written) + [0]
      ensures !ok ==> alarm == old(alarm) && written == old(written)
    {
      if ok {
        alarm, written := None, written + [0];
      }
    }

    /** The kernel refuses to replace an armed alarm. */
    method Arm(at: int, ok: bool)
      requires alarm == None
      modifies this
      ensures ok ==> alarm == Some(at) && written == old(written) + [at]
      ensures !ok ==> alarm == old(alarm) && written == old(written)
    {
      if ok {
        alarm, written := Some(at), written + [at];
      }
    }
  }

  class Scheduler {
    const rules: seq<Rule>
    const rtc: Option<WakeAlarm>
    const device: WakeAlarm
    var checkedUntil: Option<int>
    var armed: Option<int>
    var nextRtcCheck: int

    constructor (rules: seq<Rule>, device: WakeAlarm)
      ensures this.rules == rules && this.device == device && Valid()
      ensures Value() == State(None, None, NEVER_CHECKED, device.alarm, device.written)
    {
      this.rules, this.device := rules, device;
      this.rtc := if exists r | r in rules :: r.Selected(true) then Some(device) else None;
      checkedUntil, armed, nextRtcCheck := None, None, NEVER_CHECKED;
    }

    ghost predicate Valid() {
      rtc == if HasPowerOn(rules) then Some(device) else None
    }

    ghost function Value(): State
      reads this, device
    {
      State(checkedUntil, armed, nextRtcCheck, device.alarm, device.written)
    }

    method PollWith(r: Reading, local: int -> LocalTime) returns (fired: Option<Fired>)
      requires Valid()
      modifies this, device
      ensures (Value(), fired) == Poll(rules, old(Value()), r, local)
    {
      fired := None;
      match checkedUntil {
        case None =>
          checkedUntil, nextRtcCheck := Some(r.now), NEVER_CHECKED;
        case Some(prev) =>
          if Jumped(prev, r.now) {
            checkedUntil, nextRtcCheck := Some(r.now), NEVER_CHECKED;
          } else if r.now > prev {
            var due := CrossedSince(prev, r.now, local);
            fired := ToFire(due);
            checkedUntil := Some(r.now);
          }
      }
      if rtc.Some? && (r.now >= nextRtcCheck || (armed.Some? && r.now >= armed.value)) {
        SyncRtcWith(r, local);
      }
    }

    /** The walk over every boundary in (`prev`, `now`], keeping the last that has something due. */
    method CrossedSince(prev: int, now: int, local: int -> LocalTime) returns (due: Option<(int, Rule)>)
      ensures due == LastDue(rules, prev, now, local)
    {
      hide DueAt;
      hide LastDue;
      due := None;
      var m := FirstBoundary(prev);
      LastDueBefore(rules, prev, m, prev, local);
      while m <= now
        invariant IsBoundary(m) && FirstBoundary(prev) <= m
        invariant due == LastDue(rules, prev, m - 1, local)
        invariant m - 60 <= now || m == FirstBoundary(prev)
        decreases now - m
      {
        LastDueBefore(rules, prev, m + 60, m, local);
        match Best(DueAt(rules, m, local, false)) {
          case Some(r) => due := Some((m, r));
          case None =>
        }
        m := m + 60;
      }
      LastDueBefore(rules, prev, m, now, local);
    }

    method SyncRtcWith(r: Reading, local: int -> LocalTime)
      requires Valid()
      modifies this, device
      ensures Value() == if HasPowerOn(rules) then Sync(rules, old(Value()), r, local) else old(Value())
    {
      match rtc {
        case None =>
        case Some(file) =>
          nextRtcCheck := r.now + RTC_RECHECK;
          var want := NextPowerOn(rules, r.now, local);
          if !r.access.readOk {
            armed := None;
            return;
          }
          if file.alarm != want {
            file.Disarm(r.access.disarmOk);
            if !r.access.disarmOk {
              armed := None;
              return;
            }
            if want.Some? {
              file.Arm(want.value, r.access.armOk);
              if !r.access.armOk {
                armed := None;
                return;
              }
            }
          }
          armed := want;
      }
    }
  }
}
