/**
 The front-panel state machine (`AppState`): status screens, the action menu,
 confirmation, scheduled countdowns, messages, locates and sleep, with the
 LEDs kept up to date step by step.
 */
module Panel {
  import opened Wrappers
  import opened Actions
  import opened Leds
  import opened Alarms
  import opened PanelLeds
  import opened PanelHistory

  datatype Mode =
    | Status
    | ActionMenu(selection: nat)
    | Confirm(action: Action, deadline: int)
    | Countdown(action: Action, deadline: int, name: string)

  /** Seconds, and whether night mode darkens the front LEDs or only dims them. */
  datatype Config = Config(
    nightDarkens: bool, confirmTimeout: nat, resumeAfter: nat, dwell: nat, networkMin: nat, poolsMin: nat, hddMin: nat)

  /** What the daemon finds out when it refreshes: disks per bay, health alarms, temperatures, number of screens. */
  datatype Sample = Sample(
    scan: Scan, health: seq<Alarm>, tempLevel: Level, tempsChecked: bool, screens: nat, scrolling: bool)

  /** Which screen the LCD shows. */
  datatype Screen =
    | LocateScreen | AlarmScreen(alarm: Alarm) | MessageScreen(message: Message) | StatusScreen(index: nat)
    | MenuScreen(selection: nat) | ConfirmScreen(action: Action) | CountdownScreen(action: Action, left: int)

  datatype Effect = Render(screen: Screen) | Blank | RunAction(action: Action) | NoEffect

  datatype Command =
    | Clear(bay: Option<nat>)
    | Show(level: Level, ttl: nat, bay: Option<nat>, line0: string, line1: string, style: Style)
    | StartLocating(bay: Option<nat>, ttl: nat)
    | StopLocating(bay: Option<nat>)

  function Pushed(over: Option<Message>): seq<Alarm> {
    if over.None? then []
    else
      var m := over.value;
      match PatternForShow(m.level, m.style)
      case Some(p) => [Alarm(m.level, p, m.line0, m.line1)]
      case None => []
  }

  predicate Due(until: Option<int>, now: int) {
    until.Some? && now >= until.value
  }

  predicate Stale(at: Option<int>, floor: nat, now: int) {
    at.None? || now - at.value >= floor
  }

  /** Urgent messages never expire. */
  predicate Persists(m: Option<Message>) {
    m.Some? && m.value.level.AlwaysVisible() ==> m.value.expiresAt.None?
  }

  function AlertBayOf(over: Option<Message>): Option<nat> {
    if over.Some? && over.value.level.AlwaysVisible() then over.value.bay else None
  }

  function BaysOf(bay: Option<nat>): set<nat> {
    if bay.Some? then {bay.value} else {}
  }

  /** Urgent messages persist whatever time to live was asked for. */
  function AsMessage(cmd: Command, now: int): (m: Message)
    requires cmd.Show?
    ensures Persists(Some(m)) && m.level == cmd.level && m.style == cmd.style && m.bay == cmd.bay
    ensures m.line0 == cmd.line0 && m.line1 == cmd.line1
    ensures m.expiresAt == if cmd.level == Error || cmd.level == Critical || cmd.ttl == 0 then None
                           else Some(now + cmd.ttl)
  {
    var expiresAt := if cmd.level.AlwaysVisible() || cmd.ttl == 0 then None else Some(now + cmd.ttl);
    Message(cmd.level, cmd.style, expiresAt, cmd.bay, cmd.line0, cmd.line1)
  }

  /** The five-second note that a countdown was stopped. */
  function Cancelled(action: Action, now: int): (m: Message)
    ensures m.level == Info && m.bay == None && m.expiresAt == Some(now + 5) && PatternForShow(m.level, m.style) == None
    ensures m.line0 == (if action == Shutdown then "SHUTDOWN" else "RESTART") && m.line1 == "CANCELLED"
  {
    Message(Info, PLAIN, Some(now + 5), None, if action.Shutdown? then "SHUTDOWN" else "RESTART", "CANCELLED")
  }

  /** The locates that have not run out. */
  function Running(bays: map<nat, Option<int>>, chassis: Option<Option<int>>, now: int):
    (map<nat, Option<int>>, Option<Option<int>>)
  {
    (map b | b in bays && !Due(bays[b], now) :: bays[b],
     if chassis.Some? && Due(chassis.value, now) then None else chassis)
  }

  /** The locates a command leaves running. */
  function LocatesAfter(cmd: Command, now: int, bays: map<nat, Option<int>>, chassis: Option<Option<int>>):
    (map<nat, Option<int>>, Option<Option<int>>)
  {
    match cmd
    case StartLocating(bay, ttl) =>
      var until := if ttl > 0 then Some(now + ttl) else None;
      if bay.Some? then (bays[bay.value := until], chassis) else (bays, Some(until))
    case StopLocating(bay) => if bay.Some? then (bays - {bay.value}, chassis) else (map[], None)
    case _ => (bays, chassis)
  }

  /** What is shown once `m` has had its turn: it replaces anything not more severe. */
  function Accepted(over: Option<Message>, m: Option<Message>): Option<Message> {
    if m.None? || (over.Some? && m.value.level.Rank() < over.value.level.Rank()) then over else m
  }

  /** What a CLEAR leaves: a bare one clears any message, one for a bay only that bay's. */
  function Cleared(over: Option<Message>, bay: Option<nat>): Option<Message> {
    if bay.None? || (over.Some? && bay == over.value.bay) then None else over
  }

  /** Another start during a countdown: deadline and name stay, and a shutdown wins. */
  function Continued(mode: Mode, action: Action): Mode
    requires mode.Countdown?
  {
    mode.(action := if action.Shutdown? then Shutdown else mode.action)
  }

  predicate TimedOut(mode: Mode, now: int) {
    (mode.Confirm? || mode.Countdown?) && now >= mode.deadline
  }

  function Unexpired(over: Option<Message>, now: int): Option<Message> {
    if over.Some? && Due(over.value.expiresAt, now) then None else over
  }

  /**
   The message a tick leaves: an expired one goes, and a held one gets its turn
   when the question or countdown ends.
   */
  function OverAfterTick(over: Option<Message>, mode: Mode, pending: Option<Message>, now: int): Option<Message> {
    if !TimedOut(mode, now) then Unexpired(over, now)
    else if mode.Confirm? then Accepted(Unexpired(over, now), pending)
    else Accepted(over, pending)
  }

  lemma OverAfterTickKeeps(over: Option<Message>, mode: Mode, pending: Option<Message>, now: int)
    ensures AtLeast(OverAfterTick(over, mode, pending, now), over) || Due(over.value.expiresAt, now)
  {
  }

  /** The message a key leaves, pressed while awake: leaving menu, question or countdown gives a held one its turn. */
  function OverAfterKey(over: Option<Message>, mode: Mode, pending: Option<Message>, key: Key, now: int):
    Option<Message>
  {
    match mode
    case Status => over
    case ActionMenu(_) => if key.Back? then Accepted(over, pending) else over
    case Confirm(_, _) => if key.Back? || key.Enter? then Accepted(over, pending) else over
    case Countdown(action, _, _) => Accepted(Accepted(over, pending), Some(Cancelled(action, now)))
  }

  /** Enter opens the menu, picks, and runs; Up and Down move in the menu; Back leaves; any key cancels a countdown. */
  function ModeAfterKey(mode: Mode, key: Key, now: int, cfg: Config): Mode {
    match mode
    case Status => if key.Enter? then ActionMenu(0) else Status
    case ActionMenu(selection) =>
      if key.Up? || key.Down? then ActionMenu(if selection == 0 then 1 else 0)
      else if key.Enter? then Confirm(Choice(selection), now + cfg.confirmTimeout)
      else if key.Back? then Status else mode
    case Confirm(_, _) => if key.Enter? || key.Back? then Status else mode
    case Countdown(_, _, _) => Status
  }

  /** What the daemon last found out, and when; and the status screen it is at. */
  datatype Caches = Caches(
    scan: Scan, networkAt: Option<int>, poolsAt: Option<int>, hddAt: Option<int>, ledInputs: Option<(Level, Level)>,
    screens: nat, index: nat)

  function Stamped(at: Option<int>, floor: nat, now: int): Option<int> {
    if Stale(at, floor, now) then Some(now) else at
  }

  /** A refresh looks again at whatever is due. */
  function Refreshed(c: Caches, cfg: Config, fanHealth: Level, now: int, s: Sample): Caches {
    var screens := if s.screens == 0 then 1 else s.screens;
    var rescan := Stale(c.poolsAt, cfg.poolsMin, now) || Stale(c.hddAt, cfg.hddMin, now);
    Caches(
      if rescan then s.scan else c.scan,
      Stamped(c.networkAt, cfg.networkMin, now), Stamped(c.poolsAt, cfg.poolsMin, now),
      Stamped(c.hddAt, cfg.hddMin, now),
      Some((fanHealth, s.tempLevel)), screens, if c.index < screens then c.index else 0)
  }

  /** Waking up looks at everything again. */
  function RefreshedAll(c: Caches, cfg: Config, fanHealth: Level, now: int, s: Sample): Caches {
    Refreshed(c.(networkAt := None, poolsAt := None, hddAt := None), cfg, fanHealth, now, s)
  }

  /** Whether the status screens rotate by themselves, since when not, and when they last moved. */
  datatype Paging = Paging(autoRotate: bool, resumeAt: Option<int>, lastDwell: int)

  /** The screen after or before this one, wrapping at both ends. */
  function PageFrom(index: nat, screens: nat, forward: bool): nat
    requires screens > 0
  {
    (if forward then index + 1 else index + screens - 1) % screens
  }

  /** Rotation goes on once it is time to; `rotated`: the screens moved on just now. */
  function Resumed(p: Paging, now: int, rotated: bool): Paging {
    var q := if !p.autoRotate && Due(p.resumeAt, now) then p.(autoRotate := true, resumeAt := None) else p;
    if rotated then q.(lastDwell := now) else q
  }

  function Moved(c: Caches, rotated: bool): Caches {
    if rotated && c.screens > 0 then c.(index := (c.index + 1) % c.screens) else c
  }

  /** What is left of the grace period after a key woke the panel. */
  function Grace(until: Option<int>, now: int): Option<int> {
    if until.Some? && now < until.value then until else None
  }

  /** What a tick did: ran an action, woke the panel, left it asleep, moved the status screens on. */
  datatype Did = Did(ran: bool, woke: bool, asleep: bool, rotated: bool)

  function CachesAfterTick(did: Did, c: Caches, cfg: Config, fanHealth: Level, now: int, s: Sample): Caches {
    if did.ran then c
    else if did.woke then RefreshedAll(c, cfg, fanHealth, now, s)
    else if did.asleep then Refreshed(c, cfg, fanHealth, now, s)
    else Moved(Refreshed(c, cfg, fanHealth, now, s), did.rotated)
  }

  function PagingAfterTick(did: Did, p: Paging, now: int): Paging {
    if did.ran || did.woke || did.asleep then p else Resumed(p, now, did.rotated)
  }

  /** Of two messages the more severe stays, and of equally severe ones the newer. */
  lemma NewerOfEqualsStays(shown: Message, m: Message)
    ensures Accepted(None, Some(m)) == Some(m) && Accepted(Some(shown), None) == Some(shown)
    ensures Accepted(Some(shown), Some(m)) == Some(m) <==> shown == m || shown.level.Rank() <= m.level.Rank()
    ensures Accepted(Some(shown), Some(m)) == Some(shown) <==> shown == m || m.level.Rank() < shown.level.Rank()
  {
  }

  /** A bare CLEAR clears anything; one for a bay only a message that names that bay. */
  lemma ClearedIff(m: Message, bay: Option<nat>)
    ensures Cleared(Some(m), bay) == None <==> bay == None || m.bay == bay
    ensures Cleared(Some(m), bay) == None || Cleared(Some(m), bay) == Some(m)
  {
  }

  /** A question stays for its time and a countdown to its deadline, to the second; nothing else times out. */
  lemma TimesOutWhenDue(mode: Mode, now: int, cfg: Config)
    ensures mode.Status? || mode.ActionMenu? ==> !TimedOut(mode, now)
    ensures mode.Countdown? ==> (TimedOut(mode, now) <==> mode.deadline <= now)
    ensures mode.ActionMenu? ==>
              var asked := ModeAfterKey(mode, Enter, now, cfg);
              asked.Confirm? && forall t :: TimedOut(asked, t) <==> now + cfg.confirmTimeout <= t
  {
  }

  /** Paging wraps at both ends, and one way undoes the other. */
  lemma PagesThrough(index: nat, screens: nat)
    requires index < screens
    ensures PageFrom(index, screens, true) == if index == screens - 1 then 0 else index + 1
    ensures PageFrom(index, screens, false) == if index == 0 then screens - 1 else index - 1
  {
  }

  /** Hand paging and the grace period end to the second. */
  lemma PausesEndWhenDue(p: Paging, until: Option<int>, now: int, rotated: bool)
    requires p.autoRotate || p.resumeAt.Some?
    ensures Resumed(p, now, rotated).autoRotate <==> p.autoRotate || p.resumeAt.value <= now
    ensures !Resumed(p, now, rotated).autoRotate ==> Resumed(p, now, rotated).resumeAt == p.resumeAt
    ensures Resumed(p, now, rotated).lastDwell == if rotated then now else p.lastDwell
    ensures until != None && now < until.value ==> Grace(until, now) == until
    ensures until == None || until.value <= now ==> Grace(until, now) == None
  {
  }

  /** A locate runs for as long as asked, or until it is stopped; one of a bay leaves all others alone. */
  lemma LocateRuns(bay: nat, ttl: nat, now: int, t: int, bays: map<nat, Option<int>>, chassis: Option<Option<int>>)
    ensures var (after, c) := LocatesAfter(StartLocating(Some(bay), ttl), now, bays, chassis);
            && (bay in Running(after, c, t).0 <==> ttl == 0 || t < now + ttl)
            && c == chassis && forall b | b != bay :: (b in after <==> b in bays) && (b in bays ==> after[b] == bays[b])
    ensures var (after, c) := LocatesAfter(StartLocating(None, ttl), now, bays, chassis);
            && (Running(after, c, t).1 != None <==> ttl == 0 || t < now + ttl) && after == bays
    ensures LocatesAfter(StopLocating(None), now, bays, chassis) == (map[], None)
    ensures var (after, c) := LocatesAfter(StopLocating(Some(bay)), now, bays, chassis);
            bay !in after && c == chassis && forall b | b != bay && b in bays :: b in after && after[b] == bays[b]
  {
  }

  /** A message goes from the second it expires on, one that does not expire never. */
  lemma ExpiresWhenDue(m: Message, now: int)
    ensures Unexpired(Some(m), now) == None <==> m.expiresAt != None && now >= m.expiresAt.value
    ensures Unexpired(Some(m), now) == None || Unexpired(Some(m), now) == Some(m)
  {
  }

  /** After a refresh nothing is as old as it may get, and what was not is left alone. */
  lemma RefreshedIsFresh(c: Caches, cfg: Config, fanHealth: Level, now: int, s: Sample)
    ensures var r := Refreshed(c, cfg, fanHealth, now, s);
            && Looked(c.networkAt, r.networkAt, cfg.networkMin, now) && Looked(c.poolsAt, r.poolsAt, cfg.poolsMin, now)
            && Looked(c.hddAt, r.hddAt, cfg.hddMin, now)
            && (r.poolsAt == c.poolsAt && r.hddAt == c.hddAt && c.poolsAt != Some(now) && c.hddAt != Some(now) ==>
                  r.scan == c.scan)
            && (c.poolsAt == None || c.hddAt == None ==> r.scan == s.scan)
  {
  }

  /** Looked at `now` exactly if never before, or at least `floor` seconds ago. */
  predicate Looked(before: Option<int>, after: Option<int>, floor: nat, now: int) {
    if before == None || before.value + floor <= now then after == Some(now) else after == before
  }

  predicate AtLeast(a: Option<Message>, b: Option<Message>) {
    b.Some? ==> a.Some? && a.value.level.Rank() >= b.value.level.Rank()
  }

  /**
   What the LCD is given to show does not contradict the LEDs; `paging`:
   someone pages through the screens by hand.
   */
  predicate ScreenAgrees(screen: Screen, lamps: Lamps, paging: bool) {
    match screen
    case LocateScreen => ShowsStatus(lamps, StatusLocate) && ShowsPower(lamps, PowerLocate)
    case AlarmScreen(alarm) => ShowsStatus(lamps, alarm.pattern)
    case MessageScreen(_) => ShowsStatus(lamps, StatusOk)
    case StatusScreen(_) => paging || ShowsStatus(lamps, StatusOk)
    case _ => true
  }

  class AppState {
    const cfg: Config
    const board: Board
    var mode: Mode
    var over: Option<Message>
    var pending: Option<Message>
    var alertBay: Option<nat>
    var locateBays: map<nat, Option<int>>
    var locateChassis: Option<Option<int>>
    var sleeping: bool
    var scheduleWantsSleep: bool
    var awakeUntil: Option<int>
    var statusShown: Option<StatusPattern>
    var alarm: Option<Alarm>
    var scan: Scan
    var fanHealth: Level
    var ledInputs: Option<(Level, Level)>
    var networkAt: Option<int>
    var poolsAt: Option<int>
    var hddAt: Option<int>
    var screens: nat
    var index: nat
    var autoRotate: bool
    var resumeAt: Option<int>
    var lastDwell: int
    /** The health alarms last looked at; the events so far; and which of them led to the present mode. */
    ghost var lastHealth: seq<Alarm>
    ghost var history: seq<Event>
    ghost var leftAt: nat
    ghost var openedAt: nat
    ghost var pickedAt: nat
    ghost var startedAt: nat

    // ---------- the LEDs ----------

    function V(): View
      reads this`locateBays, this`locateChassis, this`alertBay, this`scan, this`sleeping, this`alarm
    {
      View(locateBays.Keys, locateChassis.Some?, alertBay, scan, sleeping, cfg.nightDarkens, alarm)
    }

    function Cached(): Caches
      reads this`scan, this`networkAt, this`poolsAt, this`hddAt, this`ledInputs, this`screens, this`index
    {
      Caches(scan, networkAt, poolsAt, hddAt, ledInputs, screens, index)
    }

    function Paged(): Paging
      reads this`autoRotate, this`resumeAt, this`lastDwell
    {
      Paging(autoRotate, resumeAt, lastDwell)
    }

    /** Every LED shows what a computation from scratch would have it show, and the cache knows it. */
    ghost predicate LedsAgree()
      reads this`locateBays, this`locateChassis, this`alertBay, this`scan, this`sleeping, this`alarm,
            this`statusShown, board
    {
      statusShown == Some(StatusWant(V())) && Agrees(board.lamps, V())
    }

    ghost predicate AlarmFresh()
      reads this`alarm, this`over, this`lastHealth
    {
      alarm == MostCritical(Pushed(over) + lastHealth)
    }

    /** The cache never claims a pattern the hardware does not show. */
    ghost predicate CacheTrue()
      reads this`statusShown, board
    {
      statusShown.Some? ==> ShowsStatus(board.lamps, statusShown.value)
    }

    // ---------- what is always true ----------

    /** About messages and sleep. */
    ghost predicate MessagesValid()
      reads this`alertBay, this`over, this`sleeping
    {
      && alertBay == AlertBayOf(over) && Persists(over)
      && (sleeping ==> over.None?)
    }

    /** How the present mode came about. */
    ghost predicate ModeExplained()
      reads this`mode, this`history, this`openedAt, this`pickedAt, this`startedAt
    {
      match mode
      case Status => true
      case ActionMenu(selection) => selection < 2 && MenuOpen(history, openedAt, selection)
      case Confirm(a, _) => Confirming(history, openedAt, pickedAt, a)
      case Countdown(a, deadline, _) => CountingDown(history, startedAt, a, deadline)
    }

    /** Event `leftAt` left the status screens; what arrived since is held, the latest of the most severe. */
    ghost predicate HeldSinceLeft()
      reads this`mode, this`pending, this`history, this`leftAt
    {
      if mode.Status? then pending == None else leftAt < |history| && pending == HeldSince(history, leftAt)
    }

    ghost predicate Valid()
      reads this`alertBay, this`over, this`sleeping, this`mode, this`pending, this`history,
            this`openedAt, this`pickedAt, this`startedAt, this`leftAt, this`autoRotate, this`resumeAt
    {
      && MessagesValid() && ModeExplained()
      && (sleeping ==> mode.Status?)
      && (autoRotate || resumeAt.Some?)
      && Persists(pending) && HeldSinceLeft()
    }

    constructor (cfg: Config, board: Board, now: int)
      ensures Valid() && this.cfg == cfg && this.board == board && history == []
      ensures statusShown == None && !sleeping && mode == Status && over == None
    {
      this.cfg, this.board := cfg, board;
      mode, over, pending, alertBay, locateBays, locateChassis := Status, None, None, None, map[], None;
      sleeping, scheduleWantsSleep, awakeUntil, statusShown, alarm, scan := false, false, None, None, None, [];
      fanHealth, ledInputs, networkAt, poolsAt, hddAt := Info, None, None, None, None;
      screens, index, autoRotate, resumeAt, lastDwell := 0, 0, true, None, now;
      lastHealth, history, leftAt, openedAt, pickedAt, startedAt := [], [], 0, 0, 0, 0;
    }

    // ---------- writing LEDs ----------

    /** A locate just primed solid amber is the one time the cache may be behind: its pattern is written anyway. */
    method RecomputeStatusLed(health: seq<Alarm>)
      requires CacheTrue() || (locateChassis.Some? && statusShown != Some(StatusLocate))
      modifies this`alarm, this`statusShown, this`lastHealth, board
      ensures AlarmFresh() && lastHealth == health
      ensures statusShown == Some(StatusWant(V())) && StatusAgrees(board.lamps, V())
      ensures SameBays(board.lamps, old(board.lamps), {})
      ensures SamePower(board.lamps, old(board.lamps)) && SameLan(board.lamps, old(board.lamps))
    {
      alarm := MostCritical(Pushed(over) + health);
      lastHealth := health;
      var pattern := StatusWant(V());
      if statusShown != Some(pattern) {
        board.SetStatus(pattern);
        statusShown := Some(pattern);
        OnlyStatusWritten(board.lamps, old(board.lamps));
      }
    }

    method ApplyPowerLed()
      modifies board
      ensures ShowsPower(board.lamps, PowerWant(V()))
      ensures SameBays(board.lamps, old(board.lamps), {})
      ensures SameStatus(board.lamps, old(board.lamps)) && SameLan(board.lamps, old(board.lamps))
    {
      board.SetPower(PowerWant(V()));
      OnlyPowerWritten(board.lamps, old(board.lamps));
    }

    method ApplyBayLed(bay: nat)
      modifies board
      ensures BayAgrees(board.lamps, V(), bay) && SameBays(board.lamps, old(board.lamps), {bay})
      ensures SameStatus(board.lamps, old(board.lamps)) && SamePower(board.lamps, old(board.lamps))
      ensures SameLan(board.lamps, old(board.lamps))
    {
      var state := BayWant(V(), bay);
      if sleeping {
        board.SetBayNight(bay, state);
      } else {
        board.SetBay(bay, state);
      }
      OnlyBayWritten(board.lamps, old(board.lamps), bay);
    }

    method UpdateHealthLeds(health: seq<Alarm>)
      requires CacheTrue()
      modifies this`alarm, this`statusShown, this`lastHealth, board
      ensures AlarmFresh() && lastHealth == health
      ensures statusShown == Some(StatusWant(V())) && StatusAgrees(board.lamps, V())
      ensures forall bay: nat | bay in ScanBays(scan) :: BayAgrees(board.lamps, V(), bay)
      ensures SameBays(board.lamps, old(board.lamps), ScanBays(scan))
      ensures SamePower(board.lamps, old(board.lamps)) && SameLan(board.lamps, old(board.lamps))
    {
      hide BayLook;
      hide StatusLook;
      hide LookOf;
      hide ScanState;
      ApplyScanned();
      ghost var before, v := board.lamps, V();
      RecomputeStatusLed(health);
      SameBaysInTurn(board.lamps, before, old(board.lamps), {}, ScanBays(scan), ScanBays(scan));
      forall bay: nat | bay in ScanBays(scan) ensures BayAgrees(board.lamps, V(), bay) {
        BayKept(before, board.lamps, v, V(), bay);
      }
    }

    method ApplyScanned()
      modifies board
      ensures forall bay: nat | bay in ScanBays(scan) :: BayAgrees(board.lamps, V(), bay)
      ensures SameBays(board.lamps, old(board.lamps), ScanBays(scan)) && SameStatus(board.lamps, old(board.lamps))
      ensures SamePower(board.lamps, old(board.lamps)) && SameLan(board.lamps, old(board.lamps))
    {
      hide LookOf;
      hide BayAgrees;
      for i := 0 to |scan|
        invariant forall k | 0 <= k < i :: BayAgrees(board.lamps, V(), scan[k].0)
        invariant SameBays(board.lamps, old(board.lamps), ScanBays(scan)) && SameStatus(board.lamps, old(board.lamps))
        invariant SamePower(board.lamps, old(board.lamps)) && SameLan(board.lamps, old(board.lamps))
      {
        ghost var before := board.lamps;
        ApplyBayLed(scan[i].0);
        SameBaysInTurn(board.lamps, before, old(board.lamps), {scan[i].0}, ScanBays(scan), ScanBays(scan));
        forall k | 0 <= k < i && scan[k].0 != scan[i].0 ensures BayAgrees(board.lamps, V(), scan[k].0) {
          BayKept(before, board.lamps, V(), V(), scan[k].0);
        }
      }
    }

    method ReassertLocateLeds()
      modifies this`statusShown, board
      ensures forall bay: nat | bay in locateBays :: BayAgrees(board.lamps, V(), bay)
      ensures SameBays(board.lamps, old(board.lamps), locateBays.Keys) && SameLan(board.lamps, old(board.lamps))
      ensures if locateChassis.Some?
              then ShowsPower(board.lamps, PowerLocate) && ShowsStatus(board.lamps, StatusLocate)
                   && statusShown == Some(StatusLocate)
              else statusShown == old(statusShown) && SameStatus(board.lamps, old(board.lamps))
                   && SamePower(board.lamps, old(board.lamps))
    {
      hide LookOf;
      hide BayLook;
      hide PowerLook;
      hide StatusLook;
      ReassertBays();
      if locateChassis.Some? {
        ghost var a := board.lamps;
        board.SetPower(PowerLocate);
        ghost var b := board.lamps;
        OnlyPowerWritten(b, a);
        board.SetStatus(StatusLocate);
        OnlyStatusWritten(board.lamps, b);
        statusShown := Some(StatusLocate);
        SameBaysInTurn(b, a, old(board.lamps), {}, locateBays.Keys, locateBays.Keys);
        SameBaysInTurn(board.lamps, b, old(board.lamps), {}, locateBays.Keys, locateBays.Keys);
        forall bay: nat | bay in locateBays ensures BayAgrees(board.lamps, V(), bay) {
          BayKept(a, b, V(), V(), bay);
          BayKept(b, board.lamps, V(), V(), bay);
        }
      }
    }

    method ReassertBays()
      modifies board
      ensures forall bay: nat | bay in locateBays :: BayAgrees(board.lamps, V(), bay)
      ensures SameBays(board.lamps, old(board.lamps), locateBays.Keys) && SameStatus(board.lamps, old(board.lamps))
      ensures SamePower(board.lamps, old(board.lamps)) && SameLan(board.lamps, old(board.lamps))
    {
      hide LookOf;
      hide BayLook;
      var left := locateBays.Keys;
      while left != {}
        invariant left <= locateBays.Keys
        invariant forall bay: nat | bay in locateBays && bay !in left :: BayAgrees(board.lamps, V(), bay)
        invariant SameBays(board.lamps, old(board.lamps), locateBays.Keys) && SameStatus(board.lamps, old(board.lamps))
        invariant SamePower(board.lamps, old(board.lamps)) && SameLan(board.lamps, old(board.lamps))
        decreases left
      {
        var bay :| bay in left;
        ghost var before := board.lamps;
        board.SetBay(bay, BayLocate);
        OnlyBayWritten(board.lamps, before, bay);
        SameBaysInTurn(board.lamps, before, old(board.lamps), {bay}, locateBays.Keys, locateBays.Keys);
        LocateIgnoresNight(board.lamps, bay);
        assert BayAgrees(board.lamps, V(), bay);
        forall o: nat | o in locateBays && o !in left ensures BayAgrees(board.lamps, V(), o) {
          BayKept(before, board.lamps, V(), V(), o);
        }
        left := left - {bay};
      }
    }

    // ---------- refreshing ----------

    /** The alarms have to be looked at again: disks, pools or the network are due, or readings changed. */
    predicate LooksAgain(now: int, s: Sample)
      reads this`networkAt, this`poolsAt, this`hddAt, this`ledInputs, this`fanHealth
    {
      || Stale(poolsAt, cfg.poolsMin, now) || Stale(hddAt, cfg.hddMin, now) || Stale(networkAt, cfg.networkMin, now)
      || s.tempsChecked || ledInputs != Some((fanHealth, s.tempLevel))
    }

    /** `full`: the disks were scanned again; `looked`: at least the status LED was looked at again. */
    method RefreshStale(now: int, s: Sample) returns (full: bool, looked: bool)
      requires CacheTrue()
      modifies this`networkAt, this`poolsAt, this`hddAt, this`scan, this`alarm, this`statusShown, this`lastHealth,
               this`ledInputs, this`screens, this`index, board
      ensures full == (Stale(old(poolsAt), cfg.poolsMin, now) || Stale(old(hddAt), cfg.hddMin, now))
      ensures looked == old(LooksAgain(now, s))
      ensures (full ==> looked) && scan == (if full then s.scan else old(scan)) && screens > 0 && index < screens
      ensures Cached() == Refreshed(old(Cached()), cfg, fanHealth, now, s)
      ensures if looked
              then AlarmFresh() && lastHealth == s.health
                   && statusShown == Some(StatusWant(V())) && StatusAgrees(board.lamps, V())
              else alarm == old(alarm) && lastHealth == old(lastHealth) && statusShown == old(statusShown)
                   && board.lamps == old(board.lamps)
      ensures full ==> forall bay: nat | bay in ScanBays(scan) :: BayAgrees(board.lamps, V(), bay)
      ensures SameBays(board.lamps, old(board.lamps), if full then ScanBays(scan) else {})
      ensures SamePower(board.lamps, old(board.lamps)) && SameLan(board.lamps, old(board.lamps))
    {
      hide AlarmFresh;
      hide CacheTrue;
      hide StatusAgrees;
      hide StatusWant;
      hide BayAgrees;
      hide LookOf;
      hide Stale;
      hide Refreshed;
      full, looked := TakeStock(now, s);
      if full {
        UpdateHealthLeds(s.health);
      } else if looked {
        RecomputeStatusLed(s.health);
      } else {
        NothingWritten(board.lamps);
      }
    }

    /** What is due, taken over from the sample; `full` and `looked` say what has to be shown anew. */
    method TakeStock(now: int, s: Sample) returns (full: bool, looked: bool)
      modifies this`networkAt, this`poolsAt, this`hddAt, this`scan, this`ledInputs, this`screens, this`index
      ensures full == (Stale(old(poolsAt), cfg.poolsMin, now) || Stale(old(hddAt), cfg.hddMin, now))
      ensures looked == old(LooksAgain(now, s))
      ensures scan == (if full then s.scan else old(scan)) && screens > 0 && index < screens
      ensures Cached() == Refreshed(old(Cached()), cfg, fanHealth, now, s)
    {
      hide Stale;
      var poolsDue := Stale(poolsAt, cfg.poolsMin, now);
      var hddDue := Stale(hddAt, cfg.hddMin, now);
      var networkDue := Stale(networkAt, cfg.networkMin, now);
      if networkDue {
        networkAt := Some(now);
      }
      if poolsDue {
        poolsAt := Some(now);
      }
      if poolsDue || hddDue {
        scan := s.scan;
      }
      if hddDue {
        hddAt := Some(now);
      }
      screens := if s.screens == 0 then 1 else s.screens;
      if index >= screens {
        index := 0;
      }
      var inputs := Some((fanHealth, s.tempLevel));
      full := poolsDue || hddDue;
      looked := full || networkDue || s.tempsChecked || ledInputs != inputs;
      ledInputs := inputs;
    }

    /** A refresh keeps every LED right. */
    method Refresh(now: int, s: Sample)
      requires LedsAgree() && AlarmFresh()
      modifies this`networkAt, this`poolsAt, this`hddAt, this`scan, this`alarm, this`statusShown, this`lastHealth,
               this`ledInputs, this`screens, this`index, board
      ensures screens > 0 && LedsAgree() && AlarmFresh() && (lastHealth == old(lastHealth) || lastHealth == s.health)
      ensures Cached() == Refreshed(old(Cached()), cfg, fanHealth, now, s)
      ensures old(LooksAgain(now, s)) ==> lastHealth == s.health
    {
      hide Agrees;
      hide StatusAgrees;
      hide BayAgrees;
      hide MostCritical;
      hide ScanBays;
      hide StatusWant;
      ghost var a, v := board.lamps, V();
      assert CacheTrue() by { AgreesMeansCacheTrue(a, v); }
      var full, looked := RefreshStale(now, s);
      RefreshKeepsAgreement(a, board.lamps, v, scan, alarm, full, looked);
      assert V() == v.(scan := scan, alarm := alarm);
      if !looked {
        UnseenStatusStays(v, scan);
      }
    }

    // ---------- from scratch, waking, falling asleep ----------

    /** Every LED from scratch, whatever the hardware shows: at startup and when the driver is reloaded. */
    method ApplyAllLeds(health: seq<Alarm>)
      modifies this`alarm, this`statusShown, this`lastHealth, board
      ensures LedsAgree() && AlarmFresh() && lastHealth == health
    {
      hide StatusLook;
      hide PowerLook;
      hide LookOf;
      hide MostCritical;
      hide BayLook;
      hide ScanState;
      NightOrDay();
      UpdateHealthLeds(health);
      ghost var a, v := board.lamps, V();
      if alertBay.Some? {
        ApplyBayLed(alertBay.value);
        forall bay: nat | bay in ScanBays(scan) && bay != alertBay.value ensures BayAgrees(board.lamps, V(), bay) {
          BayKept(a, board.lamps, V(), V(), bay);
        }
      }
      ghost var b := board.lamps;
      ReassertLocateLeds();
      forall bay: nat | 1 <= bay <= 4 && Tracked(V(), bay) ensures BayAgrees(board.lamps, V(), bay) {
        if bay !in locateBays {
          BayKept(b, board.lamps, V(), V(), bay);
        }
      }
    }

    method NightOrDay()
      modifies this`statusShown, board
      ensures CacheTrue()
      ensures ShowsPower(board.lamps, if V().Dark() then PowerOff else PowerPattern.PowerOn)
      ensures ShowsLanAndUsb(board.lamps, !V().Dark())
    {
      hide StatusLook;
      hide LookOf;
      if sleeping && cfg.nightDarkens {
        board.EnterNightMode(true);
        statusShown := Some(StatusOff);
      } else {
        board.ExitNightMode(true);
        statusShown := None;
        if sleeping {
          board.EnterNightMode(false);
        }
      }
    }

    method Wake(now: int, s: Sample)
      requires LedsAgree() && alertBay.None?
      modifies this`sleeping, this`networkAt, this`poolsAt, this`hddAt, this`scan, this`alarm, this`statusShown,
               this`lastHealth, this`ledInputs, this`screens, this`index, board
      ensures !sleeping && LedsAgree() && AlarmFresh() && scan == s.scan && lastHealth == s.health
      ensures Cached() == RefreshedAll(old(Cached()), cfg, fanHealth, now, s)
    {
      hide StatusLook;
      hide PowerLook;
      hide LookOf;
      hide MostCritical;
      hide BayLook;
      hide ScanState;
      WakeFront();
      networkAt, poolsAt, hddAt := None, None, None;
      var full, looked := RefreshStale(now, s);
      ghost var b := board.lamps;
      ReassertLocateLeds();
      forall bay: nat | 1 <= bay <= 4 && Tracked(V(), bay) ensures BayAgrees(board.lamps, V(), bay) {
        if bay !in locateBays {
          BayKept(b, board.lamps, V(), V(), bay);
        }
      }
    }

    method WakeFront()
      requires LedsAgree()
      modifies this`sleeping, this`statusShown, board
      ensures !sleeping && CacheTrue() && ShowsLanAndUsb(board.lamps, true)
      ensures locateChassis.None? ==> ShowsPower(board.lamps, PowerPattern.PowerOn)
    {
      hide StatusLook;
      hide LookOf;
      sleeping := false;
      board.ExitNightMode(cfg.nightDarkens);
      if cfg.nightDarkens {
        statusShown := None;
      }
    }

    method FallAsleep()
      requires LedsAgree() && AlarmFresh() && !sleeping && alertBay.None?
      modifies this`sleeping, this`statusShown, board
      ensures sleeping && LedsAgree() && AlarmFresh()
    {
      hide StatusLook;
      hide PowerLook;
      hide BayLook;
      hide LookOf;
      hide ScanState;
      ghost var a, v := board.lamps, V();
      DarkenFront();
      ghost var b := board.lamps;
      ReassertLocateLeds();
      forall bay: nat | 1 <= bay <= 4 && Tracked(V(), bay) ensures BayAgrees(board.lamps, V(), bay) {
        if bay !in locateBays {
          assert Tracked(v, bay);
          BayFallsAsleep(a, b, v, bay);
          BayKept(b, board.lamps, v.(sleeping := true), V(), bay);
        }
      }
    }

    method DarkenFront()
      requires LedsAgree() && !sleeping
      modifies this`sleeping, this`statusShown, board
      ensures sleeping
      ensures forall b: nat | 1 <= b <= 4 ::
                LookOf(board.lamps, BayGreen(b)) == UNLIT
                && LookOf(board.lamps, BayRed(b)) == LookOf(old(board.lamps), BayRed(b))
      ensures ShowsLanAndUsb(board.lamps, !cfg.nightDarkens)
      ensures locateChassis.None? ==>
                && statusShown == Some(StatusWant(V())) && StatusAgrees(board.lamps, V())
                && ShowsPower(board.lamps, PowerWant(V()))
    {
      hide StatusLook;
      hide LookOf;
      sleeping := true;
      board.EnterNightMode(cfg.nightDarkens);
      if cfg.nightDarkens {
        statusShown := Some(StatusOff);
      }
    }

    // ---------- locates ----------

    method StartLocate(bay: Option<nat>, ttl: nat, now: int, health: seq<Alarm>)
      requires LedsAgree() && AlarmFresh()
      modifies this`locateBays, this`locateChassis, this`alarm, this`statusShown, this`lastHealth, board
      ensures lastHealth == old(lastHealth) || lastHealth == health
      ensures LedsAgree() && AlarmFresh()
      ensures var until := if ttl > 0 then Some(now + ttl) else None;
              if bay.Some? then locateBays == old(locateBays)[bay.value := until] && locateChassis == old(locateChassis)
              else locateBays == old(locateBays) && locateChassis == Some(until)
    {
      var until := if ttl > 0 then Some(now + ttl) else None;
      match bay {
        case Some(b) => StartBayLocate(b, until);
        case None => StartChassisLocate(until, health);
      }
    }

    method StartBayLocate(bay: nat, until: Option<int>)
      requires LedsAgree()
      modifies this`locateBays, board
      ensures LedsAgree() && locateBays == old(locateBays)[bay := until]
    {
      hide StatusLook;
      hide PowerLook;
      hide LookOf;
      hide BayAgrees;
      hide ScanState;
      ghost var a, v := board.lamps, V();
      var isNew := bay !in locateBays;
      locateBays := locateBays[bay := until];
      if isNew {
        board.PrimeLocateBay(bay);
        OnlyBayWritten(board.lamps, a, bay);
      }
      ghost var b := board.lamps;
      ApplyBayLed(bay);
      SameBaysInTurn(board.lamps, b, a, {bay}, {bay}, {bay});
      BaysStayRight(a, board.lamps, v, V(), {bay});
    }

    method StartChassisLocate(until: Option<int>, health: seq<Alarm>)
      requires LedsAgree()
      modifies this`locateChassis, this`alarm, this`statusShown, this`lastHealth, board
      ensures lastHealth == old(lastHealth) || lastHealth == health
      ensures LedsAgree() && AlarmFresh() && locateChassis == Some(until)
    {
      hide StatusLook;
      hide PowerLook;
      hide LookOf;
      hide BayAgrees;
      hide MostCritical;
      hide ScanState;
      hide BaysAgree;
      ghost var a, v := board.lamps, V();
      if locateChassis.None? {
        board.PrimeLocateStatus();
        OnlyStatusWritten(board.lamps, a);
      }
      locateChassis := Some(until);
      ghost var b := board.lamps;
      ApplyPowerLed();
      ghost var c := board.lamps;
      RecomputeStatusLed(health);
      SameBaysInTurn(c, b, a, {}, {}, {});
      SameBaysInTurn(board.lamps, c, a, {}, {}, {});
      FrontIsNoBay(a, board.lamps, v, alarm, locateChassis.Some?);
    }

    method EndBayLocate(bay: nat)
      requires LedsAgree()
      modifies this`locateBays, board
      ensures LedsAgree() && locateBays == old(locateBays) - {bay}
    {
      hide StatusLook;
      hide PowerLook;
      hide LookOf;
      hide BayAgrees;
      hide ScanState;
      if bay in locateBays {
        ghost var a, v := board.lamps, V();
        locateBays := locateBays - {bay};
        ApplyBayLed(bay);
        BaysStayRight(a, board.lamps, v, V(), {bay});
      }
    }

    method EndChassisLocate(health: seq<Alarm>)
      requires LedsAgree() && AlarmFresh()
      modifies this`locateChassis, this`alarm, this`statusShown, this`lastHealth, board
      ensures lastHealth == old(lastHealth) || lastHealth == health
      ensures LedsAgree() && AlarmFresh() && locateChassis == None
    {
      hide StatusLook;
      hide PowerLook;
      hide BaysAgree;
      if locateChassis.Some? {
        FrontIsNoBay(board.lamps, board.lamps, V(), alarm, false);
        locateChassis := None;
        ShowFront(health);
      }
    }

    /** Power and status LED, after a chassis locate began or ended. */
    method ShowFront(health: seq<Alarm>)
      requires BaysAgree(board.lamps, V()) && ShowsLanAndUsb(board.lamps, !V().Dark())
      requires CacheTrue() || (locateChassis.Some? && statusShown != Some(StatusLocate))
      modifies this`alarm, this`statusShown, this`lastHealth, board
      ensures LedsAgree() && AlarmFresh() && lastHealth == health
    {
      hide StatusLook;
      hide PowerLook;
      hide LookOf;
      hide MostCritical;
      hide BaysAgree;
      ghost var a, v := board.lamps, V();
      ApplyPowerLed();
      ghost var b := board.lamps;
      RecomputeStatusLed(health);
      SameBaysInTurn(board.lamps, b, a, {}, {}, {});
      FrontIsNoBay(a, board.lamps, v, alarm, v.chassis);
    }

    /** Ends the locates of all these bays. */
    method EndBayLocates(bays: set<nat>)
      requires LedsAgree()
      modifies this`locateBays, board
      ensures LedsAgree() && locateBays == old(locateBays) - bays
    {
      hide LedsAgree;
      var left := bays;
      while left != {}
        invariant left <= bays && LedsAgree() && locateBays == old(locateBays) - (bays - left)
        decreases left
      {
        var bay :| bay in left;
        EndBayLocate(bay);
        left := left - {bay};
      }
    }

    method StopLocate(bay: Option<nat>, health: seq<Alarm>)
      requires LedsAgree() && AlarmFresh()
      modifies this`locateBays, this`locateChassis, this`alarm, this`statusShown, this`lastHealth, board
      ensures lastHealth == old(lastHealth) || lastHealth == health
      ensures LedsAgree() && AlarmFresh()
      ensures if bay.Some? then locateBays == old(locateBays) - {bay.value} && locateChassis == old(locateChassis)
              else locateBays == map[] && locateChassis == None
    {
      match bay {
        case Some(b) => EndBayLocate(b);
        case None =>
          EndBayLocates(locateBays.Keys);
          EndChassisLocate(health);
      }
    }

    method ExpireLocates(now: int, health: seq<Alarm>)
      requires LedsAgree() && AlarmFresh()
      modifies this`locateBays, this`locateChassis, this`alarm, this`statusShown, this`lastHealth, board
      ensures lastHealth == old(lastHealth) || lastHealth == health
      ensures LedsAgree() && AlarmFresh()
      ensures (locateBays, locateChassis) == Running(old(locateBays), old(locateChassis), now)
    {
      var expired := set b | b in locateBays && Due(locateBays[b], now);
      EndBayLocates(expired);
      assert locateBays == Running(old(locateBays), old(locateChassis), now).0;
      if locateChassis.Some? && Due(locateChassis.value, now) {
        EndChassisLocate(health);
      }
    }

    // ---------- messages ----------

    /** The alerting bay follows the active message; a bay that stops alerting goes back to what it wants now. */
    method SyncLedsToOverride(health: seq<Alarm>)
      requires LedsAgree()
      modifies this`alertBay, this`alarm, this`statusShown, this`lastHealth, board
      ensures LedsAgree() && AlarmFresh() && alertBay == AlertBayOf(over) && lastHealth == health
    {
      hide StatusLook;
      hide PowerLook;
      hide LookOf;
      hide MostCritical;
      hide BaysAgree;
      MoveAlert(AlertBayOf(over));
      ghost var a, v := board.lamps, V();
      RecomputeStatusLed(health);
      FrontIsNoBay(a, board.lamps, v, alarm, v.chassis);
    }

    method MoveAlert(want: Option<nat>)
      requires LedsAgree()
      modifies this`alertBay, board
      ensures alertBay == want && BaysAgree(board.lamps, V())
      ensures SameStatus(board.lamps, old(board.lamps)) && SamePower(board.lamps, old(board.lamps))
      ensures SameLan(board.lamps, old(board.lamps))
    {
      hide LookOf;
      hide BayAgrees;
      hide ScanState;
      hide BayWant;
      hide BaysAgree;
      ghost var a, v := board.lamps, V();
      var previous := alertBay;
      alertBay := want;
      ghost var written := BaysOf(previous) + BaysOf(want);
      if previous.Some? && previous != want {
        ApplyBayLed(previous.value);
        SameBaysInTurn(board.lamps, a, a, BaysOf(previous), {}, written);
      }
      ghost var b := board.lamps;
      if want.Some? {
        ApplyBayLed(want.value);
        SameBaysInTurn(board.lamps, b, a, BaysOf(want), written, written);
        if previous.Some? && previous != want {
          BayKept(b, board.lamps, V(), V(), previous.value);
        }
      }
      AlertMoves(a, board.lamps, v, want, written);
    }

    /**
     The one place a message becomes active: never over a more severe one; and
     while asleep a routine one is dropped, an urgent one wakes the panel.
     */
    method ShowOverride(m: Message, now: int, s: Sample)
      requires LedsAgree() && AlarmFresh() && MessagesValid() && Persists(Some(m))
      modifies this`over, this`alertBay, this`sleeping, this`networkAt, this`poolsAt, this`hddAt, this`scan, this`alarm,
               this`statusShown, this`lastHealth, this`ledInputs, this`screens, this`index, board
      ensures LedsAgree() && AlarmFresh() && MessagesValid()
      ensures var accepted := !(old(over).Some? && m.level.Rank() < old(over).value.level.Rank())
                              && (old(sleeping) ==> m.level.AlwaysVisible());
              over == (if accepted then Some(m) else old(over)) && sleeping == (old(sleeping) && !accepted)
      ensures Cached() == if old(sleeping) && !sleeping then RefreshedAll(old(Cached()), cfg, fanHealth, now, s)
                          else old(Cached())
      ensures lastHealth == old(lastHealth) || lastHealth == s.health
    {
      hide Agrees;
      hide StatusWant;
      hide MostCritical;
      hide RefreshedAll;
      if over.Some? && m.level.Rank() < over.value.level.Rank() {
        return;
      }
      if sleeping {
        if !m.level.AlwaysVisible() {
          return;
        }
        Wake(now, s);
      }
      over := Some(m);
      SyncLedsToOverride(s.health);
    }

    method ApplyPendingOverride(now: int, s: Sample)
      requires LedsAgree() && AlarmFresh() && MessagesValid() && Persists(pending)
      modifies this`over, this`alertBay, this`sleeping, this`networkAt, this`poolsAt, this`hddAt, this`scan, this`alarm,
               this`statusShown, this`lastHealth, this`ledInputs, this`screens, this`index, this`pending, board
      ensures LedsAgree() && AlarmFresh() && MessagesValid()
      ensures pending == None && (sleeping ==> old(sleeping)) && AtLeast(over, old(over))
      ensures !old(sleeping) ==>
                over == Accepted(old(over), old(pending))
      ensures Cached() == if old(sleeping) && !sleeping then RefreshedAll(old(Cached()), cfg, fanHealth, now, s)
                          else old(Cached())
      ensures lastHealth == old(lastHealth) || lastHealth == s.health
    {
      hide Agrees;
      hide StatusWant;
      hide MostCritical;
      var m := pending;
      pending := None;
      if m.Some? {
        ShowOverride(m.value, now, s);
      }
    }

    // ---------- keys, countdowns, commands, ticks ----------

    function ScreenNow(now: int): Screen
      reads this`mode, this`locateChassis, this`alarm, this`autoRotate, this`over, this`index
    {
      match mode
      case ActionMenu(selection) => MenuScreen(selection)
      case Confirm(a, _) => ConfirmScreen(a)
      case Countdown(a, deadline, _) => CountdownScreen(a, if deadline > now then deadline - now else 0)
      case Status =>
        if locateChassis.Some? then LocateScreen
        else if alarm.Some? && (autoRotate || alarm.value.level.Critical?) then AlarmScreen(alarm.value)
        else if alarm.None? && over.Some? then MessageScreen(over.value)
        else StatusScreen(index)
    }

    /** What is put on the LCD is the screen due, and agrees with the LEDs; a blank one goes with dark LEDs. */
    predicate Presents(e: Effect, now: int)
      reads this`mode, this`locateChassis, this`alarm, this`autoRotate, this`over, this`index, board
    {
      match e
      case Render(screen) => screen == ScreenNow(now) && ScreenAgrees(screen, board.lamps, !autoRotate)
      case Blank => cfg.nightDarkens ==> ShowsStatus(board.lamps, StatusOff) && ShowsPower(board.lamps, PowerOff)
      case _ => true
    }

    lemma PresentsNothing(e: Effect, now: int)
      requires !e.Render? && !e.Blank?
      ensures Presents(e, now)
    {
    }

    method HandleKey(key: Key, now: int, s: Sample) returns (e: Effect)
      requires Valid() && LedsAgree() && AlarmFresh()
      modifies this`mode, this`over, this`alertBay, this`sleeping, this`networkAt, this`poolsAt, this`hddAt, this`scan,
               this`alarm, this`statusShown, this`lastHealth, this`ledInputs, this`screens, this`index, this`pending,
               this`awakeUntil, this`autoRotate, this`resumeAt, this`lastDwell,
               this`history, this`leftAt, this`openedAt, this`pickedAt, board
      ensures Valid() && LedsAgree() && AlarmFresh()
      ensures history == old(history) + [Press(key, !old(sleeping))]
      ensures !mode.Status? ==> leftAt == if old(mode).Status? then |old(history)| else old(leftAt)
      // A key that wakes the panel keeps it awake for a while, looks at everything again, and is not also acted on.
      ensures !sleeping && awakeUntil == if old(sleeping) then Some(now + cfg.resumeAfter) else old(awakeUntil)
      ensures old(sleeping) ==>
                e.Render? && mode == old(mode) && over == old(over) && pending == old(pending) && lastHealth == s.health
      ensures old(sleeping) ==> Cached() == RefreshedAll(old(Cached()), cfg, fanHealth, now, s)
      ensures Presents(e, now) && (lastHealth == old(lastHealth) || lastHealth == s.health)
      // An action runs exactly on Enter in the question, and then it is the one chosen at the panel.
      ensures e.RunAction? <==> !old(sleeping) && old(mode).Confirm? && key.Enter?
      ensures e.RunAction? ==> exists i, j :: ChosenAtPanel(history, i, j, e.action)
      // Leaving menu, question or countdown gives a held message its turn.
      ensures AtLeast(over, old(over))
      ensures !old(sleeping) ==> over == OverAfterKey(old(over), old(mode), old(pending), key, now)
      // Up and Down page through the status screens, which holds up their rotation for a while.
      ensures if !old(sleeping) && old(mode).Status? && (key.Up? || key.Down?) && old(screens) > 0
              then Cached() == old(Cached()).(index := PageFrom(old(index), old(screens), key.Down?))
                   && Paged() == Paging(false, Some(now + cfg.resumeAfter), now)
              else (!old(sleeping) ==> Cached() == old(Cached())) && Paged() == old(Paged())
      ensures !old(sleeping) ==> mode == ModeAfterKey(old(mode), key, now, cfg)
    {
      hide Cached;
      hide Paged;
      hide V;
      hide LedsAgree;
      hide AlarmFresh;
      hide ChosenAtPanel;
      hide OverAfterKey;
      hide ModeAfterKey;
      hide ScreenAgrees;
      hide ScreenNow;
      hide Valid;
      hide Refreshed;
      hide RefreshedAll;
      hide PageFrom;
      hide Presents;
      hide Accepted;
      hide Cancelled;
      if sleeping {
        e := KeyAsleep(key, now, s);
      } else {
        e := KeyAwake(key, now, s);
      }
    }

    method KeyAwake(key: Key, now: int, s: Sample) returns (e: Effect)
      requires Valid() && LedsAgree() && AlarmFresh() && !sleeping
      modifies this`mode, this`over, this`alertBay, this`sleeping, this`networkAt, this`poolsAt, this`hddAt, this`scan,
               this`alarm, this`statusShown, this`lastHealth, this`ledInputs, this`screens, this`index, this`pending,
               this`autoRotate, this`resumeAt, this`lastDwell,
               this`history, this`leftAt, this`openedAt, this`pickedAt, board
      ensures Valid() && LedsAgree() && AlarmFresh() && !sleeping && history == old(history) + [Press(key, true)]
      ensures !mode.Status? ==> leftAt == if old(mode).Status? then |old(history)| else old(leftAt)
      ensures Presents(e, now) && (lastHealth == old(lastHealth) || lastHealth == s.health)
      ensures e.RunAction? <==> old(mode).Confirm? && key.Enter?
      ensures e.RunAction? ==> exists i, j :: ChosenAtPanel(history, i, j, e.action)
      ensures AtLeast(over, old(over)) && over == OverAfterKey(old(over), old(mode), old(pending), key, now)
      ensures mode == ModeAfterKey(old(mode), key, now, cfg)
      ensures if old(mode).Status? && (key.Up? || key.Down?) && old(screens) > 0
              then Cached() == old(Cached()).(index := PageFrom(old(index), old(screens), key.Down?))
                   && Paged() == Paging(false, Some(now + cfg.resumeAfter), now)
              else Cached() == old(Cached()) && Paged() == old(Paged())
    {
      hide Paged;
      hide V;
      hide LedsAgree;
      hide AlarmFresh;
      hide ChosenAtPanel;
      hide ScreenAgrees;
      hide ScreenNow;
      hide Valid;
      hide Refreshed;
      hide RefreshedAll;
      hide PageFrom;
      hide Presents;
      hide Accepted;
      hide Cancelled;
      match mode {
        case Status =>
          e := NoEffect;
          KeyInStatus(key, now);
          PresentsNothing(e, now);
        case ActionMenu(_) =>
          e := NoEffect;
          KeyInMenu(key, now, s);
          PresentsNothing(e, now);
        case Confirm(_, _) =>
          e := KeyInQuestion(key, now, s);
          PresentsNothing(e, now);
        case Countdown(_, _, _) =>
          e := KeyInCountdown(key, now, s);
      }
    }

    method KeyAsleep(key: Key, now: int, s: Sample) returns (e: Effect)
      requires Valid() && LedsAgree() && sleeping
      modifies this`history, this`awakeUntil, this`sleeping, this`networkAt, this`poolsAt, this`hddAt, this`scan,
               this`alarm, this`statusShown, this`lastHealth, this`ledInputs, this`screens, this`index, board
      ensures e.Render? && Presents(e, now)
      ensures Valid() && LedsAgree() && AlarmFresh() && history == old(history) + [Press(key, false)]
      ensures !sleeping && lastHealth == s.health && Cached() == RefreshedAll(old(Cached()), cfg, fanHealth, now, s)
      ensures awakeUntil == Some(now + cfg.resumeAfter)
    {
      hide Cached;
      hide Paged;
      hide V;
      hide ScreenAgrees;
      hide LedsAgree;
      hide AlarmFresh;
      hide ScreenNow;
      hide RefreshedAll;
      hide HeldSince;
      hide MenuOpen;
      hide Confirming;
      hide CountingDown;
      history := history + [Press(key, false)];
      awakeUntil := Some(now + cfg.resumeAfter);
      Wake(now, s);
      LcdAgreesWithLed(now);
      e := Render(ScreenNow(now));
    }

    method KeyInStatus(key: Key, now: int)
      requires Valid() && LedsAgree() && AlarmFresh() && !sleeping && mode.Status?
      modifies this`mode, this`history, this`openedAt, this`leftAt, this`index, this`autoRotate, this`resumeAt,
               this`lastDwell
      ensures Valid() && LedsAgree() && AlarmFresh() && history == old(history) + [Press(key, true)]
      ensures mode == if key.Enter? then ActionMenu(0) else Status
      ensures if (key.Up? || key.Down?) && screens > 0
              then index == PageFrom(old(index), screens, key.Down?)
                   && Paged() == Paging(false, Some(now + cfg.resumeAfter), now)
              else index == old(index) && Paged() == old(Paged())
      ensures !mode.Status? ==> leftAt == |old(history)|
    {
      hide LedsAgree;
      hide AlarmFresh;
      hide ModeExplained;
      hide HeldSinceLeft;
      hide PageFrom;
      NoteKeyInStatus(key);
      match key {
        case Up => Page(false, now);
        case Down => Page(true, now);
        case _ =>
      }
    }

    /** Enter opens the menu; any other key leaves the status screens on. */
    method NoteKeyInStatus(key: Key)
      requires Valid() && !sleeping && mode.Status?
      modifies this`mode, this`history, this`openedAt, this`leftAt
      ensures Valid() && history == old(history) + [Press(key, true)]
      ensures mode == if key.Enter? then ActionMenu(0) else Status
      ensures !mode.Status? ==> leftAt == |old(history)|
    {
      hide MenuOpen;
      hide Confirming;
      hide CountingDown;
      MenuOpens(history);
      HeldGrows(history, Press(key, true), |history|);
      hide HeldSince;
      openedAt, leftAt := |history|, |history|;
      history := history + [Press(key, true)];
      if key.Enter? {
        mode := ActionMenu(0);
      }
    }

    method KeyInMenu(key: Key, now: int, s: Sample)
      requires Valid() && LedsAgree() && AlarmFresh() && !sleeping && mode.ActionMenu?
      modifies this`mode, this`over, this`alertBay, this`sleeping, this`networkAt, this`poolsAt, this`hddAt, this`scan,
               this`alarm, this`statusShown, this`lastHealth, this`ledInputs, this`screens, this`index, this`pending,
               this`history, this`pickedAt, board
      ensures Valid() && LedsAgree() && AlarmFresh() && history == old(history) + [Press(key, true)]
      ensures Cached() == old(Cached()) && (lastHealth == old(lastHealth) || lastHealth == s.health)
      ensures !sleeping && AtLeast(over, old(over))
      ensures over == if key.Back? then Accepted(old(over), old(pending)) else old(over)
      ensures mode == match key
                      case Up | Down => ActionMenu(1 - old(mode).selection)
                      case Enter => Confirm(Choice(old(mode).selection), now + cfg.confirmTimeout)
                      case Back => Status
                      case _ => old(mode)
    {
      hide Cached;
      hide Paged;
      hide V;
      hide LedsAgree;
      hide AlarmFresh;
      hide MenuOpen;
      hide Confirming;
      hide CountingDown;
      hide Accepted;
      hide HeldSince;
      ghost var before, press := history, Press(key, true);
      var selection := mode.selection;
      HeldGrows(before, press, leftAt);
      history := history + [press];
      match key {
        case Up =>
          MenuStaysOpen(before, openedAt, selection, press);
          mode := ActionMenu(if selection == 0 then 1 else selection - 1);
        case Down =>
          MenuStaysOpen(before, openedAt, selection, press);
          mode := ActionMenu((selection + 1) % 2);
        case Enter =>
          MenuPicks(before, openedAt, selection);
          mode := Confirm(Choice(selection), now + cfg.confirmTimeout);
          pickedAt := |before|;
        case Back =>
          CloseMenu(now, s);
        case _ =>
          MenuStaysOpen(before, openedAt, selection, press);
      }
    }

    method KeyInQuestion(key: Key, now: int, s: Sample) returns (e: Effect)
      requires Valid() && LedsAgree() && AlarmFresh() && !sleeping && mode.Confirm?
      modifies this`mode, this`over, this`alertBay, this`sleeping, this`networkAt, this`poolsAt, this`hddAt, this`scan,
               this`alarm, this`statusShown, this`lastHealth, this`ledInputs, this`screens, this`index, this`pending,
               this`history, this`pickedAt, board
      ensures Valid() && LedsAgree() && AlarmFresh() && history == old(history) + [Press(key, true)]
      ensures Cached() == old(Cached()) && (lastHealth == old(lastHealth) || lastHealth == s.health)
      ensures !sleeping && AtLeast(over, old(over))
      ensures e == if key.Enter? then RunAction(old(mode).action) else NoEffect
      ensures e.RunAction? ==> exists i, j :: ChosenAtPanel(history, i, j, e.action)
      ensures mode == if key.Enter? || key.Back? then Status else old(mode)
      ensures over == if key.Enter? || key.Back? then Accepted(old(over), old(pending)) else old(over)
    {
      hide Cached;
      hide Paged;
      hide V;
      hide LedsAgree;
      hide AlarmFresh;
      hide Confirming;
      hide ChosenAtPanel;
      hide CountingDown;
      hide Accepted;
      hide HeldSince;
      ghost var before, press := history, Press(key, true);
      var action := mode.action;
      HeldGrows(before, press, leftAt);
      history := history + [press];
      e := NoEffect;
      match key {
        case Enter =>
          ChoiceRuns(before, openedAt, pickedAt, action);
          CloseMenu(now, s);
          e := RunAction(action);
        case Back =>
          CloseMenu(now, s);
        case _ =>
          QuestionStaysOpen(before, openedAt, pickedAt, action, press);
      }
    }

    /** Any button at all cancels a countdown. */
    method KeyInCountdown(key: Key, now: int, s: Sample) returns (e: Effect)
      requires Valid() && LedsAgree() && AlarmFresh() && !sleeping && mode.Countdown?
      modifies this`mode, this`over, this`alertBay, this`sleeping, this`networkAt, this`poolsAt, this`hddAt, this`scan,
               this`alarm, this`statusShown, this`lastHealth, this`ledInputs, this`screens, this`index, this`pending,
               this`history, this`pickedAt, board
      ensures Cached() == old(Cached()) && (lastHealth == old(lastHealth) || lastHealth == s.health)
      ensures e.Render? && Presents(e, now)
      ensures Valid() && LedsAgree() && AlarmFresh() && history == old(history) + [Press(key, true)]
      ensures mode == Status && !sleeping && AtLeast(over, old(over))
      ensures over == Accepted(Accepted(old(over), old(pending)), Some(Cancelled(old(mode).action, now)))
    {
      hide Cached;
      hide Paged;
      hide V;
      hide ScreenAgrees;
      hide LedsAgree;
      hide AlarmFresh;
      hide ScreenNow;
      hide MenuOpen;
      hide Confirming;
      hide CountingDown;
      var cancelled := Cancelled(mode.action, now);
      history := history + [Press(key, true)];
      CloseMenu(now, s);
      ShowOverride(cancelled, now, s);
      LcdAgreesWithLed(now);
      e := Render(ScreenNow(now));
    }

    /** Back to the status screens; a message held meanwhile gets its turn. */
    method CloseMenu(now: int, s: Sample)
      requires LedsAgree() && AlarmFresh() && MessagesValid() && Persists(pending) && !sleeping
      requires autoRotate || resumeAt.Some?
      modifies this`mode, this`over, this`alertBay, this`sleeping, this`networkAt, this`poolsAt, this`hddAt, this`scan,
               this`alarm, this`statusShown, this`lastHealth, this`ledInputs, this`screens, this`index, this`pending,
               board
      ensures LedsAgree() && AlarmFresh() && Valid() && mode == Status && !sleeping
      ensures AtLeast(over, old(over)) && over == Accepted(old(over), old(pending))
      ensures Cached() == old(Cached()) && (lastHealth == old(lastHealth) || lastHealth == s.health)
    {
      hide LedsAgree;
      hide AlarmFresh;
      mode := Status;
      ApplyPendingOverride(now, s);
    }

    method Page(forward: bool, now: int)
      modifies this`index, this`autoRotate, this`resumeAt, this`lastDwell
      ensures if screens > 0
              then index == PageFrom(old(index), screens, forward)
                   && Paged() == Paging(false, Some(now + cfg.resumeAfter), now)
              else index == old(index) && Paged() == old(Paged())
    {
      if screens == 0 {
        return;
      }
      index := if forward then (index + 1) % screens else (index + screens - 1) % screens;
      autoRotate := false;
      resumeAt := Some(now + cfg.resumeAfter);
      lastDwell := now;
    }

    /**
     A scheduled action is due: counts down, taking over from menu and sleep. A
     running countdown is kept, but a shutdown replaces a restart.
     */
    method StartCountdown(action: Action, secs: nat, name: string, now: int, s: Sample)
      requires Valid() && LedsAgree() && AlarmFresh()
      modifies this`mode, this`history, this`leftAt, this`startedAt, this`sleeping, this`networkAt, this`poolsAt,
               this`hddAt, this`scan, this`alarm, this`statusShown, this`lastHealth, this`ledInputs, this`screens,
               this`index, board
      ensures Valid() && LedsAgree() && AlarmFresh() && !sleeping
      ensures history == old(history) + [Start(action, now + secs)]
      ensures leftAt == if old(mode).Status? then |old(history)| else old(leftAt)
      ensures Cached() == if old(sleeping) && !sleeping then RefreshedAll(old(Cached()), cfg, fanHealth, now, s)
                          else old(Cached())
      ensures lastHealth == old(lastHealth) || lastHealth == s.health
      ensures mode == if old(mode).Countdown?
                      then Continued(old(mode), action)
                      else Countdown(action, now + secs, name)
    {
      hide LedsAgree;
      hide AlarmFresh;
      hide CountingDown;
      if mode.Countdown? {
        ContinueCountdown(action, now + secs);
      } else {
        BeginCountdown(action, now + secs, name, now, s);
      }
    }

    /** A running countdown keeps its deadline and name. */
    method ContinueCountdown(action: Action, ghost deadline: int)
      requires Valid() && LedsAgree() && AlarmFresh() && mode.Countdown?
      modifies this`mode, this`history
      ensures Valid() && LedsAgree() && AlarmFresh()
      ensures history == old(history) + [Start(action, deadline)]
      ensures mode == Continued(old(mode), action)
    {
      hide LedsAgree;
      hide AlarmFresh;
      hide CountingDown;
      hide HeldSince;
      ghost var start := Start(action, deadline);
      CountdownGoesOn(history, startedAt, mode.action, mode.deadline, start);
      HeldGrows(history, start, leftAt);
      history := history + [start];
      if action.Shutdown? && mode.action.Restart? {
        mode := Countdown(Shutdown, mode.deadline, mode.name);
      }
    }

    method BeginCountdown(action: Action, deadline: int, name: string, now: int, s: Sample)
      requires Valid() && LedsAgree() && AlarmFresh() && !mode.Countdown?
      modifies this`mode, this`history, this`leftAt, this`startedAt, this`sleeping, this`networkAt, this`poolsAt,
               this`hddAt, this`scan, this`alarm, this`statusShown, this`lastHealth, this`ledInputs, this`screens,
               this`index, board
      ensures Valid() && LedsAgree() && AlarmFresh() && !sleeping
      ensures history == old(history) + [Start(action, deadline)] && mode == Countdown(action, deadline, name)
      ensures Cached() == if old(sleeping) && !sleeping then RefreshedAll(old(Cached()), cfg, fanHealth, now, s)
                          else old(Cached())
      ensures lastHealth == old(lastHealth) || lastHealth == s.health
      ensures leftAt == if old(mode).Status? then |old(history)| else old(leftAt)
    {
      hide LedsAgree;
      hide AlarmFresh;
      hide ModeExplained;
      hide HeldSinceLeft;
      if sleeping {
        Wake(now, s);
      }
      EnterCountdown(action, deadline, name);
    }

    method EnterCountdown(action: Action, deadline: int, name: string)
      requires Valid() && !sleeping && !mode.Countdown?
      modifies this`mode, this`history, this`leftAt, this`startedAt
      ensures Valid() && mode == Countdown(action, deadline, name)
      ensures history == old(history) + [Start(action, deadline)]
      ensures leftAt == if old(mode).Status? then |old(history)| else old(leftAt)
    {
      ghost var before, start := history, Start(action, deadline);
      HeldGrows(before, start, leftAt);
      HeldGrows(before, start, |before|);
      CountdownBegins(before, action, deadline);
      hide HeldSince;
      hide CountingDown;
      if mode.Status? {
        leftAt := |before|;
      }
      startedAt := |before|;
      history := history + [start];
      mode := Countdown(action, deadline, name);
    }

    /** Nothing but a key, a start or a message: whatever explains the mode still does. */
    ghost method NoteOther()
      requires Valid()
      modifies this`history
      ensures Valid() && history == old(history) + [Other]
    {
      HeldGrows(history, Other, leftAt);
      hide HeldSince;
      StillExplained(Other);
      history := history + [Other];
    }

    /** Events that are no key and no start leave the mode as it is. */
    lemma StillExplained(e: Event)
      requires ModeExplained() && (e.Other? || e.Shown?)
      ensures match mode
              case Status => true
              case ActionMenu(selection) => selection < 2 && MenuOpen(history + [e], openedAt, selection)
              case Confirm(a, _) => Confirming(history + [e], openedAt, pickedAt, a)
              case Countdown(a, deadline, _) => CountingDown(history + [e], startedAt, a, deadline)
    {
      hide MenuOpen;
      hide Confirming;
      hide CountingDown;
      match mode {
        case Status =>
        case ActionMenu(selection) => MenuStaysOpen(history, openedAt, selection, e);
        case Confirm(a, _) => QuestionStaysOpen(history, openedAt, pickedAt, a, e);
        case Countdown(a, deadline, _) => CountdownGoesOn(history, startedAt, a, deadline, e);
      }
    }

    method ApplySocketCommand(cmd: Command, now: int, s: Sample)
      requires Valid() && LedsAgree() && AlarmFresh()
      modifies this`over, this`alertBay, this`sleeping, this`networkAt, this`poolsAt, this`hddAt, this`scan, this`alarm,
               this`statusShown, this`lastHealth, this`ledInputs, this`screens, this`index, this`pending,
               this`history, this`locateBays, this`locateChassis, board
      ensures Valid() && LedsAgree() && AlarmFresh()
      ensures history == old(history) + [if cmd.Show? then Shown(AsMessage(cmd, now)) else Other]
      ensures Cached() == if old(sleeping) && !sleeping then RefreshedAll(old(Cached()), cfg, fanHealth, now, s)
                          else old(Cached())
      ensures lastHealth == old(lastHealth) || lastHealth == s.health
      ensures !cmd.Clear? ==> AtLeast(over, old(over))
      ensures cmd.Clear? ==> over == Cleared(old(over), cmd.bay)
      ensures cmd.Show? ==>
                var m := AsMessage(cmd, now);
                if !old(mode).Status? then over == old(over)
                else if old(sleeping) && !m.level.AlwaysVisible() then over == old(over)
                else over == Accepted(old(over), Some(m))
      ensures !cmd.Show? ==> pending == old(pending)
      // Only an urgent message wakes the panel, and nothing here puts it to sleep.
      ensures sleeping == (old(sleeping) && !(cmd.Show? && cmd.level.AlwaysVisible()))
      ensures LocatesAfter(cmd, now, old(locateBays), old(locateChassis)) == (locateBays, locateChassis)
    {
      hide LedsAgree;
      hide AlarmFresh;
      hide Valid;
      hide Refreshed;
      hide RefreshedAll;
      hide AsMessage;
      hide Accepted;
      hide AlertBayOf;
      if !cmd.Show? {
        NoteOther();
      }
      match cmd {
        case Clear(bay) =>
          ClearMessage(bay, s.health);
        case Show(_, _, _, _, _, _) =>
          ReceiveMessage(AsMessage(cmd, now), now, s);
        case StartLocating(bay, ttl) =>
          Locating(true, bay, ttl, now, s.health);
        case StopLocating(bay) =>
          Locating(false, bay, 0, now, s.health);
      }
    }

    method ClearMessage(bay: Option<nat>, health: seq<Alarm>)
      requires Valid() && LedsAgree() && AlarmFresh()
      modifies this`over, this`alertBay, this`alarm, this`statusShown, this`lastHealth, board
      ensures lastHealth == old(lastHealth) || lastHealth == health
      ensures Valid() && LedsAgree() && AlarmFresh()
      ensures over == Cleared(old(over), bay)
    {
      hide Agrees;
      hide StatusWant;
      hide MostCritical;
      hide MenuOpen;
      hide Confirming;
      hide CountingDown;
      var showing := if over.Some? then over.value.bay else None;
      if bay.None? || bay == showing {
        over := None;
        SyncLedsToOverride(health);
      }
    }

    method Locating(start: bool, bay: Option<nat>, ttl: nat, now: int, health: seq<Alarm>)
      requires Valid() && LedsAgree() && AlarmFresh()
      modifies this`locateBays, this`locateChassis, this`alarm, this`statusShown, this`lastHealth, board
      ensures lastHealth == old(lastHealth) || lastHealth == health
      ensures Valid() && LedsAgree() && AlarmFresh()
      ensures var cmd := if start then StartLocating(bay, ttl) else StopLocating(bay);
              LocatesAfter(cmd, now, old(locateBays), old(locateChassis)) == (locateBays, locateChassis)
    {
      hide Agrees;
      hide StatusWant;
      hide MostCritical;
      hide MenuOpen;
      hide Confirming;
      hide CountingDown;
      if start {
        StartLocate(bay, ttl, now, health);
      } else {
        StopLocate(bay, health);
      }
    }

    /** Shown at once on the status screens; otherwise held, unless a more severe one is held already. */
    method ReceiveMessage(m: Message, now: int, s: Sample)
      requires Valid() && LedsAgree() && AlarmFresh() && Persists(Some(m))
      modifies this`over, this`alertBay, this`sleeping, this`networkAt, this`poolsAt, this`hddAt, this`scan, this`alarm,
               this`statusShown, this`lastHealth, this`ledInputs, this`screens, this`index, this`pending,
               this`history, board
      ensures Valid() && LedsAgree() && AlarmFresh() && AtLeast(over, old(over))
      ensures Cached() == if old(sleeping) && !sleeping then RefreshedAll(old(Cached()), cfg, fanHealth, now, s)
                          else old(Cached())
      ensures lastHealth == old(lastHealth) || lastHealth == s.health
      ensures sleeping == (old(sleeping) && !m.level.AlwaysVisible())
      ensures history == old(history) + [Shown(m)]
      ensures over == if !mode.Status? || (old(sleeping) && !m.level.AlwaysVisible()) then old(over)
                      else Accepted(old(over), Some(m))
    {
      hide Cached;
      hide Paged;
      hide V;
      hide LedsAgree;
      hide AlarmFresh;
      hide MenuOpen;
      hide Confirming;
      hide CountingDown;
      hide HeldSince;
      hide RefreshedAll;
      HeldGrows(history, Shown(m), leftAt);
      StillExplained(Shown(m));
      history := history + [Shown(m)];
      if mode.Status? {
        ShowOverride(m, now, s);
      } else {
        if pending.None? || m.level.Rank() >= pending.value.level.Rank() {
          pending := Some(m);
        }
      }
    }

    // ---------- the tick ----------

    /** A countdown explained by the history has reached the deadline its start set. */
    ghost predicate RanOut(action: Action, now: int)
      reads this`history
    {
      exists i, deadline :: CountingDown(history, i, action, deadline) && now >= deadline
    }

    /** Nothing keeps the status screens from moving on. */
    predicate Rotates(lastDwell: int, now: int, s: Sample)
      reads this`mode, this`over, this`alarm, this`locateChassis, this`autoRotate, this`sleeping
    {
      && !sleeping && mode.Status? && over.None? && alarm.None? && locateChassis.None? && autoRotate
      && !s.scrolling && now - lastDwell >= cfg.dwell
    }

    method Tick(now: int, s: Sample) returns (e: Effect)
      requires Valid() && LedsAgree() && AlarmFresh()
      modifies this`mode, this`over, this`alertBay, this`sleeping, this`networkAt, this`poolsAt, this`hddAt, this`scan,
               this`alarm, this`statusShown, this`lastHealth, this`ledInputs, this`screens, this`index, this`pending,
               this`awakeUntil, this`autoRotate, this`resumeAt, this`lastDwell,
               this`history, this`locateBays, this`locateChassis, board
      ensures Valid() && LedsAgree() && AlarmFresh() && history == old(history) + [Other]
      // Asleep the screen is blank unless a locate runs; otherwise it shows what the panel is at, as the LEDs do.
      ensures (e.Blank? <==> sleeping && locateChassis.None?) && Presents(e, now)
      // An action runs exactly when a countdown reaches the deadline its start set.
      ensures e.RunAction? <==> old(mode).Countdown? && now >= old(mode).deadline
      ensures e.RunAction? ==> RanOut(e.action, now)
      ensures mode == if TimedOut(old(mode), now) then Status else old(mode)
      // An expired message goes; a held one gets its turn when the question or countdown ends.
      ensures over == OverAfterTick(old(over), old(mode), old(pending), now)
      ensures (locateBays, locateChassis) == Running(old(locateBays), old(locateChassis), now)
      // Asleep exactly when the schedule wants it and it either was already, or nothing forbids falling asleep.
      ensures awakeUntil == Grace(old(awakeUntil), now)
      ensures sleeping == (scheduleWantsSleep
                           && (old(sleeping) || (old(over).None? && old(mode).Status? && awakeUntil.None?)))
      // Whatever the disks and health checks say now is what the LEDs show, unless an action is about to run.
      ensures lastHealth == s.health
              || (lastHealth == old(lastHealth) && (e.RunAction? || !old(LooksAgain(now, s))))
      // Each is looked at again when due, all of them on waking, and the screens rotate when nothing stands in the way.
      // After paging by hand that resumes as soon as it may.
      ensures var did := Did(e.RunAction?, old(sleeping) && !sleeping, sleeping, Rotates(old(lastDwell), now, s));
              && Cached() == CachesAfterTick(did, old(Cached()), cfg, fanHealth, now, s)
              && Paged() == PagingAfterTick(did, old(Paged()), now)
    {
      hide Cached;
      hide Paged;
      hide V;
      hide LedsAgree;
      hide AlarmFresh;
      hide RanOut;
      hide Valid;
      hide OverAfterTick;
      hide TimedOut;
      hide Presents;
      hide LooksAgain;
      hide Running;
      hide CachesAfterTick;
      hide PagingAfterTick;
      hide Rotates;
      hide Grace;
      NoteOther();
      ExpireLocates(now, s.health);
      e := SleepOrGoOn(now, s);
    }

    /** A tick, once locates that have run out are ended. */
    method SleepOrGoOn(now: int, s: Sample) returns (e: Effect)
      requires Valid() && LedsAgree() && AlarmFresh()
      modifies this`mode, this`over, this`alertBay, this`sleeping, this`networkAt, this`poolsAt, this`hddAt, this`scan,
               this`alarm, this`statusShown, this`lastHealth, this`ledInputs, this`screens, this`index, this`pending,
               this`awakeUntil, this`autoRotate, this`resumeAt, this`lastDwell, board
      ensures Valid() && LedsAgree() && AlarmFresh()
      ensures (e.Blank? <==> sleeping && locateChassis.None?) && Presents(e, now)
      ensures e.RunAction? <==> old(mode).Countdown? && now >= old(mode).deadline
      ensures e.RunAction? ==> RanOut(e.action, now)
      ensures mode == if TimedOut(old(mode), now) then Status else old(mode)
      ensures over == OverAfterTick(old(over), old(mode), old(pending), now)
      ensures awakeUntil == Grace(old(awakeUntil), now)
      ensures sleeping == (scheduleWantsSleep
                           && (old(sleeping) || (old(over).None? && old(mode).Status? && awakeUntil.None?)))
      ensures lastHealth == s.health
              || (lastHealth == old(lastHealth) && (e.RunAction? || !old(LooksAgain(now, s))))
      ensures var did := Did(e.RunAction?, old(sleeping) && !sleeping, sleeping, Rotates(old(lastDwell), now, s));
              && Cached() == CachesAfterTick(did, old(Cached()), cfg, fanHealth, now, s)
              && Paged() == PagingAfterTick(did, old(Paged()), now)
    {
      hide Cached;
      hide Paged;
      hide V;
      hide LedsAgree;
      hide AlarmFresh;
      hide Grace;
      hide RanOut;
      hide Valid;
      hide OverAfterTick;
      hide TimedOut;
      hide Presents;
      hide LooksAgain;
      hide Stale;
      hide Due;
      hide CachesAfterTick;
      hide PagingAfterTick;
      hide Rotates;
      SleepIfWanted(now);
      e := RestOfTick(now, s);
    }

    method RestOfTick(now: int, s: Sample) returns (e: Effect)
      requires Valid() && LedsAgree() && AlarmFresh()
      requires sleeping ==> !TimedOut(mode, now) && over == OverAfterTick(over, mode, pending, now)
      modifies this`mode, this`over, this`alertBay, this`sleeping, this`networkAt, this`poolsAt, this`hddAt, this`scan,
               this`alarm, this`statusShown, this`lastHealth, this`ledInputs, this`screens, this`index, this`pending,
               this`autoRotate, this`resumeAt, this`lastDwell, board
      ensures Valid() && LedsAgree() && AlarmFresh()
      ensures (e.Blank? <==> sleeping && locateChassis.None?) && Presents(e, now)
      ensures e.RunAction? <==> old(mode).Countdown? && now >= old(mode).deadline
      ensures e.RunAction? ==> RanOut(e.action, now)
      ensures mode == if TimedOut(old(mode), now) then Status else old(mode)
      ensures over == OverAfterTick(old(over), old(mode), old(pending), now)
      ensures sleeping == (old(sleeping) && scheduleWantsSleep)
      ensures lastHealth == s.health
              || (lastHealth == old(lastHealth) && (e.RunAction? || !old(LooksAgain(now, s))))
      ensures var did := Did(e.RunAction?, old(sleeping) && !sleeping, sleeping, Rotates(old(lastDwell), now, s));
              && Cached() == CachesAfterTick(did, old(Cached()), cfg, fanHealth, now, s)
              && Paged() == PagingAfterTick(did, old(Paged()), now)
    {
      hide Cached;
      hide Paged;
      hide V;
      hide LedsAgree;
      hide AlarmFresh;
      hide RanOut;
      hide Valid;
      hide OverAfterTick;
      hide Presents;
      hide LooksAgain;
      hide Stale;
      hide Due;
      hide Refreshed;
      hide RefreshedAll;
      hide Moved;
      hide Resumed;
      if sleeping {
        e := TickAsleep(now, s);
      } else {
        e := TickUp(now, s);
      }
    }

    /** Not asleep: a countdown that has run out ends, anything else goes on. */
    method TickUp(now: int, s: Sample) returns (e: Effect)
      requires Valid() && LedsAgree() && AlarmFresh() && !sleeping
      modifies this`mode, this`over, this`alertBay, this`sleeping, this`networkAt, this`poolsAt, this`hddAt, this`scan,
               this`alarm, this`statusShown, this`lastHealth, this`ledInputs, this`screens, this`index, this`pending,
               this`autoRotate, this`resumeAt, this`lastDwell, board
      ensures Valid() && LedsAgree() && AlarmFresh() && !sleeping && !e.Blank? && Presents(e, now)
      ensures e.RunAction? <==> old(mode).Countdown? && now >= old(mode).deadline
      ensures e.RunAction? ==> RanOut(e.action, now)
      ensures mode == if TimedOut(old(mode), now) then Status else old(mode)
      ensures over == OverAfterTick(old(over), old(mode), old(pending), now)
      ensures lastHealth == s.health
              || (lastHealth == old(lastHealth) && (e.RunAction? || !old(LooksAgain(now, s))))
      ensures Cached() == if e.RunAction? then old(Cached())
                          else Moved(Refreshed(old(Cached()), cfg, fanHealth, now, s), Rotates(old(lastDwell), now, s))
      ensures Paged() == if e.RunAction? then old(Paged())
                         else Resumed(old(Paged()), now, Rotates(old(lastDwell), now, s))
    {
      hide Cached;
      hide Paged;
      hide V;
      hide LedsAgree;
      hide AlarmFresh;
      hide RanOut;
      hide Valid;
      hide ScreenNow;
      hide ScreenAgrees;
      hide LooksAgain;
      hide Stale;
      hide Due;
      hide Refreshed;
      hide Moved;
      hide Rotates;
      hide Resumed;
      if mode.Countdown? && now >= mode.deadline {
        var action := FinishCountdown(now, s);
        e := RunAction(action);
      } else {
        TickAwake(now, s);
        LcdAgreesWithLed(now);
        e := Render(ScreenNow(now));
      }
    }

    /** Asleep: wakes if the schedule no longer wants sleep, else only refreshes. */
    method TickAsleep(now: int, s: Sample) returns (e: Effect)
      requires Valid() && LedsAgree() && AlarmFresh() && sleeping
      modifies this`sleeping, this`networkAt, this`poolsAt, this`hddAt, this`scan, this`alarm, this`statusShown,
               this`lastHealth, this`ledInputs, this`screens, this`index, board
      ensures Valid() && LedsAgree() && AlarmFresh() && sleeping == scheduleWantsSleep
      ensures !e.RunAction? && (e.Blank? <==> sleeping && locateChassis.None?) && Presents(e, now)
      ensures lastHealth == old(lastHealth) || lastHealth == s.health
      ensures Cached() == if sleeping then Refreshed(old(Cached()), cfg, fanHealth, now, s)
                          else RefreshedAll(old(Cached()), cfg, fanHealth, now, s)
      ensures old(LooksAgain(now, s)) ==> lastHealth == s.health
    {
      hide Cached;
      hide Paged;
      hide V;
      hide LedsAgree;
      hide AlarmFresh;
      hide ScreenNow;
      hide ScreenAgrees;
      hide Valid;
      hide LooksAgain;
      hide Stale;
      hide Refreshed;
      hide RefreshedAll;
      if !scheduleWantsSleep {
        WakeOnSchedule(now, s);
      } else {
        Refresh(now, s);
      }
      LcdAgreesWithLed(now);
      e := if sleeping && locateChassis.None? then Blank else Render(ScreenNow(now));
    }

    method TickAwake(now: int, s: Sample)
      requires Valid() && LedsAgree() && AlarmFresh() && !sleeping
      modifies this`mode, this`over, this`alertBay, this`sleeping, this`networkAt, this`poolsAt, this`hddAt, this`scan,
               this`alarm, this`statusShown, this`lastHealth, this`ledInputs, this`screens, this`index, this`pending,
               this`autoRotate, this`resumeAt, this`lastDwell, board
      ensures Valid() && LedsAgree() && AlarmFresh() && !sleeping
      ensures mode == if old(mode).Confirm? && now >= old(mode).deadline then Status else old(mode)
      ensures over == if mode == old(mode) then Unexpired(old(over), now)
                      else Accepted(Unexpired(old(over), now), old(pending))
      ensures lastHealth == old(lastHealth) || lastHealth == s.health
      ensures Cached() == Moved(Refreshed(old(Cached()), cfg, fanHealth, now, s), Rotates(old(lastDwell), now, s))
      ensures Paged() == Resumed(old(Paged()), now, Rotates(old(lastDwell), now, s))
      ensures old(LooksAgain(now, s)) ==> lastHealth == s.health
    {
      hide V;
      hide LedsAgree;
      hide AlarmFresh;
      hide Valid;
      hide Refreshed;
      hide Due;
      hide Stale;
      hide Accepted;
      hide Unexpired;
      hide LooksAgain;
      hide Moved;
      hide Rotates;
      Refresh(now, s);
      Settle(now, s);
      Rotate(now, s);
    }

    /** What has run its time: a message, the hand paging, an unanswered question. */
    method Settle(now: int, s: Sample)
      requires Valid() && LedsAgree() && AlarmFresh() && !sleeping
      modifies this`mode, this`over, this`alertBay, this`sleeping, this`networkAt, this`poolsAt, this`hddAt, this`scan,
               this`alarm, this`statusShown, this`lastHealth, this`ledInputs, this`screens, this`index, this`pending,
               this`autoRotate, this`resumeAt, board
      ensures Valid() && LedsAgree() && AlarmFresh() && !sleeping
      ensures mode == if old(mode).Confirm? && now >= old(mode).deadline then Status else old(mode)
      ensures over == if mode == old(mode) then Unexpired(old(over), now)
                      else Accepted(Unexpired(old(over), now), old(pending))
      ensures Cached() == old(Cached()) && (lastHealth == old(lastHealth) || lastHealth == s.health)
      ensures Paged() == Resumed(old(Paged()), now, false)
    {
      hide LedsAgree;
      hide AlarmFresh;
      hide Valid;
      hide Due;
      hide Accepted;
      hide Unexpired;
      hide Resumed;
      ExpireMessage(now, s.health);
      ResumeAndCancel(now, s);
    }

    /** The deadline has passed: back to the status screens, and the action runs. */
    method FinishCountdown(now: int, s: Sample) returns (action: Action)
      requires Valid() && LedsAgree() && AlarmFresh() && mode.Countdown? && now >= mode.deadline
      modifies this`mode, this`over, this`alertBay, this`sleeping, this`networkAt, this`poolsAt, this`hddAt, this`scan,
               this`alarm, this`statusShown, this`lastHealth, this`ledInputs, this`screens, this`index, this`pending,
               board
      ensures Valid() && LedsAgree() && AlarmFresh() && mode == Status && !sleeping
      ensures over == Accepted(old(over), old(pending))
      ensures Cached() == old(Cached()) && (lastHealth == old(lastHealth) || lastHealth == s.health)
      ensures RanOut(action, now)
    {
      hide LedsAgree;
      hide AlarmFresh;
      hide CountingDown;
      hide HeldSinceLeft;
      action := mode.action;
      ghost var deadline := mode.deadline;
      CloseMenu(now, s);
      assert CountingDown(history, startedAt, action, deadline);
    }

    method SleepIfWanted(now: int)
      requires Valid() && LedsAgree() && AlarmFresh()
      modifies this`awakeUntil, this`sleeping, this`statusShown, board
      ensures Valid() && LedsAgree() && AlarmFresh()
      ensures sleeping ==> !TimedOut(mode, now) && over == OverAfterTick(over, mode, pending, now)
      ensures awakeUntil == Grace(old(awakeUntil), now)
      ensures sleeping == (old(sleeping) || (scheduleWantsSleep && awakeUntil.None? && over.None? && mode.Status?))
    {
      hide LedsAgree;
      hide AlarmFresh;
      hide ModeExplained;
      hide HeldSinceLeft;
      if awakeUntil.None? || now >= awakeUntil.value {
        awakeUntil := None;
      }
      if scheduleWantsSleep && !sleeping && awakeUntil.None? && over.None? && mode.Status? {
        FallAsleep();
      }
    }

    method WakeOnSchedule(now: int, s: Sample)
      requires Valid() && LedsAgree() && sleeping
      modifies this`sleeping, this`networkAt, this`poolsAt, this`hddAt, this`scan, this`alarm, this`statusShown,
               this`lastHealth, this`ledInputs, this`screens, this`index, board
      ensures Valid() && LedsAgree() && AlarmFresh() && !sleeping && lastHealth == s.health
      ensures Cached() == RefreshedAll(old(Cached()), cfg, fanHealth, now, s)
    {
      hide LedsAgree;
      hide AlarmFresh;
      hide MenuOpen;
      hide Confirming;
      hide CountingDown;
      Wake(now, s);
    }

    method ExpireMessage(now: int, health: seq<Alarm>)
      requires Valid() && LedsAgree() && AlarmFresh()
      modifies this`over, this`alertBay, this`alarm, this`statusShown, this`lastHealth, board
      ensures Valid() && LedsAgree() && AlarmFresh()
      ensures over == Unexpired(old(over), now)
      ensures lastHealth == old(lastHealth) || lastHealth == health
    {
      hide Agrees;
      hide StatusWant;
      hide MostCritical;
      hide MenuOpen;
      hide Confirming;
      hide CountingDown;
      if over.Some? && Due(over.value.expiresAt, now) {
        over := None;
        SyncLedsToOverride(health);
      }
    }

    /** Goes back to rotating after paging; gives up on a question nobody answered. */
    method ResumeAndCancel(now: int, s: Sample)
      requires Valid() && LedsAgree() && AlarmFresh() && !sleeping
      modifies this`mode, this`over, this`alertBay, this`sleeping, this`networkAt, this`poolsAt, this`hddAt, this`scan,
               this`alarm, this`statusShown, this`lastHealth, this`ledInputs, this`screens, this`index, this`pending,
               this`autoRotate, this`resumeAt, board
      ensures Valid() && LedsAgree() && AlarmFresh() && !sleeping && AtLeast(over, old(over))
      ensures mode == if old(mode).Confirm? && now >= old(mode).deadline then Status else old(mode)
      ensures over == if old(mode) != mode then Accepted(old(over), old(pending)) else old(over)
      ensures Cached() == old(Cached()) && (lastHealth == old(lastHealth) || lastHealth == s.health)
      ensures Paged() == Resumed(old(Paged()), now, false)
    {
      hide LedsAgree;
      hide AlarmFresh;
      hide MenuOpen;
      hide Confirming;
      hide CountingDown;
      if !autoRotate && Due(resumeAt, now) {
        autoRotate := true;
        resumeAt := None;
      }
      if mode.Confirm? && now >= mode.deadline {
        CloseMenu(now, s);
      }
    }

    method Rotate(now: int, s: Sample)
      requires !sleeping && screens > 0
      modifies this`index, this`lastDwell
      ensures Cached() == Moved(old(Cached()), Rotates(old(lastDwell), now, s))
      ensures lastDwell == if Rotates(old(lastDwell), now, s) then now else old(lastDwell)
    {
      if mode.Status? && over.None? && alarm.None? && locateChassis.None? && autoRotate && screens > 0 && !s.scrolling
         && now - lastDwell >= cfg.dwell {
        index := (index + 1) % screens;
        lastDwell := now;
      }
    }

    /** At startup, and whenever the driver appears or is reloaded. */
    method InitLeds(health: seq<Alarm>)
      requires Valid()
      modifies this`alarm, this`statusShown, this`lastHealth, board
      ensures Valid() && LedsAgree() && AlarmFresh() && lastHealth == health
    {
      hide LedsAgree;
      hide AlarmFresh;
      hide MenuOpen;
      hide Confirming;
      hide CountingDown;
      ApplyAllLeds(health);
    }

    method SetScheduleSleepWanted(wanted: bool)
      requires Valid() && LedsAgree() && AlarmFresh()
      modifies this`scheduleWantsSleep
      ensures Valid() && LedsAgree() && AlarmFresh() && scheduleWantsSleep == wanted
    {
      scheduleWantsSleep := wanted;
    }

    method SetFanHealth(level: Level)
      requires Valid() && LedsAgree() && AlarmFresh()
      modifies this`fanHealth
      ensures Valid() && LedsAgree() && AlarmFresh() && fanHealth == level
    {
      fanHealth := level;
    }

    /** Which screen is due: menu, question and countdown first, then a locate, the alarm, a message, the rotation. */
    lemma ScreenDue(now: int)
      ensures mode.ActionMenu? ==> ScreenNow(now) == MenuScreen(mode.selection)
      ensures mode.Confirm? ==> ScreenNow(now) == ConfirmScreen(mode.action)
      ensures mode.Countdown? ==>
                && ScreenNow(now).CountdownScreen? && ScreenNow(now).action == mode.action && ScreenNow(now).left >= 0
                && (now <= mode.deadline ==> now + ScreenNow(now).left == mode.deadline)
                && (now >= mode.deadline ==> ScreenNow(now).left == 0)
      ensures mode == Status && locateChassis != None ==> ScreenNow(now) == LocateScreen
      ensures mode == Status && locateChassis == None && alarm != None
              && (autoRotate || alarm.value.level == Critical)
              ==> ScreenNow(now) == AlarmScreen(alarm.value)
      ensures mode == Status && locateChassis == None && alarm == None && over != None ==>
                ScreenNow(now) == MessageScreen(over.value)
      ensures mode == Status && locateChassis == None && alarm == None && over == None ==>
                ScreenNow(now) == StatusScreen(index)
      ensures mode == Status && locateChassis == None && alarm != None
              && !autoRotate && alarm.value.level != Critical
              ==> ScreenNow(now) == StatusScreen(index)
    {
    }

    /** The bay named by an active urgent message is the one that alerts. */
    lemma AlertFollowsMessage(bay: nat)
      requires Valid()
      ensures alertBay == Some(bay)
              <==> over != None && (over.value.level == Error || over.value.level == Critical)
                   && over.value.bay == Some(bay)
    {
      hide ModeExplained;
      hide HeldSinceLeft;
    }

    /** What the bay LEDs say of the latest scan, locates and alert. */
    lemma BayLedsSay(bay: nat, i: nat)
      requires LedsAgree() && 1 <= bay <= 4
      ensures bay in locateBays ==>
                LookOf(board.lamps, BayGreen(bay)) == LookOf(board.lamps, BayRed(bay)) == Blink(250, 250)
      ensures bay !in locateBays && alertBay == Some(bay) ==>
                && LookOf(board.lamps, BayGreen(bay)) == Solid(false)
                && LookOf(board.lamps, BayRed(bay)) == Blink(1000, 1000)
      ensures bay !in locateBays && alertBay != Some(bay)
              && i < |scan| && scan[i].0 == bay && (forall j | 0 <= j < i :: scan[j].0 != bay) ==>
                && LookOf(board.lamps, BayRed(bay)) == Solid(scan[i].1 == BayFailed)
                && LookOf(board.lamps, BayGreen(bay)) == if sleeping || scan[i].1 == BayFailed then Solid(false)
                                                         else if scan[i].1 == BayStandby then Blink(250, 9750)
                                                         else Driven(DiskActivity(bay))
    {
      hide Agrees;
      hide LookOf;
      if bay in locateBays {
        LocatedBayShows(board.lamps, V(), bay);
      } else if alertBay == Some(bay) {
        AlertingBayShows(board.lamps, V(), bay);
      } else if i < |scan| && scan[i].0 == bay && forall j | 0 <= j < i :: scan[j].0 != bay {
        ScannedBayShows(board.lamps, V(), bay, i);
      }
    }

    /**
     What the front LEDs say: a locate; night; else the most severe of the health
     alarms last looked at and of the active message's own, or green if none.
     */
    lemma FrontLedsSay() returns (p: StatusPattern)
      requires LedsAgree() && AlarmFresh()
      ensures locateChassis != None ==>
                && LookOf(board.lamps, GreenStatus) == LookOf(board.lamps, RedStatus) == Blink(250, 250)
                && LookOf(board.lamps, BluePower) == Blink(250, 250)
      ensures locateChassis == None && sleeping && cfg.nightDarkens ==>
                && LookOf(board.lamps, GreenStatus) == LookOf(board.lamps, RedStatus) == Solid(false)
                && LookOf(board.lamps, BluePower) == Solid(false)
      ensures locateChassis == None && !(sleeping && cfg.nightDarkens) ==>
                && ShowsStatus(board.lamps, p) && LookOf(board.lamps, BluePower) == Solid(true)
                && (forall k | 0 <= k < |lastHealth| :: Severity(lastHealth[k].pattern) <= Severity(p))
                && (over != None && PatternForShow(over.value.level, over.value.style) != None ==>
                      Severity(PatternForShow(over.value.level, over.value.style).value) <= Severity(p))
                && (|| (exists k | 0 <= k < |lastHealth| :: lastHealth[k].pattern == p)
                    || (over != None && PatternForShow(over.value.level, over.value.style) == Some(p))
                    || (p == StatusOk && lastHealth == []
                        && (over == None || PatternForShow(over.value.level, over.value.style) == None)))
    {
      hide Agrees;
      hide LookOf;
      hide MostCritical;
      hide Severity;
      hide PatternForShow;
      hide ShowsStatus;
      FrontShows(board.lamps, V());
      var pushed := Pushed(over);
      var all := pushed + lastHealth;
      var i := MostCriticalIsFirstWorst(all);
      p := if alarm == None then StatusOk else alarm.value.pattern;
      forall k | 0 <= k < |lastHealth| ensures Severity(lastHealth[k].pattern) <= Severity(p) {
        assert all[|pushed| + k] == lastHealth[k];
      }
      if pushed != [] {
        assert all[0] == pushed[0];
      }
      if all != [] {
        assert i < |pushed| || all[i] == lastHealth[i - |pushed|];
      }
    }

    /**
     In every state the operations leave, the screen due agrees with the LEDs: a
     blank one while asleep without a locate.
     */
    lemma LcdAgreesWithLed(now: int)
      requires Valid() && LedsAgree()
      ensures Presents(if sleeping && locateChassis.None? then Blank else Render(ScreenNow(now)), now)
    {
      hide ShowsStatus;
      hide ShowsPower;
      hide ModeExplained;
      hide HeldSinceLeft;
    }
  }
}
