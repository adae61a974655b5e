/**
 The front-panel LEDs: what each pattern writes, and what the LEDs then show.
 A write lands on one attribute of one LED class device.
 */
module Leds {

  datatype Led =
    | GreenStatus | RedStatus | BluePower | RedPower | GreenUsb | BlueLan
    | BayGreen(bay: nat) | BayRed(bay: nat)

  datatype Trigger = NoTrigger | Timer | Panic | FrontUsb | DiskActivity(bay: nat)

  /** The attributes of one LED device. */
  datatype Lamp = Lamp(trigger: Trigger, lit: bool, delayOn: int, delayOff: int)

  /** What someone in front of the panel sees. */
  datatype Look = Solid(on: bool) | Blink(onMs: int, offMs: int) | Driven(source: Trigger)

  type Lamps = map<Led, Lamp>

  const DARK := Lamp(NoTrigger, false, 0, 0)

  function LampOf(lamps: Lamps, led: Led): Lamp {
    if led in lamps then lamps[led] else DARK
  }

  function LookOf(lamps: Lamps, led: Led): Look {
    var lamp := LampOf(lamps, led);
    match lamp.trigger
    case NoTrigger => Solid(lamp.lit)
    case Timer => Blink(lamp.delayOn, lamp.delayOff)
    case t => Driven(t)
  }

  // ---------- patterns ----------

  datatype StatusPattern =
    | StatusOk | Warning | GreenFlashing | WarningFlashing | Degraded | Failed | CriticalFlashing
    | StatusLocate | StatusOff

  function Severity(p: StatusPattern): nat {
    match p
    case Warning | WarningFlashing => 1
    case Degraded => 2
    case Failed => 3
    case CriticalFlashing => 4
    case _ => 0
  }

  datatype PowerPattern = PowerOn | PowerOff | PowerLocate

  datatype BayState = BayNormal | BayFailed | BayAlert | BayStandby | BayLocate

  const LOCATE_BLINK := Blink(250, 250)
  const SLOW_BLINK := Blink(1000, 1000)
  const LIT := Solid(true)
  const UNLIT := Solid(false)

  /** Green and red of the status LED. */
  function StatusLook(p: StatusPattern): (Look, Look) {
    match p
    case StatusOk => (LIT, UNLIT)
    case Warning => (LIT, LIT)
    case GreenFlashing => (SLOW_BLINK, UNLIT)
    case WarningFlashing => (SLOW_BLINK, SLOW_BLINK)
    case Degraded => (LIT, Blink(500, 500))
    case Failed => (UNLIT, LIT)
    case CriticalFlashing => (UNLIT, SLOW_BLINK)
    case StatusLocate => (LOCATE_BLINK, LOCATE_BLINK)
    case StatusOff => (UNLIT, UNLIT)
  }

  function PowerLook(p: PowerPattern): Look {
    match p
    case PowerOn => LIT
    case PowerOff => UNLIT
    case PowerLocate => LOCATE_BLINK
  }

  /** Green and red of a bay, by day or by night. */
  function BayLook(bay: nat, s: BayState, night: bool): (Look, Look) {
    var red := if s.BayFailed? then LIT
               else if s.BayAlert? then SLOW_BLINK
               else if s.BayLocate? then LOCATE_BLINK
               else UNLIT;
    var green := if s.BayLocate? then LOCATE_BLINK
                 else if night then UNLIT
                 else if s.BayNormal? then Driven(DiskActivity(bay))
                 else if s.BayStandby? then Blink(250, 9750)
                 else UNLIT;
    (green, red)
  }

  predicate ShowsStatus(lamps: Lamps, p: StatusPattern) {
    (LookOf(lamps, GreenStatus), LookOf(lamps, RedStatus)) == StatusLook(p)
  }

  predicate ShowsPower(lamps: Lamps, p: PowerPattern) {
    LookOf(lamps, BluePower) == PowerLook(p) && LookOf(lamps, RedPower) == UNLIT
  }

  predicate ShowsBay(lamps: Lamps, bay: nat, s: BayState, night: bool) {
    (LookOf(lamps, BayGreen(bay)), LookOf(lamps, BayRed(bay))) == BayLook(bay, s, night)
  }

  /** The network rail and the USB LED: dark, or as the driver has them. */
  predicate ShowsLanAndUsb(lamps: Lamps, on: bool) {
    LookOf(lamps, BlueLan) == Solid(on) && LookOf(lamps, GreenUsb) == if on then Driven(FrontUsb) else UNLIT
  }

  /** Green and red of the status LED under each pattern, in what one sees. */
  lemma PatternLooks(lamps: Lamps, p: StatusPattern)
    requires ShowsStatus(lamps, p)
    ensures LookOf(lamps, GreenStatus) ==
            match p
            case StatusOk | Warning | Degraded => Solid(true)
            case GreenFlashing | WarningFlashing => Blink(1000, 1000)
            case Failed | CriticalFlashing | StatusOff => Solid(false)
            case StatusLocate => Blink(250, 250)
    ensures LookOf(lamps, RedStatus) ==
            match p
            case StatusOk | GreenFlashing | StatusOff => Solid(false)
            case Warning | Failed => Solid(true)
            case WarningFlashing | CriticalFlashing => Blink(1000, 1000)
            case Degraded => Blink(500, 500)
            case StatusLocate => Blink(250, 250)
  {
  }

  /** How bad each pattern is: green ones not at all, then amber, degraded, red, flashing red. */
  lemma SeverityOrder(p: StatusPattern)
    ensures Severity(p) == 0 <==> p.StatusOk? || p.GreenFlashing? || p.StatusLocate? || p.StatusOff?
    ensures Severity(StatusOk) < Severity(Warning) == Severity(WarningFlashing) < Severity(Degraded)
    ensures Severity(Degraded) < Severity(Failed) < Severity(CriticalFlashing)
  {
  }

  /** No two status patterns look alike, and a bay being located looks like no other bay. */
  lemma PatternsAreDistinct(p: StatusPattern, q: StatusPattern, bay: nat, s: BayState, night: bool)
    ensures StatusLook(p) == StatusLook(q) ==> p == q
    ensures BayLook(bay, s, night) == BayLook(bay, BayLocate, night) ==> s == BayLocate
  {
  }

  /** A located bay looks the same by day and by night. */
  lemma LocateIgnoresNight(lamps: Lamps, bay: nat)
    ensures ShowsBay(lamps, bay, BayLocate, false) == ShowsBay(lamps, bay, BayLocate, true)
  {
  }

  ghost predicate SameOutside(a: Lamps, b: Lamps, leds: set<Led>) {
    forall l: Led | l !in leds :: LookOf(a, l) == LookOf(b, l)
  }

  const STATUS_LEDS := {GreenStatus, RedStatus}
  const POWER_LEDS := {BluePower, RedPower}

  function BayLeds(bay: nat): set<Led> {
    {BayGreen(bay), BayRed(bay)}
  }

  // ---------- the code ----------

  class Board {
    var lamps: Lamps

    method WriteTrigger(led: Led, t: Trigger)
      modifies this
      ensures lamps == old(lamps)[led := LampOf(old(lamps), led).(trigger := t)]
      ensures SameOutside(lamps, old(lamps), {led})
    {
      lamps := lamps[led := LampOf(lamps, led).(trigger := t)];
    }

    method SetSolid(led: Led, on: bool)
      modifies this
      ensures LookOf(lamps, led) == Solid(on) && SameOutside(lamps, old(lamps), {led})
    {
      WriteTrigger(led, NoTrigger);
      lamps := lamps[led := LampOf(lamps, led).(lit := on)];
    }

    method SetBlink(led: Led, onMs: int, offMs: int)
      modifies this
      ensures LookOf(lamps, led) == Blink(onMs, offMs) && SameOutside(lamps, old(lamps), {led})
    {
      WriteTrigger(led, Timer);
      lamps := lamps[led := LampOf(lamps, led).(delayOn := onMs)];
      lamps := lamps[led := LampOf(lamps, led).(delayOff := offMs)];
    }

    method SetStatus(p: StatusPattern)
      modifies this
      ensures ShowsStatus(lamps, p) && SameOutside(lamps, old(lamps), STATUS_LEDS)
    {
      match p {
        case StatusOk =>
          SetSolid(GreenStatus, true);
          WriteTrigger(RedStatus, NoTrigger);
          SetSolid(RedStatus, false);
        case Warning =>
          SetSolid(GreenStatus, true);
          SetSolid(RedStatus, true);
        case GreenFlashing =>
          WriteTrigger(RedStatus, NoTrigger);
          SetSolid(RedStatus, false);
          SetBlink(GreenStatus, 1000, 1000);
        case WarningFlashing =>
          SetSolid(GreenStatus, true);
          SetSolid(RedStatus, true);
          SetBlink(GreenStatus, 1000, 1000);
          SetBlink(RedStatus, 1000, 1000);
        case Degraded =>
          SetSolid(GreenStatus, true);
          SetBlink(RedStatus, 500, 500);
        case Failed =>
          SetSolid(GreenStatus, false);
          SetSolid(RedStatus, true);
        case CriticalFlashing =>
          SetSolid(GreenStatus, false);
          SetBlink(RedStatus, 1000, 1000);
        case StatusLocate =>
          SetBlink(GreenStatus, 250, 250);
          SetBlink(RedStatus, 250, 250);
        case StatusOff =>
          SetSolid(GreenStatus, false);
          SetSolid(RedStatus, false);
      }
    }

    method SetPower(p: PowerPattern)
      modifies this
      ensures ShowsPower(lamps, p) && SameOutside(lamps, old(lamps), POWER_LEDS)
    {
      match p {
        case PowerOn => SetSolid(BluePower, true);
        case PowerOff => SetSolid(BluePower, false);
        case PowerLocate => SetBlink(BluePower, 250, 250);
      }
      SetSolid(RedPower, false);
    }

    /** Solid amber on the status LED, just before a locate starts blinking it. */
    method PrimeLocateStatus()
      modifies this
      ensures SameOutside(lamps, old(lamps), STATUS_LEDS)
    {
      SetSolid(GreenStatus, true);
      SetSolid(RedStatus, true);
    }

    method PrimeLocateBay(bay: nat)
      modifies this
      ensures SameOutside(lamps, old(lamps), BayLeds(bay))
    {
      SetSolid(BayGreen(bay), true);
      SetSolid(BayRed(bay), true);
    }

    method SetBay(bay: nat, s: BayState)
      modifies this
      ensures ShowsBay(lamps, bay, s, false) && SameOutside(lamps, old(lamps), BayLeds(bay))
    {
      match s {
        case BayNormal => WriteTrigger(BayGreen(bay), DiskActivity(bay));
        case BayFailed => SetSolid(BayGreen(bay), false);
        case BayAlert => SetSolid(BayGreen(bay), false);
        case BayStandby => SetBlink(BayGreen(bay), 250, 9750);
        case BayLocate => SetBlink(BayGreen(bay), 250, 250);
      }
      SetBayRed(bay, s);
    }

    method SetBayNight(bay: nat, s: BayState)
      modifies this
      ensures ShowsBay(lamps, bay, s, true) && SameOutside(lamps, old(lamps), BayLeds(bay))
    {
      if s.BayLocate? {
        SetBay(bay, s);
        return;
      }
      SetSolid(BayGreen(bay), false);
      SetBayRed(bay, s);
    }

    method SetBayRed(bay: nat, s: BayState)
      modifies this
      ensures LookOf(lamps, BayRed(bay)) == BayLook(bay, s, false).1
      ensures SameOutside(lamps, old(lamps), {BayRed(bay)})
    {
      match s {
        case BayNormal => SetSolid(BayRed(bay), false);
        case BayStandby => SetSolid(BayRed(bay), false);
        case BayFailed => SetSolid(BayRed(bay), true);
        case BayAlert => SetBlink(BayRed(bay), 1000, 1000);
        case BayLocate => SetBlink(BayRed(bay), 250, 250);
      }
    }

    /** Bay greens off; with `front`, everything else off too. Bay reds are left alone. */
    method EnterNightMode(front: bool)
      modifies this
      ensures forall b | 1 <= b <= 4 :: LookOf(lamps, BayGreen(b)) == UNLIT
      ensures forall b: nat :: LookOf(lamps, BayRed(b)) == LookOf(old(lamps), BayRed(b))
      ensures forall b: nat | !(1 <= b <= 4) :: LookOf(lamps, BayGreen(b)) == LookOf(old(lamps), BayGreen(b))
      ensures if front then ShowsStatus(lamps, StatusOff) && ShowsPower(lamps, PowerOff) && ShowsLanAndUsb(lamps, false)
              else forall l: Led | !l.BayGreen? :: LookOf(lamps, l) == LookOf(old(lamps), l)
    {
      var bay: nat := 1;
      while bay <= 4
        invariant 1 <= bay <= 5
        invariant forall b | 1 <= b < bay :: LookOf(lamps, BayGreen(b)) == UNLIT
        invariant forall l: Led | !(l.BayGreen? && 1 <= l.bay <= 4) :: LookOf(lamps, l) == LookOf(old(lamps), l)
      {
        WriteTrigger(BayGreen(bay), NoTrigger);
        SetSolid(BayGreen(bay), false);
        bay := bay + 1;
      }
      if front {
        FrontOff();
      }
    }

    method FrontOff()
      modifies this
      ensures ShowsStatus(lamps, StatusOff) && ShowsPower(lamps, PowerOff) && ShowsLanAndUsb(lamps, false)
      ensures forall l: Led | l.BayGreen? || l.BayRed? :: LookOf(lamps, l) == LookOf(old(lamps), l)
    {
      SetStatus(StatusOff);
      SetPower(PowerOff);
      SetSolid(GreenUsb, false);
      WriteTrigger(GreenUsb, NoTrigger);
      SetSolid(BlueLan, false);
    }

    /** Bay greens back to the driver; with `front`, everything else on. */
    method ExitNightMode(front: bool)
      modifies this
      ensures forall b: nat | 1 <= b <= 4 :: LookOf(lamps, BayGreen(b)) == Driven(DiskActivity(b))
      ensures forall b: nat :: LookOf(lamps, BayRed(b)) == LookOf(old(lamps), BayRed(b))
      ensures forall b: nat | !(1 <= b <= 4) :: LookOf(lamps, BayGreen(b)) == LookOf(old(lamps), BayGreen(b))
      ensures if front then ShowsStatus(lamps, StatusOk) && ShowsPower(lamps, PowerOn) && ShowsLanAndUsb(lamps, true)
              else forall l: Led | !l.BayGreen? :: LookOf(lamps, l) == LookOf(old(lamps), l)
    {
      var bay: nat := 1;
      while bay <= 4
        invariant 1 <= bay <= 5
        invariant forall b: nat | 1 <= b < bay :: LookOf(lamps, BayGreen(b)) == Driven(DiskActivity(b))
        invariant forall l: Led | !(l.BayGreen? && 1 <= l.bay <= 4) :: LookOf(lamps, l) == LookOf(old(lamps), l)
      {
        WriteTrigger(BayGreen(bay), DiskActivity(bay));
        bay := bay + 1;
      }
      if front {
        FrontOn();
      }
    }

    method FrontOn()
      modifies this
      ensures ShowsStatus(lamps, StatusOk) && ShowsPower(lamps, PowerOn) && ShowsLanAndUsb(lamps, true)
      ensures forall l: Led | l.BayGreen? || l.BayRed? :: LookOf(lamps, l) == LookOf(old(lamps), l)
    {
      hide LookOf;
      hide LampOf;
      WriteTrigger(GreenStatus, NoTrigger);
      SetSolid(GreenStatus, true);
      WriteTrigger(RedStatus, Panic);
      SetSolid(RedStatus, false);
      SetPower(PowerOn);
      UsbOn();
      SetSolid(BlueLan, true);
    }

    method UsbOn()
      modifies this
      ensures LookOf(lamps, GreenUsb) == Driven(FrontUsb) && SameOutside(lamps, old(lamps), {GreenUsb})
    {
      WriteTrigger(GreenUsb, FrontUsb);
    }
  }
}
