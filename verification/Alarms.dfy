/** Message levels, alarms, and which of several decides the status LED (`most_critical`, `pattern_for_show`). */
module Alarms {
  import opened Wrappers
  import opened Leds

  datatype Level = Info | Warn | Error | Critical
  {
    function Rank(): nat {
      match this
      case Info => 0
      case Warn => 1
      case Error => 2
      case Critical => 3
    }

    /** Error and critical messages persist and wake the panel. */
    predicate AlwaysVisible() {
      Rank() >= Error.Rank()
    }
  }

  datatype Color = Green | Yellow | Red

  /** The `color=` and `flash=` of a message. */
  datatype Style = Style(color: Option<Color>, flash: Option<bool>)

  const PLAIN := Style(None, None)

  /** A pattern that says something about health: not the locate blink, not night. */
  type AlarmPattern = p: StatusPattern | !p.StatusLocate? && !p.StatusOff? witness StatusOk

  datatype Alarm = Alarm(level: Level, pattern: AlarmPattern, line0: string, line1: string)

  /** The pattern a message asks for; a plain info asks for none. */
  function PatternForShow(level: Level, style: Style): Option<AlarmPattern> {
    if level.Info? && style == PLAIN then None
    else
      var color := if style.color.Some? then style.color.value
                   else if level.Info? then Green else if level.Warn? then Yellow else Red;
      var flash := if style.flash.Some? then style.flash.value else level.Critical?;
      Some(match color
        case Green => if flash then GreenFlashing else StatusOk
        case Yellow => if flash then WarningFlashing else Warning
        case Red => if flash then CriticalFlashing else Failed)
  }

  /** Levels in order, and which are urgent. */
  lemma LevelOrder(l: Level)
    ensures Info.Rank() < Warn.Rank() < Error.Rank() < Critical.Rank()
    ensures l.AlwaysVisible() <==> l == Error || l == Critical
  {
  }

  /** The pattern a message asks for: by its colour and flash, or else by its level; a plain info asks for none. */
  lemma PatternAsked(level: Level, style: Style)
    ensures PatternForShow(level, style) == None <==> level == Info && style.color == None && style.flash == None
    ensures var p := PatternForShow(level, style);
            p != None ==>
              && (style.color == Some(Green) || (style.color == None && level == Info) ==>
                    p.value == StatusOk || p.value == GreenFlashing)
              && (style.color == Some(Yellow) || (style.color == None && level == Warn) ==>
                    p.value == Warning || p.value == WarningFlashing)
              && (style.color == Some(Red) || (style.color == None && (level == Error || level == Critical)) ==>
                    p.value == Failed || p.value == CriticalFlashing)
              && (p.value in {GreenFlashing, WarningFlashing, CriticalFlashing}
                  <==> style.flash == Some(true) || (style.flash == None && level == Critical))
  {
  }

  /** The fold of `most_critical`: a later alarm wins only if it is strictly more severe. */
  function MostCritical(alarms: seq<Alarm>): Option<Alarm> {
    if alarms == [] then None
    else
      var a := alarms[|alarms| - 1];
      match MostCritical(alarms[..|alarms| - 1])
      case Some(best) => if Severity(best.pattern) >= Severity(a.pattern) then Some(best) else Some(a)
      case None => Some(a)
  }

  /** The alarm shown is the most severe, and of equally severe ones the earliest. */
  lemma {:induction false} MostCriticalIsFirstWorst(alarms: seq<Alarm>) returns (i: int)
    ensures MostCritical(alarms).None? <==> alarms == []
    ensures alarms != [] ==>
              && 0 <= i < |alarms| && MostCritical(alarms) == Some(alarms[i])
              && (forall j | 0 <= j < |alarms| :: Severity(alarms[j].pattern) <= Severity(alarms[i].pattern))
              && (forall j | 0 <= j < i :: Severity(alarms[j].pattern) < Severity(alarms[i].pattern))
  {
    i := -1;
    if alarms != [] {
      var n := |alarms| - 1;
      var init := alarms[..n];
      i := MostCriticalIsFirstWorst(init);
      assert forall j | 0 <= j < n :: init[j] == alarms[j];
      if n == 0 || Severity(init[i].pattern) < Severity(alarms[n].pattern) {
        i := n;
      }
    }
  }
}
