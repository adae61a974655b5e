# Front-panel daemon: verification model

This project models the decision making of `lcm-status`, the daemon that drives
the front panel, fans, CPU power limits and power schedule of an ASUSTOR NAS
running TrueNAS, and proves properties of it in Dafny. Hardware is an abstract
object whose accesses may fail; time and sensor samples are inputs of each step.

| file | models |
|---|---|
| `Calendar.dfy`, `LocalZone.dfy` | epoch seconds to calendar, and daylight-saving repeats |
| `PowerRules.dfy`, `PowerScheduler.dfy`, `PowerRuns.dfy`, `WakeAlarmRuns.dfy` | scheduled shutdown, restart and power-on, over whole clock traces |
| `HoldLatch.dfy` | the trip-and-hold latch shared by the CPU guard and the lost-sensor hold |
| `CpuPower.dfy`, `CpuPowerRuns.dfy` | the CPU power-limit guard and its three-file writes |
| `FanCurve.dfy`, `FanSensors.dfy`, `Fan.dfy`, `FanRuns.dfy` | the fan controller |
| `Frames.dfy`, `Link.dfy` | the serial protocol of the panel |
| `Leds.dfy`, `Alarms.dfy`, `PanelLeds.dfy`, `PanelHistory.dfy`, `Panel.dfy` | LEDs and the panel's state machine |
| `Template.dfy`, `Slots.dfy`, `Brightness.dfy` | screen templates, connection slots, LED brightness |

Objects whose methods update fields are classes. Where a run matters, each
method is tied to a function of the old state and the lemmas range over every
sequence of steps of that function. The panel's LED claim is a class invariant:
`LedsAgree` says that every LED shows what `PanelLeds` computes from scratch,
and every operation keeps it.

Where the code and its comments differ, the model follows the code:

- A scheduled minute can fire twice if the clock is set back past it by more
  than five minutes, and only then (`PowerRuns.FiresTwiceIffSetBack`), although
  the comments promise never.
- The eight days the scheduler looks ahead are said to have slack for a clock
  change; a weekly rule whose only minute in them is skipped by the clocks going
  forward is not found, and no other is missed (`PowerRules.NotFoundIffSkipped`).
- After a power-limit write fails half way and the guard re-arms, the zone is
  corrected only by the next verification (`CpuPowerRuns.StuckUntilVerify`),
  although the comments say a failed write is retried every second.
- The too-early test for an acknowledgement is measured from the last frame
  sent, which may be the acknowledgement of a key press rather than the command
  (`Link.GenuineAnswerIgnoredIff`, and an instance in `Link.GenuineAnswerIsIgnored`).
- A stopped fan is only sure to start with a positive `min_start_pwm`
  (`FanRuns.StoppedFanStartsIff`). With zero even the critical override and the
  lost-sensor hold cannot start it (`FanRuns.KickedWithZeroForEver`). A curve is
  only sure to rise with `min_pwm <= min_stop_pwm` (`FanCurve.CurveMonotoneIff`).
  Validation asks for neither.
- The critical override is said to peg the fan at `max_pwm`. While the tach reads
  zero it does not: every update kicks the fan with `min_start_pwm` again, however
  hot it gets (`FanRuns.WritesWantedIffSpinning`, `FanRuns.StalledHeldAtStart`).

## Model

| member | source | states |
|---|---|---|
| Calendar.FromUtcInvertsTheCalendar | src/power.rs:346-370 | For every 64-bit epoch second: the date `from_utc` gives has, counted year by year and month by month from 1970-01-01, exactly the day number of the instant if and only if the instant lies between the first second of the year -2^31 and the last of the year 2^31 - 1; it is then a valid date and the only one with that day number |
| Calendar.YearFitsIff | src/power.rs:360-370 | The two ends of that range, in seconds, are exactly where the calendar puts the first and last year a 32-bit field holds |
| Calendar.FromUtcIsCivil | src/power.rs:346-370 | No saturating operation in `from_utc` ever saturates; only the year is clamped, and weekday, hour and minute are those of the instant |
| Calendar.FromUtcNextDay | src/power.rs:346-370 | 86 400 seconds later is the next page of the calendar (month ends and leap years included), the next weekday, the same time |
| Calendar.FromUtcEpoch | src/power.rs:346-370 | The anchor: second 0 is Thursday 1970-01-01 00:00 |
| Calendar.PosixFormulaInverts | src/power.rs:346-370 | The formula of POSIX.1-2017, section 4.16, applied to the broken-down fields gives back every non-negative instant whose year fits |
| Calendar.CivilIsDate | src/power.rs:349-362 | Howard Hinnant's era arithmetic yields a valid proleptic-Gregorian date with the given day number, for every integer day, however early or late |
| Calendar.YearOfEraBounds | src/power.rs:353-354 | The division formula finds the year of the 400-year era that contains the day: leap days fall where they should |
| LocalZone.WallIsMinuteCount | src/power.rs:372-376 | Two local times read the same on a wall clock exactly when they are in the same local minute |
| LocalZone.RepeatedIffSeenBefore | src/power.rs:386-398 | In any zone with minute-aligned changes more than 8 h apart that fall back at most 4 h, a minute is taken for repeated if and only if some earlier minute, however much earlier, showed the same local date and time |
| LocalZone.ExactlyOneCounts | src/power.rs:386-398 | Of all boundaries showing one local minute exactly one, the earliest, is not taken for repeated |
| LocalZone.EarlierMinutesReadLess | src/power.rs:390-398 | No earlier minute reaches the local time of a later one, except for the stretch a fall-back within the last four hours repeats |
| LocalZone.QuietIsNotRepeated | src/power.rs:390-398 | A minute with the offset the zone had four hours before is not taken for repeated |
| LocalZone.UtcIsFromUtc | src/power.rs:346-370 | The local times of offset zero are what the fallback conversion gives |
| PowerRules.WinnerIsLastListed | src/power.rs:405-442 | The winner at a local time, in terms of the rules as listed: it is selected and matches; it is a shutdown if any matching rule is one; and no rule listed after it could have won in its place. There is none exactly if no rule matches |
| PowerRules.BestWins | src/power.rs:438-442 | The winner of a minute is one of the rules due; a shutdown beats any restart, and of several shutdowns (or of none) the last listed wins |
| PowerRules.DueMeans | src/power.rs:405-442 | Something is due exactly at a minute boundary whose local time some rule of the kind asked for fits, on its weekday and at its minute, unless that time was shown before; and what is chosen is the rule that wins there |
| PowerRules.NextOccurrenceIsLeast | src/power.rs:425-436 | `next_occurrence` returns the earliest boundary after the given time at which a selected rule is due, with that minute's winner, and nothing exactly if none is due within eight days |
| PowerRules.WeeklyRuleComesRound | src/power.rs:71-74 | Every valid rule is due within a week of any instant, whatever the offset, if the clocks are not changed in that week or the four hours before it |
| PowerRules.NotFoundIffSkipped | src/power.rs:71-74 | When eight days are enough: with at most one clock change in them and the four hours before, nothing is found if and only if every local minute asked for between the first and the last boundary looked at is skipped by the clocks going forward |
| PowerRules.SkippedMinuteIsTooFar | src/power.rs:71-74 | That does happen: a concrete rule and zone for which nothing is found |
| PowerRules.RuleMinuteDueOnce | src/power.rs:405-421 | Across daylight-saving changes a local minute that rules ask for is due at exactly one boundary, the first that shows it |
| PowerScheduler.Scheduler.PollWith | src/power.rs:513-553 | Leaves the scheduler and the alarm file in, and returns, exactly what the specification of a poll says, for every outcome of every file access |
| PowerScheduler.Scheduler.CrossedSince | src/power.rs:534-538 | The forward walk over the crossed boundaries ends with the last one that has something due |
| PowerScheduler.Scheduler.SyncRtcWith | src/power.rs:560-609 | Reads the alarm, disarms before arming (so that the kernel never sees an armed alarm replaced), and forgets what is armed on any failure |
| PowerScheduler.WakeAlarm.Arm | src/power.rs:57-60 | May only be called on a disarmed alarm |
| PowerRuns.CheckedIsHighWater | src/power.rs:467-469 | Over any sequence of clock readings the scheduler's mark is the latest reading since the clock last jumped |
| PowerRuns.HighWaterIsMax | src/power.rs:528-530 | Without jumps that mark is the largest reading so far |
| PowerRuns.FiresWhatIsCrossed | src/power.rs:504-543 | Over any clock trace: a poll fires if and only if it crosses, without a jump, a boundary at which a shutdown or restart is due, and what it fires is the action, countdown and name of the listed rule that wins at the last such boundary |
| PowerRuns.LastDueIsLast | src/power.rs:534-538 | The boundary chosen is the last due one in the window |
| PowerRuns.TwiceOnlyIfSetBack | src/power.rs:504-508 | A minute is looked at by two polls only if in between the clock, having passed it, was set back past it by more than the accepted gap |
| PowerRuns.TwiceIffSetBack | src/power.rs:504-543 | The clock's part in that, whatever the rules and for polls as late as the source allows: a passed minute is looked at by two polls if and only if the clock was set back past it after passing it |
| PowerRuns.FiresTwiceIffSetBack | src/power.rs:504-543 | Exactly when "never the same one twice" fails: with readings at most a minute past the mark, every poll that looks at a minute fires its winner, at least one poll looks at each minute the clock ends up past, and two do if and only if the clock, having passed it, was at some time set back past it by more than the gap |
| PowerRuns.SetBackFiresAgain | src/power.rs:504-508 | A concrete run: for all rules and every due minute, crossing it, setting the clock back over five minutes and crossing it again fires it twice |
| PowerRuns.EveryMinuteExactlyOnce | src/power.rs:504-543 | While the clock is read at least once a minute and not set back by more than the gap, every boundary the clock passes is looked at by exactly one poll, which fires the action, countdown and name of the rule that wins there if something is due, and nothing otherwise |
| PowerRuns.RuleMinuteFiresOnce | src/power.rs:405-543 | Daylight-saving nights included: on such a clock each local minute that shutdown or restart rules ask for, and whose first showing the clock passes, is fired for by exactly one poll, the one that looks at that first showing; polls that look at another showing of it fire nothing |
| WakeAlarmRuns.NoRuleNeverWrites | src/power.rs:464-466 | With no power-on rule the alarm file is never written in any run |
| WakeAlarmRuns.ArmedIsSet | src/power.rs:470-472 | Whatever accesses fail and however the clock moves: what the scheduler believes armed is what the file holds, a minute still in the future that a listed power-on rule asks for |
| WakeAlarmRuns.AlarmAgrees | src/power.rs:545-609 | In any zone, whatever the clock does, with file access working: file and belief always agree and are what a look-up less than a minute old gave; they equal a fresh look-up if and only if no power-on minute lies between the present reading and that look-up, the one armed is still within the look-ahead, and, with none armed, none has come into it since |
| WakeAlarmRuns.AlarmNeverStale | src/power.rs:545-609 | In any zone, with a clock that only moves forward or jumps noticeably: file, belief and a fresh look-up are equal after every poll of every run, unless nothing was armed and the next power-on came into the look-ahead less than a minute ago |
| WakeAlarmRuns.AlarmFreshInQuietWeek | src/power.rs:545-609 | With a valid power-on rule and no clock change in the week ahead they are always equal |
| WakeAlarmRuns.AlarmRecovers | src/power.rs:67-69 | From any state, so whatever failed before and whatever else wrote the alarm file: once access works and nothing else writes, from the first poll at or after the recheck on, after every poll of every run, file and belief are what a look-up less than a minute old gave |
| WakeAlarmRuns.RecheckSyncs | src/power.rs:560-609 | A poll at or after the recheck, with working access, puts file and belief right from any state |
| WakeAlarmRuns.SyncBeforeShutdown | src/power.rs:553-558 | The extra look before a shutdown or exit leaves file and belief equal to a fresh look-up from any state, and writes only if the file held something else |
| HoldLatch.OnIffHolding | src/cpu_power.rs:242-284 | A latch that trips at once and resets after a steady spell is on exactly while some trip has not been followed by good observations spanning the hold; any miss restarts the span |
| CpuPower.PlanKeepsOrder | src/cpu_power.rs:106-117 | However far a rewrite gets before a write fails, PL1 never exceeds PL2 |
| CpuPower.WholePlanMatches | src/cpu_power.rs:85-94 | A rewrite that completes reads back as the wanted setting, whatever the kernel's rounding of the window within a quarter |
| CpuPower.MatchesMeans | src/cpu_power.rs:85-94 | A read-back counts as a setting exactly if both powers are equal and the window is within a quarter of the wanted one |
| CpuPower.Guard.Observe | src/cpu_power.rs:242-284 | One observation of the guard: trips on a missing, empty or critical sample, re-arms only after a cool spell |
| CpuPower.ObservedMeans | src/cpu_power.rs:242-284 | In plain terms: a sample trips if it is missing, empty, or has a reading at or above its chip's critical threshold; it counts towards re-arming if it has readings, all below their warning (and critical) thresholds |
| CpuPower.Zone.Write | src/cpu_power.rs:174-181 | Writes the three files in plan order, stopping at the first failure; every state the zone passes through keeps PL1 at most PL2 |
| CpuPower.Controller.OnTick | src/cpu_power.rs:323-411 | Observe, verify if due, then write if the mode is not the applied one: the whole new state, for every outcome of every access; a mode is recorded as applied only after a complete rewrite |
| CpuPowerRuns.RunKeepsOrder | src/cpu_power.rs:106-117 | From an ordered zone, over any run with failures and retries anywhere (and other writers that keep the order), PL1 never exceeds PL2 |
| CpuPowerRuns.WritesConfiguredOnlyWhenRearmed | src/cpu_power.rs:11-18 | At every tick of every run the guard is on, and what is written is part of a rewrite to stock, exactly while a missing, empty or critical sample is not yet followed by samples that are all below warning and span the re-arm time; otherwise part of a rewrite to the configured limits |
| CpuPowerRuns.BadSampleTrips | src/cpu_power.rs:242-265 | After a tick with a missing, empty or critical sample the guard is on, whatever it was before, and the tick wrote towards stock only |
| CpuPowerRuns.OtherSampleDoesNot | src/cpu_power.rs:242-284 | With any other sample an untripped guard stays so, and the tick wrote towards the configured limits only |
| CpuPowerRuns.TickWritesItsMode | src/cpu_power.rs:342-346 | A tick writes only towards the limits of the mode its guard ends in |
| CpuPowerRuns.WorkingTickInModeIff | src/cpu_power.rs:342-376 | After a tick with working access the zone is in the guard's mode if and only if the tick verified, or applied a mode other than the recorded one, or the zone was right already |
| CpuPowerRuns.BackInModeByVerify | src/cpu_power.rs:46-48 | Once access works and nothing else writes, from the first tick 60 s after the last verification on the zone is in the guard's mode after every tick |
| CpuPowerRuns.RegistersBackByVerify | src/cpu_power.rs:46-48 | The same of the registers: both powers are exactly those of stock or of the configured limits, as the guard says, and the window is within a quarter |
| CpuPowerRuns.StuckUntilVerify | src/cpu_power.rs:400-409 | Before that it need not be: from any start and for every re-arm time shorter than the interval, a drop to stock that keeps failing half way, then a re-arm, leaves a half-written zone recorded as applied, untouched by a working tick |
| FanCurve.PwmBounds | src/fan.rs:1333-1348 | One sensor's speed lies between the lower of `min_pwm` and `min_stop_pwm` and `max_pwm`, and is exactly `min_pwm` / `max_pwm` at and beyond the curve's ends |
| FanCurve.CurveMonotoneIff | src/fan.rs:1333-1348 | A curve never slows the fan as its sensor warms, rounding included, if and only if `min_pwm <= min_stop_pwm`, which validation does not ask for |
| FanCurve.PwmNearLine | src/fan.rs:1333-1348 | Between the end points the speed is within half a step of the straight line from `min_stop_pwm` to `max_pwm` |
| FanCurve.DemandBounds | src/fan.rs:1127-1144 | Several sensors together stay within those bounds, and full speed is asked for once any sensor reaches its own maximum |
| FanCurve.DemandIsMost | src/fan.rs:1127-1144 | What several sensors ask for is what one of them asks for between its own end points (or the fan's, where it has none), and none of them asks for more |
| FanCurve.DemandMonotone | src/fan.rs:1127-1144 | A hotter reading anywhere never lowers the speed asked for |
| FanSensors.HeldIff | src/fan.rs:976-1015 | Over any trace: a selector holds the fan exactly while a silence that spanned the grace, after it had read, has not been followed by consecutive readings spanning the recovery hold; one that never read never holds |
| FanSensors.LossSpansIff | src/fan.rs:1000-1006 | The loss timer expires exactly when the present silence, after some reading, spans the grace |
| FanSensors.OverrideIsLatch | src/fan.rs:1063-1103 | The critical override is set by any current reading at critical or over range, reset only by a non-empty set of readings all below warning and in range, and otherwise kept |
| FanSensors.OverrideObsMeans | src/fan.rs:1063-1103 | In plain temperatures: the override is set by a reading at or above its critical threshold or above 125 degrees, and reset by some readings of which all are below warning, below critical and at most 125 degrees |
| FanRuns.WantedIsCurve | src/fan.rs:954-965 | With a reading, no override and no hold an update wants, in curve mode, what some sensor asks for and none exceeds; in fixed mode the fixed speed |
| FanRuns.MaximumWantsFullSpeed | src/fan.rs:1127-1144 | In curve mode a reading at or above its sensor's own maximum wants `max_pwm`, whatever else holds |
| FanRuns.HotterWantsNoLess | src/fan.rs:1063-1144 | With `min_pwm <= min_stop_pwm` a hotter reading never lowers the speed an update wants, override and holds included |
| FanRuns.ReadsIff | src/fan.rs:189-195 | A sensor has a reading exactly if its latest sample has a value and is not older than its samples may be |
| Fan.FanController.OnUpdate | src/fan.rs:810-949 | One update - tracking the sensors, the override, kick or stop or set, full speed without readings, and manual mode before every write - leaves controller and pwm files exactly as specified, for every sensor, tach and write outcome |
| FanRuns.FlagsMeanWhatTheySay | src/fan.rs:970-1015 | After any run, whichever updates found the chip: the override is on exactly if the sensors overheated and have not all cooled since, and some selector is held exactly if the fan is blind to a sensor it used to have |
| FanRuns.FileHoldsLastWrite | src/fan.rs:856-874 | Over any run with any failures the pwm file holds the last speed recorded and manual mode is on once one is; a running kick was written by a working update with none running before it, and ends exactly a second after that one, however many updates come in between |
| FanRuns.UpdateWrites | src/fan.rs:810-949 | What a successful update leaves in the pwm file, for every case: full speed without readings; the kick that is running; else the speed wanted if that is zero or the fan is commanded to spin and its tach does not read zero; else the speed of a kick |
| FanRuns.WritesWantedIffSpinning | src/fan.rs:876-918 | So with readings a speed wanted, full speed under the critical override included, is set if and only if no kick is running, the fan is commanded to spin and its tach does not read zero |
| FanRuns.StalledHeldAtStart | src/fan.rs:892-917 | Over any run with readings, a tach that reads zero and a speed wanted, however hot: the file holds `min_start_pwm` from the first successful update on, and before it what it held at first |
| FanRuns.NoneLeftIsFullSpeed | src/fan.rs:1169-1213 | With every sensor gone, once taken over or after the first half minute, a successful update sets full speed at once, even to a stopped, stalled or kicked fan |
| FanRuns.LeftAloneAtFirst | src/fan.rs:1169-1175 | For the first half minute a fan never taken over is left as it is while no sensor reads |
| FanRuns.FailedWriteLooksAgain | src/fan.rs:862-874 | A write that fails leaves speed and record as they were, begins no kick, and has the chip looked up again at the next update |
| FanRuns.StoppedFanStartsIff | src/fan.rs:876-918 | A stopped fan wanted at two successful updates a second apart reaches the wanted speed if and only if `min_start_pwm` is positive and the tach does not read zero (or the wanted speed is that of a kick) |
| FanRuns.KickedWithZeroForEver | src/fan.rs:894-918 | With `min_start_pwm` zero a fan never yet spun is not spun by any run with readings, however hot they are: the override and the holds have no effect on it |
| FanRuns.UnsafeWantsFullSpeed | src/fan.rs:951-972 | Too hot, blind to a sensor or without any reading, full speed is wanted in either mode |
| FanRuns.UnsafeTwiceIsFullSpeed | src/fan.rs:1055-1213 | Over any run, whatever failed before: after two working updates a second apart that each find the fan too hot, blind to a sensor or without any reading, the pwm file holds `max_pwm`, or `min_start_pwm` if there are readings and the tach reads zero; without readings the last update is enough, whatever the tach |
| Frames.EncodedFrame | src/protocol.rs:212-228 | A frame sent is opcode, payload length, subcommand and payload, followed by the plain sum of those bytes modulo 256 |
| Frames.DecodedFrame | src/protocol.rs:223-246 | A received frame is valid exactly if it is as long as it says and its last byte is that sum of the bytes before it |
| Frames.DecodeInvertsEncode | src/protocol.rs:211-246 | Decoding an encoded frame gives it back, payload cut to 18 bytes, checksum valid |
| Frames.CorruptionDetected | src/protocol.rs:223-246 | Changing any one byte but the length makes the checksum fail |
| Frames.StreamRoundTrip | src/protocol.rs:368-422 | Any sequence of frames with any junk between them that cannot start one is read back exactly, in order, each read taking its frame and nothing after it |
| Link.ReadsReturnFrames | src/protocol.rs:368-422 | In whatever pieces the bytes arrive: if each frame is there by the time its read gives up, successive reads return exactly the frames, in order, and leave what came after the last |
| Frames.ReceivesOne | src/protocol.rs:388-412 | One read skips the junk and takes exactly the frame |
| Frames.CollectBounds | src/protocol.rs:368-422 | On arbitrary bytes one read takes a prefix of the stream and keeps at most 22 of its bytes |
| Link.Lcm.ReadFrame | src/protocol.rs:368-422 | The byte loop into a 22-byte buffer reads what the stream specification says and never overruns it; any byte taken, junk included, starts the settle time anew |
| Link.Lcm.Send | src/protocol.rs:319-362 | Waits out the settle time since the panel last sent anything, then sends one encoded frame |
| Link.WireTimeMeans | src/protocol.rs:83-87 | The wire time of a number of bytes is, to the microsecond, ten bits each at 115200 baud |
| Link.Lcm.Hear | src/protocol.rs:449-469 | Takes from the bytes pending and arriving exactly what the stream reader would, when the read returns; an unsolicited frame is queued once and acknowledged, if that can be sent, a settle time later; nothing else is queued or sent |
| Link.Lcm.SendAndAck | src/protocol.rs:433-472 | The command goes out a settle time after anything was received, then one acknowledgement for each unsolicited frame heard, and nothing else; the frames heard are those successive reads take from the port, in order, each at the time its read returns, and no read begins at or after the deadline; it succeeds exactly if the last of them is the command's acknowledgement with status 0, no earlier than a real one can follow the last thing sent, and gives up only on a refusal, a read without a frame, at the deadline, or when the given reads run out |
| Link.SettledIsLateEnough | src/protocol.rs:442-462 | A success is never for an answer too early to be the command's own |
| Link.SuccessIsLateEnough | src/protocol.rs:442-462 | So an exchange succeeds only by a read that returned no sooner than a real answer to what was sent can come |
| Link.SuccessIsAnswer | src/protocol.rs:449-462 | and only with a frame of valid checksum, opcode F1, the command's subcommand and status 0 |
| Link.GenuineAnswerIgnoredIff | src/protocol.rs:456-462 | A genuine answer is ignored if and only if it follows the acknowledgement of an unsolicited frame by less than the wire time |
| Link.GenuineAnswerIsIgnored | src/protocol.rs:456-462 | That happens: bytes on the port and when they come, a key press and then the command's own acknowledgement with status 0, for which an exchange, run on time and within the deadline, does not succeed |
| Link.Lcm.TakePending | src/protocol.rs:474-481 | Hands over the queue: everything ever taken followed by the queue is the sequence of unsolicited frames heard, which `SendAndAck` ties to the bytes on the port: none lost or doubled |
| Link.QueuedIff | src/protocol.rs:199-201 | What is queued is what was heard with a valid checksum and opcode F0, and nothing else |
| Link.Lcm.SetText | src/protocol.rs:487-524 | Nothing goes over the wire for text already confirmed. Otherwise up to three exchanges do, each the frame of this very line and text, in turn on the same byte stream, each a settle time after anything was received and a repeat after a pause; it succeeds exactly if the last was acknowledged in time, and none before it was; repeats make the other line unknown and only success changes the line's own entry |
| Link.RepeatedMeans | src/protocol.rs:497-506 | Repeats are events of their own, one for each; the line's own text stays, the other line's is unknown from the first on |
| Link.RememberedIffLatest | src/protocol.rs:152-157 | A line's text is remembered exactly if its acknowledged write is the latest event that concerns the line: a write of it, a repeat on the other line, or forgetting |
| Link.RememberedIffConfirmed | src/protocol.rs:152-157 | In every state of the link that write is an exchange, run on time and within its deadline, in which the panel did acknowledge it |
| Link.Lcm.ForgetText | src/protocol.rs:543-555 | Forgets both lines |
| Link.LineBytes | src/protocol.rs:576-589 | Exactly 16 bytes: printable characters in place, `?` for any other, blanks after the end |
| Template.Placeholders | src/template.rs:12-33 | The loop returns the names of the template, or its first brace error |
| Template.Render | src/template.rs:41-70 | The loop returns the filled-in template without trailing blanks |
| Template.PrintedReadsBack | src/template.rs:12-70 | For any literals and names, printing them (braces doubled, names in braces) gives a template with exactly those names, filled in with exactly their values: a value is never scanned again |
| Template.ValueIsFirstListed | src/template.rs:53-58 | A name stands for the value first listed for it |
| Template.UnlistedStays | src/template.rs:53-58 | A name without a value stays as it is, braces and all |
| Template.AcceptedIffPrinted | src/template.rs:9-33 | A template is accepted if and only if it is the printing of some literals and names |
| Template.TrimEnd | src/template.rs:67-69 | Cuts exactly the trailing white space |
| Template.WhiteSpace | src/template.rs:67-69 | White space is the twenty-five characters of Unicode's property of that name |
| Slots.ActiveCountsSlots | src/socket.rs:579-607 | Under every interleaving, with spurious failures and drops, the counter is the number of slots held, never above the maximum, and a drop never takes it below zero |
| Slots.RefusedOnlyWhenFull | src/socket.rs:586-593 | A connection is turned away only if at some moment of its own attempt every slot was held |
| Slots.WinTakesAFreeSlot | src/socket.rs:594-599 | A slot is won at a moment when one was free, and adds exactly the winner |
| Slots.AloneWinsIffFree | src/socket.rs:584-607 | Left to itself a new connection gets a slot exactly if one is free, gives it back when it ends, and is refused otherwise |
| Brightness.RoundTripsIff | src/led.rs:625-638 | Every percentage survives being written and read back if and only if the device has at least 100 steps |
| Brightness.NearestValue | src/led.rs:625-629 | The raw value is the step nearest to the percentage asked for |
| Brightness.NearestPercent | src/led.rs:631-638 | The percentage is the one nearest to the raw value; more than the maximum is 100, all of nothing 0 |
| Brightness.ValueFits | src/led.rs:625-629 | No intermediate result overflows and the value never exceeds the maximum |
| Leds.PatternsAreDistinct | src/led.rs:140-162 | No two status patterns look alike, and a bay being located looks like no other bay |
| Leds.PatternLooks | src/led.rs:234-284 | What the two halves of the status LED show under each pattern: dark, lit, or blinking at which rate |
| Leds.SeverityOrder | src/led.rs:220-231 | Green patterns are no alarm; then amber, degraded, red, and flashing red above all |
| Leds.Board.SetStatus | src/led.rs:234-284 | Each sequence of attribute writes leaves the status LED showing its pattern, whatever it showed before, and touches nothing else |
| Leds.Board.SetPower | src/led.rs:298-305 | The power LED shows the pattern, its red half dark |
| Leds.Board.SetBay | src/led.rs:353-362 | The bay's two LEDs show the state by day |
| Leds.Board.SetBayNight | src/led.rs:368-386 | The bay's two LEDs show the state by night: green dark, red kept, a locate in full |
| Leds.Board.EnterNightMode | src/led.rs:395-419 | Bay greens dark, bay reds untouched, and with `front` status, power, network rail and USB dark |
| Leds.Board.ExitNightMode | src/led.rs:425-450 | Bay greens back to the driver, bay reds untouched, and with `front` status green, power, rail and USB on |
| Alarms.MostCriticalIsFirstWorst | src/alarm.rs:55-63 | The alarm shown is the most severe, and of equally severe ones the earliest |
| Alarms.PatternAsked | src/led.rs:311-330 | The pattern a message asks for: its own colour and flash, else those of its level; only a plain info asks for none |
| Alarms.LevelOrder | src/socket.rs:65-69 | Info, warn, error, critical in that order; error and critical are the urgent ones |
| Panel.AppState.ApplyAllLeds | src/state.rs:352-396 | From arbitrary LED contents, every LED afterwards equals the from-scratch function of locates, alert, scan, sleep, dimming and the alarm worked out from the health list given |
| Panel.AppState.RecomputeStatusLed | src/state.rs:583-605 | The status LED and its last-shown cache end at the wanted pattern although an unchanged one is not rewritten; no other LED changes |
| Panel.AppState.UpdateHealthLeds | src/state.rs:499-506 | Every scanned bay shows what it should; bays not in the scan are not written |
| Panel.AppState.BayLedsSay | src/state.rs:519-542 | In every state the operations leave: a located bay flashes both its LEDs at 250 ms; else an alerting one flashes red at 1000 ms; else the first entry of the scan for it decides: solid red exactly if failed, and by day activity, or the standby blip |
| Panel.AppState.FrontLedsSay | src/state.rs:583-640 | In every such state: a chassis locate flashes status and power LED at 250 ms; else a dark night shows neither; else power is lit and the status LED shows the most severe pattern among the health alarms last looked at and the active message's own, green if there are none |
| Panel.AppState.AlertFollowsMessage | src/state.rs:549-563 | A bay alerts exactly while an active error or critical message names it |
| Panel.AppState.ReassertLocateLeds | src/state.rs:631-640 | Every LED a locate owns shows the locate, nothing else changes |
| Panel.AppState.Refresh | src/state.rs:932-1034 | A refresh keeps every LED right; whatever is due is looked at and stamped, nothing else is, and the alarms are looked at again when anything is due, temperatures were swept, or the temperature or fan level changed |
| Panel.AppState.Wake | src/state.rs:1297-1307 | However the panel wakes, every LED is right afterwards, locates included |
| Panel.AppState.FallAsleep | src/state.rs:1328-1345 | Night mode darkens or dims wholesale and still leaves every LED right |
| Panel.AppState.StartLocate | src/state.rs:649-676 | Starting or restarting a locate keeps every LED right, although it first primes LEDs behind the cache's back |
| Panel.AppState.StopLocate | src/state.rs:680-691 | Ends the asked-for locates and hands LEDs back to what they want now |
| Panel.AppState.ExpireLocates | src/state.rs:694-709 | Ends exactly the locates whose time is up |
| Panel.AppState.SyncLedsToOverride | src/state.rs:549-563 | The alerting bay follows the active message and every LED stays right |
| Panel.AppState.ShowOverride | src/state.rs:1269-1290 | A message never steps on a more severe one; asleep a routine one is dropped and an urgent one wakes the panel |
| Panel.AppState.ApplyPendingOverride | src/state.rs:1258-1262 | The held message gets its turn by the same rules |
| Panel.AppState.HandleKey | src/state.rs:1036-1126 | Keeps every LED right and every panel invariant, and the held messages while the menu stays open; leaving menu, question or countdown gives a held message its turn; a waking key is not acted on but keeps the panel awake for a while; Up and Down page through the status screens and hold up their rotation; an action runs exactly on Enter in the question and is then the one picked by three Enter presses with the selection moved in between; severity never drops, and locates, schedule and fan level stay |
| Panel.AppState.StartCountdown | src/state.rs:1134-1153 | Takes over from menu and sleep and leaves messages, locates and schedule alone; a running countdown keeps its deadline and only turns from restart to shutdown |
| Panel.AppState.ApplySocketCommand | src/state.rs:1194-1250 | Keeps every LED right; severity drops only through a CLEAR that matches; urgent messages never expire and they alone wake the panel; during a menu or countdown messages are held, never shown; schedule, grace period and paging stay |
| Panel.AppState.Tick | src/state.rs:1310-1447 | Keeps every LED right and every panel invariant; an action runs exactly when a countdown reaches the deadline its start set, with no key pressed since, and is a shutdown exactly if some start asked for one; an expired message goes and a held one gets its turn when question or countdown end; sleeps and wakes exactly when schedule, messages and grace period say so; looks at everything again exactly when due; status screens rotate exactly when nothing stands in the way, and again as soon as hand paging has run its time |
| Panel.OverAfterTickKeeps | src/state.rs:1389-1428 | A message only makes way for a lesser one by expiring |
| Panel.ExpiresWhenDue | src/state.rs:1389-1398 | A message goes from the second it expires on, one without an expiry never |
| Panel.NewerOfEqualsStays | src/state.rs:1269-1275 | Of two messages the more severe stays, and of equally severe ones the newer |
| Panel.ClearedIff | src/state.rs:1194-1204 | A bare CLEAR clears any message, one for a bay only a message that names that bay |
| Panel.TimesOutWhenDue | src/state.rs:1371-1428 | A question times out after its time and a countdown at its deadline, to the second, and nothing else does |
| Panel.PagesThrough | src/state.rs:1173-1187 | Paging goes to the next or the previous screen, wrapping at both ends |
| Panel.PausesEndWhenDue | src/state.rs:1314-1420 | Hand paging and the grace period after a waking key end to the second |
| Panel.RefreshedIsFresh | src/state.rs:932-1020 | A refresh looks at pools, disks and network exactly if never looked at or as old as they may get, and takes over the disks only then |
| Panel.LocateRuns | src/state.rs:649-709 | A locate runs for the time asked, or until stopped if none was; one of a bay leaves all others alone |
| Panel.AppState.InitLeds | src/state.rs:311-349 | At startup and whenever the driver appears or is reloaded every LED is right, whatever it showed, for the health alarms of that moment |
| Panel.AppState.LcdAgreesWithLed | src/state.rs:607-614 | In every state the operations leave, the screen put up agrees with the LEDs: an alarm screen with its pattern on the status LED, a locate screen with the locate blink, a message or status screen with a green LED (unless someone is paging by hand, which has an end set, as `Tick` keeps), a blank one with dark LEDs when night mode darkens them. `HandleKey` and `Tick` promise it of what they show |
| Panel.AppState.ScreenDue | src/state.rs:1457-1486 | Which screen is due: menu, question, countdown with the seconds left; else a locate, the alarm (unless paged away from), a message, the rotation |
| PanelHistory.HeldIsLatestWorst | src/state.rs:1231-1241 | The held message is the latest among the most severe that arrived since the event that left the status screens; there is one exactly if any arrived. The panel's invariant says this of the held message in every state, and no key or tick moves that event while the menu, question or countdown goes on |
| PanelHistory.MenuPicks | src/state.rs:1066-1083 | Enter in the menu picks the option the Up and Down presses since it was opened lead to |
| PanelHistory.ChosenIsShutdownIff | src/state.rs:1053-1100 | What runs from the menu is the shutdown exactly if the selection was moved an even number of times before it was picked |
| PanelHistory.CountdownGoesOn | src/state.rs:1134-1143 | A later start keeps the deadline and can only make the action a shutdown |
| PanelLeds.BaysStayRight | src/state.rs:519-542 | Writing some bays anew keeps all bays right as long as the others want what they wanted |
| PanelLeds.RefreshKeepsAgreement | src/state.rs:1021-1033 | A refresh that rescans, only looks at the status LED, or does neither keeps every LED equal to the from-scratch function |

## Left out

- Real file, serial, socket and GPIO access: every access is an input saying whether it succeeds, and LED writes always succeed (in the source a failed LED write is ignored until the driver is seen to be reloaded).
- Threads, heartbeat, watchdog, buzzer and logging; log-only state such as repeated-error suppression, trip reasons and link statistics.
- One instant is used for a whole operation where the source reads the clock several times in it.
- libc `localtime_r`: a zone is an arbitrary function from instants to offsets, and local years are not limited to 32 bits.
- 64-bit saturation of scheduler times near the ends of the range (that of `from_utc` is modelled); deadlines that do not fit a clock type.
- Parsing of rules, days, configuration and socket requests; validated values are inputs. A rule's weekday mask is the set of its bits.
- f32 rounding, NaN and infinity in temperatures: exact reals are used.
- Fan health levels, low-speed warnings and the loss-of-control clock, which only decide log lines and a level handed to the panel; the wait for first samples.
- `FanController::restore` and the fail-safe pass at exit, and `restore_stock`, which are single writes.
- Front brightness writes, `bay_mode` and NIC port LEDs in the panel (the network rail and USB LED are modelled).
- Beeps, scrolling and the wording of LCD text: the model says which screen is shown, not its sixteen characters; whether a line is still scrolling is an input.
- How health alarms are put together from pools, disks, fans, temperatures and links: the list is an input of each operation that looks at it.
- Bays outside 1 to 4, which have no LEDs, and bays that were in an earlier scan but are in neither the latest one, a locate nor an alert: the source does not rewrite them, so nothing is claimed about what they show.
- Partial writes of a serial frame, which the panel resynchronises from.
- Byte offsets in templates: positions count characters, which agrees because every brace is one byte.
- LocalZone.RepeatedIffSeenBefore: offsets may be anything, but changes of offset must be whole minutes, on whole minutes, more than 8 h apart and at most 4 h back, since the four-hour look-back relies on it.
- PowerRuns.FiresTwiceIffSetBack: for clocks read at least once a minute, so that a poll crosses one boundary at most; a later poll fires only the last of several (`PowerRuns.FiresWhatIsCrossed`), and which minutes it looks at is in `PowerRuns.TwiceIffSetBack`.
- PowerRules.NotFoundIffSkipped: does not cover two clock changes within eight days, where what one skips the other may show again.
- WakeAlarmRuns.SyncBeforeShutdown: the extra look is a single step and in no run of polls, since the machine goes down or the daemon ends after it.
