/**
 What every LED should show, as one function of what the panel knows; and how
 the step-by-step updates keep the LEDs equal to it.
 */
module PanelLeds {
  import opened Wrappers
  import opened Leds
  import opened Alarms

  /** What a disk scan can say about a bay. */
  type DiskState = s: BayState | s.BayNormal? || s.BayFailed? || s.BayStandby? witness BayNormal

  type Scan = seq<(nat, DiskState)>

  /** Everything that decides the LEDs; `darkens`: night mode switches the front LEDs off. */
  datatype View = View(
    locating: set<nat>, chassis: bool, alert: Option<nat>, scan: Scan, sleeping: bool, darkens: bool,
    alarm: Option<Alarm>)
  {
    predicate Dark() {
      sleeping && darkens
    }
  }

  function ScanBays(scan: Scan): set<nat> {
    set i | 0 <= i < |scan| :: scan[i].0
  }

  function ScanState(scan: Scan, bay: nat): DiskState {
    if scan == [] then BayNormal
    else if scan[0].0 == bay then scan[0].1
    else ScanState(scan[1..], bay)
  }

  function StatusWant(v: View): StatusPattern {
    if v.chassis then StatusLocate
    else if v.Dark() then StatusOff
    else if v.alarm.Some? then v.alarm.value.pattern else StatusOk
  }

  function PowerWant(v: View): PowerPattern {
    if v.chassis then PowerLocate else if v.Dark() then PowerOff else PowerPattern.PowerOn
  }

  function BayWant(v: View, bay: nat): BayState {
    if bay in v.locating then BayLocate
    else if v.alert == Some(bay) then BayAlert
    else ScanState(v.scan, bay)
  }

  /** The bays the daemon says something about: in the latest scan, located, or alerting. */
  predicate Tracked(v: View, bay: nat) {
    bay in ScanBays(v.scan) || bay in v.locating || v.alert == Some(bay)
  }

  predicate BayAgrees(lamps: Lamps, v: View, bay: nat) {
    ShowsBay(lamps, bay, BayWant(v, bay), v.sleeping)
  }

  ghost predicate BaysAgree(lamps: Lamps, v: View) {
    forall bay: nat | 1 <= bay <= 4 && Tracked(v, bay) :: BayAgrees(lamps, v, bay)
  }

  predicate FrontAgrees(lamps: Lamps, v: View) {
    ShowsPower(lamps, PowerWant(v)) && ShowsLanAndUsb(lamps, !v.Dark())
  }

  predicate StatusAgrees(lamps: Lamps, v: View) {
    ShowsStatus(lamps, StatusWant(v))
  }

  /** Every LED shows what a computation from scratch would have it show. */
  ghost predicate Agrees(lamps: Lamps, v: View) {
    StatusAgrees(lamps, v) && FrontAgrees(lamps, v) && BaysAgree(lamps, v)
  }

  // ---------- what that means for someone in front of the panel ----------

  lemma {:induction false} ScanStateIsFirst(scan: Scan, i: nat)
    requires i < |scan| && forall j | 0 <= j < i :: scan[j].0 != scan[i].0
    ensures ScanState(scan, scan[i].0) == scan[i].1
  {
    if i > 0 {
      assert scan[0].0 != scan[i].0;
      ScanStateIsFirst(scan[1..], i - 1);
    }
  }

  /** A located bay flashes amber fast, whatever the scan and the alert say. */
  lemma LocatedBayShows(lamps: Lamps, v: View, bay: nat)
    requires Agrees(lamps, v) && 1 <= bay <= 4 && bay in v.locating
    ensures LookOf(lamps, BayGreen(bay)) == LookOf(lamps, BayRed(bay)) == Blink(250, 250)
  {
    hide LookOf;
    assert BayAgrees(lamps, v, bay);
  }

  /** An alerting bay that is not located flashes red slowly. */
  lemma AlertingBayShows(lamps: Lamps, v: View, bay: nat)
    requires Agrees(lamps, v) && 1 <= bay <= 4 && bay !in v.locating && v.alert == Some(bay)
    ensures LookOf(lamps, BayGreen(bay)) == Solid(false) && LookOf(lamps, BayRed(bay)) == Blink(1000, 1000)
  {
    hide LookOf;
    assert BayAgrees(lamps, v, bay);
  }

  /** Any other scanned bay shows what the first entry for it says: solid red if failed; green only by day. */
  lemma ScannedBayShows(lamps: Lamps, v: View, bay: nat, i: nat)
    requires Agrees(lamps, v) && 1 <= bay <= 4 && bay !in v.locating && v.alert != Some(bay)
    requires i < |v.scan| && v.scan[i].0 == bay && forall j | 0 <= j < i :: v.scan[j].0 != bay
    ensures LookOf(lamps, BayRed(bay)) == Solid(v.scan[i].1 == BayFailed)
    ensures LookOf(lamps, BayGreen(bay)) == if v.sleeping || v.scan[i].1 == BayFailed then Solid(false)
                                            else if v.scan[i].1 == BayStandby then Blink(250, 9750)
                                            else Driven(DiskActivity(bay))
  {
    hide LookOf;
    ScanStateIsFirst(v.scan, i);
    assert BayAgrees(lamps, v, bay);
  }

  /** Status, power, network rail and USB: a chassis locate above all, then night, then the alarm. */
  lemma FrontShows(lamps: Lamps, v: View)
    requires Agrees(lamps, v)
    ensures v.chassis ==>
              && LookOf(lamps, GreenStatus) == LookOf(lamps, RedStatus) == LookOf(lamps, BluePower) == Blink(250, 250)
    ensures !v.chassis && v.sleeping && v.darkens ==>
              && LookOf(lamps, GreenStatus) == LookOf(lamps, RedStatus) == LookOf(lamps, BluePower) == Solid(false)
    ensures !v.chassis && !(v.sleeping && v.darkens) ==>
              && LookOf(lamps, BluePower) == Solid(true)
              && ShowsStatus(lamps, if v.alarm == None then StatusOk else v.alarm.value.pattern)
    ensures LookOf(lamps, RedPower) == Solid(false)
    ensures LookOf(lamps, BlueLan) == Solid(!(v.sleeping && v.darkens))
    ensures LookOf(lamps, GreenUsb) == if v.sleeping && v.darkens then Solid(false) else Driven(FrontUsb)
  {
    hide LookOf;
  }

  // ---------- which LEDs a write may touch ----------

  ghost predicate SameBay(a: Lamps, b: Lamps, bay: nat) {
    LookOf(a, BayGreen(bay)) == LookOf(b, BayGreen(bay)) && LookOf(a, BayRed(bay)) == LookOf(b, BayRed(bay))
  }

  ghost predicate SameBays(a: Lamps, b: Lamps, except: set<nat>) {
    forall bay: nat | bay !in except :: SameBay(a, b, bay)
  }

  ghost predicate SameStatus(a: Lamps, b: Lamps) {
    LookOf(a, GreenStatus) == LookOf(b, GreenStatus) && LookOf(a, RedStatus) == LookOf(b, RedStatus)
  }

  ghost predicate SamePower(a: Lamps, b: Lamps) {
    LookOf(a, BluePower) == LookOf(b, BluePower) && LookOf(a, RedPower) == LookOf(b, RedPower)
  }

  ghost predicate SameLan(a: Lamps, b: Lamps) {
    LookOf(a, BlueLan) == LookOf(b, BlueLan) && LookOf(a, GreenUsb) == LookOf(b, GreenUsb)
  }

  lemma NothingWritten(a: Lamps)
    ensures SameBays(a, a, {}) && SamePower(a, a) && SameLan(a, a)
  {
  }

  lemma OnlyStatusWritten(a: Lamps, b: Lamps)
    requires SameOutside(a, b, STATUS_LEDS)
    ensures SameBays(a, b, {}) && SamePower(a, b) && SameLan(a, b)
  {
    hide LookOf;
  }

  lemma OnlyPowerWritten(a: Lamps, b: Lamps)
    requires SameOutside(a, b, POWER_LEDS)
    ensures SameBays(a, b, {}) && SameStatus(a, b) && SameLan(a, b)
  {
    hide LookOf;
  }

  lemma OnlyBayWritten(a: Lamps, b: Lamps, bay: nat)
    requires SameOutside(a, b, BayLeds(bay))
    ensures SameBays(a, b, {bay}) && SameStatus(a, b) && SamePower(a, b) && SameLan(a, b)
  {
    hide LookOf;
  }

  lemma SameBaysInTurn(c: Lamps, b: Lamps, a: Lamps, last: set<nat>, first: set<nat>, all: set<nat>)
    requires SameBays(c, b, last) && SameBays(b, a, first) && last <= all && first <= all
    ensures SameBays(c, a, all)
  {
    hide LookOf;
    forall bay: nat | bay !in all ensures SameBay(c, a, bay) {
      assert SameBay(c, b, bay) && SameBay(b, a, bay);
    }
  }

  // ---------- steps that keep the bays right ----------

  lemma BayKept(a: Lamps, b: Lamps, v: View, w: View, bay: nat)
    requires BayAgrees(a, v, bay) && SameBay(b, a, bay)
    requires BayWant(v, bay) == BayWant(w, bay) && v.sleeping == w.sleeping
    ensures BayAgrees(b, w, bay)
  {
  }

  /** Bays written anew show the new state, the others are as they were and want what they wanted. */
  lemma BaysStayRight(a: Lamps, b: Lamps, v: View, w: View, written: set<nat>)
    requires BaysAgree(a, v) && SameBays(b, a, written) && v.sleeping == w.sleeping
    requires forall bay: nat | bay in written :: BayAgrees(b, w, bay)
    requires forall bay: nat | bay !in written && Tracked(w, bay) ::
               Tracked(v, bay) && BayWant(v, bay) == BayWant(w, bay)
    ensures BaysAgree(b, w)
  {
    hide BayAgrees;
    hide BayWant;
    hide Tracked;
    forall bay: nat | 1 <= bay <= 4 && Tracked(w, bay) ensures BayAgrees(b, w, bay) {
      if bay !in written {
        BayKept(a, b, v, w, bay);
      }
    }
  }

  /** Moving the alert concerns the bays it leaves and comes to. */
  lemma AlertMoves(a: Lamps, b: Lamps, v: View, alert: Option<nat>, written: set<nat>)
    requires BaysAgree(a, v) && SameBays(b, a, written)
    requires forall bay: nat | bay in written :: BayAgrees(b, v.(alert := alert), bay)
    requires (v.alert.Some? ==> v.alert.value in written) && (alert.Some? ==> alert.value in written)
    ensures BaysAgree(b, v.(alert := alert))
  {
    hide BayAgrees;
    hide ScanState;
    BaysStayRight(a, b, v, v.(alert := alert), written);
  }

  /** The alarm and a chassis locate say nothing about the bays. */
  lemma FrontIsNoBay(a: Lamps, b: Lamps, v: View, alarm: Option<Alarm>, chassis: bool)
    requires BaysAgree(a, v) && SameBays(b, a, {})
    ensures BaysAgree(b, v.(alarm := alarm, chassis := chassis))
  {
    hide BayAgrees;
    hide ScanState;
    BaysStayRight(a, b, v, v.(alarm := alarm, chassis := chassis), {});
  }

  lemma AgreesMeansCacheTrue(a: Lamps, v: View)
    requires Agrees(a, v)
    ensures ShowsStatus(a, StatusWant(v))
  {
  }

  lemma UnseenStatusStays(v: View, scan: Scan)
    ensures StatusWant(v.(scan := scan)) == StatusWant(v)
  {
  }

  /** A refresh writes the scanned bays if the scan is new, and the status LED if anything was looked at. */
  lemma RefreshKeepsAgreement(a: Lamps, b: Lamps, v: View, scan: Scan, alarm: Option<Alarm>, full: bool, looked: bool)
    requires Agrees(a, v) && (!full ==> scan == v.scan) && (!looked ==> alarm == v.alarm && !full)
    requires var w := v.(scan := scan, alarm := alarm);
             && (if looked then StatusAgrees(b, w) else SameStatus(b, a))
             && (full ==> forall bay: nat | bay in ScanBays(scan) :: BayAgrees(b, w, bay))
    requires SameBays(b, a, if full then ScanBays(scan) else {}) && SamePower(b, a) && SameLan(b, a)
    ensures Agrees(b, v.(scan := scan, alarm := alarm))
  {
    hide StatusLook;
    hide PowerLook;
    hide LookOf;
    hide BayAgrees;
    hide ScanState;
    BaysStayRight(a, b, v, v.(scan := scan, alarm := alarm), if full then ScanBays(scan) else {});
  }

  /** Falling asleep: bay greens go dark, reds stay; a disk's night look is exactly that. */
  lemma BayFallsAsleep(a: Lamps, b: Lamps, v: View, bay: nat)
    requires !v.sleeping && BayAgrees(a, v, bay) && bay !in v.locating && v.alert.None?
    requires LookOf(b, BayGreen(bay)) == UNLIT && LookOf(b, BayRed(bay)) == LookOf(a, BayRed(bay))
    ensures BayAgrees(b, v.(sleeping := true), bay)
  {
  }
}
