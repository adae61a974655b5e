/**
 What has happened at the front panel, and what it takes for an action to be
 run or a message to be held: definitions over the history alone.
 */
module PanelHistory {
  import opened Wrappers
  import opened Actions
  import opened Alarms

  datatype Key = Up | Down | Back | Enter | WakeKey | Unknown(code: int)

  datatype Message = Message(
    level: Level, style: Style, expiresAt: Option<int>, bay: Option<nat>, line0: string, line1: string)

  /**
   A key press (`awake`: the panel was not asleep), a countdown being started,
   a message arriving, or anything else.
   */
  datatype Event =
    | Press(key: Key, awake: bool) | Start(action: Action, deadline: int) | Shown(message: Message) | Other

  /** The two options of the action menu, in order. */
  function Choice(selection: nat): Action {
    if selection == 0 then Shutdown else Restart
  }

  /** The first option shuts down, the second restarts. */
  lemma Choices()
    ensures Choice(0) == Shutdown && Choice(1) == Restart
  {
  }

  // ---------- menu and confirmation ----------

  predicate IsEnter(e: Event) {
    e == Press(Enter, true)
  }

  /** Leaves an open menu or question as it is, but for moving the selection. */
  predicate LeavesOpen(e: Event) {
    !e.Start? && (e.Press? ==> e.awake && !e.key.Enter? && !e.key.Back?)
  }

  predicate Moves(e: Event) {
    e.Press? && (e.key.Up? || e.key.Down?)
  }

  /** How often the selection moved, between positions `i` and `j`. */
  function MovesIn(h: seq<Event>, i: nat, j: nat): nat
    requires i <= j <= |h|
    decreases j
  {
    if i == j then 0 else MovesIn(h, i, j - 1) + (if Moves(h[j - 1]) then 1 else 0)
  }

  /** An Enter at `i` opened the menu, and it has only been moved about since. */
  predicate MenuOpen(h: seq<Event>, i: nat, selection: nat) {
    && i < |h| && IsEnter(h[i])
    && (forall k | i < k < |h| :: LeavesOpen(h[k]))
    && selection == MovesIn(h, i + 1, |h|) % 2
  }

  /** A second Enter at `j` then picked `a`, and the question has been left open since. */
  predicate Confirming(h: seq<Event>, i: nat, j: nat, a: Action) {
    && i < j < |h| && IsEnter(h[j])
    && (forall k | i < k < |h| && k != j :: LeavesOpen(h[k]))
    && IsEnter(h[i]) && a == Choice(MovesIn(h, i + 1, j) % 2)
  }

  /** The last event is the third Enter, which runs `a`. */
  predicate ChosenAtPanel(h: seq<Event>, i: nat, j: nat, a: Action) {
    h != [] && IsEnter(h[|h| - 1]) && Confirming(h[..|h| - 1], i, j, a)
  }

  /** What runs is the shutdown exactly if the selection was moved an even number of times before it was picked. */
  lemma ChosenIsShutdownIff(h: seq<Event>, i: nat, j: nat, a: Action)
    requires ChosenAtPanel(h, i, j, a)
    ensures i < j < |h| - 1 && h[i] == h[j] == h[|h| - 1] == Press(Enter, true)
    ensures a == Shutdown <==> MovesIn(h[..|h| - 1], i + 1, j) % 2 == 0
  {
    Choices();
  }

  lemma {:induction false} MovesInPrefix(h: seq<Event>, e: Event, i: nat, j: nat)
    requires i <= j <= |h|
    ensures MovesIn(h + [e], i, j) == MovesIn(h, i, j)
    decreases j
  {
    if i < j {
      MovesInPrefix(h, e, i, j - 1);
    }
  }

  lemma MenuOpens(h: seq<Event>)
    ensures MenuOpen(h + [Press(Enter, true)], |h|, 0)
  {
  }

  lemma ChoiceRuns(h: seq<Event>, i: nat, j: nat, a: Action)
    requires Confirming(h, i, j, a)
    ensures ChosenAtPanel(h + [Press(Enter, true)], i, j, a)
  {
    var g := h + [Press(Enter, true)];
    assert g[..|g| - 1] == h;
  }

  lemma MenuStaysOpen(h: seq<Event>, i: nat, selection: nat, e: Event)
    requires MenuOpen(h, i, selection) && LeavesOpen(e)
    ensures MenuOpen(h + [e], i, if Moves(e) then 1 - selection else selection)
  {
    MovesInPrefix(h, e, i + 1, |h|);
  }

  lemma MenuPicks(h: seq<Event>, i: nat, selection: nat)
    requires MenuOpen(h, i, selection)
    ensures Confirming(h + [Press(Enter, true)], i, |h|, Choice(selection))
  {
    MovesInPrefix(h, Press(Enter, true), i + 1, |h|);
  }

  lemma QuestionStaysOpen(h: seq<Event>, i: nat, j: nat, a: Action, e: Event)
    requires Confirming(h, i, j, a) && LeavesOpen(e)
    ensures Confirming(h + [e], i, j, a)
  {
    MovesInPrefix(h, e, i + 1, j);
  }

  // ---------- countdown ----------

  /** A start at `i` set the deadline, no key was pressed since, and `a` is a shutdown iff any start asked for one. */
  predicate CountingDown(h: seq<Event>, i: nat, a: Action, deadline: int) {
    && i < |h| && h[i].Start? && h[i].deadline == deadline
    && (forall k | i <= k < |h| :: !h[k].Press?)
    && (a == Shutdown <==> exists k | i <= k < |h| :: h[k].Start? && h[k].action == Shutdown)
  }

  lemma CountdownGoesOn(h: seq<Event>, i: nat, a: Action, deadline: int, e: Event)
    requires CountingDown(h, i, a, deadline) && !e.Press?
    ensures CountingDown(h + [e], i, if e.Start? && e.action == Shutdown then Shutdown else a, deadline)
  {
    var g := h + [e];
    assert forall k | 0 <= k < |h| :: g[k] == h[k];
    if k :| i <= k < |h| && h[k].Start? && h[k].action == Shutdown {
      assert g[k].Start? && g[k].action == Shutdown;
    }
    assert g[|h|] == e;
  }

  lemma CountdownBegins(h: seq<Event>, a: Action, deadline: int)
    ensures CountingDown(h + [Start(a, deadline)], |h|, a, deadline)
  {
    assert (h + [Start(a, deadline)])[|h|] == Start(a, deadline);
  }

  // ---------- messages held back ----------

  /** What is held of the messages since position `from`: each gives way to any later one at least as severe. */
  function HeldSince(h: seq<Event>, from: nat): Option<Message> {
    if |h| <= from then None
    else
      var n := |h| - 1;
      var held := HeldSince(h[..n], from);
      if h[n].Shown? && (held.None? || h[n].message.level.Rank() >= held.value.level.Rank())
      then Some(h[n].message) else held
  }

  /** The held message is the latest among the most severe that arrived since. */
  lemma {:induction false} HeldIsLatestWorst(h: seq<Event>, from: nat) returns (i: int)
    ensures HeldSince(h, from).None? <==> forall j | from <= j < |h| :: !h[j].Shown?
    ensures HeldSince(h, from).Some? ==>
              && from <= i < |h| && h[i] == Shown(HeldSince(h, from).value)
              && (forall j | from <= j < |h| && h[j].Shown? ::
                    h[j].message.level.Rank() <= h[i].message.level.Rank()
                    && (j > i ==> h[j].message.level.Rank() < h[i].message.level.Rank()))
  {
    i := -1;
    if |h| > from {
      var n := |h| - 1;
      var init := h[..n];
      i := HeldIsLatestWorst(init, from);
      assert forall j | 0 <= j < n :: init[j] == h[j];
      var held := HeldSince(init, from);
      if h[n].Shown? && (held.None? || h[n].message.level.Rank() >= held.value.level.Rank()) {
        i := n;
      }
    }
  }

  lemma HeldGrows(h: seq<Event>, e: Event, from: nat)
    ensures !e.Shown? ==> HeldSince(h + [e], from) == HeldSince(h, from)
    ensures e.Shown? && from <= |h| ==>
              HeldSince(h + [e], from)
              == var held := HeldSince(h, from);
                 if held.None? || e.message.level.Rank() >= held.value.level.Rank() then Some(e.message) else held
    ensures |h| <= from ==> HeldSince(h, from) == None
  {
    assert (h + [e])[..|h|] == h;
  }
}
