/**
 * The tap recogniser. `Step` is what one event does; the reference definition below it says, from the history
 * of events alone, what a tap is, and the two are proved to agree on every history.
 */
module Touch {
  import opened Wrappers
  import opened MenuGeometry

  const EV_KEY: nat := 1
  const EV_ABS: nat := 3
  const ABS_MT_SLOT: nat := 0x2f
  const ABS_MT_POSITION_X: nat := 0x35
  const ABS_MT_POSITION_Y: nat := 0x36
  const ABS_MT_TRACKING_ID: nat := 0x39
  const TAP_SLOP: int := 96

  datatype Event = Event(kind: nat, code: nat, value: int)

  /** `struct tfb_touch_state`. */
  datatype Contact = Contact(slot: int, active: bool, haveX: bool, haveY: bool, rawX: int, rawY: int,
                             startSet: bool, startX: int, startY: int, pressedRow: int, canceled: bool)

  /** What `tfb_touch_process_event` returns: its code, and what `selected` points to. */
  datatype Outcome = Outcome(contact: Contact, code: nat, selected: int)

  /** Which row, if any, a raw point touches. */
  type Rows = (int, int) -> int

  const RESET: Contact := Contact(0, false, false, false, 0, 0, false, 0, 0, -1, false)

  function Abs(value: int): nat {
    if value < 0 then -value else value
  }

  predicate WithinSlop(x: int, y: int, startX: int, startY: int) {
    Abs(x - startX) <= TAP_SLOP && Abs(y - startY) <= TAP_SLOP
  }

  /** `tfb_touch_process_event`. */
  function Step(rows: Rows, c: Contact, e: Event, selected: int): Outcome {
    if e.kind != EV_ABS then Outcome(c, 0, selected)
    else if e.code == ABS_MT_SLOT then Outcome(c.(slot := e.value), 1, selected)
    else if c.slot != 0 then Outcome(c, 1, selected)
    else if e.code == ABS_MT_TRACKING_ID then
      if e.value >= 0 then
        Outcome(c.(active := true, haveX := false, haveY := false, startSet := false, pressedRow := -1,
                   canceled := false),
                1, selected)
      else if !c.active then Outcome(c, 1, selected)
      else
        var releaseRow := if c.haveX && c.haveY then rows(c.rawX, c.rawY) else -1;
        var activate := c.startSet && !c.canceled && c.pressedRow >= 0 && releaseRow == c.pressedRow
                        && WithinSlop(c.rawX, c.rawY, c.startX, c.startY);
        Outcome(c.(active := false, haveX := false, haveY := false, startSet := false, pressedRow := -1,
                   canceled := false),
                if activate then 3 else 1, selected)
    else if !c.active then Outcome(c, 1, selected)
    else if e.code == ABS_MT_POSITION_X then Moved(rows, c.(rawX := e.value, haveX := true), selected)
    else if e.code == ABS_MT_POSITION_Y then Moved(rows, c.(rawY := e.value, haveY := true), selected)
    else Outcome(c, 1, selected)
  }

  /** The position part of the same: the first complete position presses a row, later ones may cancel. */
  function Moved(rows: Rows, c: Contact, selected: int): Outcome {
    if !(c.haveX && c.haveY) then Outcome(c, 1, selected)
    else
      var row := rows(c.rawX, c.rawY);
      if !c.startSet then
        var pressed := c.(startX := c.rawX, startY := c.rawY, startSet := true, pressedRow := row);
        if row >= 0 then Outcome(pressed, 2, row) else Outcome(pressed.(canceled := true), 1, selected)
      else if !c.canceled && (!WithinSlop(c.rawX, c.rawY, c.startX, c.startY) || row != c.pressedRow) then
        Outcome(c.(canceled := true), 1, selected)
      else Outcome(c, 1, selected)
  }

  /** A run of events from the reset state. */
  function Run(rows: Rows, events: seq<Event>, selected: int): Outcome {
    if events == [] then Outcome(RESET, 0, selected)
    else
      var before := Run(rows, events[..|events| - 1], selected);
      Step(rows, before.contact, events[|events| - 1], before.selected)
  }

  // ---- what a tap is, told from the history: absolute events are of kind 3, with codes 0x2f for the slot, 0x39
  // for touching down and lifting, 0x35 and 0x36 for the position ----

  /** The slot that the next contact event belongs to. */
  function Slot(events: seq<Event>): int {
    if events == [] then 0
    else
      var e := events[|events| - 1];
      if e.kind == 3 && e.code == 0x2f then e.value else Slot(events[..|events| - 1])
  }

  /** The event belongs to the primary contact. */
  predicate Primary(events: seq<Event>, e: Event) {
    e.kind == 3 && e.code != 0x2f && Slot(events) == 0
  }

  /** The position events of the open primary contact, since it touched down; None if it is up. */
  function Contacted(events: seq<Event>): Option<seq<Event>> {
    if events == [] then None
    else
      var before, e := events[..|events| - 1], events[|events| - 1];
      if !Primary(before, e) then Contacted(before)
      else if e.code == 0x39 then if e.value >= 0 then Some([]) else None
      else if Contacted(before).Some? && (e.code == 0x35 || e.code == 0x36) then
        Some(Contacted(before).value + [e])
      else Contacted(before)
  }

  /** The last value reported for an axis. */
  function Last(moves: seq<Event>, code: nat): Option<int> {
    if moves == [] then None
    else if moves[|moves| - 1].code == code then Some(moves[|moves| - 1].value)
    else Last(moves[..|moves| - 1], code)
  }

  /** The complete positions a contact went through. */
  function Positions(moves: seq<Event>): seq<(int, int)> {
    if moves == [] then []
    else
      var x, y := Last(moves, 0x35), Last(moves, 0x36);
      Positions(moves[..|moves| - 1]) + if x.Some? && y.Some? then [(x.value, y.value)] else []
  }

  /** Within 96 units of each other on both axes. */
  predicate Near(p: (int, int), q: (int, int)) {
    -96 <= p.0 - q.0 <= 96 && -96 <= p.1 - q.1 <= 96
  }

  /** All positions touch one row and stay near the first. */
  predicate Steady(rows: Rows, p: seq<(int, int)>) {
    p != [] && rows(p[0].0, p[0].1) >= 0
    && forall i :: 0 <= i < |p| ==>
         rows(p[i].0, p[i].1) == rows(p[0].0, p[0].1) && Near(p[i], p[0])
  }

  /** The history ends with an open contact whose release would be a tap. */
  predicate Tapping(rows: Rows, events: seq<Event>) {
    Contacted(events).Some? && Steady(rows, Positions(Contacted(events).value))
  }

  // ---- agreement ----

  /** The recogniser's fields, told from the history. */
  ghost predicate Tracks(rows: Rows, o: Outcome, events: seq<Event>) {
    && o.contact.slot == Slot(events)
    && o.contact.active == Contacted(events).Some?
    && (o.contact.active ==> Follows(rows, o.contact, o.selected, Contacted(events).value))
  }

  ghost predicate Follows(rows: Rows, c: Contact, selected: int, moves: seq<Event>) {
    var p, x, y := Positions(moves), Last(moves, 0x35), Last(moves, 0x36);
    && c.haveX == x.Some? && (c.haveX ==> c.rawX == x.value)
    && c.haveY == y.Some? && (c.haveY ==> c.rawY == y.value)
    && c.startSet == (p != []) == (c.haveX && c.haveY)
    && (c.startSet ==>
          && p[|p| - 1] == (c.rawX, c.rawY)
          && p[0] == (c.startX, c.startY)
          && c.pressedRow == rows(c.startX, c.startY)
          && c.canceled == !Steady(rows, p)
          && (c.pressedRow >= 0 ==> selected == c.pressedRow))
    && (!c.startSet ==> !c.canceled)
  }

  lemma FollowsDown(rows: Rows, c: Contact, selected: int)
    requires !c.haveX && !c.haveY && !c.startSet && !c.canceled
    ensures Follows(rows, c, selected, [])
  {}

  lemma SteadySnoc(rows: Rows, p: seq<(int, int)>, q: (int, int))
    requires p != []
    ensures Steady(rows, p + [q]) <==>
            Steady(rows, p) && rows(q.0, q.1) == rows(p[0].0, p[0].1) && Near(q, p[0])
  {
    hide Near;
    var all := p + [q];
    assert all[0] == p[0] && all[|p|] == q;
    assert forall i :: 0 <= i < |p| ==> all[i] == p[i];
  }

  lemma FollowsMove(rows: Rows, c: Contact, selected: int, moves: seq<Event>, e: Event)
    requires Follows(rows, c, selected, moves)
    requires e.kind == EV_ABS && (e.code == ABS_MT_POSITION_X || e.code == ABS_MT_POSITION_Y) && c.slot == 0 && c.active
    ensures
      var o := Step(rows, c, e, selected);
      Follows(rows, o.contact, o.selected, moves + [e])
  {
    hide Steady;
    var next, p := moves + [e], Positions(moves);
    assert next[..|next| - 1] == moves;
    var x, y := Last(next, 0x35), Last(next, 0x36);
    if x.Some? && y.Some? {
      assert Positions(next) == p + [(x.value, y.value)];
      if p != [] {
        SteadySnoc(rows, p, (x.value, y.value));
      } else {
        SteadyOne(rows, (x.value, y.value));
        assert Positions(next) == [(x.value, y.value)];
      }
    } else {
      assert Positions(next) == p;
    }
  }

  lemma SteadyOne(rows: Rows, q: (int, int))
    ensures Steady(rows, [q]) <==> rows(q.0, q.1) >= 0
  {}

  lemma {:induction false} RunTracks(rows: Rows, events: seq<Event>, selected: int)
    ensures Tracks(rows, Run(rows, events, selected), events)
  {
    hide Follows, Moved;
    if events != [] {
      var before, e := events[..|events| - 1], events[|events| - 1];
      RunTracks(rows, before, selected);
      var o := Run(rows, before, selected);
      var next := Step(rows, o.contact, e, o.selected);
      if Primary(before, e) {
        if e.code == ABS_MT_TRACKING_ID {
          if e.value >= 0 {
            FollowsDown(rows, next.contact, next.selected);
          }
        } else if o.contact.active && (e.code == ABS_MT_POSITION_X || e.code == ABS_MT_POSITION_Y) {
          FollowsMove(rows, o.contact, o.selected, Contacted(before).value, e);
          MovedKeeps(rows, o.contact, e, o.selected);
        }
      } else {
        FollowsSlot(rows, o.contact, next.contact.slot, o.selected, before);
      }
    }
  }

  lemma MovedKeeps(rows: Rows, c: Contact, e: Event, selected: int)
    ensures Step(rows, c, e, selected).contact.slot == if e.kind == EV_ABS && e.code == ABS_MT_SLOT then e.value
      else c.slot
    ensures e.code == ABS_MT_POSITION_X || e.code == ABS_MT_POSITION_Y ==>
      Step(rows, c, e, selected).contact.active == c.active
  {}

  lemma FollowsSlot(rows: Rows, c: Contact, slot: int, selected: int, events: seq<Event>)
    ensures Contacted(events).Some? ==>
              Follows(rows, c, selected, Contacted(events).value)
                == Follows(rows, c.(slot := slot), selected, Contacted(events).value)
  {}

  /**
   * An event reports an activation exactly when it lifts the primary contact and the history before it is a
   * tap: touched down in slot 0, at least one complete position, all of them in one row and within slop of
   * the first. The selection is then that row.
   */
  lemma TapIff(rows: Rows, events: seq<Event>, e: Event, selected: int)
    ensures
      var o := Run(rows, events, selected);
      var next := Step(rows, o.contact, e, o.selected);
      && (next.code == 3 <==>
            Primary(events, e) && e.code == 0x39 && e.value < 0 && Tapping(rows, events))
      && (next.code == 3 ==>
            var p := Positions(Contacted(events).value);
            next.selected == rows(p[0].0, p[0].1) >= 0)
      && (next.code == 0 <==> e.kind != 3)
  {
    hide Slot, Contacted, Positions, Last;
    RunTracks(rows, events, selected);
    var o := Run(rows, events, selected);
    hide Run;
    if Contacted(events).Some? && o.contact.startSet {
      var p := Positions(Contacted(events).value);
      assert Steady(rows, p) ==> rows(p[|p| - 1].0, p[|p| - 1].1) == rows(p[0].0, p[0].1)
                                 && Near(p[|p| - 1], p[0]);
    }
  }

  /**
   * An event reports a press exactly when it gives an open contact its first complete position, and that touches a
   * row: the selection moves there. No other event moves it.
   */
  lemma PressIff(rows: Rows, events: seq<Event>, e: Event, selected: int)
    ensures
      var o := Run(rows, events, selected);
      var next := Step(rows, o.contact, e, o.selected);
      && (next.code == 2 <==> Pressing(rows, events, e))
      && next.selected == if Pressing(rows, events, e) then FirstRow(rows, events, e) else o.selected
  {
    hide Follows, Run, Slot, Contacted, Positions, Step;
    RunTracks(rows, events, selected);
    var o := Run(rows, events, selected);
    if Primary(events, e) && (e.code == 0x35 || e.code == 0x36) && Contacted(events).Some? {
      MoveStep(rows, o.contact, o.selected, Contacted(events).value, e);
    } else {
      OtherStep(rows, o.contact, o.selected, e);
    }
  }

  /** A position event of an open contact. */
  lemma MoveStep(rows: Rows, c: Contact, selected: int, moves: seq<Event>, e: Event)
    requires Follows(rows, c, selected, moves) && c.slot == 0 && c.active
    requires e.kind == 3 && (e.code == 0x35 || e.code == 0x36)
    ensures
      var p := Positions(moves + [e]);
      var pressed := Positions(moves) == [] && p != [] && rows(p[|p| - 1].0, p[|p| - 1].1) >= 0;
      && (Step(rows, c, e, selected).code == 2 <==> pressed)
      && Step(rows, c, e, selected).selected == if pressed then rows(p[|p| - 1].0, p[|p| - 1].1) else selected
  {
    hide Steady, WithinSlop;
    var next := moves + [e];
    assert next[..|moves|] == moves;
    var x, y := Last(next, 0x35), Last(next, 0x36);
    assert x == if e.code == 0x35 then Some(e.value) else Last(moves, 0x35);
    assert y == if e.code == 0x36 then Some(e.value) else Last(moves, 0x36);
    hide Last;
  }

  /** Any other event neither presses nor moves the selection. */
  lemma OtherStep(rows: Rows, c: Contact, selected: int, e: Event)
    requires e.kind != 3 || c.slot != 0 || !c.active || (e.code != 0x35 && e.code != 0x36)
    ensures Step(rows, c, e, selected).code != 2 && Step(rows, c, e, selected).selected == selected
  {
    hide Moved;
  }

  /** The complete position an event ends with, if it gives the open contact one, is its first. */
  predicate Pressing(rows: Rows, events: seq<Event>, e: Event) {
    && Primary(events, e) && (e.code == 0x35 || e.code == 0x36) && Contacted(events).Some?
    && Positions(Contacted(events).value) == [] && FirstRow(rows, events, e) >= 0
  }

  /** The row under the position that the open contact has with this event, or -1 if it lacks one. */
  function FirstRow(rows: Rows, events: seq<Event>, e: Event): int
    requires Contacted(events).Some?
  {
    var p := Positions(Contacted(events).value + [e]);
    if p == [] then -1 else rows(p[|p| - 1].0, p[|p| - 1].1)
  }

  /** Cancellation is permanent: as long as the same contact stays down, it will not become a tap again. */
  lemma CanceledStays(rows: Rows, events: seq<Event>, more: seq<Event>)
    requires Contacted(events).Some? && Positions(Contacted(events).value) != [] && !Tapping(rows, events)
    requires forall e :: e in more ==> !(e.kind == 3 && e.code == 0x39)
    ensures !Tapping(rows, events + more)
  {
    StillOpen(events, more);
    var was, all := Positions(Contacted(events).value), Positions(Contacted(events + more).value);
    hide Contacted, Positions;
    if Steady(rows, all) {
      assert all[0] == was[0];
      assert forall i :: 0 <= i < |was| ==> was[i] == all[i];
    }
  }

  /** Without a tracking event the contact stays down and only gains positions. */
  lemma {:induction false} StillOpen(events: seq<Event>, more: seq<Event>)
    requires Contacted(events).Some?
    requires forall e :: e in more ==> !(e.kind == 3 && e.code == 0x39)
    ensures Contacted(events + more).Some?
    ensures Positions(Contacted(events).value) <= Positions(Contacted(events + more).value)
  {
    if more == [] {
      assert events + more == events;
    } else {
      var fewer, e := more[..|more| - 1], more[|more| - 1];
      StillOpen(events, fewer);
      var all := events + more;
      assert all[..|all| - 1] == events + fewer && all[|all| - 1] == e;
      assert e in more;
      var moves := Contacted(events + fewer).value;
      assert (moves + [e])[..|moves|] == moves;
    }
  }

  // ---- with the menu's hit-testing ----

  /** The rows of a page with `count` visible entries. */
  function PageRows(title: string, count: nat, shown: bool): Rows {
    (x, y) => TouchRow(title, count, shown, x, y)
  }

  /**
   * A tap activates the card under the finger: on one page, if an event reports an activation, the selected
   * row exists and every position of the contact lies on that row's card as it is drawn on the panel.
   */
  lemma TapOnCard(title: string, count: nat, shown: bool, events: seq<Event>, e: Event, selected: int)
    requires Step(PageRows(title, count, shown), Run(PageRows(title, count, shown), events, selected).contact, e,
                  Run(PageRows(title, count, shown), events, selected).selected).code == 3
    ensures
      var row := Run(PageRows(title, count, shown), events, selected).selected;
      && 0 <= row < count && Layout(title, count).Some? && Contacted(events).Some?
      && var p := Positions(Contacted(events).value);
         p != [] && forall i :: 0 <= i < |p| ==> Card(Layout(title, count).value, row)(p[i].0, p[i].1)
  {
    hide Contacted, Positions, Card, Layout;
    var rows := PageRows(title, count, shown);
    TapIff(rows, events, e, selected);
    var o := Run(rows, events, selected);
    var p := Positions(Contacted(events).value);
    hide Run;
    forall i | 0 <= i < |p|
      ensures 0 <= o.selected < count && Layout(title, count).Some?
      ensures Card(Layout(title, count).value, o.selected)(p[i].0, p[i].1)
    {
      assert rows(p[i].0, p[i].1) == rows(p[0].0, p[0].1) == o.selected;
      RowOnCard(title, count, shown, p[i].0, p[i].1, o.selected);
    }
    assert rows(p[0].0, p[0].1) == o.selected;
    RowOnCard(title, count, shown, p[0].0, p[0].1, o.selected);
  }

  /** A touched row exists. */
  lemma RowRange(title: string, count: nat, shown: bool, x: int, y: int)
    ensures -1 <= TouchRow(title, count, shown, x, y) && (count > 0 ==> TouchRow(title, count, shown, x, y) < count)
  {
    hide HitRow, RowHeight;
    if Layout(title, count).Some? {
      HitRange(Layout(title, count).value, x, y);
    }
  }

  lemma RowOnCard(title: string, count: nat, shown: bool, x: int, y: int, row: int)
    requires TouchRow(title, count, shown, x, y) == row && row >= 0
    ensures row < count && Layout(title, count).Some? && Card(Layout(title, count).value, row)(x, y)
  {
    hide Card, HitRow, RowHeight;
    HitIff(Layout(title, count).value, x, y, row);
  }

  // ---- the code: the state is one element of the menu's array, one per input device ----

  /** `tfb_touch_reset_state`. */
  method ResetState(states: array<Contact>, at: nat)
    requires at < states.Length
    modifies states
    ensures states[..] == old(states[..])[at := RESET]
  {
    states[at] := RESET;
  }

  method ProcessEvent(states: array<Contact>, at: nat, title: string, count: nat, shown: bool, e: Event, selected: int)
    returns (code: nat, moved: int)
    requires at < states.Length
    modifies states
    ensures states[..] == old(states[..])[at := states[at]]
    ensures Outcome(states[at], code, moved) == Step(PageRows(title, count, shown), old(states[at]), e, selected)
  {
    hide TouchRow;
    moved := selected;
    if e.kind != EV_ABS {
      return 0, selected;
    }
    if e.code == ABS_MT_SLOT {
      states[at] := states[at].(slot := e.value);
      return 1, selected;
    }
    if states[at].slot != 0 {
      return 1, selected;
    }
    if e.code == ABS_MT_TRACKING_ID {
      code := Track(states, at, title, count, shown, e);
      return;
    }
    if !states[at].active {
      return 1, selected;
    }
    if e.code == ABS_MT_POSITION_X {
      states[at] := states[at].(rawX := e.value, haveX := true);
    } else if e.code == ABS_MT_POSITION_Y {
      states[at] := states[at].(rawY := e.value, haveY := true);
    } else {
      return 1, selected;
    }
    code, moved := Position(states, at, title, count, shown, selected);
  }

  /** The primary contact goes down or up. */
  method Track(states: array<Contact>, at: nat, title: string, count: nat, shown: bool, e: Event) returns (code: nat)
    requires at < states.Length && e.kind == EV_ABS && e.code == ABS_MT_TRACKING_ID && states[at].slot == 0
    modifies states
    ensures states[..] == old(states[..])[at := states[at]]
    ensures forall selected :: Outcome(states[at], code, selected)
                               == Step(PageRows(title, count, shown), old(states[at]), e, selected)
  {
    hide TouchRow;
    if e.value >= 0 {
      states[at] := states[at].(active := true, haveX := false, haveY := false);
      states[at] := states[at].(startSet := false, pressedRow := -1, canceled := false);
      return 1;
    }
    if !states[at].active {
      return 1;
    }
    var releaseRow := -1;
    if states[at].haveX && states[at].haveY {
      releaseRow := FindTouchRow(title, count, shown, states[at].rawX, states[at].rawY);
    }
    var c := states[at];
    var activate := c.startSet && !c.canceled && c.pressedRow >= 0 && releaseRow == c.pressedRow
                    && Abs(c.rawX - c.startX) <= TAP_SLOP && Abs(c.rawY - c.startY) <= TAP_SLOP;
    states[at] := states[at].(active := false, haveX := false, haveY := false);
    states[at] := states[at].(startSet := false, pressedRow := -1, canceled := false);
    code := if activate then 3 else 1;
  }

  method Position(states: array<Contact>, at: nat, title: string, count: nat, shown: bool, selected: int)
    returns (code: nat, moved: int)
    requires at < states.Length
    modifies states
    ensures states[..] == old(states[..])[at := states[at]]
    ensures Outcome(states[at], code, moved) == Moved(PageRows(title, count, shown), old(states[at]), selected)
  {
    hide TouchRow;
    if states[at].haveX && states[at].haveY && !states[at].startSet {
      states[at] := states[at].(startX := states[at].rawX, startY := states[at].rawY, startSet := true);
      var row := FindTouchRow(title, count, shown, states[at].rawX, states[at].rawY);
      states[at] := states[at].(pressedRow := row);
      if states[at].pressedRow >= 0 {
        return 2, states[at].pressedRow;
      }
      states[at] := states[at].(canceled := true);
      return 1, selected;
    }
    if states[at].haveX && states[at].haveY && states[at].startSet && !states[at].canceled {
      var c := states[at];
      var row := FindTouchRow(title, count, shown, c.rawX, c.rawY);
      if Abs(c.rawX - c.startX) > TAP_SLOP || Abs(c.rawY - c.startY) > TAP_SLOP || row != c.pressedRow {
        states[at] := states[at].(canceled := true);
      }
    }
    return 1, selected;
  }
}
