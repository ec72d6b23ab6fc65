/** The run loop under touches: on one page, an entry is activated exactly by a tap on its card. */
module MenuTaps {
  import opened Wrappers
  import opened Menu
  import opened MenuGeometry
  import opened MenuLoop
  import Touch

  /** The event lifts a contact that, by the history before it, is a tap. */
  predicate TapAt(rows: Touch.Rows, before: seq<Touch.Event>, e: Touch.Event) {
    Touch.Primary(before, e) && e.code == 0x39 && e.value < 0 && Touch.Tapping(rows, before)
  }

  predicate NoTap(rows: Touch.Rows, events: seq<Touch.Event>) {
    forall i :: 0 <= i < |events| ==> !TapAt(rows, events[..i], events[i])
  }

  function RowsOf(s: Loop, w: Setting): Touch.Rows
    requires s.stack != []
  {
    Touch.PageRows(Top(s).title, Count(Top(s), w.rt), w.shown)
  }

  /** The events of one touchscreen, as the loop reads them. */
  function Touches(device: nat, events: seq<Touch.Event>, chance: Chance): (hs: seq<Happening>)
    ensures |hs| == |events|
  {
    seq(|events|, i requires 0 <= i < |events| => Input(device, events[i], chance))
  }

  /** A touchscreen that was just opened. */
  predicate Ready(s: Loop, device: nat) {
    && s.stack != [] && device < |s.contacts| && device < |s.touchscreen|
    && s.touchscreen[device] && s.contacts[device] == Touch.RESET
  }

  predicate Absolute(events: seq<Touch.Event>) {
    forall i :: 0 <= i < |events| ==> events[i].kind == 3
  }

  /** Where the loop stands after touches without a tap: on the same page, with the recogniser's contact. */
  ghost predicate Follows(s: Loop, w: Setting, device: nat, events: seq<Touch.Event>, r: Loop)
    requires Ready(s, device)
  {
    var o := Touch.Run(RowsOf(s, w), events, s.selected);
    && r.stack == s.stack && r.markers == s.markers && r.touchscreen == s.touchscreen && r.timeouts == s.timeouts
    && r.contacts == s.contacts[device := o.contact] && r.selected == o.selected
  }

  /** The loop's state after the recogniser has seen the event, before any activation. */
  function Seen(r: Loop, device: nat, e: Touch.Event, o: Touch.Outcome): Loop
    requires device < |r.contacts|
  {
    var down := if TouchDown(e) then r.(canceled := true, elapsed := 0) else r;
    down.(contacts := r.contacts[device := o.contact], selected := o.selected,
          elapsed := if o.code != 0 then 0 else down.elapsed)
  }

  lemma TouchStep(r: Loop, w: Setting, device: nat, e: Touch.Event, chance: Chance)
    requires r.stack != [] && device < |r.contacts| && device < |r.touchscreen| && r.touchscreen[device] && e.kind == 3
    ensures
      var o := Touch.Step(RowsOf(r, w), r.contacts[device], e, r.selected);
      Step(r, w, Input(device, e, chance)) ==
        if o.code == 3 then Activate(Seen(r, device, e, o), w, chance) else Seen(r, device, e, o)
  {
    hide Activate, Touch.Step, Touch.PageRows, Visible;
  }

  lemma SeenFollows(s: Loop, w: Setting, device: nat, events: seq<Touch.Event>, r: Loop, e: Touch.Event)
    requires Ready(s, device) && Follows(s, w, device, events, r)
    ensures
      var o := Touch.Step(RowsOf(s, w), r.contacts[device], e, r.selected);
      Follows(s, w, device, events + [e], Seen(r, device, e, o))
  {
    hide Touch.Step, RowsOf, Touch.Run, TouchDown;
    RunSnoc(RowsOf(s, w), events, e, s.selected);
    var o := Touch.Step(RowsOf(s, w), r.contacts[device], e, r.selected);
    assert r.contacts[device := o.contact] == s.contacts[device := o.contact];
  }

  lemma RunSnoc(rows: Touch.Rows, events: seq<Touch.Event>, e: Touch.Event, selected: int)
    ensures
      var o := Touch.Run(rows, events, selected);
      Touch.Run(rows, events + [e], selected) == Touch.Step(rows, o.contact, e, o.selected)
  {
    hide Touch.Step;
    var all := events + [e];
    assert all[..|all| - 1] == events && all[|all| - 1] == e;
  }

  /** One touch event, in terms of the recogniser. */
  lemma OneTouch(s: Loop, w: Setting, device: nat, events: seq<Touch.Event>, r: Loop, e: Touch.Event, chance: Chance)
    requires Ready(s, device) && Follows(s, w, device, events, r) && e.kind == 3
    ensures
      var next := Step(r, w, Input(device, e, chance));
      if TapAt(RowsOf(s, w), events, e) then
        exists lifted: Loop ::
          Follows(s, w, device, events + [e], lifted) && lifted.stack != [] && next == Activate(lifted, w, chance)
      else Follows(s, w, device, events + [e], next)
  {
    hide Activate, Touch.Step, Touch.PageRows, Touch.Primary, Touch.Tapping, Visible, Step, Seen, Touch.Run;
    var rows := RowsOf(s, w);
    Touch.TapIff(rows, events, e, s.selected);
    assert RowsOf(r, w) == rows;
    TouchStep(r, w, device, e, chance);
    SeenFollows(s, w, device, events, r, e);
  }

  /** As long as no tap is among them, touches leave the loop on its page, with the recogniser's contact. */
  lemma {:induction false} TouchesFollow(s: Loop, w: Setting, device: nat, events: seq<Touch.Event>, chance: Chance)
    requires Ready(s, device) && Absolute(events) && NoTap(RowsOf(s, w), events)
    ensures Follows(s, w, device, events, Run(s, w, Touches(device, events, chance)))
    decreases |events|
  {
    hide Step, TapAt, Touch.Step, RowsOf;
    if events == [] {
      assert s.contacts[device := Touch.RESET] == s.contacts;
    } else {
      var before, e := events[..|events| - 1], events[|events| - 1];
      assert before + [e] == events;
      assert forall i :: 0 <= i < |before| ==> before[..i] == events[..i] && before[i] == events[i];
      TouchesFollow(s, w, device, before, chance);
      var hs := Touches(device, events, chance);
      assert hs[..|hs| - 1] == Touches(device, before, chance) && hs[|hs| - 1] == Input(device, e, chance);
      OneTouch(s, w, device, before, Run(s, w, Touches(device, before, chance)), e, chance);
    }
  }

  /**
   * On one page, after any touches without a tap, the next touch event activates an entry exactly if it completes a
   * tap, and then the entry whose card was under the finger at every position of it; otherwise page and markers stay.
   */
  lemma TapActivates(s: Loop, w: Setting, device: nat, events: seq<Touch.Event>, e: Touch.Event, chance: Chance)
    requires Ready(s, device) && Absolute(events) && NoTap(RowsOf(s, w), events) && e.kind == 3
    ensures
      var next := Step(Run(s, w, Touches(device, events, chance)), w, Input(device, e, chance));
      if TapAt(RowsOf(s, w), events, e) then
        exists lifted: Loop ::
          && lifted.stack == s.stack && lifted.markers == s.markers && next == Activate(lifted, w, chance)
          && OnCard(Top(s).title, Count(Top(s), w.rt), lifted.selected, events)
      else next.stack == s.stack && next.markers == s.markers
  {
    hide Step, Activate, TapAt, Touch.Step, Touch.Run, RowsOf, OnCard;
    TouchesFollow(s, w, device, events, chance);
    var r := Run(s, w, Touches(device, events, chance));
    OneTouch(s, w, device, events, r, e, chance);
    if TapAt(RowsOf(s, w), events, e) {
      var lifted: Loop :|
        Follows(s, w, device, events + [e], lifted) && lifted.stack != []
        && Step(r, w, Input(device, e, chance)) == Activate(lifted, w, chance);
      TapCard(s, w, events, e);
    }
  }

  /** The row exists, and every position of the contact lies on its card. */
  ghost predicate OnCard(title: string, count: nat, row: int, events: seq<Touch.Event>) {
    && 0 <= row < count && Layout(title, count).Some? && Touch.Contacted(events).Some?
    && var p := Touch.Positions(Touch.Contacted(events).value);
       p != [] && forall i :: 0 <= i < |p| ==> Card(Layout(title, count).value, row)(p[i].0, p[i].1)
  }

  lemma TapCard(s: Loop, w: Setting, events: seq<Touch.Event>, e: Touch.Event)
    requires s.stack != [] && TapAt(RowsOf(s, w), events, e)
    ensures
      var row := Touch.Run(RowsOf(s, w), events + [e], s.selected).selected;
      OnCard(Top(s).title, Count(Top(s), w.rt), row, events)
  {
    hide Touch.PageRows, Touch.Primary, Touch.Tapping, Touch.Contacted, Touch.Positions, Card, Layout, Visible;
    var rows := RowsOf(s, w);
    var all := events + [e];
    assert all[..|all| - 1] == events && all[|all| - 1] == e;
    Touch.TapIff(rows, events, e, s.selected);
    var o := Touch.Run(rows, events, s.selected);
    LiftKeeps(rows, o.contact, e, o.selected);
    Touch.TapOnCard(Top(s).title, Count(Top(s), w.rt), w.shown, events, e, s.selected);
  }

  lemma LiftKeeps(rows: Touch.Rows, c: Touch.Contact, e: Touch.Event, selected: int)
    requires Touch.Step(rows, c, e, selected).code == 3
    ensures Touch.Step(rows, c, e, selected).selected == selected
  {}
}
