/** What the host side can tell from the marker files of the Pixel Partitioner page, over whole runs. */
module MenuMarkers {
  import opened Wrappers
  import opened Menu
  import opened MenuLoop
  import Touch

  /**
   * The end of a poll answers a pending request of the page: the request is gone, REFRESHED stands exactly if the
   * refresh succeeded and FAILED exactly if it did not. Off the page, and without a request, no marker changes.
   */
  lemma PollAnswers(s: Loop, w: Setting, ok: bool)
    requires s.stack != []
    ensures
      var m := Step(s, w, EndOfPoll(ok)).markers;
      if s.stack[|s.stack| - 1].title == "Pixel Partitioner" && s.markers.request then
        m == Markers(s.markers.ready, false, ok, !ok)
      else m == s.markers
  {}

  /** The result of the last refresh since the page was opened, from the history alone; None off the page. */
  function Answer(s: Loop, w: Setting, hs: seq<Happening>): Option<bool>
    requires s.stack != []
  {
    if hs == [] || !PixelPage(Top(Run(s, w, hs))) then None
    else
      var before, h := Run(s, w, hs[..|hs| - 1]), hs[|hs| - 1];
      if h.EndOfPoll? && PixelPage(Top(before)) && before.markers.request then Some(h.refreshOk)
      else Answer(s, w, hs[..|hs| - 1])
  }

  /** On the page, and the host has asked since the page was opened and the last poll ended. */
  predicate Waiting(s: Loop, w: Setting, hs: seq<Happening>)
    requires s.stack != []
  {
    && hs != [] && PixelPage(Top(Run(s, w, hs)))
    && var h := hs[|hs| - 1];
    (h.HostRequest? || (!h.EndOfPoll? && Waiting(s, w, hs[..|hs| - 1])))
  }

  /** The markers tell what the history says. */
  ghost predicate Tells(s: Loop, answer: Option<bool>, waiting: bool)
    requires s.stack != []
  {
    && s.markers.ready == PixelPage(Top(s))
    && (s.markers.refreshed <==> answer == Some(true))
    && (s.markers.failed <==> answer == Some(false))
    && (PixelPage(Top(s)) ==> (s.markers.request <==> waiting))
  }

  /** Activating an entry clears the markers on the way onto the page and off it, and leaves them alone on it. */
  lemma ActivateMarkers(s: Loop, root: Page, w: Setting, chance: Chance)
    requires Inv(s, root, w)
    ensures
      var r := Activate(s, w, chance);
      && (!PixelPage(Top(s)) && PixelPage(Top(r)) ==> r.markers == Markers(true, false, false, false))
      && (PixelPage(Top(s)) && PixelPage(Top(r)) ==> r.markers == s.markers)
  {
    hide Stacked, Visible, StartSelection, PixelPage;
    var e := SelectedEntry(Top(s), w.rt, s.selected);
    if e.Some? && e.value.submenu.Some? {
      TopNotPixel(s.stack, root, w.rt, s.selected);
    } else if e.Some? && e.value.action == Some(Back) && |s.stack| > 1 {
      StackedPop(s.stack, root, w.rt);
    }
  }

  /** Activation looks at the stack, the selection and the markers alone. */
  lemma InputMarkers(s: Loop, root: Page, w: Setting, d: nat, e: Touch.Event, chance: Chance)
    requires Inv(s, root, w)
    ensures
      var r := Step(s, w, Input(d, e, chance));
      && (!PixelPage(Top(s)) && PixelPage(Top(r)) ==> r.markers == Markers(true, false, false, false))
      && (PixelPage(Top(s)) && PixelPage(Top(r)) ==> r.markers == s.markers)
  {
    if d < |s.contacts| && d < |s.touchscreen| {
      hide OnTouch, OnKey, Inv, PixelPage;
      if s.touchscreen[d] && e.kind == Touch.EV_ABS {
        TouchMarkers(s, root, w, d, e, chance);
      } else {
        KeyMarkers(s, root, w, e, chance);
      }
    }
  }

  lemma KeyMarkers(s: Loop, root: Page, w: Setting, e: Touch.Event, chance: Chance)
    requires Inv(s, root, w)
    ensures
      var r := OnKey(s, w, e, chance);
      && (!PixelPage(Top(s)) && PixelPage(Top(r)) ==> r.markers == Markers(true, false, false, false))
      && (PixelPage(Top(s)) && PixelPage(Top(r)) ==> r.markers == s.markers)
  {
    assert s.stack != [];
    hide Inv, Activate, PixelPage, FloorMod, Visible;
    if MenuKey(e) && e.code == KEY_POWER {
      TouchedKeeps(s, root, w);
      ActivateMarkers(s.(canceled := true, elapsed := 0), root, w, chance);
    }
  }

  lemma TouchedKeeps(s: Loop, root: Page, w: Setting)
    requires Inv(s, root, w)
    ensures Inv(s.(canceled := true, elapsed := 0), root, w)
  {
    hide Stacked, Visible, PixelPage;
  }

  lemma TouchMarkers(s: Loop, root: Page, w: Setting, d: nat, e: Touch.Event, chance: Chance)
    requires Inv(s, root, w) && d < |s.contacts| && e.kind == Touch.EV_ABS
    ensures
      var r := OnTouch(s, w, d, e, chance);
      && (!PixelPage(Top(s)) && PixelPage(Top(r)) ==> r.markers == Markers(true, false, false, false))
      && (PixelPage(Top(s)) && PixelPage(Top(r)) ==> r.markers == s.markers)
  {
    hide Stacked, Visible, PixelPage;
    var rows := Touch.PageRows(Top(s).title, Count(Top(s), w.rt), w.shown);
    RowsInRange(Top(s), w);
    TouchSelects(rows, s.contacts[d], e, s.selected, Count(Top(s), w.rt));
    var o := Touch.Step(rows, s.contacts[d], e, s.selected);
    hide Touch.Step, Touch.PageRows, Activate;
    var moved := s.(contacts := s.contacts[d := o.contact], selected := o.selected, elapsed := 0,
                    canceled := s.canceled || TouchDown(e));
    if o.code == 3 {
      assert Inv(moved, root, w);
      ActivateMarkers(moved, root, w, chance);
    }
  }

  lemma Ready(s: Loop, root: Page, w: Setting)
    requires Inv(s, root, w)
    ensures s.markers.ready == PixelPage(Top(s))
    ensures !PixelPage(Top(s)) ==> !s.markers.refreshed && !s.markers.failed
  {
    hide Stacked, PixelPage;
  }

  lemma QuietSteps(s: Loop, w: Setting, h: Happening)
    requires s.stack != [] && !h.Input?
    ensures
      var r := Step(s, w, h);
      && r.stack == s.stack
      && (h.Opened? ==> r.markers == s.markers)
      && (h.HostRequest? ==> r.markers == s.markers.(request := true))
  {}

  /**
   * After every run: READY stands exactly on the page; REFRESHED exactly if the last refresh since the page was
   * opened succeeded, FAILED exactly if it did not; and on the page a request stands exactly if the host has asked
   * since then and no poll has ended.
   */
  lemma {:induction false} MarkersTell(root: Page, w: Setting, devices: nat, hs: seq<Happening>)
    requires GoodRoot(root, w.rt)
    ensures
      var s := Start(root, w, devices);
      Tells(Run(s, w, hs), Answer(s, w, hs), Waiting(s, w, hs))
  {
    hide GoodRoot, Inv, Step;
    var s := Start(root, w, devices);
    RunKeeps(root, w, devices, hs);
    if hs == [] {
      StartTells(root, w, devices);
    } else {
      var fewer, h := hs[..|hs| - 1], hs[|hs| - 1];
      MarkersTell(root, w, devices, fewer);
      RunKeeps(root, w, devices, fewer);
      var before := Run(s, w, fewer);
      Ready(before, root, w);
      Ready(Run(s, w, hs), root, w);
      if h.Input? {
        InputMarkers(before, root, w, h.device, h.event, h.chance);
      } else {
        QuietSteps(before, w, h);
        if h.EndOfPoll? {
          PollAnswers(before, w, h.refreshOk);
        }
      }
    }
  }

  lemma StartTells(root: Page, w: Setting, devices: nat)
    requires GoodRoot(root, w.rt)
    ensures Tells(Start(root, w, devices), None, false)
  {
    hide StartSelection, Good;
  }
}
