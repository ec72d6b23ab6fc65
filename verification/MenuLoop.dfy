/**
 * The boot menu's run loop as steps over the page stack, the selection, the autoboot clock, the marker files
 * of the Pixel Partitioner page and the touch contacts, with the safety of every run.
 */
module MenuLoop {
  import opened Wrappers
  import opened Menu
  import Touch

  const STACK_DEPTH: nat := 4
  const POLL_MS: nat := 25
  const KEY_VOLUMEDOWN: nat := 114
  const KEY_VOLUMEUP: nat := 115
  const KEY_POWER: nat := 116

  /** The marker files shared with the host side: page open, refresh requested, refresh done, refresh failed. */
  datatype Markers = Markers(ready: bool, request: bool, refreshed: bool, failed: bool)

  const NO_MARKERS: Markers := Markers(false, false, false, false)

  /** Whether realizing the block nodes and writing the READY marker succeed. */
  datatype Chance = Chance(nodes: bool, marker: bool)

  /** What does not change while the menu runs. */
  datatype Setting = Setting(rt: RuntimeState, shown: bool)

  /**
   * The loop's state. `asked` says whether READY was published when the pending request was written;
   * `timeouts` counts executed timeout actions and `served` records `asked` for every refresh carried out.
   */
  datatype Loop = Loop(stack: seq<Page>, selected: int, elapsed: nat, fired: bool, canceled: bool,
                       markers: Markers, asked: bool, contacts: seq<Touch.Contact>, touchscreen: seq<bool>,
                       timeouts: nat, served: seq<bool>)

  datatype Happening =
    | Opened(device: nat, touchscreen: bool)
    | Input(device: nat, event: Touch.Event, chance: Chance)
    | HostRequest
    | EndOfPoll(refreshOk: bool)

  predicate PixelPage(p: Page) {
    p.title == "Pixel Partitioner"
  }

  function Top(s: Loop): Page
    requires s.stack != []
  {
    s.stack[|s.stack| - 1]
  }

  function Count(p: Page, rt: RuntimeState): nat {
    |Visible(p.entries, rt)|
  }

  /** `tfb_menu_default_selection` with the generated default index. */
  function StartSelection(p: Page, rt: RuntimeState): nat {
    match DefaultIndex(p) case None => 0 case Some(d) => DeviceDefault(p.entries, d, rt)
  }

  function Start(root: Page, w: Setting, devices: nat): (s: Loop)
    ensures s.stack == [root]
  {
    Loop([root], StartSelection(root, w.rt), 0, false, false, NO_MARKERS, false, seq(devices, _ => Touch.RESET),
         seq(devices, _ => false), 0, [])
  }

  // ---- activation ----

  function Enter(s: Loop, w: Setting, p: Page, chance: Chance): (r: Loop)
    ensures s.stack != [] ==> r.stack != []
  {
    if |s.stack| >= STACK_DEPTH then s
    else if PixelPage(p) && !(chance.nodes && chance.marker) then s.(markers := NO_MARKERS, asked := false)
    else
      var opened_ := if PixelPage(p) then s.(markers := NO_MARKERS.(ready := true), asked := false) else s;
      opened_.(stack := s.stack + [p], selected := StartSelection(p, w.rt), elapsed := 0, fired := false)
  }

  function Leave(s: Loop, w: Setting): (r: Loop)
    requires s.stack != []
    ensures r.stack != []
  {
    if |s.stack| == 1 then s
    else
      var closed := if PixelPage(Top(s)) then s.(markers := NO_MARKERS, asked := false) else s;
      var below := s.stack[..|s.stack| - 1];
      closed.(stack := below, selected := StartSelection(below[|below| - 1], w.rt))
  }

  /** `tfb_menu_activate_selected`; actions other than Back return with the loop's state as it was, or not at all. */
  function Activate(s: Loop, w: Setting, chance: Chance): (r: Loop)
    requires s.stack != []
    ensures r.stack != []
  {
    match SelectedEntry(Top(s), w.rt, s.selected)
    case None => s
    case Some(e) =>
      if e.submenu.Some? then Enter(s, w, e.submenu.value, chance)
      else if e.action == Some(Back) then Leave(s, w)
      else s
  }

  // ---- events ----

  predicate TouchDown(e: Touch.Event) {
    e.kind == Touch.EV_ABS && e.code == Touch.ABS_MT_TRACKING_ID && e.value >= 0
  }

  predicate MenuKey(e: Touch.Event) {
    e.kind == Touch.EV_KEY && e.value == 1 && (e.code == KEY_VOLUMEUP || e.code == KEY_VOLUMEDOWN
                                               || e.code == KEY_POWER)
  }

  function OnTouch(s: Loop, w: Setting, device: nat, e: Touch.Event, chance: Chance): (r: Loop)
    requires s.stack != [] && device < |s.contacts|
    ensures r.stack != []
  {
    var down := if TouchDown(e) then s.(canceled := true, elapsed := 0) else s;
    var o := Touch.Step(Touch.PageRows(Top(s).title, Count(Top(s), w.rt), w.shown), s.contacts[device], e, s.selected);
    var moved := down.(contacts := s.contacts[device := o.contact], selected := o.selected,
                       elapsed := if o.code != 0 then 0 else down.elapsed);
    if o.code == 3 then Activate(moved, w, chance) else moved
  }

  function OnKey(s: Loop, w: Setting, e: Touch.Event, chance: Chance): (r: Loop)
    requires s.stack != []
    ensures r.stack != []
  {
    if !MenuKey(e) then s
    else
      var touched := s.(canceled := true, elapsed := 0);
      if e.code == KEY_VOLUMEUP then touched.(selected := DeviceMove(Count(Top(s), w.rt), s.selected, -1))
      else if e.code == KEY_VOLUMEDOWN then touched.(selected := DeviceMove(Count(Top(s), w.rt), s.selected, 1))
      else Activate(touched, w, chance)
  }

  // ---- the end of a poll ----

  function CheckTimeout(s: Loop): (r: Loop)
    requires s.stack != []
    ensures r.stack != []
  {
    var timeout := Top(s).timeoutMs;
    if timeout == 0 || s.fired || s.canceled then s
    else if s.elapsed + POLL_MS >= timeout then s.(elapsed := timeout, fired := true, timeouts := s.timeouts + 1)
    else s.(elapsed := s.elapsed + POLL_MS)
  }

  /** `tfb_pixel_partitioner_service`. */
  function Serve(s: Loop, refreshOk: bool): (r: Loop)
    requires s.stack != []
    ensures r.stack != []
  {
    if !PixelPage(Top(s)) || !s.markers.request then s
    else s.(markers := Markers(s.markers.ready, false, refreshOk, !refreshOk), served := s.served + [s.asked])
  }

  function Step(s: Loop, w: Setting, h: Happening): (r: Loop)
    requires s.stack != []
    ensures r.stack != []
  {
    match h
    case Opened(d, touchscreen) =>
      if d < |s.contacts| && d < |s.touchscreen| then
        s.(contacts := s.contacts[d := Touch.RESET], touchscreen := s.touchscreen[d := touchscreen])
      else s
    case Input(d, e, chance) =>
      if d >= |s.contacts| || d >= |s.touchscreen| then s
      else if s.touchscreen[d] && e.kind == Touch.EV_ABS then OnTouch(s, w, d, e, chance)
      else OnKey(s, w, e, chance)
    case HostRequest => s.(markers := s.markers.(request := true), asked := s.markers.ready)
    case EndOfPoll(refreshOk) => Serve(CheckTimeout(s), refreshOk)
  }

  /** The state after a run. */
  function Run(s: Loop, w: Setting, hs: seq<Happening>): (r: Loop)
    requires s.stack != []
    ensures r.stack != []
  {
    if hs == [] then s
    else
      var before := Run(s, w, hs[..|hs| - 1]);
      Step(before, w, hs[|hs| - 1])
  }

  lemma {:induction false} RunAppend(s: Loop, w: Setting, a: seq<Happening>, b: seq<Happening>)
    requires s.stack != []
    ensures Run(s, w, a + b) == Run(Run(s, w, a), w, b)
  {
    hide Step;
    if b == [] {
      assert a + b == a;
    } else {
      var all, fewer := a + b, b[..|b| - 1];
      assert all[..|all| - 1] == a + fewer && all[|all| - 1] == b[|b| - 1];
      RunAppend(s, w, a, fewer);
    }
  }

  // ---- what profiles guarantee, and what the loop keeps ----

  /** Every page has a visible entry, and the Pixel Partitioner page opens no further page. */
  ghost predicate Good(p: Page, rt: RuntimeState)
    decreases p, 0
  {
    Visible(p.entries, rt) != [] && GoodEntries(p.entries, PixelPage(p), rt)
  }

  ghost predicate GoodEntries(es: seq<Entry>, pixel: bool, rt: RuntimeState)
    decreases es, 0
  {
    es == [] || (GoodEntry(es[0], pixel, rt) && GoodEntries(es[1..], pixel, rt))
  }

  ghost predicate GoodEntry(e: Entry, pixel: bool, rt: RuntimeState)
    decreases e, 1
  {
    e.submenu.Some? ==> !pixel && Good(e.submenu.value, rt)
  }

  /** A profile the loop may start with: good, and not itself the scoped page. */
  ghost predicate GoodRoot(root: Page, rt: RuntimeState) {
    Good(root, rt) && !PixelPage(root)
  }

  ghost predicate Opens(p: Page, q: Page, rt: RuntimeState) {
    exists i :: 0 <= i < |Visible(p.entries, rt)| && Visible(p.entries, rt)[i].submenu == Some(q)
  }

  /** The pages on the stack, from the root down. */
  ghost predicate Stacked(stack: seq<Page>, root: Page, rt: RuntimeState) {
    && 1 <= |stack| <= STACK_DEPTH && stack[0] == root
    && (forall i :: 0 <= i < |stack| - 1 ==> Opens(stack[i], stack[i + 1], rt))
    && (forall i :: 0 <= i < |stack| ==> Good(stack[i], rt) && i + Levels(stack[i]) <= Levels(root))
    && (forall i :: 0 <= i < |stack| - 1 ==> !PixelPage(stack[i]))
  }

  ghost predicate Selecting(s: Loop, rt: RuntimeState)
    requires s.stack != []
  {
    0 <= s.selected < Count(Top(s), rt)
  }

  /** READY exists exactly on the Pixel Partitioner page, and a request pending there was made there. */
  ghost predicate Scoped(s: Loop)
    requires s.stack != []
  {
    && s.markers.ready == PixelPage(Top(s))
    && (PixelPage(Top(s)) && s.markers.request ==> s.asked)
    && (PixelPage(Top(s)) || (!s.markers.refreshed && !s.markers.failed))
    && forall i :: 0 <= i < |s.served| ==> s.served[i]
  }

  /** Autoboot: one firing at most, and whatever could re-arm it has cancelled it first. */
  ghost predicate Armed(s: Loop) {
    && s.timeouts <= 1
    && (s.timeouts == 1 && !s.fired ==> s.canceled)
    && (forall d :: 0 <= d < |s.contacts| && s.contacts[d].active ==> s.canceled)
  }

  ghost predicate Inv(s: Loop, root: Page, w: Setting) {
    s.stack != [] && Stacked(s.stack, root, w.rt) && Selecting(s, w.rt) && Scoped(s) && Armed(s)
  }

  // ---- preservation ----

  lemma StartInRange(p: Page, rt: RuntimeState)
    requires Visible(p.entries, rt) != []
    ensures StartSelection(p, rt) < Count(p, rt)
  {
    hide ConditionVisible;
    var d := DefaultIndex(p);
    if d.Some? && ConditionVisible(p.entries[d.value].condition, rt) {
      VisiblePrefix(p.entries, d.value + 1, rt);
      VisibleSnoc(p.entries, d.value, rt);
    }
  }

  /** A page of distinct entries opens on its default entry if that is visible, and otherwise on the first one. */
  lemma OpensOnDefault(p: Page, rt: RuntimeState)
    requires forall j, k :: 0 <= j < k < |p.entries| ==> p.entries[j].id != p.entries[k].id
    requires Visible(p.entries, rt) != []
    ensures
      var es, start := Visible(p.entries, rt), StartSelection(p, rt);
      && start < |es|
      && (es[start].id == p.defaultEntry || (start == 0 && forall i :: 0 <= i < |es| ==> es[i].id != p.defaultEntry))
  {
    hide Visible, ConditionVisible, DeviceDefault;
    if DefaultIndex(p).Some? {
      DefaultsAgree(p, rt);
    } else {
      NoneNamed(p.entries, p.defaultEntry, rt);
    }
  }

  lemma NoneNamed(es: seq<Entry>, id: string, rt: RuntimeState)
    requires Position(es, id).None?
    ensures forall i :: 0 <= i < |Visible(es, rt)| ==> Visible(es, rt)[i].id != id
  {
    hide Visible, ConditionVisible;
    forall i | 0 <= i < |Visible(es, rt)|
      ensures Visible(es, rt)[i].id != id
    {
      VisibleFrom(es, rt, i);
    }
  }

  lemma {:induction false} GoodSubmenu(es: seq<Entry>, pixel: bool, rt: RuntimeState, i: nat)
    requires GoodEntries(es, pixel, rt) && i < |Visible(es, rt)| && Visible(es, rt)[i].submenu.Some?
    ensures !pixel && Good(Visible(es, rt)[i].submenu.value, rt)
    ensures Levels(Visible(es, rt)[i].submenu.value) <= EntriesLevels(es)
  {
    hide ConditionVisible, Good;
    if ConditionVisible(es[0].condition, rt) {
      if i > 0 {
        GoodSubmenu(es[1..], pixel, rt, i - 1);
      }
    } else {
      GoodSubmenu(es[1..], pixel, rt, i);
    }
  }

  /** A visible submenu of the top page may be stacked on it, if there is room. */
  lemma StackedPush(stack: seq<Page>, root: Page, rt: RuntimeState, i: nat)
    requires Stacked(stack, root, rt)
    requires
      var es := Visible(stack[|stack| - 1].entries, rt);
      i < |es| && es[i].submenu.Some?
    ensures
      var p := Visible(stack[|stack| - 1].entries, rt)[i].submenu.value;
      && (|stack| < STACK_DEPTH ==> Stacked(stack + [p], root, rt)) && Good(p, rt)
      && |stack| + Levels(p) <= Levels(root) && Levels(p) > 0
  {
    hide Visible, ConditionVisible;
    var top := stack[|stack| - 1];
    var p := Visible(top.entries, rt)[i].submenu.value;
    GoodSubmenu(top.entries, PixelPage(top), rt, i);
    hide Good;
    assert Opens(top, p, rt);
    hide Opens, PixelPage;
    assert Levels(top) == 1 + EntriesLevels(top.entries);
    hide Levels, EntriesLevels;
    var more := stack + [p];
    forall j | 0 <= j < |more| - 1
      ensures Opens(more[j], more[j + 1], rt) && !PixelPage(more[j])
    {}
  }

  lemma StackedPop(stack: seq<Page>, root: Page, rt: RuntimeState)
    requires Stacked(stack, root, rt) && |stack| > 1
    ensures Stacked(stack[..|stack| - 1], root, rt)
    ensures Visible(stack[|stack| - 2].entries, rt) != [] && !PixelPage(stack[|stack| - 2])
  {
    hide Opens, Levels, PixelPage;
    assert Good(stack[|stack| - 2], rt);
  }

  lemma ActivateKeeps(s: Loop, root: Page, w: Setting, chance: Chance)
    requires Inv(s, root, w) && s.canceled
    ensures Inv(Activate(s, w, chance), root, w)
    ensures Activate(s, w, chance).canceled && Activate(s, w, chance).timeouts == s.timeouts
  {
    hide Stacked, Visible, Good, StartSelection, PixelPage;
    var e := SelectedEntry(Top(s), w.rt, s.selected);
    if e.Some? {
      if e.value.submenu.Some? {
        StackedPush(s.stack, root, w.rt, s.selected);
        GoodVisible(e.value.submenu.value, w.rt);
        StartInRange(e.value.submenu.value, w.rt);
        TopNotPixel(s.stack, root, w.rt, s.selected);
      } else if e.value.action == Some(Back) && |s.stack| > 1 {
        StackedPop(s.stack, root, w.rt);
        StartInRange(s.stack[|s.stack| - 2], w.rt);
      }
    }
  }

  lemma GoodVisible(p: Page, rt: RuntimeState)
    requires Good(p, rt)
    ensures Visible(p.entries, rt) != []
  {}

  lemma TopNotPixel(stack: seq<Page>, root: Page, rt: RuntimeState, i: nat)
    requires Stacked(stack, root, rt)
    requires
      var es := Visible(stack[|stack| - 1].entries, rt);
      i < |es| && es[i].submenu.Some?
    ensures !PixelPage(stack[|stack| - 1])
  {
    hide Visible, PixelPage;
    var top := stack[|stack| - 1];
    assert Good(top, rt);
    GoodSubmenu(top.entries, PixelPage(top), rt, i);
  }

  /** A position event can only select a row that exists. */
  lemma TouchSelects(rows: Touch.Rows, c: Touch.Contact, e: Touch.Event, selected: int, count: nat)
    requires 0 <= selected < count && forall x, y :: rows(x, y) < count
    ensures 0 <= Touch.Step(rows, c, e, selected).selected < count
    ensures Touch.Step(rows, c, e, selected).contact.active ==> c.active || TouchDown(e)
    ensures Touch.Step(rows, c, e, selected).code == 3 ==> c.active
    ensures e.kind == Touch.EV_ABS ==> Touch.Step(rows, c, e, selected).code != 0
  {}

  lemma RowsInRange(p: Page, w: Setting)
    ensures
      var rows := Touch.PageRows(p.title, Count(p, w.rt), w.shown);
      Count(p, w.rt) > 0 ==> forall x, y :: rows(x, y) < Count(p, w.rt)
  {
    hide Visible;
    var rows := Touch.PageRows(p.title, Count(p, w.rt), w.shown);
    if Count(p, w.rt) > 0 {
      forall x: int, y: int
        ensures rows(x, y) < Count(p, w.rt)
      {
        Touch.RowRange(p.title, Count(p, w.rt), w.shown, x, y);
      }
    }
  }

  lemma OnTouchKeeps(s: Loop, root: Page, w: Setting, device: nat, e: Touch.Event, chance: Chance)
    requires Inv(s, root, w) && device < |s.contacts| && e.kind == Touch.EV_ABS
    ensures Inv(OnTouch(s, w, device, e, chance), root, w)
    ensures OnTouch(s, w, device, e, chance).timeouts == s.timeouts
    ensures s.canceled || TouchDown(e) ==> OnTouch(s, w, device, e, chance).canceled
  {
    hide Stacked, Visible, PixelPage;
    var rows := Touch.PageRows(Top(s).title, Count(Top(s), w.rt), w.shown);
    RowsInRange(Top(s), w);
    TouchSelects(rows, s.contacts[device], e, s.selected, Count(Top(s), w.rt));
    var o := Touch.Step(rows, s.contacts[device], e, s.selected);
    hide Touch.Step, Touch.PageRows, Activate;
    var moved := s.(contacts := s.contacts[device := o.contact], selected := o.selected, elapsed := 0,
                    canceled := s.canceled || TouchDown(e));
    assert Armed(moved) && Inv(moved, root, w);
    if o.code == 3 {
      ActivateKeeps(moved, root, w, chance);
    }
  }

  lemma OnKeyKeeps(s: Loop, root: Page, w: Setting, e: Touch.Event, chance: Chance)
    requires Inv(s, root, w)
    ensures Inv(OnKey(s, w, e, chance), root, w)
    ensures OnKey(s, w, e, chance).timeouts == s.timeouts
    ensures s.canceled || MenuKey(e) ==> OnKey(s, w, e, chance).canceled
  {
    hide Stacked, Visible, Activate, PixelPage, FloorMod;
    if MenuKey(e) && e.code == KEY_POWER {
      ActivateKeeps(s.(canceled := true, elapsed := 0), root, w, chance);
    }
  }

  lemma StepKeeps(s: Loop, root: Page, w: Setting, h: Happening)
    requires Inv(s, root, w)
    ensures Inv(Step(s, w, h), root, w)
    ensures s.canceled ==> Step(s, w, h).canceled && Step(s, w, h).timeouts == s.timeouts
  {
    hide Inv, OnTouch, OnKey, CheckTimeout, Serve;
    match h
    case Input(d, e, chance) =>
      if d < |s.contacts| && d < |s.touchscreen| {
        if s.touchscreen[d] && e.kind == Touch.EV_ABS {
          OnTouchKeeps(s, root, w, d, e, chance);
        } else {
          OnKeyKeeps(s, root, w, e, chance);
        }
      }
    case Opened(d, touchscreen) => OpenedKeeps(s, root, w, d, touchscreen);
    case HostRequest => HostRequestKeeps(s, root, w);
    case EndOfPoll(refreshOk) => EndOfPollKeeps(s, root, w, refreshOk);
  }

  lemma OpenedKeeps(s: Loop, root: Page, w: Setting, d: nat, touchscreen: bool)
    requires Inv(s, root, w)
    ensures Inv(Step(s, w, Opened(d, touchscreen)), root, w)
  {
    hide Stacked, Visible, PixelPage;
  }

  lemma HostRequestKeeps(s: Loop, root: Page, w: Setting)
    requires Inv(s, root, w)
    ensures Inv(Step(s, w, HostRequest), root, w)
  {
    hide Stacked, Visible, PixelPage;
  }

  lemma EndOfPollKeeps(s: Loop, root: Page, w: Setting, refreshOk: bool)
    requires Inv(s, root, w)
    ensures
      var r := Serve(CheckTimeout(s), refreshOk);
      Inv(r, root, w) && (s.canceled ==> r.canceled && r.timeouts == s.timeouts)
  {
    hide Stacked, Visible, PixelPage;
  }

  lemma StartKeeps(root: Page, w: Setting, devices: nat)
    requires GoodRoot(root, w.rt)
    ensures Inv(Start(root, w, devices), root, w)
  {
    hide StartSelection, Visible;
    GoodVisible(root, w.rt);
    StartInRange(root, w.rt);
  }

  // ---- over whole runs ----

  /**
   * In every reachable state: the stack holds one to four pages, each opened by a visible entry of the one
   * below; the selection is a visible entry; READY exists exactly while the current page is the Pixel
   * Partitioner; every refresh carried out was requested while READY existed; and the timeout action has run
   * at most once.
   */
  lemma {:induction false} RunKeeps(root: Page, w: Setting, devices: nat, hs: seq<Happening>)
    requires GoodRoot(root, w.rt)
    ensures Inv(Run(Start(root, w, devices), w, hs), root, w)
  {
    hide Inv, GoodRoot, Step;
    if hs == [] {
      StartKeeps(root, w, devices);
    } else {
      RunKeeps(root, w, devices, hs[..|hs| - 1]);
      StepKeeps(Run(Start(root, w, devices), w, hs[..|hs| - 1]), root, w, hs[|hs| - 1]);
    }
  }

  lemma {:induction false} CanceledKeeps(s: Loop, root: Page, w: Setting, hs: seq<Happening>)
    requires Inv(s, root, w) && s.canceled
    ensures
      var r := Run(s, w, hs);
      Inv(r, root, w) && r.canceled && r.timeouts == s.timeouts
  {
    assert s.stack != [];
    hide Inv, Step;
    if hs != [] {
      CanceledKeeps(s, root, w, hs[..|hs| - 1]);
      StepKeeps(Run(s, w, hs[..|hs| - 1]), root, w, hs[|hs| - 1]);
    }
  }

  /**
   * A happening by which the user takes over: a volume key or the power key going down, or on a touchscreen a finger
   * (keys are of kind 1, with codes 114 to 116; touches of kind 3, with code 0x39 for touching down and lifting).
   */
  predicate Interaction(s: Loop, h: Happening) {
    h.Input? && h.device < |s.contacts| && h.device < |s.touchscreen|
    && (if s.touchscreen[h.device] && h.event.kind == 3 then h.event.code == 0x39 && h.event.value >= 0
        else h.event.kind == 1 && 114 <= h.event.code <= 116 && h.event.value == 1)
  }

  /** From the first interaction on, the timeout action never runs, whatever pages are opened later. */
  lemma NoTimeoutAfter(root: Page, w: Setting, devices: nat, before: seq<Happening>, h: Happening,
                       later: seq<Happening>)
    requires GoodRoot(root, w.rt) && Interaction(Run(Start(root, w, devices), w, before), h)
    ensures
      var s := Start(root, w, devices);
      Run(s, w, before + [h] + later).timeouts == Run(s, w, before).timeouts
  {
    hide Inv, GoodRoot;
    var s := Start(root, w, devices);
    RunKeeps(root, w, devices, before);
    var here := Run(s, w, before);
    InteractionCancels(here, root, w, h);
    hide Step, Interaction, Run;
    RunAppend(s, w, before + [h], later);
    RunAppend(s, w, before, [h]);
    RunOne(here, w, h);
    CanceledKeeps(Step(here, w, h), root, w, later);
  }

  lemma RunOne(s: Loop, w: Setting, h: Happening)
    requires s.stack != []
    ensures Run(s, w, [h]) == Step(s, w, h)
  {
    assert [h][..0] == [];
  }

  lemma InteractionCancels(s: Loop, root: Page, w: Setting, h: Happening)
    requires Inv(s, root, w) && Interaction(s, h)
    ensures Inv(Step(s, w, h), root, w) && Step(s, w, h).canceled && Step(s, w, h).timeouts == s.timeouts
  {
    hide Inv, OnTouch, OnKey;
    StepKeeps(s, root, w, h);
    if s.touchscreen[h.device] && h.event.kind == Touch.EV_ABS {
      OnTouchKeeps(s, root, w, h.device, h.event, h.chance);
    } else {
      OnKeyKeeps(s, root, w, h.event, h.chance);
    }
  }

  /** The user has taken over at some point of the run. */
  predicate TakenOver(s: Loop, w: Setting, hs: seq<Happening>)
    requires s.stack != []
  {
    && hs != []
    && var fewer := hs[..|hs| - 1];
    TakenOver(s, w, fewer) || Interaction(Run(s, w, fewer), hs[|hs| - 1])
  }

  /** The timeout is cancelled exactly when the user has taken over: by nothing else, and for good. */
  lemma {:induction false} CanceledIff(root: Page, w: Setting, devices: nat, hs: seq<Happening>)
    ensures Run(Start(root, w, devices), w, hs).canceled <==> TakenOver(Start(root, w, devices), w, hs)
  {
    hide Step, Interaction;
    if hs != [] {
      CanceledIff(root, w, devices, hs[..|hs| - 1]);
      StepCancels(Run(Start(root, w, devices), w, hs[..|hs| - 1]), w, hs[|hs| - 1]);
    }
  }

  lemma StepCancels(s: Loop, w: Setting, h: Happening)
    requires s.stack != []
    ensures Step(s, w, h).canceled <==> s.canceled || Interaction(s, h)
  {
    hide OnTouch, OnKey, PixelPage;
    if h.Input? && h.device < |s.contacts| && h.device < |s.touchscreen| {
      if s.touchscreen[h.device] && h.event.kind == 3 {
        TouchCancels(s, w, h.device, h.event, h.chance);
      } else {
        KeyCancels(s, w, h.event, h.chance);
      }
    }
  }

  lemma TouchCancels(s: Loop, w: Setting, device: nat, e: Touch.Event, chance: Chance)
    requires s.stack != [] && device < |s.contacts|
    ensures OnTouch(s, w, device, e, chance).canceled <==> s.canceled || TouchDown(e)
  {
    hide Touch.Step, Touch.PageRows, Visible, StartSelection, PixelPage;
  }

  lemma KeyCancels(s: Loop, w: Setting, e: Touch.Event, chance: Chance)
    requires s.stack != []
    ensures OnKey(s, w, e, chance).canceled <==> s.canceled || MenuKey(e)
  {
    hide Visible, StartSelection, PixelPage, DeviceMove;
  }

  /** `n` polls in which nothing happens. */
  function Quiet(n: nat): (hs: seq<Happening>)
    ensures |hs| == n
  {
    seq(n, _ => EndOfPoll(false))
  }

  /** Left alone, the timeout action runs exactly at the first poll n with 25 n >= the timeout. */
  lemma {:induction false} QuietTimeout(root: Page, w: Setting, devices: nat, n: nat)
    ensures
      var s := Run(Start(root, w, devices), w, Quiet(n));
      && s.stack == [root] && !s.canceled && !s.markers.request
      && s.timeouts == (if root.timeoutMs > 0 && 25 * n >= root.timeoutMs then 1 else 0)
      && s.fired == (s.timeouts == 1)
      && (root.timeoutMs > 0 && !s.fired ==> s.elapsed == 25 * n)
  {
    hide StartSelection, PixelPage, Step;
    if n > 0 {
      QuietTimeout(root, w, devices, n - 1);
      assert Quiet(n)[..n - 1] == Quiet(n - 1);
      assert Quiet(n)[n - 1] == EndOfPoll(false);
      var s := Run(Start(root, w, devices), w, Quiet(n - 1));
      QuietPoll(s, w);
      hide CheckTimeout, Quiet, Start;
    }
  }

  lemma QuietPoll(s: Loop, w: Setting)
    requires s.stack != [] && !s.markers.request
    ensures Step(s, w, EndOfPoll(false)) == CheckTimeout(s)
  {
    hide PixelPage;
  }

  // ---- keys ----

  /**
   * In every reachable state: volume up (115) selects the entry above and from the first one the last, volume down
   * (114) the one below and from the last one the first; power (116) activates the selection. Each cancels the timeout;
   * anything else that is not the press of one of them changes nothing.
   */
  lemma KeyEffects(s: Loop, root: Page, w: Setting, e: Touch.Event, chance: Chance)
    requires Inv(s, root, w)
    ensures
      var n, r := |Visible(s.stack[|s.stack| - 1].entries, w.rt)|, OnKey(s, w, e, chance);
      var canceled := s.(canceled := true, elapsed := 0);
      if e.kind != 1 || e.value != 1 || e.code < 114 || e.code > 116 then r == s
      else if e.code == 115 then r == canceled.(selected := if s.selected == 0 then n - 1 else s.selected - 1)
      else if e.code == 114 then r == canceled.(selected := if s.selected == n - 1 then 0 else s.selected + 1)
      else r == Activate(canceled, w, chance)
  {
    hide Stacked, Visible, Activate, FloorMod;
    var n := Count(Top(s), w.rt);
    if s.selected == 0 {
      ModShift(-1, n, 1);
    } else {
      ModShift(s.selected - 1, n, 0);
    }
    if s.selected == n - 1 {
      ModShift(n, n, -1);
    } else {
      ModShift(s.selected + 1, n, 0);
    }
  }

  // ---- entering and leaving ----

  /**
   * In every reachable state a selected submenu opens, unless its markers fail or four pages are stacked
   * already; profiles of at most four levels never meet the second case.
   */
  lemma SubmenuOpens(s: Loop, root: Page, w: Setting, chance: Chance)
    requires Inv(s, root, w)
    requires SelectedEntry(Top(s), w.rt, s.selected).Some?
      && SelectedEntry(Top(s), w.rt, s.selected).value.submenu.Some?
    ensures
      var p := SelectedEntry(Top(s), w.rt, s.selected).value.submenu.value;
      var refused := |s.stack| == 4 || (p.title == "Pixel Partitioner" && !(chance.nodes && chance.marker));
      var r := Activate(s, w, chance);
      if refused then r.stack == s.stack && r.selected == s.selected && r.elapsed == s.elapsed && r.fired == s.fired
      else r.stack == s.stack + [p] && r.selected == StartSelection(p, w.rt) && r.elapsed == 0 && !r.fired
    ensures |s.stack| == 4 ==> Levels(root) > 4
  {
    assert |s.stack| <= STACK_DEPTH;
    hide Stacked, Visible;
    StackedPush(s.stack, root, w.rt, s.selected);
  }

  /**
   * Leaving undoes entering, up to the selection, which returns to the page's default, and the clock: the
   * stack is the one before, and no Pixel Partitioner marker is left behind that was not there before.
   */
  lemma LeaveUndoesEnter(s: Loop, root: Page, w: Setting, p: Page, chance: Chance)
    requires Inv(s, root, w) && |s.stack| < STACK_DEPTH && !PixelPage(Top(s))
    requires PixelPage(p) ==> chance.nodes && chance.marker
    ensures
      var r := Leave(Enter(s, w, p, chance), w);
      && r.stack == s.stack && r.selected == StartSelection(Top(s), w.rt)
      && r.markers == (if PixelPage(p) then NO_MARKERS else s.markers)
      && r.canceled == s.canceled && r.timeouts == s.timeouts && r.contacts == s.contacts
  {
    hide Stacked, Visible, StartSelection, PixelPage;
    assert (s.stack + [p])[..|s.stack|] == s.stack;
  }
}
