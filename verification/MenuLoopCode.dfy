/** The run loop as it is coded: a page stack in an array, touch states in place, marker files as fields. */
module MenuLoopCode {
  import opened Wrappers
  import opened Menu
  import opened MenuLoop
  import Touch

  const INPUT_COUNT: nat := 32

  class RunLoop {
    const world: Setting
    const pageStack: array<Page>
    const touchStates: array<Touch.Contact>
    const touchInputs: array<bool>
    var stackDepth: nat
    var page: Page
    var selected: int
    var elapsedMs: nat
    var timeoutFired: bool
    var autobootCanceled: bool
    var markers: Markers
    ghost var asked: bool
    ghost var timeouts: nat
    ghost var served: seq<bool>

    ghost predicate Valid()
      reads this, pageStack
    {
      && pageStack.Length == STACK_DEPTH && touchStates.Length == INPUT_COUNT && touchInputs.Length == INPUT_COUNT
      && 1 <= stackDepth <= STACK_DEPTH && page == pageStack[stackDepth - 1]
    }

    /** The state the specification speaks about. */
    ghost function State(): (s: Loop)
      requires Valid()
      reads this, pageStack, touchStates, touchInputs
      ensures s.stack != [] && Top(s) == page
    {
      Loop(pageStack[..stackDepth], selected, elapsedMs, timeoutFired, autobootCanceled, markers, asked,
           touchStates[..], touchInputs[..], timeouts, served)
    }

    /** The start of `tfb_run_menu`. */
    constructor (root: Page, w: Setting)
      ensures Valid() && State() == Start(root, w, INPUT_COUNT) && world == w
      ensures fresh(pageStack) && fresh(touchStates) && fresh(touchInputs)
    {
      world := w;
      pageStack := new Page[STACK_DEPTH](_ => root);
      touchStates := new Touch.Contact[INPUT_COUNT](_ => Touch.RESET);
      touchInputs := new bool[INPUT_COUNT](_ => false);
      stackDepth, page := 1, root;
      elapsedMs, timeoutFired, autobootCanceled, markers := 0, false, false, NO_MARKERS;
      asked, timeouts, served := false, 0, [];
      var start := InitialSelection(root, w.rt);
      selected := start;
      new;
      assert pageStack[..1] == [root];
    }

    /** `tfb_pixel_partitioner_deactivate`. */
    method Deactivate()
      requires Valid()
      modifies this`markers, this`asked
      ensures State() == old(State()).(markers := NO_MARKERS, asked := false)
    {
      markers := NO_MARKERS;
      asked := false;
    }

    /** `tfb_pixel_partitioner_activate`. */
    method ActivatePixel(chance: Chance) returns (ok: bool)
      requires Valid()
      modifies this`markers, this`asked
      ensures ok == (chance.nodes && chance.marker)
      ensures State() == old(State()).(markers := NO_MARKERS.(ready := ok), asked := false)
    {
      Deactivate();
      if !chance.nodes {
        return false;
      }
      if !chance.marker {
        return false;
      }
      markers := markers.(ready := true);
      ok := true;
    }

    /** `tfb_menu_activate_selected`. */
    method ActivateSelected(chance: Chance)
      requires Valid()
      modifies this, pageStack
      ensures Valid() && State() == Activate(old(State()), world, chance)
    {
      hide Visible, StartSelection, PixelPage;
      var found := VisibleEntry(page, world.rt, selected);
      if found.None? {
        return;
      }
      var entry := found.value;
      if entry.submenu.Some? {
        OpenSubmenu(entry.submenu.value, chance);
      } else if entry.action == Some(Back) {
        CloseSubmenu();
      }
    }

    method OpenSubmenu(submenu: Page, chance: Chance)
      requires Valid()
      modifies this, pageStack
      ensures Valid() && State() == Enter(old(State()), world, submenu, chance)
    {
      hide StartSelection;
      if stackDepth >= STACK_DEPTH {
        return;
      }
      if submenu.title == "Pixel Partitioner" {
        var ok := ActivatePixel(chance);
        if !ok {
          return;
        }
      }
      Push(submenu);
      elapsedMs := 0;
      timeoutFired := false;
    }

    method Push(submenu: Page)
      requires Valid() && stackDepth < STACK_DEPTH
      modifies this`stackDepth, this`page, this`selected, pageStack
      ensures Valid()
      ensures State() == old(State()).(stack := old(State()).stack + [submenu],
                                       selected := StartSelection(submenu, world.rt))
    {
      hide StartSelection;
      pageStack[stackDepth] := submenu;
      stackDepth := stackDepth + 1;
      page := submenu;
      selected := InitialSelection(page, world.rt);
      assert pageStack[..stackDepth] == old(pageStack[..stackDepth]) + [submenu];
    }

    method Pop()
      requires Valid() && stackDepth > 1
      modifies this`stackDepth, this`page, this`selected
      ensures Valid()
      ensures
        var below := old(State()).stack[..|old(State()).stack| - 1];
        State() == old(State()).(stack := below, selected := StartSelection(below[|below| - 1], world.rt))
    {
      hide StartSelection;
      stackDepth := stackDepth - 1;
      page := pageStack[stackDepth - 1];
      selected := InitialSelection(page, world.rt);
      assert pageStack[..stackDepth] == old(pageStack[..stackDepth])[..stackDepth];
    }

    method CloseSubmenu()
      requires Valid()
      modifies this
      ensures Valid() && State() == Leave(old(State()), world)
    {
      hide StartSelection;
      if stackDepth > 1 {
        if page.title == "Pixel Partitioner" {
          Deactivate();
        }
        Pop();
      }
    }

    /** An input node was opened, or opened again after it failed. */
    method OpenInput(device: nat, touchscreen: bool)
      requires Valid() && device < INPUT_COUNT
      modifies touchStates, touchInputs
      ensures Valid() && State() == Step(old(State()), world, Opened(device, touchscreen))
    {
      touchInputs[device] := touchscreen;
      Touch.ResetState(touchStates, device);
    }

    /** One event read from an input node. */
    method HandleEvent(device: nat, event: Touch.Event, chance: Chance)
      requires Valid() && device < INPUT_COUNT
      modifies this, pageStack, touchStates
      ensures Valid() && State() == Step(old(State()), world, Input(device, event, chance))
    {
      hide Activate, Visible, FloorMod, OnKey;
      if touchInputs[device] && event.kind == Touch.EV_ABS {
        HandleTouch(device, event, chance);
      } else {
        HandleKey(event, chance);
      }
    }

    method HandleTouch(device: nat, event: Touch.Event, chance: Chance)
      requires Valid() && device < INPUT_COUNT && event.kind == Touch.EV_ABS
      modifies this, pageStack, touchStates
      ensures Valid() && State() == OnTouch(old(State()), world, device, event, chance)
    {
      hide Activate, Visible;
      if event.code == Touch.ABS_MT_TRACKING_ID && event.value >= 0 {
        autobootCanceled := true;
        elapsedMs := 0;
      }
      var count := VisibleCount(page, world.rt);
      var code, moved := Touch.ProcessEvent(touchStates, device, page.title, count, world.shown, event, selected);
      hide Touch.Step, Touch.PageRows;
      selected := moved;
      if code != 0 {
        elapsedMs := 0;
      }
      if code == 3 {
        ActivateSelected(chance);
      }
    }

    method HandleKey(event: Touch.Event, chance: Chance)
      requires Valid()
      modifies this, pageStack
      ensures Valid() && State() == OnKey(old(State()), world, event, chance)
    {
      hide Activate, Visible, FloorMod, DeviceMove;
      if event.kind != Touch.EV_KEY || event.value != 1 {
        return;
      }
      if event.code == KEY_VOLUMEUP || event.code == KEY_VOLUMEDOWN || event.code == KEY_POWER {
        autobootCanceled := true;
        elapsedMs := 0;
      }
      if event.code == KEY_VOLUMEUP {
        selected := MoveSelectionWrap(page, world.rt, selected, -1);
        return;
      }
      if event.code == KEY_VOLUMEDOWN {
        selected := MoveSelectionWrap(page, world.rt, selected, 1);
        return;
      }
      if event.code != KEY_POWER {
        return;
      }
      ActivateSelected(chance);
    }

    /** The end of a poll: the autoboot clock, then the Pixel Partitioner's refresh requests. */
    method FinishPoll(refreshOk: bool)
      requires Valid()
      modifies this
      ensures Valid() && State() == Step(old(State()), world, EndOfPoll(refreshOk))
      ensures old(page.title == "Pixel Partitioner" && markers.request) ==>
        && !markers.request && markers.ready == old(markers.ready)
        && (markers.refreshed <==> refreshOk) && (markers.failed <==> !refreshOk)
      ensures !old(page.title == "Pixel Partitioner" && markers.request) ==> markers == old(markers)
    {
      hide PixelPage;
      if page.timeoutMs != 0 && !timeoutFired && !autobootCanceled {
        if elapsedMs + POLL_MS >= page.timeoutMs {
          elapsedMs := page.timeoutMs;
          timeoutFired := true;
          timeouts := timeouts + 1;
        } else {
          elapsedMs := elapsedMs + POLL_MS;
        }
      }
      assert State() == CheckTimeout(old(State()));
      ServeRequest(refreshOk);
    }

    method ServeRequest(refreshOk: bool)
      requires Valid()
      modifies this`markers, this`served
      ensures Valid() && State() == Serve(old(State()), refreshOk)
      ensures old(page.title == "Pixel Partitioner" && markers.request) ==>
        && !markers.request && markers.ready == old(markers.ready)
        && (markers.refreshed <==> refreshOk) && (markers.failed <==> !refreshOk)
      ensures !old(page.title == "Pixel Partitioner" && markers.request) ==> markers == old(markers)
    {
      if page.title != "Pixel Partitioner" {
        return;
      }
      if !markers.request {
        return;
      }
      markers := markers.(request := false, refreshed := false, failed := false);
      served := served + [asked];
      if refreshOk {
        markers := markers.(refreshed := true);
      } else {
        markers := markers.(failed := true);
      }
    }
  }

  method InitialSelection(page: Page, rt: RuntimeState) returns (selected: nat)
    ensures selected == StartSelection(page, rt)
  {
    hide Visible;
    var default := DefaultIndex(page);
    if default.None? {
      return 0;
    }
    selected := DefaultSelectionScan(page, default.value, rt);
  }
}
