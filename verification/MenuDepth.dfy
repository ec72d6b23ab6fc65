/** Which pages of a profile can be opened at all, and what happens if the scoped page opens another. */
module MenuDepth {
  import opened Wrappers
  import opened Menu
  import opened MenuLoop
  import Touch

  function Digit(k: nat): char
    requires k < 10
  {
    "0123456789"[k]
  }

  /** A profile of k + 1 nested pages, each with one entry. */
  function RawNested(k: nat): RawPage
    requires k < 10
  {
    RawPage(['p', Digit(k)], "Menu", ['e', Digit(k)], 0, None,
            [if k == 0 then RawEntry(['e', Digit(k)], Some(Back), None, Always)
             else RawEntry(['e', Digit(k)], None, Some(RawNested(k - 1)), Always)])
  }

  function Nested(k: nat): Page
    requires k < 10
  {
    Page(['p', Digit(k)], "Menu", ['e', Digit(k)], 0, None,
         [if k == 0 then Entry(['e', Digit(k)], Always, Some(Back), None)
          else Entry(['e', Digit(k)], Always, None, Some(Nested(k - 1)))])
  }

  /** Identifiers of pages further out. */
  ghost predicate Outer(seen: set<string>, k: nat)
    requires k < 10
  {
    forall j: nat :: j <= k ==> ['p', Digit(j)] !in seen && ['e', Digit(j)] !in seen
  }

  lemma {:induction false} NestedParses(k: nat, depth: nat, seen: set<string>)
    requires k < 10 && depth + k <= MAX_DEPTH && Outer(seen, k)
    ensures ParsePage(RawNested(k), depth, seen).Some?
    ensures ParsePage(RawNested(k), depth, seen).value.value == Nested(k)
  {
    hide ParsePage, ParseEntries, ValidId, ValidText, Outer;
    var raw := RawNested(k);
    var pageSeen := seen + {raw.id};
    ValidNames(k);
    NotSeen(seen, k);
    if k > 0 {
      OuterBelow(seen, k);
      NestedParses(k - 1, depth + 1, pageSeen + {raw.entries[0].id});
    }
    OneEntry(raw, depth, seen);
  }

  lemma NotSeen(seen: set<string>, k: nat)
    requires k < 10 && Outer(seen, k)
    ensures ['p', Digit(k)] !in seen && ['e', Digit(k)] !in seen
  {}

  lemma OuterBelow(seen: set<string>, k: nat)
    requires 0 < k < 10 && Outer(seen, k)
    ensures Outer(seen + {['p', Digit(k)]} + {['e', Digit(k)]}, k - 1)
  {
    DigitsDiffer();
    forall j: nat | j <= k - 1
      ensures ['p', Digit(j)] != ['p', Digit(k)] && ['e', Digit(j)] != ['e', Digit(k)]
      ensures ['p', Digit(j)] != ['e', Digit(k)] && ['e', Digit(j)] != ['p', Digit(k)]
    {
      assert ['p', Digit(j)][1] != Digit(k) && ['e', Digit(j)][1] != Digit(k);
    }
  }

  /** A page with one entry, which it opens on. */
  lemma OneEntry(raw: RawPage, depth: nat, seen: set<string>)
    requires depth <= MAX_DEPTH && ValidId(raw.id) && raw.id !in seen && ValidText(raw.title, 48)
    requires ValidId(raw.defaultEntry) && raw.timeoutMs == 0 && raw.timeoutAction.None?
    requires |raw.entries| == 1 && raw.entries[0].id == raw.defaultEntry
    requires ParseEntry(raw.entries[0], depth, seen + {raw.id}).Some?
    ensures ParsePage(raw, depth, seen).Some?
    ensures ParsePage(raw, depth, seen).value.value
            == Page(raw.id, raw.title, raw.defaultEntry, 0, None,
                    [ParseEntry(raw.entries[0], depth, seen + {raw.id}).value.value])
  {
    hide ValidId, ValidText;
    var e := ParseEntry(raw.entries[0], depth, seen + {raw.id}).value;
    assert raw.entries[1..] == [];
    assert ParseEntries(raw.entries[1..], depth, e.seen) == Some(Parsed([], e.seen));
    assert [e.value] + [] == [e.value];
    assert ParseEntries(raw.entries, depth, seen + {raw.id}) == Some(Parsed([e.value], e.seen));
    assert e.value.id == raw.defaultEntry;
    assert Position([e.value], raw.defaultEntry) == Some(0);
  }

  lemma ValidNames(k: nat)
    requires k < 10
    ensures ValidId(['p', Digit(k)]) && ValidId(['e', Digit(k)]) && ValidText("Menu", 48)
    ensures ['p', Digit(k)] != ['e', Digit(k)]
  {
    assert ['p', Digit(k)][0] != ['e', Digit(k)][0];
  }

  lemma DigitsDiffer()
    ensures forall i: nat, j: nat :: i < j < 10 ==> Digit(i) != Digit(j)
  {}

  const POWER: Touch.Event := Touch.Event(Touch.EV_KEY, KEY_POWER, 1)

  function Presses(n: nat): (hs: seq<Happening>)
    ensures |hs| == n
  {
    seq(n, _ => Input(0, POWER, Chance(true, true)))
  }

  lemma NestedEntry(k: nat, rt: RuntimeState)
    requires k < 10
    ensures Visible(Nested(k).entries, rt) == Nested(k).entries && StartSelection(Nested(k), rt) == 0
  {
    var es := Nested(k).entries;
    assert es[1..] == [] && es[..0] == [];
    assert [es[0]] + [] == es;
  }

  /**
   * The parser accepts a profile of five levels, but its fifth page cannot be opened: the fourth power press
   * meets the depth limit, and so does every one after it.
   */
  lemma {:induction false} FifthLevelRefused(w: Setting, n: nat)
    ensures ParsePage(RawNested(4), 0, {"profile"}).Some?
    ensures ParsePage(RawNested(4), 0, {"profile"}).value.value == Nested(4) && Levels(Nested(4)) == 5
    ensures
      var s := Run(Start(Nested(4), w, 1), w, Presses(n));
      var deep := if n < 3 then n else 3;
      && |s.stack| == deep + 1 && Top(s) == Nested(4 - deep) && s.selected == 0
      && s.contacts == [Touch.RESET] && s.touchscreen == [false]
  {
    hide ParsePage, Levels, Step, Visible, StartSelection, Nested, RawNested;
    NestedProfile();
    if n == 0 {
      NestedEntry(4, w.rt);
    } else {
      FifthLevelRefused(w, n - 1);
      assert Presses(n)[..n - 1] == Presses(n - 1);
      var s := Run(Start(Nested(4), w, 1), w, Presses(n - 1));
      PressPower(s, w, if n < 4 then 5 - n else 1);
    }
  }

  lemma NestedProfile()
    ensures ParsePage(RawNested(4), 0, {"profile"}).Some?
    ensures ParsePage(RawNested(4), 0, {"profile"}).value.value == Nested(4) && Levels(Nested(4)) == 5
  {
    hide ParsePage, Levels;
    assert |"profile"| == 7;
    NestedParses(4, 0, {"profile"});
    NestedLevels(4);
  }

  lemma PressPower(s: Loop, w: Setting, k: nat)
    requires 0 < k < 10 && s.stack != [] && Top(s) == Nested(k) && s.selected == 0
    requires s.contacts == [Touch.RESET] && s.touchscreen == [false]
    ensures
      var r := Step(s, w, Input(0, POWER, Chance(true, true)));
      && r.stack == (if |s.stack| < STACK_DEPTH then s.stack + [Nested(k - 1)] else s.stack)
      && r.selected == 0 && r.contacts == s.contacts && r.touchscreen == s.touchscreen
  {
    NestedEntry(k, w.rt);
    NestedEntry(k - 1, w.rt);
    assert Nested(k).entries[0].submenu == Some(Nested(k - 1));
    hide Visible, StartSelection, Nested, Step;
    if |s.stack| < STACK_DEPTH {
      PressOpens(s, w, Nested(k - 1));
    } else {
      PressRefused(s, w);
    }
  }

  lemma PressRefused(s: Loop, w: Setting)
    requires |s.stack| >= STACK_DEPTH && Keyed(s)
    requires SelectedEntry(Top(s), w.rt, s.selected).Some?
    requires SelectedEntry(Top(s), w.rt, s.selected).value.submenu.Some?
    ensures
      var t := Step(s, w, Input(0, POWER, Chance(true, true)));
      t.stack == s.stack && t.selected == s.selected && t.contacts == s.contacts && t.touchscreen == s.touchscreen
  {
    hide SelectedEntry, StartSelection;
  }

  lemma {:induction false} NestedLevels(k: nat)
    requires k < 10
    ensures Levels(Nested(k)) == k + 1
  {
    var es := Nested(k).entries;
    assert es[1..] == [];
    if k > 0 {
      NestedLevels(k - 1);
    }
    assert EntriesLevels(es) == k;
  }

  // ---- which pages can be opened ----

  /** Pages, each opened by a visible entry of the one before. */
  ghost predicate Path(pages: seq<Page>, rt: RuntimeState) {
    pages != [] && forall i :: 0 <= i < |pages| - 1 ==> Opens(pages[i], pages[i + 1], rt)
  }

  /** `q` lies on a path of at most four pages from the root. */
  ghost predicate Near(root: Page, q: Page, rt: RuntimeState) {
    exists pages :: Path(pages, rt) && pages[0] == root && pages[|pages| - 1] == q && |pages| <= STACK_DEPTH
  }

  /** Some run shows `q`. */
  ghost predicate Shown(root: Page, w: Setting, devices: nat, q: Page) {
    exists hs :: Top(Run(Start(root, w, devices), w, hs)) == q
  }

  /** A state in which device 0 sends keys. */
  predicate Keyed(s: Loop) {
    |s.contacts| > 0 && |s.touchscreen| > 0 && !s.touchscreen[0]
  }

  function Keys(code: nat, n: nat): (hs: seq<Happening>)
    ensures |hs| == n
  {
    seq(n, _ => Input(0, Touch.Event(Touch.EV_KEY, code, 1), Chance(true, true)))
  }

  /** Pressing down or up moves the selection one by one, and nothing else that matters here. */
  lemma {:induction false} KeysMove(s: Loop, w: Setting, code: nat, n: nat)
    requires s.stack != [] && Keyed(s) && 0 <= s.selected < Count(Top(s), w.rt)
    requires code == KEY_VOLUMEDOWN || code == KEY_VOLUMEUP
    requires if code == KEY_VOLUMEDOWN then s.selected + n < Count(Top(s), w.rt) else s.selected >= n
    ensures
      var t := Run(s, w, Keys(code, n));
      && t.stack == s.stack && t.contacts == s.contacts && t.touchscreen == s.touchscreen
      && t.selected == if code == KEY_VOLUMEDOWN then s.selected + n else s.selected - n
  {
    hide Count, Step, DeviceMove;
    if n > 0 {
      KeysMove(s, w, code, n - 1);
      assert Keys(code, n)[..n - 1] == Keys(code, n - 1);
      var t := Run(s, w, Keys(code, n - 1));
      MoveOne(Count(Top(s), w.rt), t.selected);
      KeyMoves(t, w, code);
    }
  }

  lemma KeyMoves(s: Loop, w: Setting, code: nat)
    requires s.stack != [] && Keyed(s) && (code == KEY_VOLUMEDOWN || code == KEY_VOLUMEUP)
    ensures
      var t := Step(s, w, Input(0, Touch.Event(Touch.EV_KEY, code, 1), Chance(true, true)));
      && t.stack == s.stack && t.contacts == s.contacts && t.touchscreen == s.touchscreen
      && t.selected == DeviceMove(Count(Top(s), w.rt), s.selected, if code == KEY_VOLUMEDOWN then 1 else -1)
  {
    hide Count, DeviceMove, Activate;
  }

  lemma MoveOne(count: nat, selected: int)
    requires 0 <= selected < count
    ensures selected + 1 < count ==> DeviceMove(count, selected, 1) == selected + 1
    ensures selected > 0 ==> DeviceMove(count, selected, -1) == selected - 1
  {
    hide FloorMod;
    if selected + 1 < count {
      ModShift(selected + 1, count, 0);
    }
    if selected > 0 {
      ModShift(selected - 1, count, 0);
    }
  }

  /** Keys that take the selection to an entry, and the power key that opens it. */
  lemma OpenKeys(s: Loop, w: Setting, i: nat) returns (hs: seq<Happening>)
    requires s.stack != [] && Keyed(s) && 0 <= s.selected < Count(Top(s), w.rt) && |s.stack| < STACK_DEPTH
    requires i < Count(Top(s), w.rt) && Visible(Top(s).entries, w.rt)[i].submenu.Some?
    ensures
      var t := Run(s, w, hs);
      t.stack == s.stack + [Visible(Top(s).entries, w.rt)[i].submenu.value] && Keyed(t)
  {
    hide Visible, Step, StartSelection;
    var code, n := if i >= s.selected then KEY_VOLUMEDOWN else KEY_VOLUMEUP,
                   if i >= s.selected then i - s.selected else s.selected - i;
    KeysMove(s, w, code, n);
    var u := Run(s, w, Keys(code, n));
    hs := Keys(code, n) + Presses(1);
    RunAppend(s, w, Keys(code, n), Presses(1));
    assert Presses(1) == [Input(0, POWER, Chance(true, true))];
    RunOne(u, w, Input(0, POWER, Chance(true, true)));
    PressOpens(u, w, Visible(Top(s).entries, w.rt)[i].submenu.value);
  }

  lemma PressOpens(s: Loop, w: Setting, p: Page)
    requires s.stack != [] && Keyed(s) && |s.stack| < STACK_DEPTH
    requires SelectedEntry(Top(s), w.rt, s.selected).Some?
      && SelectedEntry(Top(s), w.rt, s.selected).value.submenu == Some(p)
    ensures
      var t := Step(s, w, Input(0, POWER, Chance(true, true)));
      && t.stack == s.stack + [p] && Keyed(t) && t.selected == StartSelection(p, w.rt)
      && t.contacts == s.contacts && t.touchscreen == s.touchscreen
      && t.markers == if PixelPage(p) then NO_MARKERS.(ready := true) else s.markers
  {
    hide Visible, StartSelection, PixelPage;
  }

  /** Every path of at most four pages is the stack of some run. */
  lemma {:induction false} PathShown(root: Page, w: Setting, devices: nat, pages: seq<Page>)
    returns (hs: seq<Happening>)
    requires GoodRoot(root, w.rt) && devices > 0
    requires Path(pages, w.rt) && pages[0] == root && |pages| <= STACK_DEPTH
    ensures Run(Start(root, w, devices), w, hs).stack == pages && Keyed(Run(Start(root, w, devices), w, hs))
    decreases |pages|
  {
    assert pages != [];
    hide GoodRoot, Opens, Path, Inv, Keyed, Start;
    if |pages| == 1 {
      hs := [];
      StartKeyed(root, w, devices);
    } else {
      var init := pages[..|pages| - 1];
      PathInit(pages, w.rt);
      var before := PathShown(root, w, devices, init);
      hs := ExtendRun(root, w, devices, before, pages[|pages| - 1]);
      assert init + [pages[|pages| - 1]] == pages;
    }
  }

  /** A run whose current page opens `q` can be continued to show it. */
  lemma ExtendRun(root: Page, w: Setting, devices: nat, before: seq<Happening>, q: Page) returns (hs: seq<Happening>)
    requires GoodRoot(root, w.rt) && Keyed(Run(Start(root, w, devices), w, before))
    requires
      var s := Run(Start(root, w, devices), w, before);
      |s.stack| < STACK_DEPTH && Opens(Top(s), q, w.rt)
    ensures
      var s, t := Run(Start(root, w, devices), w, before), Run(Start(root, w, devices), w, hs);
      t.stack == s.stack + [q] && Keyed(t)
  {
    hide GoodRoot, Opens, Step, Inv, Keyed, Run, Start, Visible;
    RunKeeps(root, w, devices, before);
    var s := Run(Start(root, w, devices), w, before);
    var i := OpenedBy(Top(s), q, w.rt);
    InRange(s, root, w);
    var more := OpenKeys(s, w, i);
    hs := before + more;
    RunAppend(Start(root, w, devices), w, before, more);
  }

  lemma StartKeyed(root: Page, w: Setting, devices: nat)
    requires devices > 0
    ensures Keyed(Start(root, w, devices))
  {
    hide StartSelection;
  }

  lemma PathInit(pages: seq<Page>, rt: RuntimeState)
    requires Path(pages, rt) && |pages| > 1
    ensures Path(pages[..|pages| - 1], rt) && Opens(pages[|pages| - 2], pages[|pages| - 1], rt)
  {
    hide Opens;
  }

  lemma InRange(s: Loop, root: Page, w: Setting)
    requires Inv(s, root, w)
    ensures 0 <= s.selected < Count(Top(s), w.rt)
  {
    hide Stacked, Visible;
  }

  lemma OpenedBy(p: Page, q: Page, rt: RuntimeState) returns (i: nat)
    requires Opens(p, q, rt)
    ensures i < Count(p, rt) && Visible(p.entries, rt)[i].submenu == Some(q)
  {
    hide Visible;
    i :| 0 <= i < |Visible(p.entries, rt)| && Visible(p.entries, rt)[i].submenu == Some(q);
  }

  /**
   * For every good profile: exactly the pages within four levels of visible entries can be shown. So a page
   * nested deeper is never the current page, and none within reach is lost.
   */
  lemma ShownIff(root: Page, w: Setting, devices: nat, q: Page)
    requires GoodRoot(root, w.rt) && devices > 0
    ensures Shown(root, w, devices, q) <==> Near(root, q, w.rt)
  {
    hide GoodRoot, Start, Run;
    if Shown(root, w, devices, q) {
      var hs :| Top(Run(Start(root, w, devices), w, hs)) == q;
      RunKeeps(root, w, devices, hs);
      StackIsPath(Run(Start(root, w, devices), w, hs), root, w);
    }
    if Near(root, q, w.rt) {
      var pages :| Path(pages, w.rt) && pages[0] == root && pages[|pages| - 1] == q && |pages| <= STACK_DEPTH;
      var hs := PathShown(root, w, devices, pages);
      assert Top(Run(Start(root, w, devices), w, hs)) == q;
    }
  }

  lemma StackIsPath(s: Loop, root: Page, w: Setting)
    requires Inv(s, root, w)
    ensures Path(s.stack, w.rt) && s.stack[0] == root && |s.stack| <= STACK_DEPTH
  {
    hide Opens, Visible, Good, Levels, PixelPage;
  }

  // ---- why the scoped page must not open another ----

  /** A page whose one entry opens `sub`. */
  function Opening(title: string, sub: Page): Page {
    Page("page", title, "entry", 0, None, [Entry("entry", Always, None, Some(sub))])
  }

  lemma OpeningEntry(title: string, sub: Page, rt: RuntimeState)
    ensures
      var p := Opening(title, sub);
      Visible(p.entries, rt) == p.entries && StartSelection(p, rt) == 0 && SelectedEntry(p, rt, 0) == Some(p.entries[0])
  {
    var es := Opening(title, sub).entries;
    assert es[1..] == [] && es[..0] == [];
    assert [es[0]] + [] == es;
  }

  /** If the Pixel Partitioner page opened another page, two power presses would leave its READY marker behind it. */
  lemma ScopeEscapes(w: Setting, q: Page)
    requires !PixelPage(q)
    ensures
      var pixel := Opening("Pixel Partitioner", q);
      var root := Opening("Menu", pixel);
      var s := Run(Start(root, w, 1), w, Presses(2));
      s.stack == [root, pixel, q] && s.markers.ready && !PixelPage(Top(s))
  {
    var pixel := Opening("Pixel Partitioner", q);
    var root := Opening("Menu", pixel);
    var key := Input(0, POWER, Chance(true, true));
    OpeningEntry("Menu", pixel, w.rt);
    OpeningEntry("Pixel Partitioner", q, w.rt);
    assert PixelPage(pixel);
    hide Step, StartSelection, SelectedEntry, PixelPage;
    var s0 := Start(root, w, 1);
    assert Presses(2) == [key] + [key];
    RunAppend(s0, w, [key], [key]);
    RunOne(s0, w, key);
    PressOpens(s0, w, pixel);
    var s1 := Step(s0, w, key);
    RunOne(s1, w, key);
    PressOpens(s1, w, q);
  }
}
