/** The menu profile: its pages, the parser's guarantees, and the Python meaning of visibility and selection. */
module Menu {
  import opened Wrappers

  datatype Condition = Always | FullAb | AlternateOs | RootInstalled | RootNotInstalled

  datatype Action = Back | LiveConsole | RestartAdb | Other(code: nat)

  datatype RuntimeState = RuntimeState(fullAb: bool, alternateOs: bool, rootInstalled: bool)

  datatype Entry = Entry(id: string, condition: Condition, action: Option<Action>, submenu: Option<Page>)

  datatype Page = Page(id: string, title: string, defaultEntry: string, timeoutMs: nat, timeoutAction: Option<Action>,
                       entries: seq<Entry>)

  predicate ConditionVisible(c: Condition, rt: RuntimeState) {
    match c
    case Always => true
    case FullAb => rt.fullAb
    case AlternateOs => rt.alternateOs
    case RootInstalled => rt.rootInstalled
    case RootNotInstalled => !rt.rootInstalled
  }

  // ---- the specification: selections index the filtered entries ----

  function Visible(es: seq<Entry>, rt: RuntimeState): (r: seq<Entry>)
    ensures |r| <= |es|
  {
    if es == [] then []
    else (if ConditionVisible(es[0].condition, rt) then [es[0]] else []) + Visible(es[1..], rt)
  }

  /** The first position holding `id`, if any. */
  function Position(es: seq<Entry>, id: string): (r: Option<nat>)
    ensures r.Some? ==> r.value < |es| && es[r.value].id == id && forall j :: 0 <= j < r.value ==> es[j].id != id
    ensures r.None? ==> forall j :: 0 <= j < |es| ==> es[j].id != id
  {
    if es == [] then None
    else if es[0].id == id then Some(0)
    else
      match Position(es[1..], id)
      case None => (assert forall j :: 1 <= j < |es| ==> es[j] == es[1..][j - 1]; None)
      case Some(n) => (assert forall j :: 1 <= j < |es| ==> es[j] == es[1..][j - 1]; Some(n + 1))
  }

  /** `default_selection`; None where the source raises. */
  function DefaultSelection(page: Page, rt: RuntimeState): Option<nat> {
    var entries := Visible(page.entries, rt);
    if entries == [] then None
    else match Position(entries, page.defaultEntry) case None => Some(0) case Some(n) => Some(n)
  }

  /** Python's `%` for a positive divisor. */
  function FloorMod(a: int, m: int): (r: int)
    requires m > 0
    ensures 0 <= r < m
  {
    a % m
  }

  function MoveSelection(page: Page, rt: RuntimeState, selected: int, delta: int): Option<nat> {
    var n := |Visible(page.entries, rt)|;
    if n == 0 then None
    else
      var clamped := if selected < 0 then 0 else if selected >= n then n - 1 else selected;
      Some(FloorMod(clamped + delta, n))
  }

  function SelectedEntry(page: Page, rt: RuntimeState, selected: int): Option<Entry> {
    var entries := Visible(page.entries, rt);
    if 0 <= selected < |entries| then Some(entries[selected]) else None
  }

  // ---- the parser ----

  const MAX_DEPTH: nat := 4
  const MAX_ENTRIES: nat := 8
  const MAX_TIMEOUT_MS: nat := 60000

  datatype RawEntry = RawEntry(id: string, action: Option<Action>, submenu: Option<RawPage>, condition: Condition)

  datatype RawPage = RawPage(id: string, title: string, defaultEntry: string, timeoutMs: int,
                             timeoutAction: Option<Action>,
                             entries: seq<RawEntry>)

  predicate IdChar(c: char) {
    'a' <= c <= 'z' || '0' <= c <= '9'
  }

  predicate ValidId(s: string) {
    1 <= |s| <= 48 && IdChar(s[0]) && forall i :: 0 <= i < |s| ==> IdChar(s[i]) || s[i] == '-'
  }

  predicate ValidText(s: string, maximum: nat) {
    1 <= |s| <= maximum && forall i :: 0 <= i < |s| ==> ' ' <= s[i] <= '~'
  }

  datatype Parsed<T> = Parsed(value: T, seen: set<string>)

  /** `_parse_page`: None where the source raises. */
  function ParsePage(raw: RawPage, depth: nat, seen: set<string>): Option<Parsed<Page>>
    decreases raw, 0
  {
    if depth > MAX_DEPTH || !ValidId(raw.id) || raw.id in seen || !ValidText(raw.title, 48)
      || !ValidId(raw.defaultEntry)
       || raw.timeoutMs < 0 || raw.timeoutMs > MAX_TIMEOUT_MS
       || (raw.timeoutMs == 0) != raw.timeoutAction.None?
       || raw.entries == [] || |raw.entries| > MAX_ENTRIES
    then None
    else
      match ParseEntries(raw.entries, depth, seen + {raw.id})
      case None => None
      case Some(es) =>
        if Position(es.value, raw.defaultEntry).None? then None
        else Some(Parsed(Page(raw.id, raw.title, raw.defaultEntry, raw.timeoutMs, raw.timeoutAction, es.value),
                         es.seen))
  }

  function ParseEntries(raws: seq<RawEntry>, depth: nat, seen: set<string>): (r: Option<Parsed<seq<Entry>>>)
    ensures r.Some? ==> |r.value.value| == |raws|
    decreases raws, 0
  {
    if raws == [] then Some(Parsed([], seen))
    else
      match ParseEntry(raws[0], depth, seen)
      case None => None
      case Some(e) =>
        match ParseEntries(raws[1..], depth, e.seen)
        case None => None
        case Some(es) => Some(Parsed([e.value] + es.value, es.seen))
  }

  function ParseEntry(raw: RawEntry, depth: nat, seen: set<string>): Option<Parsed<Entry>>
    decreases raw, 1
  {
    if !ValidId(raw.id) || raw.id in seen || raw.action.None? == raw.submenu.None? then None
    else
      match raw.submenu
      case None => Some(Parsed(Entry(raw.id, raw.condition, raw.action, None), seen + {raw.id}))
      case Some(page) =>
        match ParsePage(page, depth + 1, seen + {raw.id})
        case None => None
        case Some(p) => Some(Parsed(Entry(raw.id, raw.condition, None, Some(p.value)), p.seen))
  }

  /** Every identifier of a page and what is below it, in document order. */
  function PageIds(page: Page): seq<string>
    decreases page, 0
  {
    [page.id] + EntriesIds(page.entries)
  }

  function EntriesIds(es: seq<Entry>): seq<string>
    decreases es, 0
  {
    if es == [] then [] else EntryIds(es[0]) + EntriesIds(es[1..])
  }

  function EntryIds(e: Entry): seq<string>
    decreases e, 1
  {
    [e.id] + if e.submenu.Some? then PageIds(e.submenu.value) else []
  }

  /** Pages below and including this one, counted in levels. */
  function Levels(page: Page): nat
    decreases page, 0
  {
    1 + EntriesLevels(page.entries)
  }

  function EntriesLevels(es: seq<Entry>): nat
    decreases es, 0
  {
    if es == [] then 0
    else
      var first := if es[0].submenu.Some? then Levels(es[0].submenu.value) else 0;
      var rest := EntriesLevels(es[1..]);
      if first > rest then first else rest
  }

  predicate Distinct(ids: seq<string>) {
    forall j, k :: 0 <= j < k < |ids| ==> ids[j] != ids[k]
  }

  ghost predicate Fresh(ids: seq<string>, seen: set<string>, after: set<string>) {
    && Distinct(ids)
    && (forall i :: 0 <= i < |ids| ==> ids[i] !in seen)
    && after == seen + set i | 0 <= i < |ids| :: ids[i]
  }

  lemma FreshJoin(a: seq<string>, b: seq<string>, s0: set<string>, s1: set<string>, s2: set<string>)
    requires Fresh(a, s0, s1) && Fresh(b, s1, s2)
    ensures Fresh(a + b, s0, s2)
  {
    var ids := a + b;
    forall j, k | 0 <= j < k < |ids|
      ensures ids[j] != ids[k]
    {
      if j < |a| <= k {
        assert a[j] in s1 && b[k - |a|] !in s1;
      }
    }
    forall i | 0 <= i < |ids|
      ensures ids[i] !in s0
    {
      assert i >= |a| ==> b[i - |a|] !in s1;
    }
    forall id | id in s2
      ensures id in s0 + set i | 0 <= i < |ids| :: ids[i]
    {
      if id !in s0 {
        if id in s1 {
          var i :| 0 <= i < |a| && a[i] == id;
          assert ids[i] == id;
        } else {
          var i :| 0 <= i < |b| && b[i] == id;
          assert ids[|a| + i] == id;
        }
      }
    }
    forall id | id in set i | 0 <= i < |ids| :: ids[i]
      ensures id in s2
    {
      var i :| 0 <= i < |ids| && ids[i] == id;
      assert if i < |a| then a[i] == id && a[i] in s1 else b[i - |a|] == id;
    }
  }

  lemma FreshOne(id: string, seen: set<string>)
    requires id !in seen
    ensures Fresh([id], seen, seen + {id})
  {
    var one := [id];
    assert one[0] == id;
    assert (set i | 0 <= i < |one| :: one[i]) == {id};
  }

  /**
   * A parsed profile has pairwise distinct identifiers throughout, none of them seen before, and at most
   * MAX_DEPTH levels below its root.
   */
  lemma {:induction false} ParsedPage(raw: RawPage, depth: nat, seen: set<string>)
    requires ParsePage(raw, depth, seen).Some?
    ensures
      var p := ParsePage(raw, depth, seen).value;
      Fresh(PageIds(p.value), seen, p.seen) && depth + Levels(p.value) <= MAX_DEPTH + 1
    decreases raw, 0
  {
    hide Fresh, Position, ValidId, ValidText;
    FreshOne(raw.id, seen);
    ParsedEntries(raw.entries, depth, seen + {raw.id});
    var es := ParseEntries(raw.entries, depth, seen + {raw.id}).value;
    FreshJoin([raw.id], EntriesIds(es.value), seen, seen + {raw.id}, es.seen);
  }

  lemma {:induction false} ParsedEntries(raws: seq<RawEntry>, depth: nat, seen: set<string>)
    requires ParseEntries(raws, depth, seen).Some? && depth <= MAX_DEPTH
    ensures
      var p := ParseEntries(raws, depth, seen).value;
      Fresh(EntriesIds(p.value), seen, p.seen) && depth + EntriesLevels(p.value) <= MAX_DEPTH
    decreases raws, 0
  {
    hide Fresh;
    if raws == [] {
      NothingFresh(seen);
    } else {
      ParsedEntry(raws[0], depth, seen);
      var e := ParseEntry(raws[0], depth, seen).value;
      ParsedEntries(raws[1..], depth, e.seen);
      var es := ParseEntries(raws[1..], depth, e.seen).value;
      var all := [e.value] + es.value;
      assert all[0] == e.value && all[1..] == es.value;
      FreshJoin(EntryIds(e.value), EntriesIds(es.value), seen, e.seen, es.seen);
    }
  }

  lemma NothingFresh(seen: set<string>)
    ensures Fresh([], seen, seen)
  {
    var none: seq<string> := [];
    assert (set i | 0 <= i < |none| :: none[i]) == {};
  }

  lemma {:induction false} ParsedEntry(raw: RawEntry, depth: nat, seen: set<string>)
    requires ParseEntry(raw, depth, seen).Some? && depth <= MAX_DEPTH
    ensures
      var p := ParseEntry(raw, depth, seen).value;
      && Fresh(EntryIds(p.value), seen, p.seen)
      && (p.value.submenu.Some? ==> depth + Levels(p.value.submenu.value) <= MAX_DEPTH)
    decreases raw, 1
  {
    hide Fresh, ValidId;
    FreshOne(raw.id, seen);
    if raw.submenu.Some? {
      ParsedPage(raw.submenu.value, depth + 1, seen + {raw.id});
      var p := ParsePage(raw.submenu.value, depth + 1, seen + {raw.id}).value;
      FreshJoin([raw.id], PageIds(p.value), seen, seen + {raw.id}, p.seen);
    } else {
      assert [raw.id] + [] == [raw.id];
    }
  }

  /** The entries of one page of a profile with distinct identifiers have distinct identifiers. */
  lemma {:induction false} EntryIdsDistinct(es: seq<Entry>)
    requires Distinct(EntriesIds(es))
    ensures forall j, k :: 0 <= j < k < |es| ==> es[j].id != es[k].id
  {
    if es != [] {
      var a, b := EntryIds(es[0]), EntriesIds(es[1..]);
      DistinctParts(a, b);
      EntryIdsDistinct(es[1..]);
      forall j, k | 0 <= j < k < |es|
        ensures es[j].id != es[k].id
      {
        if j == 0 {
          IdAmong(es[1..], k - 1);
          var n :| 0 <= n < |b| && b[n] == es[1..][k - 1].id;
          assert (a + b)[0] == es[0].id && (a + b)[|a| + n] == b[n];
        } else {
          assert es[j] == es[1..][j - 1] && es[k] == es[1..][k - 1];
        }
      }
    }
  }

  lemma DistinctParts(a: seq<string>, b: seq<string>)
    requires Distinct(a + b)
    ensures Distinct(a) && Distinct(b)
  {
    forall j, k | 0 <= j < k < |b|
      ensures b[j] != b[k]
    {
      assert (a + b)[|a| + j] == b[j] && (a + b)[|a| + k] == b[k];
    }
    forall j, k | 0 <= j < k < |a|
      ensures a[j] != a[k]
    {
      assert (a + b)[j] == a[j] && (a + b)[k] == a[k];
    }
  }

  lemma {:induction false} IdAmong(es: seq<Entry>, k: nat)
    requires k < |es|
    ensures exists n :: 0 <= n < |EntriesIds(es)| && EntriesIds(es)[n] == es[k].id
  {
    var a, b := EntryIds(es[0]), EntriesIds(es[1..]);
    if k == 0 {
      assert EntriesIds(es)[0] == es[0].id;
    } else {
      IdAmong(es[1..], k - 1);
      var n :| 0 <= n < |b| && b[n] == es[1..][k - 1].id;
      assert EntriesIds(es)[|a| + n] == b[n];
    }
  }

  // ---- the device's index scans ----

  /** `tfb_menu_visible_count`. */
  method VisibleCount(page: Page, rt: RuntimeState) returns (count: nat)
    ensures count == |Visible(page.entries, rt)|
  {
    count := 0;
    var index := 0;
    assert page.entries[..0] == [];
    while index < |page.entries|
      invariant 0 <= index <= |page.entries|
      invariant count == |Visible(page.entries[..index], rt)|
    {
      VisibleSnoc(page.entries, index, rt);
      if ConditionVisible(page.entries[index].condition, rt) {
        count := count + 1;
      }
      index := index + 1;
    }
    assert page.entries[..index] == page.entries;
  }

  lemma {:induction false} VisibleAppend(a: seq<Entry>, b: seq<Entry>, rt: RuntimeState)
    ensures Visible(a + b, rt) == Visible(a, rt) + Visible(b, rt)
  {
    if a == [] {
      assert a + b == b;
    } else {
      assert (a + b)[1..] == a[1..] + b;
      VisibleAppend(a[1..], b, rt);
      var first := if ConditionVisible(a[0].condition, rt) then [a[0]] else [];
      assert first + (Visible(a[1..], rt) + Visible(b, rt)) == (first + Visible(a[1..], rt)) + Visible(b, rt);
    }
  }

  lemma VisibleSnoc(es: seq<Entry>, index: nat, rt: RuntimeState)
    requires index < |es|
    ensures Visible(es[..index + 1], rt) ==
      Visible(es[..index], rt) + if ConditionVisible(es[index].condition, rt) then [es[index]] else []
  {
    assert es[..index + 1] == es[..index] + [es[index]];
    VisibleAppend(es[..index], [es[index]], rt);
    assert [es[index]][1..] == [];
  }

  lemma VisiblePrefix(es: seq<Entry>, index: nat, rt: RuntimeState)
    requires index <= |es|
    ensures |Visible(es[..index], rt)| <= |Visible(es, rt)|
    ensures Visible(es[..index], rt) == Visible(es, rt)[..|Visible(es[..index], rt)|]
  {
    assert es == es[..index] + es[index..];
    VisibleAppend(es[..index], es[index..], rt);
  }

  /** `tfb_menu_visible_entry` finds the entry the specification indexes, and none outside its range. */
  method VisibleEntry(page: Page, rt: RuntimeState, visibleIndex: int) returns (r: Option<Entry>)
    ensures r == SelectedEntry(page, rt, visibleIndex)
  {
    if visibleIndex < 0 {
      return None;
    }
    var visible := 0;
    var index := 0;
    assert page.entries[..0] == [];
    while index < |page.entries|
      invariant 0 <= index <= |page.entries|
      invariant visible == |Visible(page.entries[..index], rt)| <= visibleIndex
    {
      VisibleSnoc(page.entries, index, rt);
      VisiblePrefix(page.entries, index + 1, rt);
      var entry := page.entries[index];
      if ConditionVisible(entry.condition, rt) {
        if visible == visibleIndex {
          assert Visible(page.entries[..index + 1], rt)[visible] == entry;
          return Some(entry);
        }
        visible := visible + 1;
      }
      index := index + 1;
    }
    assert page.entries[..index] == page.entries;
    r := None;
  }

  /** The generated default index: the first entry with the default identifier. */
  function DefaultIndex(page: Page): Option<nat> {
    Position(page.entries, page.defaultEntry)
  }

  /** What `tfb_menu_default_selection` computes: the visible rank of the default index, or 0. */
  function DeviceDefault(es: seq<Entry>, default: nat, rt: RuntimeState): nat {
    if default < |es| && ConditionVisible(es[default].condition, rt) then |Visible(es[..default], rt)| else 0
  }

  method DefaultSelectionScan(page: Page, default: nat, rt: RuntimeState) returns (selected: nat)
    ensures selected == DeviceDefault(page.entries, default, rt)
  {
    var visible := 0;
    var index := 0;
    assert page.entries[..0] == [];
    while index < |page.entries|
      invariant 0 <= index <= |page.entries|
      invariant visible == |Visible(page.entries[..index], rt)|
      invariant index > default ==> !ConditionVisible(page.entries[default].condition, rt)
    {
      VisibleSnoc(page.entries, index, rt);
      if ConditionVisible(page.entries[index].condition, rt) {
        if index == default {
          return visible;
        }
        visible := visible + 1;
      }
      index := index + 1;
    }
    selected := 0;
  }

  /** `tfb_menu_move_selection`, with its wrapping loops. */
  method MoveSelectionWrap(page: Page, rt: RuntimeState, selected: int, delta: int) returns (moved: int)
    ensures moved == DeviceMove(|Visible(page.entries, rt)|, selected, delta)
  {
    var count := VisibleCount(page, rt);
    if count <= 0 {
      return 0;
    }
    moved := if selected < 0 || selected >= count then 0 else selected;
    moved := moved + delta;
    ghost var start := moved;
    while moved < 0
      invariant FloorMod(moved, count) == FloorMod(start, count)
      decreases -moved
    {
      ModAdd(moved, count);
      moved := moved + count;
    }
    while moved >= count
      invariant moved >= 0 && FloorMod(moved, count) == FloorMod(start, count)
    {
      ModAdd(moved - count, count);
      moved := moved - count;
    }
    ModShift(moved, count, 0);
  }

  lemma ModAdd(a: int, m: nat)
    requires m > 0
    ensures FloorMod(a + m, m) == FloorMod(a, m)
  {
    var q, r := a / m, FloorMod(a, m);
    assert a == q * m + r;
    hide FloorMod;
    assert -(q + 1) * m == -(q * m) - m;
    ModShift(a + m, m, -(q + 1));
  }

  function DeviceMove(count: nat, selected: int, delta: int): int {
    if count == 0 then 0
    else FloorMod((if selected < 0 || selected >= count then 0 else selected) + delta, count)
  }

  lemma MulSign(d: int, m: nat)
    requires m > 0
    ensures d >= 1 ==> d * m >= m
    ensures d <= -1 ==> d * m <= 0 - m
  {}

  /** A remainder in range is the remainder. */
  lemma ModShift(a: int, m: nat, k: int)
    requires m > 0 && 0 <= a + k * m < m
    ensures FloorMod(a, m) == a + k * m
  {
    var q, r := a / m, FloorMod(a, m);
    assert a == q * m + r;
    hide FloorMod;
    assert (q + k) * m == q * m + k * m;
    MulSign(q + k, m);
  }

  // ---- the scans against the specification ----

  /** With distinct identifiers, the rank of the default index is the specification's default selection. */
  lemma DefaultsAgree(page: Page, rt: RuntimeState)
    requires forall j, k :: 0 <= j < k < |page.entries| ==> page.entries[j].id != page.entries[k].id
    requires DefaultIndex(page).Some? && Visible(page.entries, rt) != []
    ensures DefaultSelection(page, rt) == Some(DeviceDefault(page.entries, DefaultIndex(page).value, rt))
  {
    hide Visible, ConditionVisible;
    var es, d := page.entries, DefaultIndex(page).value;
    var visible, before := Visible(es, rt), Visible(es[..d], rt);
    NoneBefore(es, d, page.defaultEntry, rt);
    VisiblePrefix(es, d, rt);
    VisiblePrefix(es, d + 1, rt);
    VisibleSnoc(es, d, rt);
    var found := Position(visible, page.defaultEntry);
    if ConditionVisible(es[d].condition, rt) {
      assert visible[|before|] == Visible(es[..d + 1], rt)[|before|] == es[d];
      assert forall p :: 0 <= p < |before| ==> visible[p] == before[p];
    } else if found.Some? {
      VisibleFrom(es, rt, found.value);
      var n: nat :| n < |es| && es[n] == visible[found.value] && ConditionVisible(es[n].condition, rt);
      SameIndex(es, d, n);
    }
  }

  /** Distinct identifiers: equal identifiers stand at equal positions. */
  lemma SameIndex(es: seq<Entry>, d: nat, n: nat)
    requires d < |es| && n < |es| && es[d].id == es[n].id
    requires forall j, k :: 0 <= j < k < |es| ==> es[j].id != es[k].id
    ensures d == n
  {}

  /** Every visible entry is an entry, and visible. */
  lemma {:induction false} VisibleFrom(es: seq<Entry>, rt: RuntimeState, p: nat)
    requires p < |Visible(es, rt)|
    ensures exists n :: 0 <= n < |es| && es[n] == Visible(es, rt)[p] && ConditionVisible(es[n].condition, rt)
  {
    hide ConditionVisible;
    if ConditionVisible(es[0].condition, rt) && p == 0 {
      assert es[0] == Visible(es, rt)[0];
    } else {
      var p' := if ConditionVisible(es[0].condition, rt) then p - 1 else p;
      VisibleFrom(es[1..], rt, p');
      var n :| 0 <= n < |es| - 1 && es[1..][n] == Visible(es[1..], rt)[p']
        && ConditionVisible(es[1..][n].condition, rt);
      assert es[n + 1] == es[1..][n];
    }
  }

  lemma NoneBefore(es: seq<Entry>, d: nat, id: string, rt: RuntimeState)
    requires d <= |es| && forall j :: 0 <= j < d ==> es[j].id != id
    ensures forall p :: 0 <= p < |Visible(es[..d], rt)| ==> Visible(es[..d], rt)[p].id != id
  {
    hide Visible, ConditionVisible;
    forall p | 0 <= p < |Visible(es[..d], rt)|
      ensures Visible(es[..d], rt)[p].id != id
    {
      VisibleFrom(es[..d], rt, p);
      var n :| 0 <= n < d && es[..d][n] == Visible(es[..d], rt)[p] && ConditionVisible(es[..d][n].condition, rt);
      assert es[n] == es[..d][n];
    }
  }

  /**
   * Device and specification move alike, for every step, exactly on selections that are not past the end
   * (or on a page with one visible entry): past the end the device restarts at 0, Python at the last entry.
   */
  lemma MovesAgreeIff(page: Page, rt: RuntimeState, selected: int, delta: int)
    requires Visible(page.entries, rt) != []
    ensures
      var n := |Visible(page.entries, rt)|;
      MoveSelection(page, rt, selected, delta) == Some(DeviceMove(n, selected, delta)) <==> selected < n || n == 1
  {
    var n := |Visible(page.entries, rt)|;
    if selected >= n {
      if n == 1 {
        assert FloorMod(0 + delta, 1) == FloorMod(n - 1 + delta, 1) == 0;
      } else {
        ShiftByLess(delta, n);
      }
    }
  }

  lemma ShiftByLess(a: int, n: nat)
    requires n > 1
    ensures FloorMod(a, n) != FloorMod(n - 1 + a, n)
  {
    var q, r := a / n, FloorMod(a, n);
    assert a == q * n + r;
    hide FloorMod;
    ModAdd(a - 1, n);
    assert -q * n == -(q * n) && (1 - q) * n == n - q * n;
    if r > 0 {
      ModShift(a - 1, n, -q);
    } else {
      ModShift(a - 1, n, 1 - q);
    }
  }

  /** So on every page the parser produces, at any depth, device and specification open on the same entry. */
  lemma ParsedDefaultsAgree(raw: RawPage, depth: nat, seen: set<string>, rt: RuntimeState)
    requires ParsePage(raw, depth, seen).Some?
    requires Visible(ParsePage(raw, depth, seen).value.value.entries, rt) != []
    ensures
      var page := ParsePage(raw, depth, seen).value.value;
      && DefaultIndex(page).Some?
      && DefaultSelection(page, rt) == Some(DeviceDefault(page.entries, DefaultIndex(page).value, rt))
  {
    hide Visible, ValidId, ValidText, Position, EntriesIds, DefaultSelection, DeviceDefault;
    ParsedPage(raw, depth, seen);
    var page := ParsePage(raw, depth, seen).value.value;
    DistinctParts([page.id], EntriesIds(page.entries));
    EntryIdsDistinct(page.entries);
    DefaultsAgree(page, rt);
  }
}
