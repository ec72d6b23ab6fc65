/** Which profiles the menu parser accepts, and that it keeps them; and which entries each runtime state shows. */
module MenuParse {
  import opened Wrappers
  import opened Menu

  // ---- what a state shows ----

  /**
   * A runtime state shows exactly these entries of a page: the unconditional ones, the full A/B ones and the alternate
   * OS ones when configured, and of the two root conditions the one that applies.
   */
  lemma {:induction false} ShownIff(es: seq<Entry>, rt: RuntimeState, e: Entry)
    ensures e in Visible(es, rt) <==>
      && e in es
      && (e.condition == FullAb ==> rt.fullAb)
      && (e.condition == AlternateOs ==> rt.alternateOs)
      && (e.condition == RootInstalled ==> rt.rootInstalled)
      && (e.condition == RootNotInstalled ==> !rt.rootInstalled)
  {
    if es != [] {
      ShownIff(es[1..], rt, e);
      assert e in es <==> e == es[0] || e in es[1..];
    }
  }

  /**
   * Python's selections raise exactly on a page that shows nothing. Otherwise the default is the first shown entry with
   * the default identifier, or the first one; and a move ends up `delta` places from the clamped selection, around.
   */
  lemma SelectionsIff(page: Page, rt: RuntimeState, selected: int, delta: int)
    ensures DefaultSelection(page, rt).None? <==> Visible(page.entries, rt) == []
    ensures MoveSelection(page, rt, selected, delta).None? <==> Visible(page.entries, rt) == []
    ensures Visible(page.entries, rt) != [] ==>
      var es, start := Visible(page.entries, rt), DefaultSelection(page, rt).value;
      && start < |es|
      && (if es[start].id == page.defaultEntry then forall i :: 0 <= i < start ==> es[i].id != page.defaultEntry
          else start == 0 && forall i :: 0 <= i < |es| ==> es[i].id != page.defaultEntry)
    ensures Visible(page.entries, rt) != [] ==>
      var n, moved := |Visible(page.entries, rt)|, MoveSelection(page, rt, selected, delta).value;
      var from := if selected < 0 then 0 else if selected >= n then n - 1 else selected;
      moved < n && (moved - from - delta) % n == 0
  {
    hide Visible;
    var n := |Visible(page.entries, rt)|;
    if n > 0 {
      var from := if selected < 0 then 0 else if selected >= n then n - 1 else selected;
      Remainder(from + delta, n);
    }
  }

  lemma Remainder(a: int, n: nat)
    requires n > 0
    ensures (FloorMod(a, n) - a) % n == 0
  {
    var r, q := FloorMod(a, n), a / n;
    assert a == q * n + r;
    hide FloorMod;
    ModShift(r - a, n, q);
    assert FloorMod(r - a, n) == r - a + q * n == 0;
    IsRemainder(r - a, n);
  }

  lemma IsRemainder(a: int, n: nat)
    requires n > 0
    ensures FloorMod(a, n) == a % n
  {}

  // ---- the parser ----

  predicate LowerOrDigit(c: char) {
    0x61 <= c as int <= 0x7a || 0x30 <= c as int <= 0x39
  }

  /** One to 48 lower-case letters, digits and dashes, the first not a dash. */
  predicate Identifier(s: string) {
    1 <= |s| <= 48 && s[0] != '-' && forall i :: 0 <= i < |s| ==> LowerOrDigit(s[i]) || s[i] == '-'
  }

  lemma CharIff(c: char)
    ensures IdChar(c) <==> LowerOrDigit(c)
  {}

  lemma IdentifierIff(s: string)
    ensures ValidId(s) <==> Identifier(s)
  {
    hide IdChar, LowerOrDigit;
    forall i | 0 <= i < |s|
      ensures IdChar(s[i]) <==> LowerOrDigit(s[i])
    {
      CharIff(s[i]);
    }
    DashIsNone();
  }

  lemma DashIsNone()
    ensures !IdChar('-')
  {}

  function RawPageIds(raw: RawPage): seq<string>
    decreases raw, 0
  {
    [raw.id] + RawEntriesIds(raw.entries)
  }

  function RawEntriesIds(es: seq<RawEntry>): seq<string>
    decreases es, 0
  {
    if es == [] then [] else RawEntryIds(es[0]) + RawEntriesIds(es[1..])
  }

  function RawEntryIds(e: RawEntry): seq<string>
    decreases e, 1
  {
    [e.id] + match e.submenu case None => [] case Some(page) => RawPageIds(page)
  }

  /**
   * The shape of a page at its depth below the root, identifiers' distinctness aside: names, a title of at most 48
   * printable characters, a timeout of at most a minute with an action exactly if there is one, one to eight entries
   * with the default among them, and submenus down to depth 4.
   */
  predicate Shaped(raw: RawPage, depth: nat)
    decreases raw, 0
  {
    && depth <= 4 && Identifier(raw.id) && Identifier(raw.defaultEntry)
    && 1 <= |raw.title| <= 48 && (forall i :: 0 <= i < |raw.title| ==> 0x20 <= raw.title[i] as int <= 0x7e)
    && 0 <= raw.timeoutMs <= 60000 && (raw.timeoutMs > 0 <==> raw.timeoutAction.Some?)
    && 1 <= |raw.entries| <= 8 && (exists i :: 0 <= i < |raw.entries| && raw.entries[i].id == raw.defaultEntry)
    && ShapedEntries(raw.entries, depth)
  }

  predicate ShapedEntries(es: seq<RawEntry>, depth: nat)
    decreases es, 0
  {
    es == [] || (ShapedEntry(es[0], depth) && ShapedEntries(es[1..], depth))
  }

  /** An entry has an action or a submenu, and not both. */
  predicate ShapedEntry(e: RawEntry, depth: nat)
    decreases e, 1
  {
    Identifier(e.id) && match e.submenu case None => e.action.Some? case Some(page) => e.action.None?
                                                                                        && Shaped(page, depth + 1)
  }

  /** The page says what the raw one does, all the way down. */
  predicate SamePage(raw: RawPage, p: Page)
    decreases raw, 0
  {
    && p.id == raw.id && p.title == raw.title && p.defaultEntry == raw.defaultEntry
    && p.timeoutMs == raw.timeoutMs && p.timeoutAction == raw.timeoutAction && SameEntries(raw.entries, p.entries)
  }

  predicate SameEntries(raws: seq<RawEntry>, es: seq<Entry>)
    decreases raws, 0
  {
    if raws == [] then es == []
    else es != [] && SameEntry(raws[0], es[0]) && SameEntries(raws[1..], es[1..])
  }

  predicate SameEntry(raw: RawEntry, e: Entry)
    decreases raw, 1
  {
    && e.id == raw.id && e.condition == raw.condition && e.action == raw.action
    && match raw.submenu case None => e.submenu.None? case Some(page) => e.submenu.Some?
                                                                          && SamePage(page, e.submenu.value)
  }

  function Ids(s: seq<string>): set<string> {
    set i | 0 <= i < |s| :: s[i]
  }

  /** Pairwise distinct, and none seen before. */
  predicate New(ids: seq<string>, seen: set<string>) {
    Distinct(ids) && Ids(ids) !! seen
  }

  lemma NewJoin(a: seq<string>, b: seq<string>, seen: set<string>)
    ensures New(a + b, seen) <==> New(a, seen) && New(b, seen + Ids(a))
    ensures Ids(a + b) == Ids(a) + Ids(b)
  {
    IdsJoin(a, b);
    if New(a + b, seen) {
      DistinctParts(a, b);
      forall i, j | 0 <= i < |a| && 0 <= j < |b|
        ensures a[i] != b[j]
      {
        assert (a + b)[i] == a[i] && (a + b)[|a| + j] == b[j];
      }
    }
    if New(a, seen) && New(b, seen + Ids(a)) {
      forall j, k | 0 <= j < k < |a + b|
        ensures (a + b)[j] != (a + b)[k]
      {
        if j < |a| <= k {
          assert a[j] in Ids(a) && b[k - |a|] in Ids(b);
        }
      }
    }
  }

  lemma IdsJoin(a: seq<string>, b: seq<string>)
    ensures Ids(a + b) == Ids(a) + Ids(b)
  {
    forall id | id in Ids(a) + Ids(b)
      ensures id in Ids(a + b)
    {
      if id in Ids(a) {
        var i :| 0 <= i < |a| && a[i] == id;
        assert (a + b)[i] == id;
      } else {
        var i :| 0 <= i < |b| && b[i] == id;
        assert (a + b)[|a| + i] == id;
      }
    }
  }

  lemma OneNew(id: string, seen: set<string>)
    ensures New([id], seen) <==> id !in seen
    ensures Ids([id]) == {id} && Ids([]) == {} && New([], seen)
  {
    assert [id][0] == id;
    assert id in Ids([id]);
  }

  /**
   * The parser accepts exactly the profiles of the right shape whose identifiers are pairwise distinct and new, and
   * what it returns says what it was given; the identifiers it has then seen are those seen before and the profile's.
   */
  lemma {:induction false} ParseIff(raw: RawPage, depth: nat, seen: set<string>)
    ensures ParsePage(raw, depth, seen).Some? <==> Shaped(raw, depth) && New(RawPageIds(raw), seen)
    ensures ParsePage(raw, depth, seen).Some? ==>
      var p := ParsePage(raw, depth, seen).value;
      SamePage(raw, p.value) && p.seen == seen + Ids(RawPageIds(raw))
    decreases raw, 0
  {
    hide ValidId, Identifier, New, Ids, ParseEntries, ShapedEntries, SameEntries;
    IdentifierIff(raw.id);
    IdentifierIff(raw.defaultEntry);
    EntriesIff(raw.entries, depth, seen + {raw.id});
    OneNew(raw.id, seen);
    NewJoin([raw.id], RawEntriesIds(raw.entries), seen);
    var es := ParseEntries(raw.entries, depth, seen + {raw.id});
    if es.Some? {
      SameIds(raw.entries, es.value.value);
      DefaultFound(raw.entries, es.value.value, raw.defaultEntry);
    }
    TitleIff(raw.title);
    hide ValidText;
  }

  lemma TitleIff(title: string)
    ensures ValidText(title, 48) <==>
      1 <= |title| <= 48 && forall i :: 0 <= i < |title| ==> 0x20 <= title[i] as int <= 0x7e
  {}

  lemma DefaultFound(raws: seq<RawEntry>, es: seq<Entry>, id: string)
    requires |raws| == |es| && forall i :: 0 <= i < |raws| ==> es[i].id == raws[i].id
    ensures Position(es, id).Some? <==> exists i :: 0 <= i < |raws| && raws[i].id == id
  {
    hide Position;
    var p := Position(es, id);
    if p.Some? {
      assert raws[p.value].id == id;
    }
  }

  lemma {:induction false} SameIds(raws: seq<RawEntry>, es: seq<Entry>)
    requires SameEntries(raws, es)
    ensures |raws| == |es| && forall i :: 0 <= i < |raws| ==> es[i].id == raws[i].id
  {
    hide SamePage;
    if raws != [] {
      SameIds(raws[1..], es[1..]);
      forall i | 0 <= i < |raws|
        ensures es[i].id == raws[i].id
      {
        assert i > 0 ==> es[i] == es[1..][i - 1] && raws[i] == raws[1..][i - 1];
      }
    }
  }

  lemma {:induction false} EntriesIff(raws: seq<RawEntry>, depth: nat, seen: set<string>)
    ensures ParseEntries(raws, depth, seen).Some? <==> ShapedEntries(raws, depth) && New(RawEntriesIds(raws), seen)
    ensures ParseEntries(raws, depth, seen).Some? ==>
      var p := ParseEntries(raws, depth, seen).value;
      SameEntries(raws, p.value) && p.seen == seen + Ids(RawEntriesIds(raws))
    decreases raws, 0
  {
    hide New, Ids, ParseEntry, ShapedEntry, SameEntry;
    OneNew("", seen);
    if raws != [] {
      EntryIff(raws[0], depth, seen);
      NewJoin(RawEntryIds(raws[0]), RawEntriesIds(raws[1..]), seen);
      var e := ParseEntry(raws[0], depth, seen);
      if e.Some? {
        EntriesIff(raws[1..], depth, e.value.seen);
        var es := ParseEntries(raws[1..], depth, e.value.seen);
        if es.Some? {
          var all := [e.value.value] + es.value.value;
          assert all[0] == e.value.value && all[1..] == es.value.value;
        }
      }
    }
  }

  lemma {:induction false} EntryIff(raw: RawEntry, depth: nat, seen: set<string>)
    ensures ParseEntry(raw, depth, seen).Some? <==> ShapedEntry(raw, depth) && New(RawEntryIds(raw), seen)
    ensures ParseEntry(raw, depth, seen).Some? ==>
      var p := ParseEntry(raw, depth, seen).value;
      SameEntry(raw, p.value) && p.seen == seen + Ids(RawEntryIds(raw))
    decreases raw, 1
  {
    hide New, Ids, ParsePage, ValidId, Identifier, Shaped, SamePage;
    IdentifierIff(raw.id);
    OneNew(raw.id, seen);
    match raw.submenu
    case None => assert [raw.id] + [] == [raw.id];
    case Some(page) =>
      ParseIff(page, depth + 1, seen + {raw.id});
      NewJoin([raw.id], RawPageIds(page), seen);
  }
}
