/** The live console: a ring of 64 sanitised lines standing for an unbounded history, and its scrolled viewport. */
module LiveConsole {
  import opened ByteStrings

  const LINES: nat := 64
  const LINE_BYTES: nat := 192
  const VISIBLE_LINES: nat := 42
  const SCROLL_STEP: nat := 4

  type Line = seq<Byte>

  /** Bytes of a C string: no terminator inside. */
  predicate Terminated(s: Line) {
    forall i :: 0 <= i < |s| ==> s[i] != 0
  }

  /** The text after the first ';', or the whole record. */
  function Payload(record: Line): Line {
    PayloadFrom(record, record)
  }

  function PayloadFrom(record: Line, rest: Line): Line {
    if rest == [] then record
    else if rest[0] == 0x3b then rest[1..]
    else PayloadFrom(record, rest[1..])
  }

  predicate LineBreak(b: Byte) {
    b == 10 || b == 13
  }

  function Printable(b: Byte): (p: Byte)
    ensures 32 <= p <= 126
  {
    if b == 9 then 32 else if b < 32 || b > 126 then 46 else b
  }

  /** At most `room` printable bytes up to a line break. */
  function Shown(message: Line, room: nat): Line {
    if message == [] || room == 0 || LineBreak(message[0]) then []
    else [Printable(message[0])] + Shown(message[1..], room - 1)
  }

  /** The line kept for a record. */
  function Sanitised(record: Line): Line {
    var line := Shown(Payload(record), LINE_BYTES - 1);
    if line == [] then [32] else line
  }

  /** Where the payload of a record starts. */
  lemma {:induction false} PayloadIs(record: Line, k: nat)
    requires k <= |record| && forall j :: 0 <= j < k ==> record[j] != 0x3b
    ensures k < |record| && record[k] == 0x3b ==> PayloadFrom(record, record) == record[k + 1..]
    ensures k == |record| ==> PayloadFrom(record, record) == record
  {
    PayloadSkip(record, k);
    if k < |record| {
      assert record[k..][1..] == record[k + 1..];
    }
  }

  lemma {:induction false} PayloadSkip(record: Line, k: nat)
    requires k <= |record| && forall j :: 0 <= j < k ==> record[j] != 0x3b
    ensures PayloadFrom(record, record) == PayloadFrom(record, record[k..])
  {
    if k == 0 {
      assert record[0..] == record;
    } else {
      PayloadSkip(record, k - 1);
      assert record[k - 1..][1..] == record[k..];
    }
  }

  /**
   * Byte for byte what a line shows: a tab as a space, printable ASCII as it is, anything else as a dot; and it ends
   * early only at a line feed, a carriage return or its capacity.
   */
  lemma {:induction false} ShownMeaning(message: Line, room: nat)
    ensures
      var s := Shown(message, room);
      && |s| <= room && |s| <= |message|
      && (forall i :: 0 <= i < |s| ==>
            && message[i] != 10 && message[i] != 13
            && s[i] == if message[i] == 9 then 32 else if 32 <= message[i] <= 126 then message[i] else 46)
      && (|s| == room || |s| == |message| || message[|s|] == 10 || message[|s|] == 13)
  {
    if !(message == [] || room == 0 || LineBreak(message[0])) {
      ShownMeaning(message[1..], room - 1);
      var s := Shown(message, room);
      assert forall i :: 1 <= i < |s| ==>
        s[i] == Shown(message[1..], room - 1)[i - 1] && message[i] == message[1..][i - 1];
      assert |s| < |message| ==> message[|s|] == message[1..][|s| - 1];
    }
  }

  /** The record's payload starts behind its first ';', or is the whole record. */
  ghost predicate IsPayload(record: Line, message: Line) {
    || (message == record && forall j :: 0 <= j < |record| ==> record[j] != 0x3b)
    || exists k :: 0 <= k < |record| && record[k] == 0x3b && message == record[k + 1..]
                   && forall j :: 0 <= j < k ==> record[j] != 0x3b
  }

  lemma PayloadMeaning(record: Line, message: Line)
    requires IsPayload(record, message)
    ensures Payload(record) == message
  {
    hide PayloadFrom;
    if k :| 0 <= k < |record| && record[k] == 0x3b && message == record[k + 1..]
            && forall j :: 0 <= j < k ==> record[j] != 0x3b {
      PayloadIs(record, k);
    } else {
      PayloadIs(record, |record|);
    }
  }

  /**
   * The line kept for a record: the shown form of its payload's first 191 bytes up to a line end, or one space. So it
   * fits its row, is never empty and holds only printable ASCII.
   */
  lemma SanitisedFacts(record: Line, message: Line)
    requires IsPayload(record, message)
    ensures
      var s := Sanitised(record);
      && 1 <= |s| <= 191 && (forall i :: 0 <= i < |s| ==> 32 <= s[i] <= 126)
      && if message == [] || message[0] == 10 || message[0] == 13 then s == [32] else s == Shown(message, 191)
  {
    hide PayloadFrom, IsPayload, Shown, Printable;
    PayloadMeaning(record, message);
    ShownMeaning(message, 191);
    ShownNothing(message, 191);
  }

  lemma ShownNothing(message: Line, room: nat)
    requires room > 0
    ensures Shown(message, room) == [] <==> message == [] || message[0] == 10 || message[0] == 13
  {}

  // ---- the viewport ----

  function Retained(n: nat): nat {
    if n < LINES then n else LINES
  }

  function MaxScroll(count: nat): nat {
    if count <= VISIBLE_LINES then 0 else count - VISIBLE_LINES
  }

  /** The scroll offset after a line arrives, `count` being the lines retained then. */
  function ScrollAfter(scroll: int, count: nat): int {
    if scroll > 0 && scroll < MaxScroll(count) then scroll + 1 else scroll
  }

  /** The scroll offset after `more` lines arrive on a history of `n`. */
  function ScrollAfterAll(n: nat, scroll: int, more: nat): int {
    if more == 0 then scroll else ScrollAfter(ScrollAfterAll(n, scroll, more - 1), Retained(n + more))
  }

  /** The lines on screen, as the renderer indexes the retained ones. */
  function View(history: seq<Line>, scroll: nat): seq<Line>
    requires scroll <= MaxScroll(Retained(|history|))
  {
    var count := Retained(|history|);
    var end := count - scroll;
    var start := if end < VISIBLE_LINES then 0 else end - VISIBLE_LINES;
    history[|history| - count..][start..end]
  }

  lemma {:induction false} ScrollClosed(n: nat, scroll: nat, more: nat)
    requires 0 < scroll <= MaxScroll(Retained(n))
    ensures ScrollAfterAll(n, scroll, more) ==
            if scroll + more <= MaxScroll(Retained(n + more)) then scroll + more else MaxScroll(Retained(n + more))
  {
    if more > 0 {
      ScrollClosed(n, scroll, more - 1);
    }
  }

  lemma StaysNewest(n: nat, more: nat)
    requires more > 0 && ScrollAfterAll(n, 0, more - 1) == 0
    ensures ScrollAfterAll(n, 0, more) == 0
  {}

  /** A viewport that is not scrolled follows the newest lines. */
  lemma {:induction false} FollowsNewest(history: seq<Line>, more: seq<Line>)
    ensures ScrollAfterAll(|history|, 0, |more|) == 0
    ensures
      var all := history + more;
      View(all, 0) == all[if |all| < 42 then 0 else |all| - 42..]
  {
    hide View;
    if more != [] {
      FollowsNewest(history, more[..|more| - 1]);
      StaysNewest(|history|, |more|);
    }
    ViewIs(history + more, 0);
  }

  /**
   * A scrolled viewport as lines arrive: its offset stays valid, and it shows the very same lines for as long
   * as its absolute end has not moved, which is exactly while the offset has not been pushed past the maximum.
   */
  lemma ViewportStays(history: seq<Line>, scroll: nat, more: seq<Line>)
    requires 0 < scroll <= MaxScroll(Retained(|history|))
    ensures
      var n, later := |history|, ScrollAfterAll(|history|, scroll, |more|);
      && 0 < later <= MaxScroll(Retained(n + |more|))
      && (n + |more| - later == n - scroll <==> scroll + |more| <= MaxScroll(Retained(n + |more|)))
      && (n + |more| - later == n - scroll ==> View(history + more, later) == View(history, scroll))
  {
    var n, later := |history|, ScrollAfterAll(|history|, scroll, |more|);
    ScrollClosed(n, scroll, |more|);
    ViewIs(history, scroll);
    ViewIs(history + more, later);
  }

  /** The screen shows the 42 lines that end `scroll` lines before the newest; if there are fewer, all of them. */
  lemma ViewIs(history: seq<Line>, scroll: nat)
    requires scroll <= MaxScroll(Retained(|history|))
    ensures
      var end := |history| - scroll;
      end >= 0 && View(history, scroll) == history[if end < 42 then 0 else end - 42..end]
  {}

  /** The screen can be scrolled back to the oldest of the last 64 lines, and no further. */
  lemma ScrollBounds(n: nat)
    ensures MaxScroll(Retained(n)) == if n <= 42 then 0 else if n >= 64 then 22 else n - 42
  {}

  // ---- the ring ----

  class Console {
    var lines: array<Line>
    var count: nat
    var next: nat
    ghost var history: seq<Line>

    ghost predicate Valid()
      reads this, lines
    {
      && lines.Length == LINES && count == Retained(|history|) && next == |history| % LINES
      && Holds(lines[..], history)
    }

    constructor ()
      ensures Valid() && fresh(lines) && history == []
    {
      lines := new Line[LINES](_ => []);
      count, next, history := 0, 0, [];
    }

    /** `tfb_live_console_append`. */
    method Append(record: Line, scroll: int) returns (moved: int)
      requires Valid() && Terminated(record)
      modifies this`count, this`next, this`history, lines
      ensures Valid() && history == old(history) + [Sanitised(record)]
      ensures moved == ScrollAfter(scroll, count)
    {
      hide Holds, Sanitised;
      var line := Sanitise(record);
      HoldsNext(lines[..], history, line);
      lines[next] := line;
      history := history + [line];
      next := (next + 1) % LINES;
      if count < LINES {
        count := count + 1;
      }
      moved := scroll;
      if scroll > 0 {
        var maximum := MaxScroll(count);
        if scroll < maximum {
          moved := scroll + 1;
        }
      }
    }

    method Sanitise(record: Line) returns (line: Line)
      requires Terminated(record)
      ensures line == Sanitised(record)
    {
      hide Shown, PayloadFrom;
      var message, index := record, 0;
      while index < |record| && record[index] != 0x3b
        invariant 0 <= index <= |record|
        invariant forall j :: 0 <= j < index ==> record[j] != 0x3b
      {
        index := index + 1;
      }
      PayloadIs(record, index);
      if index < |record| {
        message := record[index + 1..];
      }
      line := Copy(message);
      if line == [] {
        line := [32];
      }
    }

    method Copy(message: Line) returns (line: Line)
      ensures line == Shown(message, LINE_BYTES - 1)
    {
      hide Shown, LineBreak;
      ghost var rest := message;
      line := [];
      while |line| < |message| && |line| < LINE_BYTES - 1 && !LineBreak(message[|line|])
        invariant |line| <= |message| && |line| <= LINE_BYTES - 1 && rest == message[|line|..]
        invariant Shown(message, LINE_BYTES - 1) == line + Shown(rest, LINE_BYTES - 1 - |line|)
        decreases |message| - |line|
      {
        ShownStep(rest, LINE_BYTES - 1 - |line|);
        var value := message[|line|];
        if value == 9 {
          value := 32;
        }
        if value < 32 || value > 126 {
          value := 46;
        }
        assert line + ([value] + Shown(rest[1..], LINE_BYTES - 2 - |line|))
            == (line + [value]) + Shown(rest[1..], LINE_BYTES - 2 - |line|);
        line, rest := line + [value], rest[1..];
      }
      ShownEnds(rest, LINE_BYTES - 1 - |line|);
    }

    /** `tfb_live_console_line`: the i-th of the last min(n, 64) lines, and nothing outside that range. */
    method LineAt(logical: int) returns (line: Line)
      requires Valid()
      ensures
        var first := if |history| <= 64 then 0 else |history| - 64;
        line == if 0 <= logical < |history| - first then history[first + logical] else []
    {
      if logical < 0 || logical >= count {
        return [];
      }
      var oldest := 0;
      if count == LINES {
        oldest := next;
      }
      OldestSlot(|history|, count, oldest, logical);
      line := lines[(oldest + logical) % LINES];
    }
  }

  /** Counting from the oldest slot is counting from the oldest retained line. */
  lemma OldestSlot(n: nat, count: nat, oldest: nat, logical: nat)
    requires count == Retained(n) && logical < count && oldest == if count == LINES then n % LINES else 0
    ensures (oldest + logical) % LINES == (n - count + logical) % LINES
  {}

  /** Slot i mod 64 holds line i, for the retained lines. */
  ghost predicate Holds(slots: seq<Line>, history: seq<Line>) {
    |slots| == LINES
    && forall i :: |history| - Retained(|history|) <= i < |history| ==> slots[i % LINES] == history[i]
  }

  lemma HoldsNext(slots: seq<Line>, history: seq<Line>, line: Line)
    requires Holds(slots, history)
    ensures Holds(slots[|history| % LINES := line], history + [line])
  {
    var n := |history|;
    forall i | n + 1 - Retained(n + 1) <= i < n
      ensures slots[n % LINES := line][i % LINES] == history[i]
    {
      OtherSlot(i, n);
    }
  }

  lemma ShownStep(message: Line, room: nat)
    requires message != [] && room > 0 && !LineBreak(message[0])
    ensures Shown(message, room) == [Printable(message[0])] + Shown(message[1..], room - 1)
  {}

  lemma ShownEnds(rest: Line, room: nat)
    ensures rest == [] || room == 0 || LineBreak(rest[0]) ==> Shown(rest, room) == []
  {}

  /** Fewer than 64 apart, two positions share a slot only if they are equal. */
  lemma OtherSlot(i: nat, n: nat)
    requires i < n < i + LINES
    ensures i % LINES != n % LINES
  {}

  /** Volume up and down in the viewer keep the offset in range. */
  method Scroll(scroll: int, older: bool, count: nat) returns (moved: int)
    requires 0 <= scroll <= MaxScroll(count)
    ensures 0 <= moved <= MaxScroll(count)
    ensures moved == if older then (if scroll + 4 > MaxScroll(count) then MaxScroll(count) else scroll + 4)
                     else if scroll < 4 then 0 else scroll - 4
  {
    if older {
      moved := scroll + SCROLL_STEP;
      if moved > MaxScroll(count) {
        moved := MaxScroll(count);
      }
    } else {
      moved := scroll - SCROLL_STEP;
      if moved < 0 {
        moved := 0;
      }
    }
  }
}
