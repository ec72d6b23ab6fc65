/**
 * The two parsing loops of the cpio code, with Python's integers and slices: offsets and size fields may be
 * negative, so a loop may read entries again, or never return.
 */
module NewcParser {
  import opened ByteStrings
  import opened Wrappers
  import opened Newc

  /** What a loop comes to. */
  datatype Verdict<+T> = Accepted(value: T) | Refused | Endless

  // ---- Python's slices ----

  function Clamp(size: nat, i: int): (c: nat)
    ensures c <= size
  {
    if i > size then size else if i >= 0 then i else if i + size >= 0 then i + size else 0
  }

  /** `s[a:b]`: negative positions count from the end, all are clamped, and b before a gives nothing. */
  function Slice(s: seq<Byte>, a: int, b: int): seq<Byte> {
    var lo, hi := Clamp(|s|, a), Clamp(|s|, b);
    if lo < hi then s[lo..hi] else []
  }

  /** `(offset + 3) & ~3`. */
  function AlignInt(n: int): (r: int)
    ensures n <= r < n + 4 && r % 4 == 0
  {
    (n + 3) / 4 * 4
  }

  // ---- one entry ----

  /** The entry read at an offset, its size field, and the offset the loop goes on at. */
  datatype Taken = Taken(entry: Entry, size: int, next: int)

  /** The body of either loop up to the new entry; None for each ValueError. */
  function TakeEntry(data: seq<Byte>, offset: int): Option<Taken> {
    var header := Slice(data, offset, offset + HEADER_SIZE);
    if |header| != HEADER_SIZE || (header[..6] != MAGIC && header[..6] != MAGIC_CRC) then None
    else
      match DecodeFields(header[6..])
      case None => None
      case Some(fields) => TakeFields(data, offset + HEADER_SIZE, header[..6], fields)
  }

  /** The part of the body behind the header. */
  function TakeFields(data: seq<Byte>, offset: int, magic: seq<Byte>, fields: seq<int>): Option<Taken>
    requires |fields| == FIELDS
  {
    var size, nameEnd := fields[6], offset + fields[11];
    var name := Slice(data, offset, nameEnd);
    var start := AlignInt(nameEnd);
    if fields[11] < 1 || nameEnd > |data| || name == [] || name[|name| - 1] != 0 || start + size > |data| then None
    else Some(Taken(Entry(magic, MetaOf(fields), name[..|name| - 1], Slice(data, start, start + size)), size,
                    AlignInt(start + size)))
  }

  // ---- the offsets of a run ----

  /** The iteration at `offset` is made and does not leave the loop. */
  predicate Continues(data: seq<Byte>, offset: int) {
    offset < |data| && TakeEntry(data, offset).Some? && !TakeEntry(data, offset).value.entry.IsTrailer()
  }

  /** The offset after `n` iterations from `offset`, if the loop makes that many without leaving. */
  function OffsetFrom(data: seq<Byte>, offset: int, n: nat): Option<int>
    decreases n
  {
    if n == 0 then Some(offset)
    else if Continues(data, offset) then OffsetFrom(data, TakeEntry(data, offset).value.next, n - 1)
    else None
  }

  /** The loop takes one offset twice. */
  ghost predicate Revisits(data: seq<Byte>) {
    exists i: nat, j: nat :: i < j && OffsetFrom(data, 0, i).Some? && OffsetFrom(data, 0, i) == OffsetFrom(data, 0, j)
  }

  /** The loop never returns. */
  ghost predicate NeverReturns(data: seq<Byte>) {
    forall n: nat :: OffsetFrom(data, 0, n).Some?
  }

  // ---- the parsers ----

  function LeadArchive(e: Entry, v: Verdict<Archive>): Verdict<Archive> {
    match v
    case Accepted(a) => Accepted(Archive([e] + a.entries, a.trailing))
    case other => other
  }

  function Lead(e: Entry, v: Verdict<seq<Entry>>): Verdict<seq<Entry>> {
    match v
    case Accepted(es) => Accepted([e] + es)
    case other => other
  }

  /**
   * What the loop of `parse_newc_archive` makes of an offset within `turns` iterations; Endless if they do not
   * suffice.
   */
  function RunArchive(data: seq<Byte>, offset: int, turns: nat): Verdict<Archive>
    decreases turns
  {
    if turns == 0 then Endless
    else if offset >= |data| then Refused
    else
      match TakeEntry(data, offset)
      case None => Refused
      case Some(t) =>
        var trailing := Slice(data, t.next, |data|);
        if !t.entry.IsTrailer() then LeadArchive(t.entry, RunArchive(data, t.next, turns - 1))
        else if AllZero(trailing) then Accepted(Archive([t.entry], trailing))
        else Refused
  }

  /** The same for `parse_newc`, which leaves at a short zero tail. */
  function RunNewc(data: seq<Byte>, offset: int, turns: nat): Verdict<seq<Entry>>
    decreases turns
  {
    if turns == 0 then Endless
    else if offset >= |data| then Accepted([])
    else if |data| - offset < HEADER_SIZE then if AllZero(Slice(data, offset, |data|)) then Accepted([]) else Refused
    else
      match TakeEntry(data, offset)
      case None => Refused
      case Some(t) =>
        if !t.entry.IsTrailer() then Lead(t.entry, RunNewc(data, t.next, turns - 1))
        else if AllZero(Slice(data, t.next, |data|)) then Accepted([t.entry])
        else Refused
  }

  /** More iterations than there are offsets. */
  function Enough(data: seq<Byte>): nat {
    2 * |data| + 2
  }

  function ParseArchive(data: seq<Byte>): Verdict<Archive> {
    match RunArchive(data, 0, Enough(data))
    case Accepted(a) => if Valid(a) then Accepted(a) else Refused
    case other => other
  }

  function ParseNewc(data: seq<Byte>): Verdict<seq<Entry>> {
    match RunNewc(data, 0, Enough(data))
    case Accepted(es) => if Population(es) then Accepted(es) else Refused
    case other => other
  }

  // ---- when a loop returns ----

  /** Iterations go on only at offsets inside the archive, counted from either end. */
  lemma TakenInRange(data: seq<Byte>, offset: int)
    requires TakeEntry(data, offset).Some?
    ensures 0 - |data| <= offset && offset + HEADER_SIZE <= |data|
  {
    hide TakeFields, DecodeFields;
  }

  lemma {:induction false} OffsetAppend(data: seq<Byte>, offset: int, m: nat, n: nat)
    ensures OffsetFrom(data, offset, m + n) ==
      if OffsetFrom(data, offset, m).None? then None else OffsetFrom(data, OffsetFrom(data, offset, m).value, n)
    decreases m
  {
    hide TakeEntry;
    if m > 0 && Continues(data, offset) {
      OffsetAppend(data, TakeEntry(data, offset).value.next, m - 1, n);
    }
  }

  lemma {:induction false} RunEndless(data: seq<Byte>, offset: int, turns: nat)
    ensures RunArchive(data, offset, turns).Endless? <==> OffsetFrom(data, offset, turns).Some?
    decreases turns
  {
    hide TakeEntry, AllZero, Slice;
    if turns > 0 && Continues(data, offset) {
      RunEndless(data, TakeEntry(data, offset).value.next, turns - 1);
    }
  }

  /** A run that has left its loop is not changed by more turns. */
  lemma {:induction false} RunSettled(data: seq<Byte>, offset: int, turns: nat, more: nat)
    requires !RunArchive(data, offset, turns).Endless? && turns <= more
    ensures RunArchive(data, offset, more) == RunArchive(data, offset, turns)
    decreases turns
  {
    hide TakeEntry, AllZero, Slice;
    if offset < |data| && TakeEntry(data, offset).Some? && !TakeEntry(data, offset).value.entry.IsTrailer() {
      RunSettled(data, TakeEntry(data, offset).value.next, turns - 1, more - 1);
    }
  }

  // Pigeonholes.

  function Span(lo: int, hi: int): (s: set<int>)
    requires lo <= hi
    ensures |s| == hi - lo && forall x :: x in s <==> lo <= x < hi
    decreases hi - lo
  {
    if lo == hi then {} else {hi - 1} + Span(lo, hi - 1)
  }

  function Elements(vs: seq<int>): (s: set<int>)
    ensures forall x :: x in s <==> x in vs
  {
    set x | x in vs
  }

  lemma {:induction false} DistinctSize(vs: seq<int>)
    requires forall i, j :: 0 <= i < j < |vs| ==> vs[i] != vs[j]
    ensures |Elements(vs)| == |vs|
  {
    if vs != [] {
      var init, last := vs[..|vs| - 1], vs[|vs| - 1];
      DistinctSize(init);
      assert vs == init + [last];
      assert last !in init;
      assert Elements(vs) == Elements(init) + {last};
    }
  }

  lemma SubsetSize(a: set<int>, b: set<int>)
    requires a <= b
    ensures |a| <= |b|
  {
    assert b == a + (b - a);
  }

  /** Distinct integers of a span are no more than its length. */
  lemma DistinctFit(vs: seq<int>, lo: int, hi: int)
    requires lo <= hi && forall i :: 0 <= i < |vs| ==> lo <= vs[i] < hi
    requires forall i, j :: 0 <= i < j < |vs| ==> vs[i] != vs[j]
    ensures |vs| <= hi - lo
  {
    DistinctSize(vs);
    SubsetSize(Elements(vs), Span(lo, hi));
  }

  /** The offset of iteration i, on a run of at least n iterations. */
  function Offsets(data: seq<Byte>, n: nat): (vs: seq<int>)
    requires OffsetFrom(data, 0, n).Some?
    ensures |vs| == n
  {
    seq(n, i requires 0 <= i < n => (OffsetPrefix(data, i, n); OffsetFrom(data, 0, i).value))
  }

  lemma OffsetPrefix(data: seq<Byte>, i: nat, n: nat)
    requires i <= n && OffsetFrom(data, 0, n).Some?
    ensures OffsetFrom(data, 0, i).Some?
    ensures i < n ==> Continues(data, OffsetFrom(data, 0, i).value)
  {
    hide Continues, TakeEntry;
    OffsetAppend(data, 0, i, n - i);
  }

  /** A run of that many iterations has taken one offset twice. */
  lemma LongRunRevisits(data: seq<Byte>)
    requires OffsetFrom(data, 0, Enough(data)).Some?
    ensures Revisits(data)
  {
    hide OffsetFrom, TakeEntry;
    var n := Enough(data);
    var vs := Offsets(data, n);
    forall i | 0 <= i < n
      ensures 0 - |data| <= vs[i] < |data| && OffsetFrom(data, 0, i) == Some(vs[i])
    {
      OffsetPrefix(data, i, n);
      TakenInRange(data, vs[i]);
    }
    if forall i, j :: 0 <= i < j < n ==> vs[i] != vs[j] {
      DistinctFit(vs, 0 - |data|, |data|);
    } else {
      var i, j :| 0 <= i < j < n && vs[i] == vs[j];
      assert OffsetFrom(data, 0, i) == OffsetFrom(data, 0, j);
    }
  }

  /** A loop that comes back to an offset does so for ever. */
  lemma {:induction false} RevisitsForever(data: seq<Byte>, i: nat, j: nat, n: nat)
    requires i < j && OffsetFrom(data, 0, i).Some? && OffsetFrom(data, 0, i) == OffsetFrom(data, 0, j)
    ensures OffsetFrom(data, 0, n).Some?
    decreases n
  {
    hide OffsetFrom;
    if n <= j {
      OffsetPrefix(data, n, j);
    } else {
      OffsetAppend(data, 0, j, n - j);
      OffsetAppend(data, 0, i, n - j);
      RevisitsForever(data, i, j, i + (n - j));
    }
  }

  /**
   * For every byte string: the loop never returns exactly when it takes one offset twice, and the parser's
   * answer is Endless exactly then.
   */
  lemma EndlessIff(data: seq<Byte>)
    ensures NeverReturns(data) <==> Revisits(data)
    ensures ParseArchive(data).Endless? <==> Revisits(data)
  {
    hide OffsetFrom, RunArchive, Valid;
    RunEndless(data, 0, Enough(data));
    if OffsetFrom(data, 0, Enough(data)).Some? {
      LongRunRevisits(data);
    }
    if Revisits(data) {
      var i: nat, j: nat :| i < j && OffsetFrom(data, 0, i).Some? && OffsetFrom(data, 0, i) == OffsetFrom(data, 0, j);
      forall n: nat
        ensures OffsetFrom(data, 0, n).Some?
      {
        RevisitsForever(data, i, j, n);
      }
    }
  }

  // ---- the two parsers agree ----

  lemma {:induction false} RunsAgree(data: seq<Byte>, offset: int, turns: nat)
    ensures RunArchive(data, offset, turns).Endless? <==> RunNewc(data, offset, turns).Endless?
    ensures RunArchive(data, offset, turns).Accepted? ==>
      var a := RunArchive(data, offset, turns).value;
      Valid(a) && RunNewc(data, offset, turns) == Accepted(a.entries)
    ensures RunArchive(data, offset, turns).Refused? && RunNewc(data, offset, turns).Accepted? ==>
      TrailerCount(RunNewc(data, offset, turns).value) == 0
    decreases turns
  {
    hide TakeEntry, AllZero, Slice;
    if turns > 0 && offset < |data| {
      if |data| - offset < HEADER_SIZE && TakeEntry(data, offset).Some? {
        TakenInRange(data, offset);
      } else if TakeEntry(data, offset).Some? {
        var t := TakeEntry(data, offset).value;
        if t.entry.IsTrailer() {
          assert [t.entry][1..] == [] && TrailerCount([t.entry]) == 1;
        } else {
          RunsAgree(data, t.next, turns - 1);
          if RunNewc(data, t.next, turns - 1).Accepted? {
            LeadCount(t.entry, RunNewc(data, t.next, turns - 1));
          }
        }
      }
    }
  }

  lemma LeadCount(e: Entry, v: Verdict<seq<Entry>>)
    requires !e.IsTrailer() && v.Accepted?
    ensures TrailerCount([e] + v.value) == TrailerCount(v.value)
    ensures Population(v.value) ==> Population([e] + v.value)
  {
    assert ([e] + v.value)[1..] == v.value;
  }

  /** Both parsers accept the same byte strings with the same entries, and loop for ever on the same ones. */
  lemma ParsersAgree(data: seq<Byte>)
    ensures ParseNewc(data) ==
      match ParseArchive(data)
      case Accepted(a) => Accepted(a.entries)
      case Refused => Refused
      case Endless => Endless
  {
    hide RunArchive, RunNewc, AllZero;
    RunsAgree(data, 0, Enough(data));
  }

  // ---- runs without negative sizes ----

  lemma AlignShift(offset: nat, n: nat)
    requires offset % 4 == 0
    ensures AlignInt(offset + n) == offset + Align4(n)
  {}

  lemma SliceInside(data: seq<Byte>, a: nat, b: nat)
    requires a <= b <= |data|
    ensures Slice(data, a, b) == data[a..b]
  {}

  /** At an aligned offset inside the archive, an entry without a negative size is the straight reading. */
  lemma TakenStraight(data: seq<Byte>, offset: nat)
    requires offset <= |data| && offset % 4 == 0
    ensures ParseEntry(data[offset..]).Some? <==>
      TakeEntry(data, offset).Some? && TakeEntry(data, offset).value.size >= 0
    ensures ParseEntry(data[offset..]).Some? ==>
      var p, t := ParseEntry(data[offset..]).value, TakeEntry(data, offset).value;
      t.entry == p.entry && t.next == offset + p.next
  {
    hide DecodeFields, TakeFields, MetaOf, Align4;
    var rest := data[offset..];
    if |rest| >= HEADER_SIZE {
      SliceInside(data, offset, offset + HEADER_SIZE);
      var header := Slice(data, offset, offset + HEADER_SIZE);
      hide Slice;
      assert header == rest[..HEADER_SIZE];
      assert header[..6] == rest[..6] && header[6..] == rest[6..HEADER_SIZE];
      if DecodeFields(header[6..]).Some? {
        FieldsStraight(data, offset, header[..6], DecodeFields(header[6..]).value);
      }
    }
  }

  lemma NameStraight(data: seq<Byte>, offset: nat, named: nat)
    requires HEADER_SIZE < named && offset + named <= |data|
    ensures
      var name := data[offset + HEADER_SIZE..offset + named];
      name[..|name| - 1] == data[offset..][HEADER_SIZE..named - 1]
  {
    SliceOfSlice(data, offset, |data|, HEADER_SIZE, named - 1);
    SliceOfSlice(data, offset + HEADER_SIZE, offset + named, 0, named - 1 - HEADER_SIZE);
  }

  lemma FieldsStraight(data: seq<Byte>, offset: nat, magic: seq<Byte>, fields: seq<int>)
    requires offset + HEADER_SIZE <= |data| && offset % 4 == 0 && |fields| == FIELDS
    ensures
      var rest, t := data[offset..], TakeFields(data, offset + HEADER_SIZE, magic, fields);
      var named := HEADER_SIZE + fields[11];
      if t.Some? && fields[6] >= 0 then
        && t.value.size == fields[6]
        && fields[11] >= 1 && named <= |rest| && rest[named - 1] == 0 && fields[6] >= 0
          && Align4(named) + fields[6] <= |rest|
        && t.value.entry == Entry(magic, MetaOf(fields), rest[HEADER_SIZE..named - 1],
                                  rest[Align4(named)..Align4(named) + fields[6]])
        && t.value.next == offset + Align4(Align4(named) + fields[6])
      else
        (t.Some? ==> t.value.size == fields[6])
        && (fields[11] < 1 || named > |rest| || rest[named - 1] != 0 || fields[6] < 0
            || Align4(named) + fields[6] > |rest|)
  {
    hide Slice, Align4, AlignInt, MetaOf;
    var named := HEADER_SIZE + fields[11];
    if fields[11] >= 1 && offset + named <= |data| {
      SliceInside(data, offset + HEADER_SIZE, offset + named);
      AlignShift(offset, named);
      var name := data[offset + HEADER_SIZE..offset + named];
      assert name[|name| - 1] == data[offset..][named - 1];
      NameStraight(data, offset, named);
      if fields[6] >= 0 && offset + Align4(named) + fields[6] <= |data| {
        AlignShift(offset, Align4(named) + fields[6]);
        SliceInside(data, offset + Align4(named), offset + Align4(named) + fields[6]);
      }
    }
  }

  /** What the straight reading accepts, the loop accepts, with the same archive. */
  lemma {:induction false} WalkRuns(data: seq<Byte>, offset: nat, turns: nat)
    requires offset % 4 == 0 && Walk(From(data, offset)).Some? && turns > |From(data, offset)|
    ensures RunArchive(data, offset, turns) == Accepted(Walk(From(data, offset)).value)
    decreases turns
  {
    hide TakeEntry, ParseEntry, AllZero, Slice;
    InsideOnly(data, offset);
    TakenStraight(data, offset);
    var p := ParseEntry(data[offset..]).value;
    ParseAdvances(data[offset..]);
    FromFrom(data, offset, p.next);
    TailSlice(data, offset + p.next);
    if !p.entry.IsTrailer() {
      WalkRuns(data, offset + p.next, turns - 1);
    }
  }

  lemma InsideOnly(data: seq<Byte>, offset: nat)
    requires Walk(From(data, offset)).Some?
    ensures offset < |data| && From(data, offset) == data[offset..] && ParseEntry(data[offset..]).Some?
  {
    hide AllZero;
  }

  lemma FromFrom(data: seq<Byte>, offset: nat, more: nat)
    requires offset <= |data|
    ensures From(data[offset..], more) == From(data, offset + more)
  {}

  lemma TailSlice(data: seq<Byte>, offset: nat)
    ensures Slice(data, offset, |data|) == From(data, offset)
  {}

  /** No iteration of the run meets a negative size field. */
  ghost predicate UnsignedFrom(data: seq<Byte>, offset: int) {
    forall n: nat :: OffsetFrom(data, offset, n).Some? ==> UnsignedAt(data, OffsetFrom(data, offset, n).value)
  }

  predicate UnsignedAt(data: seq<Byte>, offset: int) {
    offset < |data| && TakeEntry(data, offset).Some? ==> TakeEntry(data, offset).value.size >= 0
  }

  lemma UnsignedStep(data: seq<Byte>, offset: int)
    requires UnsignedFrom(data, offset) && Continues(data, offset)
    ensures UnsignedFrom(data, TakeEntry(data, offset).value.next)
  {
    hide TakeEntry, UnsignedAt;
    var next := TakeEntry(data, offset).value.next;
    forall n: nat | OffsetFrom(data, next, n).Some?
      ensures UnsignedAt(data, OffsetFrom(data, next, n).value)
    {
      assert OffsetFrom(data, offset, n + 1) == OffsetFrom(data, next, n);
    }
  }

  lemma {:induction false} UnsignedRunFrom(data: seq<Byte>, offset: nat, turns: nat)
    requires offset % 4 == 0 && UnsignedFrom(data, offset) && turns > |From(data, offset)|
    ensures RunArchive(data, offset, turns) ==
      match Walk(From(data, offset)) case Some(a) => Accepted(a) case None => Refused
    decreases turns
  {
    hide TakeEntry, ParseEntry, AllZero, Slice, UnsignedFrom, UnsignedAt;
    if offset < |data| {
      UnsignedStraight(data, offset);
      if TakeEntry(data, offset).Some? {
        var p := ParseEntry(data[offset..]).value;
        ParseAdvances(data[offset..]);
        FromFrom(data, offset, p.next);
        TailSlice(data, offset + p.next);
        if !p.entry.IsTrailer() {
          UnsignedStep(data, offset);
          UnsignedRunFrom(data, offset + p.next, turns - 1);
        }
      }
    } else {
      WalkNothing(From(data, offset));
    }
  }

  lemma UnsignedStraight(data: seq<Byte>, offset: nat)
    requires UnsignedFrom(data, offset) && offset < |data| && offset % 4 == 0
    ensures From(data, offset) == data[offset..]
    ensures ParseEntry(data[offset..]).Some? <==> TakeEntry(data, offset).Some?
    ensures ParseEntry(data[offset..]).Some? ==>
      var p, t := ParseEntry(data[offset..]).value, TakeEntry(data, offset).value;
      t.entry == p.entry && t.next == offset + p.next
  {
    hide TakeEntry, ParseEntry, Continues;
    assert OffsetFrom(data, offset, 0) == Some(offset);
    TakenStraight(data, offset);
  }

  lemma WalkNothing(data: seq<Byte>)
    requires data == []
    ensures Walk(data).None?
  {}

  /**
   * A run that meets no negative size field ends, and its answer is the straight reading's.
   */
  lemma UnsignedRun(data: seq<Byte>)
    requires UnsignedFrom(data, 0)
    ensures ParseArchive(data) == match ReadArchive(data) case Some(a) => Accepted(a) case None => Refused
    ensures !NeverReturns(data)
  {
    hide UnsignedFrom, Walk, RunArchive;
    assert From(data, 0) == data;
    UnsignedRunFrom(data, 0, Enough(data));
    EndlessIff(data);
  }

  // ---- what is accepted ----

  /** What parsing guarantees of an entry. */
  predicate WellParsed(e: Entry) {
    KnownMagic(e) && |e.name| + 1 < TWO32 && (Unsigned32(e) <==> NonNegative(e))
  }

  /**
   * Every entry the loop takes; its payload is a part of the archive, so only archives of 4 GiB can hold too
   * long a one.
   */
  lemma TakenFacts(data: seq<Byte>, offset: int)
    requires TakeEntry(data, offset).Some?
    ensures WellParsed(TakeEntry(data, offset).value.entry)
    ensures |TakeEntry(data, offset).value.entry.data| <= |data|
  {
    var header := Slice(data, offset, offset + HEADER_SIZE);
    DecodedNarrow(header[6..]);
    var fields := DecodeFields(header[6..]).value;
    hide DecodeFields, NonNegative, Unsigned32;
    assert Narrow(fields[0]) && Narrow(fields[1]) && Narrow(fields[2]) && Narrow(fields[3]) && Narrow(fields[4]);
    assert Narrow(fields[5]) && Narrow(fields[7]) && Narrow(fields[8]) && Narrow(fields[9]) && Narrow(fields[10]);
    assert Narrow(fields[11]) && Narrow(fields[12]);
    NarrowMeta(MetaOf(fields));
    SliceShort(data, offset + HEADER_SIZE, offset + HEADER_SIZE + fields[11]);
    hide Slice;
  }

  /** A slice between two positions that are not out of order is never longer than their distance. */
  lemma SliceShort(s: seq<Byte>, a: int, b: int)
    requires a <= b
    ensures |Slice(s, a, b)| <= b - a
  {}

  lemma {:induction false} RunFacts(data: seq<Byte>, offset: int, turns: nat)
    requires RunArchive(data, offset, turns).Accepted?
    ensures forall i :: 0 <= i < |RunArchive(data, offset, turns).value.entries| ==>
      var e := RunArchive(data, offset, turns).value.entries[i];
      WellParsed(e) && |e.data| <= |data|
    decreases turns
  {
    hide TakeEntry, AllZero, Slice, WellParsed;
    TakenFacts(data, offset);
    var t := TakeEntry(data, offset).value;
    if !t.entry.IsTrailer() {
      RunFacts(data, t.next, turns - 1);
    }
  }

  /** What every accepted archive satisfies: serializable, with well-parsed entries. */
  lemma ParsedFacts(data: seq<Byte>, a: Archive)
    requires ParseArchive(data) == Accepted(a)
    ensures SerializeArchive(a).Some?
    ensures forall i :: 0 <= i < |a.entries| ==> WellParsed(a.entries[i]) && |a.entries[i].data| <= |data|
  {
    hide RunArchive, AllZero, TrailerCount, Unsigned32, NonNegative, EmitAll;
    RunFacts(data, 0, Enough(data));
    forall i | 0 <= i < |a.entries|
      ensures KnownMagic(a.entries[i])
    {
      assert WellParsed(a.entries[i]);
    }
  }

  // ---- round trips ----

  predicate AllFit(es: seq<Entry>) {
    forall i :: 0 <= i < |es| ==> SizesFit(es[i])
  }

  /** Reading an emitted entry back shows its sizes reduced to 32 bits. */
  lemma MaskedSizes(front: seq<Byte>, e: Entry, rest: seq<Byte>)
    requires KnownMagic(e) && |front| % 4 == 0
    requires TakeEntry(front + (Emit(e) + rest), |front|).Some?
    ensures
      var t := TakeEntry(front + (Emit(e) + rest), |front|).value;
      |t.entry.name| + 1 == Mask(|e.name| + 1) && |t.entry.data| == Mask(|e.data|)
  {
    hide Emit, EncodeFields, DecodeFields, MaskAll, Values, MetaOf, Align4, TakeFields;
    var s := front + (Emit(e) + rest);
    EmitParts(e, rest);
    FieldsRoundTrip(Values(e));
    var header := Slice(s, |front|, |front| + HEADER_SIZE);
    SliceInside(s, |front|, |front| + HEADER_SIZE);
    hide Slice;
    assert s[|front|..] == Emit(e) + rest;
    assert header[6..] == (Emit(e) + rest)[6..HEADER_SIZE];
    var fields := DecodeFields(header[6..]).value;
    SizeValues(e);
    FieldsStraight(s, |front|, header[..6], fields);
  }

  lemma SizeValues(e: Entry)
    ensures MaskAll(Values(e))[6] == Mask(|e.data|) && MaskAll(Values(e))[11] == Mask(|e.name| + 1)
    ensures MaskAll(Values(e))[6] >= 0
  {
    hide MaskAll;
  }

  lemma {:induction false} ReadsBackFit(front: seq<Byte>, es: seq<Entry>, trailing: seq<Byte>, turns: nat,
                                        ws: seq<Entry>,
                                        tail: seq<Byte>)
    requires KnownMagics(es) && |front| % 4 == 0
    requires RunArchive(front + (EmitAll(es) + trailing), |front|, turns) == Accepted(Archive(ws, tail))
    requires |ws| == |es|
    requires forall i :: 0 <= i < |es| ==> |ws[i].name| == |es[i].name| && |ws[i].data| == |es[i].data|
    ensures AllFit(es)
    decreases |es|
  {
    hide TakeEntry, AllZero, Slice, Emit, KnownMagic;
    if es != [] {
      var e, rest := es[0], EmitAll(es[1..]) + trailing;
      var s := front + (EmitAll(es) + trailing);
      assert EmitAll(es) + trailing == Emit(e) + rest;
      MaskedSizes(front, e, rest);
      var t := TakeEntry(s, |front|).value;
      assert ws[0] == t.entry;
      assert SizesFit(e);
      if |es| > 1 {
        EntryTaken(front, e, rest);
        var next := front + Emit(e);
        assert s == next + rest;
        AlignedEmit(e);
        ReadsBackFit(next, es[1..], trailing, turns - 1, ws[1..], tail);
        assert forall i :: 1 <= i < |es| ==> es[i] == es[1..][i - 1];
      }
    }
  }

  lemma AlignedEmit(e: Entry)
    requires KnownMagic(e)
    ensures |Emit(e)| % 4 == 0
  {
    hide EncodeFields, Values;
    EmitParts(e, []);
  }

  lemma EntryTaken(front: seq<Byte>, e: Entry, rest: seq<Byte>)
    requires KnownMagic(e) && SizesFit(e) && |front| % 4 == 0
    ensures
      var t := TakeEntry(front + (Emit(e) + rest), |front|);
      t.Some? && t.value.entry == MaskEntry(e) && t.value.next == |front| + |Emit(e)|
  {
    hide Emit, TakeEntry, ParseEntry, MaskEntry;
    var s := front + (Emit(e) + rest);
    assert s[|front|..] == Emit(e) + rest;
    EntryRoundTrip(e, rest);
    TakenStraight(s, |front|);
  }

  /**
   * Parsing what was serialized gives the archive back with its metadata reduced to 32 bits exactly when
   * every name and payload has a 32-bit size; so it is the identity exactly when the metadata fits as well.
   */
  lemma ArchiveRoundTrip(a: Archive)
    requires SerializeArchive(a).Some?
    ensures ParseArchive(SerializeArchive(a).value) == Accepted(MaskArchive(a)) <==> AllFit(a.entries)
    ensures ParseArchive(SerializeArchive(a).value) == Accepted(a) <==>
      AllFit(a.entries) && forall i :: 0 <= i < |a.entries| ==> Unsigned32(a.entries[i])
  {
    hide Walk, EmitAll, AllZero, TrailerCount, RunArchive, SizesFit, MaskEntry;
    var s, m := SerializeArchive(a).value, MaskArchive(a);
    MaskedSame(a.entries, m.entries);
    if AllFit(a.entries) {
      WalkRoundTrip(a.entries, a.trailing);
      assert From(s, 0) == s;
      WalkRuns(s, 0, Enough(s));
      MaskKeepsPopulation(a.entries, m.entries);
      MaskKeepsName(a.entries[|a.entries| - 1]);
    } else {
      assert s == [] + (EmitAll(a.entries) + a.trailing);
      NotReadBack(a, m);
      NotReadBack(a, a);
    }
  }

  lemma NotReadBack(a: Archive, b: Archive)
    requires SerializeArchive(a).Some? && !AllFit(a.entries) && |b.entries| == |a.entries|
    requires forall i :: 0 <= i < |a.entries| ==>
      b.entries[i].name == a.entries[i].name && b.entries[i].data == a.entries[i].data
    ensures ParseArchive(SerializeArchive(a).value) != Accepted(b)
  {
    hide EmitAll, AllZero, TrailerCount, RunArchive, AllFit;
    var s := SerializeArchive(a).value;
    assert s == [] + (EmitAll(a.entries) + a.trailing);
    if ParseArchive(s) == Accepted(b) {
      ReadsBackFit([], a.entries, a.trailing, Enough(s), b.entries, b.trailing);
    }
  }

  lemma MaskedSame(es: seq<Entry>, ms: seq<Entry>)
    requires ms == MaskEntries(es)
    ensures ms == es <==> forall i :: 0 <= i < |es| ==> Unsigned32(es[i])
    ensures forall i :: 0 <= i < |es| ==> ms[i].name == es[i].name && ms[i].data == es[i].data
  {}

  /**
   * Whatever the parser accepts can be serialized, and parsing that again gives the same archive exactly
   * when no metadata field is negative and every payload is shorter than 4 GiB. A negative size field does no
   * harm here: the payload it selected is written with its own length.
   */
  lemma ReparseIff(data: seq<Byte>, a: Archive)
    requires ParseArchive(data) == Accepted(a)
    ensures SerializeArchive(a).Some?
    ensures ParseArchive(SerializeArchive(a).value) == Accepted(a) <==>
      forall i :: 0 <= i < |a.entries| ==> NonNegative(a.entries[i]) && |a.entries[i].data| < TWO32
    ensures |data| < TWO32 ==> AllFit(a.entries)
  {
    hide RunArchive, EmitAll, AllZero, Unsigned32, NonNegative, TrailerCount;
    ParsedFacts(data, a);
    assert forall i :: 0 <= i < |a.entries| ==> WellParsed(a.entries[i]);
    ArchiveRoundTrip(a);
  }

  /** Serializing what was read back gives the same bytes. */
  lemma SerializeStable(a: Archive)
    requires SerializeArchive(a).Some? && AllFit(a.entries)
    ensures
      var again := ParseArchive(SerializeArchive(a).value);
      again.Accepted? && SerializeArchive(again.value) == SerializeArchive(a)
  {
    hide EmitAll, RunArchive, AllZero, TrailerCount, MaskEntry;
    ArchiveRoundTrip(a);
    var m := MaskArchive(a);
    EmitMasked(a.entries, m.entries);
    MaskKeepsPopulation(a.entries, m.entries);
    MaskKeepsName(a.entries[|a.entries| - 1]);
  }
}
