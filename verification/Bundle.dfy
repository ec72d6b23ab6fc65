/**
 * The retained-runtime bundle at the end of the dispatcher executable: the host encoder, the strict host
 * validator, and what the looser device decoder makes of the same bytes.
 */
module Bundle {
  import opened ByteStrings
  import opened Wrappers

  const HEAD_MAGIC: seq<Byte> := Ascii("TFRTB001")
  const END_MAGIC: seq<Byte> := Ascii("TFRTEND1")
  const RUNTIME_PREFIX: seq<Byte> := Ascii("/dev/treeforge-bootstrap-runtime/")
  const SOURCE_PREFIX: seq<Byte> := Ascii("/treeforge-bootstrap-retained/")
  const PATH_CAPACITY: nat := 512
  const MODE_LIMIT: nat := 0x1ff // 0777
  const MAX_ITEMS: nat := 256

  const REQUIRED: set<seq<Byte>> := {
    RUNTIME_PREFIX + Ascii("treeforge-bootstrap-adb-service"),
    RUNTIME_PREFIX + Ascii("etc/treeforge-bootstrap-release"),
    RUNTIME_PREFIX + Ascii("system/bin/linker64"),
    RUNTIME_PREFIX + Ascii("system/bin/treeforge-bootstrap-adbd")
  }

  /** One bundle entry; mode 0 marks a symbolic link whose payload is its NUL-terminated target. */
  datatype Item = Item(path: seq<Byte>, mode: nat, payload: seq<Byte>)

  predicate IsAscii(s: seq<Byte>) {
    forall i :: 0 <= i < |s| ==> s[i] < 128
  }

  predicate HasNul(s: seq<Byte>) {
    exists i :: 0 <= i < |s| && s[i] == 0
  }

  predicate StartsWith(s: seq<Byte>, prefix: seq<Byte>) {
    |prefix| <= |s| && s[..|prefix|] == prefix
  }

  predicate Continuation(b: Byte) {
    0x80 <= b <= 0xbf
  }

  /** Strict UTF-8: shortest forms, no surrogates, nothing above U+10FFFF. */
  predicate ValidUtf8(s: seq<Byte>)
    decreases |s|
  {
    if s == [] then true
    else if s[0] < 0x80 then ValidUtf8(s[1..])
    else if 0xc2 <= s[0] <= 0xdf then |s| >= 2 && Continuation(s[1]) && ValidUtf8(s[2..])
    else if 0xe0 <= s[0] <= 0xef then
      && |s| >= 3 && Continuation(s[1]) && Continuation(s[2])
      && (s[0] == 0xe0 ==> s[1] >= 0xa0) && (s[0] == 0xed ==> s[1] <= 0x9f)
      && ValidUtf8(s[3..])
    else if 0xf0 <= s[0] <= 0xf4 then
      && |s| >= 4 && Continuation(s[1]) && Continuation(s[2]) && Continuation(s[3])
      && (s[0] == 0xf0 ==> s[1] >= 0x90) && (s[0] == 0xf4 ==> s[1] <= 0x8f)
      && ValidUtf8(s[4..])
    else false
  }

  // ---- the wire ----

  /** The fields fit their widths. */
  predicate WireFits(i: Item) {
    |i.path| < TWO32 && i.mode < TWO32 && |i.payload| < TWO64
  }

  function EncodeItem(i: Item): (s: seq<Byte>)
    requires WireFits(i)
    ensures |s| == 16 + |i.path| + |i.payload|
  {
    (LE32(|i.path|) + LE32(i.mode) + LE64(|i.payload|)) + i.path + i.payload
  }

  predicate AllFit(items: seq<Item>) {
    forall k :: 0 <= k < |items| ==> WireFits(items[k])
  }

  function EncodeItems(items: seq<Item>): seq<Byte>
    requires AllFit(items)
  {
    if items == [] then [] else EncodeItem(items[0]) + EncodeItems(items[1..])
  }

  function Body(items: seq<Item>, reserved: seq<Byte>): (s: seq<Byte>)
    requires AllFit(items) && |items| < TWO32 && |reserved| == 4
    ensures |s| >= 16
  {
    (HEAD_MAGIC + LE32(|items|) + reserved) + EncodeItems(items)
  }

  function Packed(items: seq<Item>, reserved: seq<Byte>): seq<Byte>
    requires AllFit(items) && |items| < TWO32 && |reserved| == 4 && |Body(items, reserved)| < TWO64
  {
    Body(items, reserved) + (END_MAGIC + LE64(|Body(items, reserved)|))
  }

  /** The entry framed at the front of `s`, by its declared lengths alone. */
  function Frame(s: seq<Byte>): (r: Option<Item>)
    ensures r.Some? ==> 16 + |r.value.path| + |r.value.payload| <= |s|
  {
    if |s| < 16 then None
    else
      var pathLength, mode, size := FromLE(s[0..4]), FromLE(s[4..8]), FromLE(s[8..16]);
      if 16 + pathLength + size > |s| then None
      else Some(Item(s[16..16 + pathLength], mode, s[16 + pathLength..16 + pathLength + size]))
  }

  function Length(i: Item): nat {
    16 + |i.path| + |i.payload|
  }

  lemma FrameOfEncoded(i: Item, rest: seq<Byte>)
    requires WireFits(i)
    ensures Frame(EncodeItem(i) + rest) == Some(i)
    ensures (EncodeItem(i) + rest)[Length(i)..] == rest
  {
    hide FromLE, ToLE, LE32, LE64;
    var head := LE32(|i.path|) + LE32(i.mode) + LE64(|i.payload|);
    var s := EncodeItem(i) + rest;
    assert s == head + i.path + i.payload + rest;
    hide EncodeItem;
    assert s[0..4] == head[0..4] == LE32(|i.path|);
    assert s[4..8] == head[4..8] == LE32(i.mode);
    assert s[8..16] == head[8..16] == LE64(|i.payload|);
    assert s[16..16 + |i.path|] == i.path;
    assert s[16 + |i.path|..Length(i)] == i.payload;
    assert s[Length(i)..] == rest;
  }

  lemma FrameIsEncoded(s: seq<Byte>, i: Item)
    requires Frame(s) == Some(i)
    ensures WireFits(i) && EncodeItem(i) == s[..Length(i)]
  {
    hide FromLE, ToLE, Pow256;
    HeadIs(s);
    hide LE32, LE64;
    var pathLength := |i.path|;
    assert s[..Length(i)] == s[0..16] + s[16..16 + pathLength] + s[16 + pathLength..Length(i)];
  }

  lemma HeadIs(s: seq<Byte>)
    requires |s| >= 16
    ensures FromLE(s[0..4]) < TWO32 && FromLE(s[4..8]) < TWO32 && FromLE(s[8..16]) < TWO64
    ensures s[0..16] == LE32(FromLE(s[0..4])) + LE32(FromLE(s[4..8])) + LE64(FromLE(s[8..16]))
  {
    hide FromLE, LE32, LE64;
    LE32Of(s[0..4]);
    LE32Of(s[4..8]);
    LE64Of(s[8..16]);
    assert s[0..16] == s[0..4] + s[4..8] + s[8..16];
  }

  /** A frame is an encoded entry with anything behind it. */
  lemma FrameIff(s: seq<Byte>, i: Item)
    ensures Frame(s) == Some(i) <==> WireFits(i) && EncodeItem(i) <= s
  {
    hide Frame, EncodeItem, WireFits;
    if Frame(s) == Some(i) {
      FrameIsEncoded(s, i);
    }
    if WireFits(i) && EncodeItem(i) <= s {
      FrameOfEncoded(i, s[|EncodeItem(i)|..]);
      assert EncodeItem(i) + s[|EncodeItem(i)|..] == s;
    }
  }

  /** An entry on the wire: path length, mode and payload size, least significant byte first, then path and payload. */
  lemma ItemLayout(i: Item)
    requires WireFits(i)
    ensures
      var s := EncodeItem(i);
      && |s| == 16 + |i.path| + |i.payload|
      && FromLE(s[0..4]) == |i.path| && FromLE(s[4..8]) == i.mode && FromLE(s[8..16]) == |i.payload|
      && s[16..16 + |i.path|] == i.path && s[16 + |i.path|..] == i.payload
  {
    hide FromLE, ToLE, LE32, LE64;
    var a, b, c := LE32(|i.path|), LE32(i.mode), LE64(|i.payload|);
    var head := a + b + c;
    assert head[0..4] == a && head[4..8] == b && head[8..16] == c;
    var s := EncodeItem(i);
    assert s == head + i.path + i.payload;
    assert s[0..4] == head[0..4] && s[4..8] == head[4..8] && s[8..16] == head[8..16];
  }

  /**
   * A packed list: TFRTB001, the number of entries, four reserved bytes, the entries, TFRTEND1, and the number of bytes
   * in front of that.
   */
  lemma PackedLayout(items: seq<Item>, reserved: seq<Byte>)
    requires AllFit(items) && |items| < TWO32 && |reserved| == 4 && |Body(items, reserved)| < TWO64
    ensures
      var s := Packed(items, reserved);
      var end := 16 + |EncodeItems(items)|;
      && |s| == end + 16
      && s[0..8] == [0x54, 0x46, 0x52, 0x54, 0x42, 0x30, 0x30, 0x31] && FromLE(s[8..12]) == |items|
      && s[12..16] == reserved && s[16..end] == EncodeItems(items)
      && s[end..end + 8] == [0x54, 0x46, 0x52, 0x54, 0x45, 0x4e, 0x44, 0x31] && FromLE(s[end + 8..]) == end
  {
    hide FromLE, ToLE, LE32, LE64, EncodeItems;
    assert HEAD_MAGIC == [0x54, 0x46, 0x52, 0x54, 0x42, 0x30, 0x30, 0x31];
    assert END_MAGIC == [0x54, 0x46, 0x52, 0x54, 0x45, 0x4e, 0x44, 0x31];
    var count, entries := LE32(|items|), EncodeItems(items);
    var body := (HEAD_MAGIC + count + reserved) + entries;
    var size := LE64(|body|);
    var s := Packed(items, reserved);
    assert s == body + (END_MAGIC + size);
    PackedSlices(HEAD_MAGIC, count, reserved, entries, END_MAGIC, size);
  }

  lemma PackedSlices(a: seq<Byte>, b: seq<Byte>, c: seq<Byte>, d: seq<Byte>, e: seq<Byte>, f: seq<Byte>)
    requires |a| == 8 && |b| == |c| == 4 && |e| == |f| == 8
    ensures
      var s := (a + b + c) + d + (e + f);
      && s[0..8] == a && s[8..12] == b && s[12..16] == c && s[16..16 + |d|] == d
      && s[16 + |d|..16 + |d| + 8] == e && s[16 + |d| + 8..] == f
  {}

  /** More bytes behind a framed entry change nothing. */
  lemma FrameExtends(s: seq<Byte>, more: seq<Byte>)
    requires Frame(s).Some?
    ensures Frame(s + more) == Frame(s)
    ensures (s + more)[Length(Frame(s).value)..] == s[Length(Frame(s).value)..] + more
  {
    var i := Frame(s).value;
    var t := s + more;
    assert t[0..4] == s[0..4] && t[4..8] == s[4..8] && t[8..16] == s[8..16];
    hide FromLE;
    assert t[16..16 + |i.path|] == s[16..16 + |i.path|];
    assert t[16 + |i.path|..Length(i)] == s[16 + |i.path|..Length(i)];
  }

  // ---- the host validator ----

  /** A link target with its terminator: non-empty, no NUL inside, UTF-8. */
  predicate LinkPayload(p: seq<Byte>) {
    |p| >= 2 && p[|p| - 1] == 0 && !HasNul(p[..|p| - 1]) && ValidUtf8(p[..|p| - 1])
  }

  predicate Accepted(i: Item, seen: set<seq<Byte>>) {
    && 0 < |i.path| < PATH_CAPACITY
    && i.mode <= MODE_LIMIT
    && IsAscii(i.path) && StartsWith(i.path, RUNTIME_PREFIX) && i.path !in seen
    && (i.mode == 0 ==> LinkPayload(i.payload))
  }

  predicate AllAccepted(items: seq<Item>, seen: set<seq<Byte>>) {
    items == [] || (Accepted(items[0], seen) && AllAccepted(items[1..], seen + {items[0].path}))
  }

  /** The validator's walk: exactly `count` accepted entries, and nothing behind them. */
  function Decode(body: seq<Byte>, count: nat, seen: set<seq<Byte>>): Option<seq<Item>>
    decreases count
  {
    if count == 0 then if body == [] then Some([]) else None
    else
      var i := Frame(body);
      if i.None? || !Accepted(i.value, seen) then None
      else
        match Decode(body[Length(i.value)..], count - 1, seen + {i.value.path})
        case None => None
        case Some(items) => Some([i.value] + items)
  }

  predicate HasPath(items: seq<Item>, path: seq<Byte>) {
    exists k :: 0 <= k < |items| && items[k].path == path
  }

  predicate HasRequired(items: seq<Item>) {
    forall path :: path in REQUIRED ==> HasPath(items, path)
  }

  /** Where the bundle of an executable lies: start and end of its body, or None. */
  datatype Span = Span(start: nat, end: nat)

  function Locate(file: seq<Byte>): (r: Option<Span>)
    ensures r.Some? ==> r.value.start + 16 <= r.value.end && r.value.end + 16 == |file|
  {
    if |file| < 16 || file[|file| - 16..|file| - 8] != END_MAGIC then None
    else
      var size := FromLE(file[|file| - 8..]);
      if size < 16 || size > |file| - 16 || file[|file| - 16 - size..][..8] != HEAD_MAGIC then None
      else Some(Span(|file| - 16 - size, |file| - 16))
  }

  /** The bundle's place, by the bytes at both of its ends: TFRTB001 at its start, TFRTEND1 and its size behind it. */
  predicate Bounded(file: seq<Byte>, at: Span) {
    && at.start + 16 <= at.end && at.end + 16 == |file|
    && file[at.start..at.start + 8] == [0x54, 0x46, 0x52, 0x54, 0x42, 0x30, 0x30, 0x31]
    && file[at.end..at.end + 8] == [0x54, 0x46, 0x52, 0x54, 0x45, 0x4e, 0x44, 0x31]
    && FromLE(file[at.end + 8..]) == at.end - at.start
  }

  lemma LocateIff(file: seq<Byte>, at: Span)
    ensures Locate(file) == Some(at) <==> Bounded(file, at)
  {
    hide FromLE;
    assert HEAD_MAGIC == [0x54, 0x46, 0x52, 0x54, 0x42, 0x30, 0x30, 0x31];
    assert END_MAGIC == [0x54, 0x46, 0x52, 0x54, 0x45, 0x4e, 0x44, 0x31];
    if at.start + 16 <= at.end && at.end + 16 == |file| {
      assert file[at.start..][..8] == file[at.start..at.start + 8];
      assert file[|file| - 16..|file| - 8] == file[at.end..at.end + 8];
      assert file[|file| - 8..] == file[at.end + 8..];
    }
    if Locate(file) == Some(at) {
      assert at.start == |file| - 16 - FromLE(file[|file| - 8..]);
    }
  }

  function Count(file: seq<Byte>, at: Span): nat
    requires at.start + 16 <= at.end && at.end + 16 == |file|
  {
    FromLE(file[at.start + 8..at.start + 12])
  }

  /** The host's check of a dispatcher executable: the decoded entries, or None for any refusal. */
  function Validate(file: seq<Byte>): Option<seq<Item>> {
    if |file| < 32 || Locate(file).None? then None
    else
      var at := Locate(file).value;
      var count := Count(file, at);
      if count == 0 || count > MAX_ITEMS then None
      else
        match Decode(file[at.start + 16..at.end], count, {})
        case None => None
        case Some(items) => if HasRequired(items) then Some(items) else None
  }

  /** The lists the validator is meant to accept, said of the entries alone. */
  predicate WellFormed(items: seq<Item>) {
    && 0 < |items| <= MAX_ITEMS
    && (forall k :: 0 <= k < |items| ==> Accepted(items[k], {}))
    && (forall j, k :: 0 <= j < k < |items| ==> items[j].path != items[k].path)
    && HasRequired(items)
  }

  /**
   * What is asked of one entry: a path of 1 to 511 ASCII bytes under the runtime's directory, permission bits of at
   * most 0777, and for a link a target of UTF-8 text without NUL in front of the NUL that ends it.
   */
  predicate GoodItem(i: Item) {
    && 1 <= |i.path| <= 511 && (forall k :: 0 <= k < |i.path| ==> i.path[k] < 128)
    && Ascii("/dev/treeforge-bootstrap-runtime/") <= i.path
    && i.mode <= 511
    && (i.mode == 0 ==>
          && |i.payload| >= 2 && i.payload[|i.payload| - 1] == 0
          && (forall k :: 0 <= k < |i.payload| - 1 ==> i.payload[k] != 0)
          && ValidUtf8(i.payload[..|i.payload| - 1]))
  }

  lemma AcceptedIff(i: Item)
    ensures Accepted(i, {}) <==> GoodItem(i)
  {
    hide ValidUtf8, Ascii;
    if i.mode == 0 && |i.payload| >= 2 {
      var target := i.payload[..|i.payload| - 1];
      assert HasNul(target) <==> exists k :: 0 <= k < |target| && target[k] == 0;
    }
  }

  /** Well-formed lists, spelled out: one to 256 good entries with distinct paths, the four required ones among them. */
  lemma WellFormedIff(items: seq<Item>)
    ensures WellFormed(items) <==>
      && 1 <= |items| <= 256
      && (forall k :: 0 <= k < |items| ==> GoodItem(items[k]))
      && (forall j, k :: 0 <= j < k < |items| ==> items[j].path != items[k].path)
      && HasPath(items, Ascii("/dev/treeforge-bootstrap-runtime/") + Ascii("treeforge-bootstrap-adb-service"))
      && HasPath(items, Ascii("/dev/treeforge-bootstrap-runtime/") + Ascii("etc/treeforge-bootstrap-release"))
      && HasPath(items, Ascii("/dev/treeforge-bootstrap-runtime/") + Ascii("system/bin/linker64"))
      && HasPath(items, Ascii("/dev/treeforge-bootstrap-runtime/") + Ascii("system/bin/treeforge-bootstrap-adbd"))
  {
    hide Accepted, GoodItem, HasPath, Ascii;
    forall k | 0 <= k < |items|
      ensures Accepted(items[k], {}) <==> GoodItem(items[k])
    {
      AcceptedIff(items[k]);
    }
  }

  lemma {:induction false} AcceptedDistinct(items: seq<Item>, seen: set<seq<Byte>>)
    ensures AllAccepted(items, seen) <==>
      && (forall k :: 0 <= k < |items| ==> Accepted(items[k], seen))
      && (forall j, k :: 0 <= j < k < |items| ==> items[j].path != items[k].path)
  {
    hide IsAscii, LinkPayload, StartsWith;
    if items != [] {
      var rest, seen' := items[1..], seen + {items[0].path};
      AcceptedDistinct(rest, seen');
      if AllAccepted(items, seen) {
        forall k | 0 <= k < |items|
          ensures Accepted(items[k], seen)
        {
          assert k > 0 ==> items[k] == rest[k - 1];
        }
        forall j, k | 0 <= j < k < |items|
          ensures items[j].path != items[k].path
        {
          assert items[k] == rest[k - 1];
          assert j > 0 ==> items[j] == rest[j - 1];
        }
      }
      if (forall k :: 0 <= k < |items| ==> Accepted(items[k], seen))
         && (forall j, k :: 0 <= j < k < |items| ==> items[j].path != items[k].path) {
        forall k | 0 <= k < |rest|
          ensures Accepted(rest[k], seen')
        {
          assert rest[k] == items[k + 1] && items[0].path != items[k + 1].path;
        }
      }
    }
  }

  lemma {:induction false} DecodeOfEncoded(items: seq<Item>, seen: set<seq<Byte>>)
    requires AllFit(items)
    ensures Decode(EncodeItems(items), |items|, seen) == if AllAccepted(items, seen) then Some(items) else None
  {
    hide Frame, EncodeItem, Accepted, Length, WireFits;
    if items != [] {
      FrameOfEncoded(items[0], EncodeItems(items[1..]));
      DecodeOfEncoded(items[1..], seen + {items[0].path});
      assert [items[0]] + items[1..] == items;
    }
  }

  lemma {:induction false} DecodedIsEncoded(body: seq<Byte>, count: nat, seen: set<seq<Byte>>)
    requires Decode(body, count, seen).Some?
    ensures
      var items := Decode(body, count, seen).value;
      |items| == count && AllFit(items) && EncodeItems(items) == body && AllAccepted(items, seen)
    decreases count
  {
    hide Frame, EncodeItem, Accepted, WireFits;
    if count > 0 {
      var i := Frame(body).value;
      FrameIsEncoded(body, i);
      var rest := body[Length(i)..];
      assert body[..Length(i)] + rest == body;
      DecodedIsEncoded(rest, count - 1, seen + {i.path});
      var tail := Decode(rest, count - 1, seen + {i.path}).value;
      assert ([i] + tail)[1..] == tail;
    }
  }

  lemma LocatePacked(elf: seq<Byte>, items: seq<Item>, reserved: seq<Byte>)
    requires AllFit(items) && |items| < TWO32 && |reserved| == 4 && |Body(items, reserved)| < TWO64
    ensures
      var file := elf + Packed(items, reserved);
      && Locate(file) == Some(Span(|elf|, |elf| + |Body(items, reserved)|))
      && |file| >= 32
      && Count(file, Locate(file).value) == |items|
      && file[|elf| + 16..|elf| + |Body(items, reserved)|] == EncodeItems(items)
  {
    hide FromLE, ToLE, LE32, LE64, EncodeItems;
    var head := HEAD_MAGIC + LE32(|items|) + reserved;
    var body := head + EncodeItems(items);
    var end := END_MAGIC + LE64(|body|);
    var file := elf + Packed(items, reserved);
    assert file == elf + body + end;
    assert file[|file| - 16..|file| - 8] == end[0..8] == END_MAGIC;
    assert file[|file| - 8..] == end[8..16] == LE64(|body|);
    assert file[|elf|..][..8] == head[0..8] == HEAD_MAGIC;
    assert file[|elf| + 8..|elf| + 12] == head[8..12] == LE32(|items|);
    assert file[|elf| + 16..|elf| + |body|] == EncodeItems(items);
  }

  /**
   * On an executable carrying a packed list, the validator returns that list if it is well formed and refuses
   * otherwise.
   */
  lemma ValidateOfPacked(elf: seq<Byte>, items: seq<Item>, reserved: seq<Byte>)
    requires AllFit(items) && |items| < TWO32 && |reserved| == 4 && |Body(items, reserved)| < TWO64
    ensures Validate(elf + Packed(items, reserved)) == if WellFormed(items) then Some(items) else None
  {
    hide Packed, Body, EncodeItems, Locate, Count, Decode, Accepted, AllAccepted, HasRequired;
    LocatePacked(elf, items, reserved);
    DecodeOfEncoded(items, {});
    AcceptedDistinct(items, {});
  }

  /** Conversely, whatever the validator accepts is a packed well-formed list behind some executable. */
  lemma ValidatedIsPacked(file: seq<Byte>, items: seq<Item>)
    requires Validate(file) == Some(items)
    ensures WellFormed(items) && AllFit(items)
    ensures
      var at := Locate(file).value;
      var reserved := file[at.start + 12..at.start + 16];
      |Body(items, reserved)| < TWO64 && file == file[..at.start] + Packed(items, reserved)
  {
    hide Packed, Accepted, HasRequired, EncodeItem, FromLE, ToLE, Locate, Frame, Decode, AllAccepted, EncodeItems,
         WireFits, Body;
    var at := Locate(file).value;
    var head, entries := file[at.start..at.start + 16], file[at.start + 16..at.end];
    PackedPieces(file, at);
    DecodedIsEncoded(entries, Count(file, at), {});
    AcceptedDistinct(items, {});
    var reserved := file[at.start + 12..at.start + 16];
    BodyIs(items, reserved, head);
    assert file[at.start..at.end] == head + entries;
    PackedIs(items, reserved, file[at.start..at.end], file[at.end..]);
    assert file == file[..at.start] + (file[at.start..at.end] + file[at.end..]);
  }

  lemma BodyIs(items: seq<Item>, reserved: seq<Byte>, head: seq<Byte>)
    requires AllFit(items) && |items| < TWO32 && |reserved| == 4 && head == HEAD_MAGIC + LE32(|items|) + reserved
    ensures Body(items, reserved) == head + EncodeItems(items)
  {}

  lemma PackedIs(items: seq<Item>, reserved: seq<Byte>, body: seq<Byte>, end: seq<Byte>)
    requires AllFit(items) && |items| < TWO32 && |reserved| == 4 && body == Body(items, reserved) && |body| < TWO64
    requires end == END_MAGIC + LE64(|body|)
    ensures Packed(items, reserved) == body + end
  {}

  /** The fixed parts around a located body. */
  lemma PackedPieces(file: seq<Byte>, at: Span)
    requires Locate(file) == Some(at)
    ensures at.end - at.start < TWO64
    ensures file[at.end..] == END_MAGIC + LE64(at.end - at.start)
    ensures Count(file, at) < TWO32
    ensures file[at.start..at.start + 16] == HEAD_MAGIC + LE32(Count(file, at)) + file[at.start + 12..at.start + 16]
  {
    hide FromLE, LE32, LE64, Ascii;
    var n := |file|;
    LE64Of(file[n - 8..]);
    LE32Of(file[at.start + 8..at.start + 12]);
    assert file[at.end..] == file[n - 16..n - 8] + file[n - 8..];
    assert file[at.start..at.start + 8] == file[at.start..][..8];
    assert file[at.start..at.start + 16]
        == file[at.start..at.start + 8] + file[at.start + 8..at.start + 12] + file[at.start + 12..at.start + 16];
  }

  // ---- the host encoder ----

  /** What stands at a staged path. */
  datatype Host = Missing | Regular(content: seq<Byte>) | Symlink(target: seq<Byte>)

  datatype Retained = Retained(source: seq<Byte>, destination: seq<Byte>, mode: nat, host: Host)

  /** One retained file as a bundle entry; None for each refusal of the encoder. */
  function ToItem(r: Retained): (i: Option<Item>)
    ensures i.Some? ==> WireFits(i.value) && i.value.path == r.destination
  {
    if !StartsWith(r.source, SOURCE_PREFIX) || !StartsWith(r.destination, RUNTIME_PREFIX) then None
    else if r.host.Missing? || !IsAscii(r.destination) || |r.destination| == 0 || |r.destination| >= PATH_CAPACITY
      then None
    else
      match r.host
      case Symlink(target) =>
        if target == [] || HasNul(target) || !ValidUtf8(target) || |target| + 1 >= TWO64 then None
        else Some(Item(r.destination, 0, target + [0]))
      case Regular(content) =>
        if r.mode >= TWO32 || |content| >= TWO64 then None else Some(Item(r.destination, r.mode, content))
      case Missing => None
  }

  function ToItems(rs: seq<Retained>): (items: Option<seq<Item>>)
    ensures items.Some? ==> |items.value| == |rs| && AllFit(items.value)
    ensures items.Some? ==> forall k :: 0 <= k < |rs| ==> ToItem(rs[k]) == Some(items.value[k])
  {
    if rs == [] then Some([])
    else if ToItem(rs[0]).None? then None
    else match ToItems(rs[1..]) case None => None case Some(items) => Some([ToItem(rs[0]).value] + items)
  }

  function RuntimeBundle(rs: seq<Retained>): Option<seq<Byte>> {
    if |rs| >= TWO32 || ToItems(rs).None? || |Body(ToItems(rs).value, Zeros(4))| >= TWO64 then None
    else Some(Packed(ToItems(rs).value, Zeros(4)))
  }

  predicate HasDestination(rs: seq<Retained>, path: seq<Byte>) {
    exists k :: 0 <= k < |rs| && rs[k].destination == path
  }

  /** Permission bits of regular files as the encoder's caller supplies them, with mode 0 excluded. */
  predicate GoodRetained(rs: seq<Retained>) {
    && 0 < |rs| <= MAX_ITEMS
    && (forall k :: 0 <= k < |rs| && rs[k].host.Regular? ==> 0 < rs[k].mode <= MODE_LIMIT)
    && (forall j, k :: 0 <= j < k < |rs| ==> rs[j].destination != rs[k].destination)
    && (forall path :: path in REQUIRED ==> HasDestination(rs, path))
  }

  /** A retained file as the caller names it, and the entry it becomes on the device. */
  ghost predicate Becomes(r: Retained, i: Item) {
    && i.path == r.destination
    && (r.host.Regular? ==> i.mode == r.mode && i.payload == r.host.content)
    && (r.host.Symlink? ==> i.mode == 0 && i.payload == r.host.target + [0])
  }

  /** What the encoder asks of one retained file. */
  predicate Encodable(r: Retained) {
    && StartsWith(r.source, Ascii("/treeforge-bootstrap-retained/"))
    && StartsWith(r.destination, Ascii("/dev/treeforge-bootstrap-runtime/"))
    && |r.destination| <= 511 && (forall k :: 0 <= k < |r.destination| ==> r.destination[k] <= 0x7f)
    && match r.host
       case Missing => false
       case Regular(content) => r.mode < 0x1_0000_0000 && |content| < 0x1_0000_0000_0000_0000
       case Symlink(target) =>
         && 0 < |target| < 0xffff_ffff_ffff_ffff && ValidUtf8(target)
         && forall k :: 0 <= k < |target| ==> target[k] != 0
  }

  /** One retained file is encoded exactly when it may be, as the entry it should become. */
  lemma ItemIff(r: Retained)
    ensures ToItem(r).Some? <==> Encodable(r)
    ensures ToItem(r).Some? ==> Becomes(r, ToItem(r).value)
  {
    hide ValidUtf8;
  }

  lemma {:induction false} ItemsIff(rs: seq<Retained>)
    ensures ToItems(rs).Some? <==> forall k :: 0 <= k < |rs| ==> Encodable(rs[k])
  {
    hide ToItem, Encodable;
    if rs != [] {
      ItemIff(rs[0]);
      ItemsIff(rs[1..]);
      if forall k :: 0 <= k < |rs| ==> Encodable(rs[k]) {
        forall k | 0 <= k < |rs| - 1
          ensures Encodable(rs[1..][k])
        {
          assert rs[1..][k] == rs[k + 1];
        }
      }
      if forall k :: 0 <= k < |rs| - 1 ==> Encodable(rs[1..][k]) {
        forall k | 1 <= k < |rs|
          ensures Encodable(rs[k])
        {
          assert rs[k] == rs[1..][k - 1];
        }
      }
    }
  }

  /** The encoder refuses exactly the lists with a file that may not be encoded, or too long for their length fields. */
  lemma BundleIff(rs: seq<Retained>)
    ensures RuntimeBundle(rs).Some? <==>
      && |rs| < 0x1_0000_0000 && (forall k :: 0 <= k < |rs| ==> Encodable(rs[k]))
      && ToItems(rs).Some? && |Body(ToItems(rs).value, Zeros(4))| < 0x1_0000_0000_0000_0000
  {
    hide ToItems, Body, Packed, Encodable;
    ItemsIff(rs);
  }

  /**
   * The encoder's output for a good retained list always validates, and decodes to what the list names: for each
   * retained file, in order, its destination with its mode and contents, or mode 0 and its NUL-terminated target.
   */
  lemma EncodedValidates(elf: seq<Byte>, rs: seq<Retained>)
    requires GoodRetained(rs) && RuntimeBundle(rs).Some?
    ensures
      var items := Validate(elf + RuntimeBundle(rs).value);
      && items.Some? && |items.value| == |rs|
      && forall k :: 0 <= k < |rs| ==> Becomes(rs[k], items.value[k])
  {
    hide ToItems, Packed, Body, Validate, ToItem, Accepted, IsAscii, StartsWith, EncodeItems, Becomes;
    var items := ToItems(rs).value;
    ValidateOfPacked(elf, items, Zeros(4));
    forall k | 0 <= k < |items|
      ensures Accepted(items[k], {}) && items[k].path == rs[k].destination && Becomes(rs[k], items[k])
    {
      assert ToItem(rs[k]) == Some(items[k]);
      ItemAccepted(rs[k]);
      ItemIff(rs[k]);
    }
    forall path | path in REQUIRED
      ensures HasPath(items, path)
    {
      assert HasDestination(rs, path);
      var k :| 0 <= k < |rs| && rs[k].destination == path;
      assert items[k].path == path;
    }
    forall j, k | 0 <= j < k < |items|
      ensures items[j].path != items[k].path
    {
      assert items[j].path == rs[j].destination && items[k].path == rs[k].destination;
    }
    assert 0 < |items| <= MAX_ITEMS;
    assert HasRequired(items);
    assert WellFormed(items);
  }

  lemma ItemAccepted(r: Retained)
    requires ToItem(r).Some? && (r.host.Regular? ==> 0 < r.mode <= MODE_LIMIT)
    ensures Accepted(ToItem(r).value, {})
  {
    if r.host.Symlink? {
      var p := r.host.target + [0];
      assert p[..|p| - 1] == r.host.target;
    }
  }
}
