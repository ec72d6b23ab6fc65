/**
 * The device side of the runtime bundle: the streaming decoder that materializes files from an open
 * descriptor, and its agreement with the host validator.
 */
module BundleDevice {
  import opened ByteStrings
  import opened Wrappers
  import opened Bundle

  const LINK_CAPACITY: nat := 512

  datatype Node = File(mode: nat, content: seq<Byte>) | Link(target: seq<Byte>)

  /** The destination tree, flat: what each absolute path holds. */
  type Tree = map<seq<Byte>, Node>

  /** A byte string as C sees it: up to the first NUL. */
  function CString(s: seq<Byte>): seq<Byte> {
    if s == [] || s[0] == 0 then [] else [s[0]] + CString(s[1..])
  }

  lemma {:induction false} CStringIs(s: seq<Byte>)
    ensures |CString(s)| <= |s| && CString(s) == s[..|CString(s)|]
    ensures !HasNul(CString(s))
    ensures |CString(s)| < |s| ==> s[|CString(s)|] == 0
    ensures !HasNul(s) ==> CString(s) == s
  {
    if s != [] && s[0] != 0 {
      CStringIs(s[1..]);
      var r := CString(s[1..]);
      assert s[1..][..|r|] == s[1..|r| + 1];
      assert forall i :: 0 <= i < |r| ==> r[i] != 0;
    }
    if !HasNul(s) {
      assert |CString(s)| == |s|;
    }
  }

  /** What the device refuses in a framed entry. */
  predicate DeviceTakes(i: Item) {
    && 0 < |i.path| < PATH_CAPACITY && i.mode <= MODE_LIMIT && i.path[0] == 0x2f
    && (i.mode == 0 ==> GoodTarget(i.payload))
  }

  /** A link payload the device takes: within its buffer, terminated, no NUL inside. */
  predicate GoodTarget(p: seq<Byte>) {
    2 <= |p| <= LINK_CAPACITY && p[|p| - 1] == 0 && !HasNul(p[..|p| - 1])
  }

  function NodeOf(i: Item): Node
    requires i.mode == 0 ==> |i.payload| > 0
  {
    if i.mode == 0 then Link(i.payload[..|i.payload| - 1]) else File(i.mode, i.payload)
  }

  /** The device loop over what follows the bundle header; it never looks for the end of the bundle. */
  function Materialize(stream: seq<Byte>, count: nat, tree: Tree): Option<Tree>
    decreases count
  {
    if count == 0 then Some(tree)
    else
      var i := Frame(stream);
      if i.None? || !DeviceTakes(i.value) then None
      else Materialize(stream[Length(i.value)..], count - 1, tree[CString(i.value.path) := NodeOf(i.value)])
  }

  function Device(file: seq<Byte>, tree: Tree): Option<Tree> {
    if Locate(file).None? then None
    else
      var at := Locate(file).value;
      var count := Count(file, at);
      if count == 0 || count > MAX_ITEMS then None else Materialize(file[at.start + 16..], count, tree)
  }

  /** The destinations a validated list asks for. */
  function Wanted(items: seq<Item>): Tree
    requires forall k :: 0 <= k < |items| && items[k].mode == 0 ==> |items[k].payload| > 0
  {
    if items == [] then map[]
    else map[items[0].path := NodeOf(items[0])] + Wanted(items[1..])
  }

  predicate LinksFit(items: seq<Item>) {
    forall k :: 0 <= k < |items| && items[k].mode == 0 ==> |items[k].payload| <= LINK_CAPACITY
  }

  predicate PathsPlain(items: seq<Item>) {
    forall k :: 0 <= k < |items| ==> !HasNul(items[k].path)
  }

  // ---- the decoder against the validator ----

  /** An accepted entry is taken by the device exactly when a link fits its buffer. */
  lemma TakesAccepted(i: Item, seen: set<seq<Byte>>)
    requires Accepted(i, seen)
    ensures DeviceTakes(i) <==> (i.mode == 0 ==> |i.payload| <= LINK_CAPACITY)
    ensures i.mode == 0 ==> |i.payload| > 0
  {
    hide ValidUtf8, IsAscii;
    assert i.path[0] == i.path[..|RUNTIME_PREFIX|][0] == RUNTIME_PREFIX[0];
  }

  predicate LinksNonEmpty(items: seq<Item>) {
    forall k :: 0 <= k < |items| && items[k].mode == 0 ==> |items[k].payload| > 0
  }

  lemma {:induction false} AcceptedLinks(items: seq<Item>, seen: set<seq<Byte>>)
    requires AllAccepted(items, seen)
    ensures LinksNonEmpty(items)
  {
    hide Accepted;
    if items != [] {
      TakesAccepted(items[0], seen);
      AcceptedLinks(items[1..], seen + {items[0].path});
      forall k | 0 <= k < |items| && items[k].mode == 0
        ensures |items[k].payload| > 0
      {
        assert k > 0 ==> items[k] == items[1..][k - 1];
      }
    }
  }

  /** Truncated at NULs, the destinations an accepted list writes, last writer first. */
  function Written(items: seq<Item>, tree: Tree): Tree
    requires LinksNonEmpty(items)
  {
    if items == [] then tree else Written(items[1..], tree[CString(items[0].path) := NodeOf(items[0])])
  }

  /** On a stream that starts with a decodable body, the device loop succeeds exactly when every link fits. */
  lemma {:induction false} MaterializesDecoded(body: seq<Byte>, more: seq<Byte>, count: nat, seen: set<seq<Byte>>,
                                               tree: Tree)
    requires Decode(body, count, seen).Some?
    ensures LinksNonEmpty(Decode(body, count, seen).value)
    ensures Materialize(body + more, count, tree) ==
      if LinksFit(Decode(body, count, seen).value) then Some(Written(Decode(body, count, seen).value, tree)) else None
    decreases count
  {
    hide Frame, Accepted, DeviceTakes, CString, NodeOf, Length;
    if count > 0 {
      var i := Frame(body).value;
      FrameExtends(body, more);
      LengthBound(body);
      TakesAccepted(i, seen);
      var rest := body[Length(i)..];
      var tail := Decode(rest, count - 1, seen + {i.path}).value;
      MaterializesDecoded(rest, more, count - 1, seen + {i.path}, tree[CString(i.path) := NodeOf(i)]);
      assert ([i] + tail)[1..] == tail;
      assert LinksFit([i] + tail) <==> (i.mode == 0 ==> |i.payload| <= LINK_CAPACITY) && LinksFit(tail) by {
        LinksFitCons(i, tail);
      }
    }
  }

  lemma LengthBound(s: seq<Byte>)
    requires Frame(s).Some?
    ensures Length(Frame(s).value) <= |s|
  {}

  lemma LinksFitCons(i: Item, tail: seq<Item>)
    ensures LinksFit([i] + tail) <==> (i.mode == 0 ==> |i.payload| <= LINK_CAPACITY) && LinksFit(tail)
    ensures LinksNonEmpty(tail) && (i.mode == 0 ==> |i.payload| > 0) ==> LinksNonEmpty([i] + tail)
  {
    var all := [i] + tail;
    assert all[0] == i;
    forall k | 0 <= k < |tail|
      ensures all[k + 1] == tail[k]
    {}
    if LinksFit(all) {
      forall k | 0 <= k < |tail| && tail[k].mode == 0
        ensures |tail[k].payload| <= LINK_CAPACITY
      {
        assert all[k + 1].mode == 0;
      }
    }
  }

  /** What the device asks of one entry. */
  predicate DeviceGood(i: Item) {
    && 1 <= |i.path| <= 511 && i.path[0] == 0x2f && i.mode <= 511
    && (i.mode == 0 ==>
          && 2 <= |i.payload| <= 512 && i.payload[|i.payload| - 1] == 0
          && forall k :: 0 <= k < |i.payload| - 1 ==> i.payload[k] != 0)
  }

  lemma TakesIff(i: Item)
    ensures DeviceTakes(i) <==> DeviceGood(i)
    ensures DeviceGood(i) && i.mode == 0 ==> |i.payload| > 0
  {
    if i.mode == 0 && 2 <= |i.payload| {
      var target := i.payload[..|i.payload| - 1];
      assert HasNul(target) <==> exists k :: 0 <= k < |target| && target[k] == 0;
    }
  }

  predicate AllGood(items: seq<Item>) {
    forall k :: 0 <= k < |items| ==> DeviceGood(items[k])
  }

  lemma GoodLinks(items: seq<Item>)
    requires AllGood(items)
    ensures LinksNonEmpty(items)
  {}

  /** The bytes start with that many encoded entries. */
  ghost predicate Starts(stream: seq<Byte>, items: seq<Item>) {
    AllFit(items) && EncodeItems(items) <= stream
  }

  /** On any bytes that start with encoded entries the device loop takes them all, or refuses if one is not good. */
  lemma {:induction false} MaterializesEntries(stream: seq<Byte>, items: seq<Item>, tree: Tree)
    requires Starts(stream, items)
    ensures AllGood(items) ==>
      LinksNonEmpty(items) && Materialize(stream, |items|, tree) == Some(Written(items, tree))
    ensures !AllGood(items) ==> Materialize(stream, |items|, tree).None?
    decreases |items|
  {
    hide Frame, DeviceTakes, DeviceGood, CString, NodeOf, WireFits, EncodeItem;
    if AllGood(items) {
      GoodLinks(items);
    }
    if items != [] {
      var i, rest := items[0], items[1..];
      assert WireFits(i);
      assert EncodeItems(items) == EncodeItem(i) + EncodeItems(rest);
      PrefixOfPrefix(EncodeItem(i), EncodeItems(rest), stream);
      FrameIff(stream, i);
      LengthBound(stream);
      TakesIff(i);
      assert AllGood(items) <==> DeviceGood(i) && AllGood(rest) by {
        assert forall k :: 0 <= k < |rest| ==> rest[k] == items[k + 1];
        assert forall k :: 1 <= k < |items| ==> items[k] == rest[k - 1];
      }
      if DeviceGood(i) {
        MaterializesEntries(stream[Length(i)..], rest, tree[CString(i.path) := NodeOf(i)]);
      }
    }
  }

  lemma PrefixOfPrefix(a: seq<Byte>, b: seq<Byte>, s: seq<Byte>)
    requires a + b <= s
    ensures a <= s && b <= s[|a|..]
  {
    assert s == (a + b) + s[|a| + |b|..];
  }

  /**
   * For every byte string: the device loop succeeds exactly when the bytes start with that many encoded good entries,
   * whatever follows, and it then has written them in order.
   */
  lemma {:induction false} MaterializeIff(stream: seq<Byte>, count: nat, tree: Tree)
    ensures Materialize(stream, count, tree).Some? <==>
      exists items :: |items| == count && Starts(stream, items) && AllGood(items)
    ensures forall items :: |items| == count && Starts(stream, items) && AllGood(items) ==>
      LinksNonEmpty(items) && Materialize(stream, count, tree) == Some(Written(items, tree))
  {
    hide Materialize, Starts, DeviceGood, Written;
    if Materialize(stream, count, tree).Some? {
      var items := Entries(stream, count, tree);
    }
    forall items | |items| == count && Starts(stream, items) && AllGood(items)
      ensures LinksNonEmpty(items) && Materialize(stream, count, tree) == Some(Written(items, tree))
    {
      MaterializesEntries(stream, items, tree);
    }
  }

  /** The entries of a stream the device takes. */
  lemma {:induction false} Entries(stream: seq<Byte>, count: nat, tree: Tree) returns (items: seq<Item>)
    requires Materialize(stream, count, tree).Some?
    ensures |items| == count && Starts(stream, items) && AllGood(items)
    decreases count
  {
    hide Frame, DeviceTakes, DeviceGood, CString, NodeOf, WireFits, EncodeItem;
    items := [];
    if count > 0 {
      var i := Frame(stream).value;
      FrameIff(stream, i);
      LengthBound(stream);
      TakesIff(i);
      var rest := Entries(stream[Length(i)..], count - 1, tree[CString(i.path) := NodeOf(i)]);
      items := [i] + rest;
      assert items[1..] == rest;
      JoinPrefix(EncodeItem(i), EncodeItems(rest), stream);
      assert forall k :: 1 <= k < |items| ==> items[k] == rest[k - 1];
    }
  }

  lemma JoinPrefix(a: seq<Byte>, b: seq<Byte>, s: seq<Byte>)
    requires a <= s && b <= s[|a|..]
    ensures a + b <= s
  {}

  /**
   * For every file: the device unpacks it exactly when it ends in a bundle of one to 256 entries by its count, and that
   * many encoded good entries stand behind the header; then it has written them in order.
   */
  lemma DeviceIff(file: seq<Byte>, tree: Tree)
    ensures Device(file, tree).Some? <==> exists at, items :: Unpacks(file, at, items)
    ensures forall at, items :: Unpacks(file, at, items) ==>
      LinksNonEmpty(items) && Device(file, tree) == Some(Written(items, tree))
  {
    hide Materialize, Starts, AllGood, Bounded, Locate, Written, FromLE;
    if Device(file, tree).Some? {
      var at := Locate(file).value;
      LocateIff(file, at);
      var items := Entries(file[at.start + 16..], Count(file, at), tree);
      assert Unpacks(file, at, items);
    }
    forall at, items | Unpacks(file, at, items)
      ensures LinksNonEmpty(items) && Device(file, tree) == Some(Written(items, tree))
    {
      LocateIff(file, at);
      MaterializesEntries(file[at.start + 16..], items, tree);
    }
  }

  ghost predicate Unpacks(file: seq<Byte>, at: Span, items: seq<Item>) {
    && Bounded(file, at) && 1 <= |items| <= 256 && |items| == FromLE(file[at.start + 8..at.start + 12])
    && Starts(file[at.start + 16..], items) && AllGood(items)
  }

  predicate DistinctPaths(items: seq<Item>) {
    forall j, k :: 0 <= j < k < |items| ==> items[j].path != items[k].path
  }

  lemma {:induction false} WantedHasPath(items: seq<Item>, path: seq<Byte>)
    requires LinksNonEmpty(items)
    ensures path in Wanted(items) <==> HasPath(items, path)
  {
    hide NodeOf;
    if items != [] {
      WantedHasPath(items[1..], path);
      if HasPath(items[1..], path) {
        var k :| 0 <= k < |items| - 1 && items[1..][k].path == path;
        assert items[k + 1].path == path;
      }
      if HasPath(items, path) && items[0].path != path {
        var k :| 0 <= k < |items| && items[k].path == path;
        assert items[1..][k - 1].path == path;
      }
    }
  }

  /** With plain, distinct paths the device writes exactly the wanted destinations over what was there. */
  lemma {:induction false} WrittenIsWanted(items: seq<Item>, tree: Tree)
    requires LinksNonEmpty(items) && PathsPlain(items) && DistinctPaths(items)
    ensures Written(items, tree) == tree + Wanted(items)
  {
    hide CString, NodeOf, HasNul;
    if items == [] {
      assert tree + Wanted(items) == tree;
    } else {
      var rest, path, node := items[1..], items[0].path, NodeOf(items[0]);
      CStringIs(path);
      TailPlain(items);
      WrittenIsWanted(rest, tree[path := node]);
      WantedHasPath(rest, path);
      OverlayFirst(tree, path, node, Wanted(rest));
    }
  }

  lemma TailPlain(items: seq<Item>)
    requires items != [] && LinksNonEmpty(items) && PathsPlain(items) && DistinctPaths(items)
    ensures LinksNonEmpty(items[1..]) && PathsPlain(items[1..]) && DistinctPaths(items[1..])
    ensures !HasNul(items[0].path) && !HasPath(items[1..], items[0].path)
  {
    hide HasNul;
  }

  lemma OverlayFirst(tree: Tree, path: seq<Byte>, node: Node, rest: Tree)
    requires path !in rest
    ensures tree[path := node] + rest == tree + (map[path := node] + rest)
  {}

  /** Every destination of the device is free of NULs. */
  lemma {:induction false} WrittenPlain(items: seq<Item>, tree: Tree)
    requires LinksNonEmpty(items) && forall path :: path in tree ==> !HasNul(path)
    ensures forall path :: path in Written(items, tree) ==> !HasNul(path)
  {
    hide NodeOf, HasNul, CString;
    if items != [] {
      CStringIs(items[0].path);
      WrittenPlain(items[1..], tree[CString(items[0].path) := NodeOf(items[0])]);
    }
  }

  lemma {:induction false} WantedHas(items: seq<Item>, k: nat)
    requires LinksNonEmpty(items) && k < |items|
    ensures items[k].path in Wanted(items)
  {
    if k > 0 {
      WantedHas(items[1..], k - 1);
    }
  }

  /**
   * Host and device agree on a validated executable: starting from an empty tree the device loop
   * succeeds exactly when every link payload fits its 512-byte buffer, and it then produces exactly the
   * destinations the validator decoded if and only if no path contains a NUL.
   */
  lemma DeviceAgrees(file: seq<Byte>, items: seq<Item>)
    requires Validate(file) == Some(items)
    ensures LinksNonEmpty(items)
    ensures Device(file, map[]).Some? <==> LinksFit(items)
    ensures Device(file, map[]) == Some(Wanted(items)) <==> LinksFit(items) && PathsPlain(items)
  {
    hide Decode, Locate, Count, Materialize, Accepted, HasRequired, Frame, CString, NodeOf, HasNul, AllAccepted;
    var at := Locate(file).value;
    var body := file[at.start + 16..at.end];
    assert file[at.start + 16..] == body + file[at.end..];
    MaterializesDecoded(body, file[at.end..], Count(file, at), {}, map[]);
    ValidatedDistinct(file, items);
    if LinksFit(items) {
      if PathsPlain(items) {
        WrittenIsWanted(items, map[]);
        assert map[] + Wanted(items) == Wanted(items);
      } else {
        var k :| 0 <= k < |items| && HasNul(items[k].path);
        WantedHas(items, k);
        WrittenPlain(items, map[]);
      }
    }
  }

  lemma ValidatedDistinct(file: seq<Byte>, items: seq<Item>)
    requires Validate(file) == Some(items)
    ensures DistinctPaths(items) && 0 < |items|
  {
    hide Validate, Packed, Accepted, HasRequired;
    ValidatedIsPacked(file, items);
  }

  /** Where the device leaves a retained file: its contents under its mode, or a link to its target. */
  ghost predicate Holds(tree: Tree, r: Retained) {
    && r.destination in tree
    && (r.host.Regular? ==> tree[r.destination] == File(r.mode, r.host.content))
    && (r.host.Symlink? ==> tree[r.destination] == Link(r.host.target))
  }

  lemma {:induction false} WantedAt(items: seq<Item>, k: nat)
    requires LinksNonEmpty(items) && DistinctPaths(items) && k < |items|
    ensures items[k].path in Wanted(items) && Wanted(items)[items[k].path] == NodeOf(items[k])
  {
    hide NodeOf;
    WantedHasPath(items[1..], items[0].path);
    if k > 0 {
      assert items[1..][k - 1] == items[k];
      WantedAt(items[1..], k - 1);
    }
  }

  /** One entry and the file it came from, on the device. */
  lemma NodeBecomes(r: Retained, i: Item)
    requires Becomes(r, i) && !r.host.Missing? && (r.host.Regular? ==> r.mode > 0)
    ensures i.mode == 0 ==> |i.payload| > 0
    ensures r.host.Regular? ==> NodeOf(i) == File(r.mode, r.host.content)
    ensures r.host.Symlink? ==> NodeOf(i) == Link(r.host.target)
  {
    if r.host.Symlink? {
      assert (r.host.target + [0])[..|r.host.target|] == r.host.target;
    }
  }

  /**
   * From the staged files to the device: what the host encodes from a good retained list, the device unpacks exactly
   * when no link target is longer than 511 bytes; and if no destination has a NUL, each destination then holds its
   * file's contents and mode, or its link, and there is nothing else.
   */
  lemma EncodedMaterializes(elf: seq<Byte>, rs: seq<Retained>)
    requires GoodRetained(rs) && RuntimeBundle(rs).Some?
    ensures
      var tree := Device(elf + RuntimeBundle(rs).value, map[]);
      && (tree.Some? <==> forall k :: 0 <= k < |rs| && rs[k].host.Symlink? ==> |rs[k].host.target| <= 511)
      && (tree.Some? && (forall k :: 0 <= k < |rs| ==> !HasNul(rs[k].destination)) ==>
            && (forall k :: 0 <= k < |rs| ==> Holds(tree.value, rs[k]))
            && forall path :: path in tree.value ==> HasDestination(rs, path))
  {
    hide RuntimeBundle, Device, Validate, Accepted, HasNul, Becomes, GoodRetained, NodeOf, HasRequired;
    var file := elf + RuntimeBundle(rs).value;
    EncodedValidates(elf, rs);
    var items := Validate(file).value;
    DeviceAgrees(file, items);
    ValidatedDistinct(file, items);
    forall k | 0 <= k < |rs|
      ensures BecomesFacts(rs[k], items[k])
    {
      GoodAt(rs, k);
      BecomesParts(rs[k], items[k]);
      NodeBecomes(rs[k], items[k]);
    }
    LinksFitIff(rs, items);
    if Device(file, map[]).Some? && forall k :: 0 <= k < |rs| ==> !HasNul(rs[k].destination) {
      forall k | 0 <= k < |rs|
        ensures Holds(Wanted(items), rs[k])
      {
        assert BecomesFacts(rs[k], items[k]);
        WantedAt(items, k);
      }
      forall path | path in Wanted(items)
        ensures HasDestination(rs, path)
      {
        WantedHasPath(items, path);
        var k :| 0 <= k < |items| && items[k].path == path;
        assert BecomesFacts(rs[k], items[k]);
      }
    }
  }

  /** What the proof above needs of an entry. */
  ghost predicate BecomesFacts(r: Retained, i: Item) {
    && i.path == r.destination && !r.host.Missing?
    && (i.mode == 0 ==> |i.payload| > 0)
    && (r.host.Regular? ==> i.mode > 0 && NodeOf(i) == File(r.mode, r.host.content))
    && (r.host.Symlink? ==> i.mode == 0 && |i.payload| == |r.host.target| + 1 && NodeOf(i) == Link(r.host.target))
  }

  lemma BecomesParts(r: Retained, i: Item)
    requires Becomes(r, i)
    ensures i.path == r.destination
    ensures r.host.Regular? ==> i.mode == r.mode
    ensures r.host.Symlink? ==> i.mode == 0 && |i.payload| == |r.host.target| + 1
  {}

  lemma GoodAt(rs: seq<Retained>, k: nat)
    requires GoodRetained(rs) && RuntimeBundle(rs).Some? && k < |rs|
    ensures !rs[k].host.Missing? && (rs[k].host.Regular? ==> rs[k].mode > 0)
  {
    hide Body, Packed, ToItems, HasDestination;
    BundleIff(rs);
    assert Encodable(rs[k]);
  }

  lemma LinksFitIff(rs: seq<Retained>, items: seq<Item>)
    requires |rs| == |items| && forall k :: 0 <= k < |rs| ==> BecomesFacts(rs[k], items[k])
    ensures LinksFit(items) <==> forall k :: 0 <= k < |rs| && rs[k].host.Symlink? ==> |rs[k].host.target| <= 511
    ensures PathsPlain(items) <==> forall k :: 0 <= k < |rs| ==> !HasNul(rs[k].destination)
  {
    hide HasNul, NodeOf;
    forall k | 0 <= k < |rs|
      ensures BecomesFacts(rs[k], items[k])
    {}
  }

  // ---- the decoder as the device runs it ----

  /**
   * Descriptor 99 and the destination tree. Reads return any positive number of bytes up to what was
   * asked; any system call may fail, which `faulted` records.
   */
  class Runtime {
    const file: seq<Byte>
    var position: nat
    var tree: Tree
    var faulted: bool

    constructor (bytes: seq<Byte>)
      ensures file == bytes && position == 0 && tree == map[] && !faulted
    {
      file := bytes;
      position := 0;
      tree := map[];
      faulted := false;
    }

    ghost predicate Valid()
      reads this
    {
      position <= |file|
    }

    /** One `read`: an arbitrary short count, 0 only at the end of the file, or a failure. */
    method Read(count: nat) returns (bytes: seq<Byte>)
      requires Valid() && count > 0
      modifies this`position, this`faulted
      ensures Valid() && (old(faulted) ==> faulted)
      ensures old(position) <= position <= old(position) + count && bytes == file[old(position)..position]
      ensures bytes == [] ==> faulted || position == |file|
    {
      var failed := *;
      if failed {
        faulted := true;
        return [];
      }
      var available := if |file| - position < count then |file| - position else count;
      var amount := 0;
      if available > 0 {
        amount :| 0 < amount <= available;
      }
      bytes := file[position..position + amount];
      position := position + amount;
    }

    /** `tfb_read_exact`: loops over short reads. */
    method ReadExact(size: nat) returns (bytes: Option<seq<Byte>>)
      requires Valid()
      modifies this`position, this`faulted
      ensures Valid() && (old(faulted) ==> faulted)
      ensures bytes.Some? ==> position == old(position) + size && bytes.value == file[old(position)..position]
      ensures bytes.None? ==> faulted || |file| < old(position) + size
    {
      var data: seq<Byte> := [];
      while |data| < size
        invariant Valid() && (old(faulted) ==> faulted)
        invariant |data| <= size && position == old(position) + |data| && data == file[old(position)..position]
        decreases size - |data|
      {
        var chunk := Read(size - |data|);
        if chunk == [] {
          return None;
        }
        data := data + chunk;
      }
      bytes := Some(data);
    }

    /** The copy loop of one regular file, at most 4096 bytes at a time; writing may fail as well. */
    method CopyPayload(size: nat) returns (content: Option<seq<Byte>>)
      requires Valid()
      modifies this`position, this`faulted
      ensures Valid() && (old(faulted) ==> faulted)
      ensures content.Some? ==> position == old(position) + size && content.value == file[old(position)..position]
      ensures content.None? ==> faulted || |file| < old(position) + size
    {
      var data: seq<Byte> := [];
      var remaining: nat := size;
      while remaining != 0
        invariant Valid() && (old(faulted) ==> faulted)
        invariant |data| + remaining == size && position == old(position) + |data|
          && data == file[old(position)..position]
      {
        var requested := if remaining > 4096 then 4096 else remaining;
        var chunk := Read(requested);
        if chunk == [] {
          return None;
        }
        var failed := *;
        if failed {
          faulted := true;
          return None;
        }
        data := data + chunk;
        remaining := remaining - |chunk|;
      }
      content := Some(data);
    }

    /** The payload of one entry: a link target, or the contents of a regular file. */
    method Payload(path: seq<Byte>, mode: nat, size: nat) returns (ok: bool)
      requires Valid()
      modifies this
      ensures Valid() && (old(faulted) ==> faulted)
      ensures ok ==> position == old(position) + size
      ensures ok ==> (mode == 0 ==> GoodTarget(file[old(position)..position]))
      ensures ok ==>
        var payload := file[old(position)..position];
        tree == old(tree)[CString(path) := if mode == 0 then Link(payload[..size - 1]) else File(mode, payload)]
      ensures !ok ==>
        faulted || |file| < old(position) + size ||
        (mode == 0 && !GoodTarget(file[old(position)..old(position) + size]))
    {
      hide CString, HasNul;
      if mode == 0 {
        if size < 2 || size > LINK_CAPACITY {
          return false;
        }
        var target := ReadExact(size);
        if target.None? {
          return false;
        }
        if target.value[size - 1] != 0 || HasNul(target.value[..size - 1]) {
          return false;
        }
        var failed := *;
        if failed {
          faulted := true;
          return false;
        }
        tree := tree[CString(path) := Link(target.value[..size - 1])];
      } else {
        var failed := *;
        if failed {
          faulted := true;
          return false;
        }
        var content := CopyPayload(size);
        if content.None? {
          return false;
        }
        tree := tree[CString(path) := File(mode, content.value)];
      }
      ok := true;
    }

    /** One entry of the loop: header, path, then its payload. */
    method Entry() returns (ok: bool)
      requires Valid()
      modifies this
      ensures Valid() && (old(faulted) ==> faulted)
      ensures ok ==>
        var i := Frame(file[old(position)..]);
        && i.Some? && DeviceTakes(i.value)
        && position == old(position) + Length(i.value)
        && tree == old(tree)[CString(i.value.path) := NodeOf(i.value)]
      ensures !ok ==> faulted || Frame(file[old(position)..]).None? || !DeviceTakes(Frame(file[old(position)..]).value)
    {
      hide FromLE, CString, HasNul, Frame, GoodTarget;
      ghost var start := position;
      FrameAt(file, start);
      var header := ReadExact(16);
      if header.None? {
        return false;
      }
      HeadAt(file, start, header.value);
      var pathLength, mode, size := FromLE(header.value[0..4]), FromLE(header.value[4..8]), FromLE(header.value[8..16]);
      if pathLength == 0 || pathLength >= PATH_CAPACITY || mode > MODE_LIMIT {
        return false;
      }
      var path := ReadExact(pathLength);
      if path.None? {
        return false;
      }
      if path.value[0] != 0x2f {
        return false;
      }
      ok := Payload(path.value, mode, size);
    }

    /** The loop over the entries. */
    method Entries(count: nat) returns (ok: bool)
      requires Valid()
      modifies this
      ensures Valid() && (old(faulted) ==> faulted)
      ensures ok ==> Materialize(old(file[position..]), count, old(tree)) == Some(tree)
      ensures !ok ==> faulted || Materialize(old(file[position..]), count, old(tree)).None?
    {
      hide Frame, DeviceTakes, CString, NodeOf, Length;
      var index := 0;
      while index < count
        invariant 0 <= index <= count && Valid() && (old(faulted) ==> faulted)
        invariant Materialize(old(file[position..]), count, old(tree))
          == Materialize(file[position..], count - index, tree)
      {
        ghost var left := file[position..];
        if Frame(left).Some? {
          LengthBound(left);
          assert left[Length(Frame(left).value)..] == file[position + Length(Frame(left).value)..];
        }
        ok := Entry();
        if !ok {
          return;
        }
        index := index + 1;
      }
      ok := true;
    }

    /**
     * The whole procedure, whatever the read sizes: success gives the specified tree, and failure means
     * that a system call failed or the bytes are not a bundle the device takes.
     */
    method MaterializeBundle() returns (ok: bool)
      requires Valid()
      modifies this
      ensures Valid() && (old(faulted) ==> faulted)
      ensures ok ==> Device(file, old(tree)) == Some(tree)
      ensures !ok ==> faulted || Device(file, old(tree)).None?
    {
      hide FromLE, Materialize;
      if |file| < 16 {
        return false;
      }
      var trailerPosition := |file| - 16;
      position := trailerPosition;
      var trailer := ReadExact(16);
      if trailer.None? {
        return false;
      }
      SliceOfSlice(file, trailerPosition, |file|, 0, 8);
      SliceOfSlice(file, trailerPosition, |file|, 8, 16);
      assert file[|file| - 8..|file|] == file[|file| - 8..];
      if trailer.value[..8] != END_MAGIC {
        return false;
      }
      var size := FromLE(trailer.value[8..16]);
      if size < 16 || size > trailerPosition {
        return false;
      }
      var start := trailerPosition - size;
      position := start;
      var header := ReadExact(16);
      if header.None? {
        return false;
      }
      SliceOfSlice(file, start, start + 16, 0, 8);
      SliceOfSlice(file, start, |file|, 0, 8);
      SliceOfSlice(file, start, start + 16, 8, 12);
      if header.value[..8] != HEAD_MAGIC {
        return false;
      }
      assert Locate(file) == Some(Span(start, trailerPosition));
      var count := FromLE(header.value[8..12]);
      if count == 0 || count > MAX_ITEMS {
        return false;
      }
      ok := Entries(count);
    }
  }

  lemma HeadAt(file: seq<Byte>, start: nat, header: seq<Byte>)
    requires start + 16 <= |file| && header == file[start..start + 16]
    ensures header[0..4] == file[start..start + 4] && header[4..8] == file[start + 4..start + 8]
    ensures header[8..16] == file[start + 8..start + 16]
  {
    SliceOfSlice(file, start, start + 16, 0, 4);
    SliceOfSlice(file, start, start + 16, 4, 8);
    SliceOfSlice(file, start, start + 16, 8, 16);
  }

  /** A frame in the middle of a file, read at absolute positions. */
  lemma FrameAt(file: seq<Byte>, start: nat)
    requires start <= |file|
    ensures start + 16 > |file| ==> Frame(file[start..]).None?
    ensures start + 16 <= |file| ==>
      var pathLength, mode, size :=
        FromLE(file[start..start + 4]), FromLE(file[start + 4..start + 8]), FromLE(file[start + 8..start + 16]);
      Frame(file[start..]) ==
        if start + 16 + pathLength + size > |file| then None
        else Some(Item(file[start + 16..start + 16 + pathLength], mode,
                       file[start + 16 + pathLength..start + 16 + pathLength + size]))
  {
    hide FromLE;
    var s := file[start..];
    assert s == file[start..|file|];
    if |s| >= 16 {
      SliceOfSlice(file, start, |file|, 0, 4);
      SliceOfSlice(file, start, |file|, 4, 8);
      SliceOfSlice(file, start, |file|, 8, 16);
      if Frame(s).Some? {
        var i := Frame(s).value;
        var pathEnd, end := 16 + |i.path|, Length(i);
        SliceOfSlice(file, start, |file|, 16, pathEnd);
        SliceOfSlice(file, start, |file|, pathEnd, end);
        assert i.path == s[16..pathEnd] == file[start + 16..start + pathEnd];
        assert i.payload == s[pathEnd..end] == file[start + pathEnd..start + end];
      }
    }
  }
}
