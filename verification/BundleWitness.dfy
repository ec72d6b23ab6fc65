/** Bundles the host validates and the device refuses, or unpacks differently. */
module BundleWitness {
  import opened ByteStrings
  import opened Wrappers
  import opened Bundle
  import opened BundleDevice

  const ADB_SERVICE: seq<Byte> := RUNTIME_PREFIX + Ascii("treeforge-bootstrap-adb-service")
  const RELEASE: seq<Byte> := RUNTIME_PREFIX + Ascii("etc/treeforge-bootstrap-release")
  const LINKER: seq<Byte> := RUNTIME_PREFIX + Ascii("system/bin/linker64")
  const ADBD: seq<Byte> := RUNTIME_PREFIX + Ascii("system/bin/treeforge-bootstrap-adbd")

  /** The four required files, empty, and one more entry. */
  function Items(extra: Item): (items: seq<Item>)
    ensures |items| == 5 && items[4] == extra
  {
    [Item(ADB_SERVICE, 0x1ed, []), Item(RELEASE, 0x1a4, []), Item(LINKER, 0x1ed, []), Item(ADBD, 0x1ed, []), extra]
  }

  lemma AsciiText(text: string)
    ensures IsAscii(Ascii(text))
  {}

  lemma UnderPrefix(rest: seq<Byte>)
    requires IsAscii(rest)
    ensures StartsWith(RUNTIME_PREFIX + rest, RUNTIME_PREFIX) && IsAscii(RUNTIME_PREFIX + rest)
  {
    AsciiText("/dev/treeforge-bootstrap-runtime/");
    hide Ascii;
    assert (RUNTIME_PREFIX + rest)[..|RUNTIME_PREFIX|] == RUNTIME_PREFIX;
  }

  lemma FileAccepted(text: string, mode: nat)
    requires 0 < |text| <= 100 && 0 < mode <= MODE_LIMIT
    ensures Accepted(Item(RUNTIME_PREFIX + Ascii(text), mode, []), {})
  {
    AsciiText(text);
    UnderPrefix(Ascii(text));
    assert |RUNTIME_PREFIX| == 33;
    hide Ascii, IsAscii, StartsWith;
  }

  /** Paths under the prefix differ if they differ at some place behind it, or in length. */
  lemma PathsDiffer(a: seq<Byte>, b: seq<Byte>)
    requires |a| != |b| || (|a| > 0 && a[0] != b[0])
    ensures RUNTIME_PREFIX + a != RUNTIME_PREFIX + b
  {
    hide Ascii;
    if |a| == |b| {
      assert (RUNTIME_PREFIX + a)[|RUNTIME_PREFIX|] == a[0] && (RUNTIME_PREFIX + b)[|RUNTIME_PREFIX|] == b[0];
    }
  }

  /** With one acceptable entry whose name is short the list is well formed, and small enough to be packed. */
  lemma ItemsWellFormed(rest: seq<Byte>, mode: nat, payload: seq<Byte>)
    requires Accepted(Item(RUNTIME_PREFIX + rest, mode, payload), {}) && |rest| < 10 && |payload| <= 1000
    ensures
      var items := Items(Item(RUNTIME_PREFIX + rest, mode, payload));
      WellFormed(items) && AllFit(items) && |Body(items, Zeros(4))| < TWO64
  {
    var items := Items(Item(RUNTIME_PREFIX + rest, mode, payload));
    AllItemsAccepted(rest, mode, payload);
    DistinctItems(rest, mode, payload);
    RequiredThere(rest, mode, payload);
    hide HasRequired, Accepted, EncodeItems, Ascii, LE32, LE64, Body, Items;
    forall k | 0 <= k < |items|
      ensures WireFits(items[k]) && |items[k].path| < 512 && |items[k].payload| <= 1000
    {
      AcceptedSmall(items[k]);
    }
    BodyBound(items);
  }

  lemma AcceptedSmall(i: Item)
    requires Accepted(i, {}) && |i.payload| <= 1000
    ensures WireFits(i) && |i.path| < 512
  {
    hide IsAscii, StartsWith, LinkPayload;
  }

  lemma AllItemsAccepted(rest: seq<Byte>, mode: nat, payload: seq<Byte>)
    requires Accepted(Item(RUNTIME_PREFIX + rest, mode, payload), {}) && |payload| <= 1000
    ensures
      var items := Items(Item(RUNTIME_PREFIX + rest, mode, payload));
      forall k :: 0 <= k < |items| ==> Accepted(items[k], {}) && |items[k].payload| <= 1000
  {
    FileAccepted("treeforge-bootstrap-adb-service", 0x1ed);
    FileAccepted("etc/treeforge-bootstrap-release", 0x1a4);
    FileAccepted("system/bin/linker64", 0x1ed);
    FileAccepted("system/bin/treeforge-bootstrap-adbd", 0x1ed);
    hide Accepted, Ascii;
  }

  lemma DistinctItems(rest: seq<Byte>, mode: nat, payload: seq<Byte>)
    requires |rest| < 10
    ensures
      var items := Items(Item(RUNTIME_PREFIX + rest, mode, payload));
      forall j, k :: 0 <= j < k < |items| ==> items[j].path != items[k].path
  {
    var a, b, c, d := Ascii("treeforge-bootstrap-adb-service"), Ascii("etc/treeforge-bootstrap-release"),
                      Ascii("system/bin/linker64"), Ascii("system/bin/treeforge-bootstrap-adbd");
    assert a[0] == 0x74 && b[0] == 0x65;
    hide Ascii;
    assert |a| == 31 && |b| == 31 && |c| == 19 && |d| == 35;
    PathsDiffer(a, b);
    PathsDiffer(a, c);
    PathsDiffer(a, d);
    PathsDiffer(b, c);
    PathsDiffer(b, d);
    PathsDiffer(c, d);
    PathsDiffer(a, rest);
    PathsDiffer(b, rest);
    PathsDiffer(c, rest);
    PathsDiffer(d, rest);
  }

  lemma RequiredThere(rest: seq<Byte>, mode: nat, payload: seq<Byte>)
    ensures HasRequired(Items(Item(RUNTIME_PREFIX + rest, mode, payload)))
  {
    hide Ascii;
    var items := Items(Item(RUNTIME_PREFIX + rest, mode, payload));
    assert items[0].path == ADB_SERVICE && items[1].path == RELEASE && items[2].path == LINKER && items[3].path == ADBD;
    assert HasPath(items, ADB_SERVICE) && HasPath(items, RELEASE) && HasPath(items, LINKER) && HasPath(items, ADBD);
  }

  lemma {:induction false} ItemsSize(items: seq<Item>)
    requires AllFit(items) && forall k :: 0 <= k < |items| ==> |items[k].path| < 512 && |items[k].payload| <= 1000
    ensures |EncodeItems(items)| <= 1528 * |items|
  {
    hide EncodeItem;
    if items != [] {
      assert forall k :: 0 <= k < |items| - 1 ==> items[1..][k] == items[k + 1];
      ItemsSize(items[1..]);
    }
  }

  lemma BodyBound(items: seq<Item>)
    requires AllFit(items) && |items| == 5
    requires forall k :: 0 <= k < |items| ==> |items[k].path| < 512 && |items[k].payload| <= 1000
    ensures |Body(items, Zeros(4))| < TWO64
  {
    hide LE32, Ascii, EncodeItems;
    ItemsSize(items);
  }

  lemma {:induction false} PlainUtf8(s: seq<Byte>)
    requires forall i :: 0 <= i < |s| ==> s[i] < 0x80
    ensures ValidUtf8(s)
  {
    if s != [] {
      PlainUtf8(s[1..]);
    }
  }

  lemma ExtraAccepted(rest: seq<Byte>, mode: nat, payload: seq<Byte>)
    requires IsAscii(rest) && 0 < |rest| < 10 && mode <= MODE_LIMIT && (mode == 0 ==> LinkPayload(payload))
    ensures Accepted(Item(RUNTIME_PREFIX + rest, mode, payload), {})
  {
    UnderPrefix(rest);
    assert |RUNTIME_PREFIX| == 33;
    hide StartsWith, IsAscii, LinkPayload, Ascii;
  }

  /** A link to 512 letters: with its terminator one byte longer than the device's buffer. */
  function LongTarget(): (p: seq<Byte>)
    ensures |p| == 513 && LinkPayload(p)
  {
    var letters := seq(512, _ => 0x61);
    PlainUtf8(letters);
    assert (letters + [0])[..512] == letters;
    letters + [0]
  }

  const LONG_LINK: Item := Item(RUNTIME_PREFIX + [0x6c], 0, LongTarget())

  /** A validated bundle with a link of 513 bytes, which the device refuses. */
  lemma LongLinkRefused(elf: seq<Byte>)
    ensures
      var items := Items(LONG_LINK);
      && AllFit(items) && |Body(items, Zeros(4))| < TWO64
      && Validate(elf + Packed(items, Zeros(4))) == Some(items)
      && Device(elf + Packed(items, Zeros(4)), map[]).None?
  {
    ExtraAccepted([0x6c], 0, LongTarget());
    hide LongTarget, Accepted, Validate, Packed, Device, Body, WellFormed, Ascii, AllFit;
    ItemsWellFormed([0x6c], 0, LongTarget());
    var items := Items(LONG_LINK);
    ValidateOfPacked(elf, items, Zeros(4));
    DeviceAgrees(elf + Packed(items, Zeros(4)), items);
    assert items[4] == LONG_LINK;
  }

  /** An empty file whose name continues behind a NUL. */
  const NUL_PATH: Item := Item(RUNTIME_PREFIX + [0x6c, 0, 0x6c], 0x1a4, [])

  lemma NulItems()
    ensures LinksFit(Items(NUL_PATH)) && !PathsPlain(Items(NUL_PATH))
  {
    assert |RUNTIME_PREFIX| == 33;
    hide Ascii;
    var items := Items(NUL_PATH);
    assert NUL_PATH.path[34] == 0 && items[4] == NUL_PATH;
    assert HasNul(items[4].path);
  }

  /** A validated bundle with a NUL in a path, which the device unpacks to another destination. */
  lemma NulPathMisplaced(elf: seq<Byte>)
    ensures
      var items := Items(NUL_PATH);
      && AllFit(items) && |Body(items, Zeros(4))| < TWO64 && LinksNonEmpty(items)
      && Validate(elf + Packed(items, Zeros(4))) == Some(items)
      && Device(elf + Packed(items, Zeros(4)), map[]).Some?
      && Device(elf + Packed(items, Zeros(4)), map[]) != Some(Wanted(items))
  {
    ExtraAccepted([0x6c, 0, 0x6c], 0x1a4, []);
    NulItems();
    hide Accepted, Validate, Packed, Device, Body, WellFormed, Ascii, Wanted, AllFit, Items, LinksFit, PathsPlain,
         LinksNonEmpty;
    ItemsWellFormed([0x6c, 0, 0x6c], 0x1a4, []);
    var items := Items(NUL_PATH);
    ValidateOfPacked(elf, items, Zeros(4));
    DeviceAgrees(elf + Packed(items, Zeros(4)), items);
  }
}
