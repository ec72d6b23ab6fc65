/** Which disks a refresh accepts and what it reads from them, said of the bytes of the table alone. */
module GptTable {
  import opened Wrappers
  import opened ByteStrings
  import opened Gpt
  import opened GptRefresh

  // "userdata" and "treeforge_os".
  const USERDATA_NAME: seq<Byte> := [0x75, 0x73, 0x65, 0x72, 0x64, 0x61, 0x74, 0x61]
  const OS_NAME: seq<Byte> := [0x74, 0x72, 0x65, 0x65, 0x66, 0x6f, 0x72, 0x67, 0x65, 0x5f, 0x6f, 0x73]

  /** "EFI PART" stands in the second block, and the header places entries of a usable size past block 0. */
  predicate Headed(disk: seq<Byte>) {
    && |disk| >= 4188
    && disk[4096..4104] == [0x45, 0x46, 0x49, 0x20, 0x50, 0x41, 0x52, 0x54]
    && FromLE(disk[4168..4176]) != 0 && 128 <= FromLE(disk[4180..4184]) <= 4096
  }

  /** The number of entries the header declares. */
  function Entries(disk: seq<Byte>): nat
    requires Headed(disk)
  {
    FromLE(disk[4176..4180])
  }

  /** Where an entry is read, in 64 bits. */
  function Slot(disk: seq<Byte>, partition: nat): nat
    requires Headed(disk) && partition > 0
  {
    (FromLE(disk[4168..4176]) * 4096 + (partition - 1) * FromLE(disk[4180..4184])) % 0x1_0000_0000_0000_0000
  }

  predicate Untyped(entry: seq<Byte>)
    requires |entry| == 128
  {
    forall k :: 0 <= k < 16 ==> entry[k] == 0
  }

  /** The entry is a partition of that name whose first byte and length are 64-bit numbers, or the pair that wraps. */
  predicate Describes(entry: seq<Byte>, name: seq<Byte>)
    requires |entry| == 128 && |name| < 36
  {
    var first, last := FromLE(entry[32..40]), FromLE(entry[40..48]);
    && !Untyped(entry)
    && first <= last && first * 4096 < 0x1_0000_0000_0000_0000
    && ((last - first + 1) * 4096 < 0x1_0000_0000_0000_0000 || (first == 0 && last == 0xffff_ffff_ffff_ffff))
    && (forall j :: 0 <= j < |name| ==> entry[56 + 2 * j] == name[j] && entry[57 + 2 * j] == 0)
    && entry[56 + 2 * |name|] == 0 && entry[57 + 2 * |name|] == 0
  }

  /** From the first block to the end of the last one; the pair that wraps has length 0. */
  function Bytes(entry: seq<Byte>): Extent
    requires |entry| == 128 && FromLE(entry[32..40]) <= FromLE(entry[40..48])
  {
    var first, last := FromLE(entry[32..40]), FromLE(entry[40..48]);
    Extent(first * 4096, if first == 0 && last == 0xffff_ffff_ffff_ffff then 0 else (last + 1) * 4096 - first * 4096)
  }

  function SlotBytes(disk: seq<Byte>, partition: nat): (r: Option<seq<Byte>>)
    requires Headed(disk) && partition > 0
    ensures r.Some? ==> |r.value| == 128
  {
    var at := Slot(disk, partition);
    if at + 128 <= |disk| then Some(disk[at..at + 128]) else None
  }

  lemma HeaderIs(disk: seq<Byte>)
    requires |disk| <= SEEK_LIMIT
    ensures HeaderOf(disk).Some? <==> Headed(disk)
    ensures Headed(disk) ==>
      HeaderOf(disk) == Some(Header(FromLE(disk[4168..4176]), FromLE(disk[4176..4180]), FromLE(disk[4180..4184])))
  {
    hide FromLE;
    assert Ascii("EFI PART") == [0x45, 0x46, 0x49, 0x20, 0x50, 0x41, 0x52, 0x54];
    if |disk| >= 4188 {
      SliceOfSlice(disk, 4096, 4188, 0, 8);
      SliceOfSlice(disk, 4096, 4188, 72, 80);
      SliceOfSlice(disk, 4096, 4188, 80, 84);
      SliceOfSlice(disk, 4096, 4188, 84, 88);
    }
  }

  /** A name field inside an entry. */
  lemma NameIs(entry: seq<Byte>, name: seq<Byte>)
    requires |entry| == 128 && 0 < |name| < 36 && forall j :: 0 <= j < |name| ==> name[j] >= 0x20 && name[j] != 0x2f
    ensures DecodeName(entry[56..128]) == Some(name) <==>
      && (forall j :: 0 <= j < |name| ==> entry[56 + 2 * j] == name[j] && entry[57 + 2 * j] == 0)
      && entry[56 + 2 * |name|] == 0 && entry[57 + 2 * |name|] == 0
  {
    hide DecodeName;
    var field := entry[56..128];
    DecodeNameIff(field, name);
    forall j | 0 <= j < 36
      ensures field[2 * j] == entry[56 + 2 * j] && field[2 * j + 1] == entry[57 + 2 * j]
    {}
  }

  lemma TypeIs(entry: seq<Byte>)
    requires |entry| == 128
    ensures AllZero(entry[..16]) <==> Untyped(entry)
  {
    forall k | 0 <= k < 16
      ensures entry[..16][k] == entry[k]
    {}
  }

  /** What the decoder makes of an entry that should have that name. */
  lemma EntryIs(entry: seq<Byte>, name: seq<Byte>)
    requires |entry| == 128 && 0 < |name| < 36 && forall j :: 0 <= j < |name| ==> name[j] >= 0x20 && name[j] != 0x2f
    ensures EntryTarget(entry) == Some(Absent) <==> Untyped(entry)
    ensures EntryTarget(entry).Some? && EntryTarget(entry).value.Present? && EntryTarget(entry).value.name == name
       <==> Describes(entry, name)
    ensures Describes(entry, name) ==> EntryTarget(entry) == Some(Present(Bytes(entry), name))
  {
    hide DecodeName, FromLE, Untyped, AllZero;
    TypeIs(entry);
    NameIs(entry, name);
    RangeIs(Read64(entry, 32), Read64(entry, 40));
  }

  /** Whether a pair of blocks is representable, and the bytes it covers. */
  lemma RangeIs(first: nat, last: nat)
    requires first < TWO64 && last < TWO64
    ensures Representable(first, last) <==>
      && first <= last && first * 4096 < TWO64
      && ((last - first + 1) * 4096 < TWO64 || (first == 0 && last == 0xffff_ffff_ffff_ffff))
    ensures Representable(first, last) ==>
      && (first * BLOCK) % TWO64 == first * 4096
      && ((last - first + 1) % TWO64 * BLOCK) % TWO64 ==
           if first == 0 && last == 0xffff_ffff_ffff_ffff then 0 else (last + 1) * 4096 - first * 4096
  {
    if first <= last {
      BlockLimit(first);
      BlockLimit(last - first + 1);
      assert (last - first + 1) % TWO64 == if first == 0 && last == TWO64 - 1 then 0 else last - first + 1;
    }
  }

  lemma TargetIs(disk: seq<Byte>, partition: nat)
    requires |disk| <= SEEK_LIMIT && partition > 0
    ensures !Headed(disk) ==> TargetOf(disk, partition) == None
    ensures Headed(disk) ==>
      TargetOf(disk, partition) ==
        if partition > Entries(disk) then Some(Absent)
        else if SlotBytes(disk, partition).None? then None
        else EntryTarget(SlotBytes(disk, partition).value)
  {
    hide HeaderOf, FromLE, EntryTarget, Headed;
    HeaderIs(disk);
  }

  /** The entry of a partition, by its bytes: it is declared and lies on the disk. */
  predicate Named(disk: seq<Byte>, partition: nat, name: seq<Byte>)
    requires Headed(disk) && partition > 0 && |name| < 36
  {
    && partition <= Entries(disk) && SlotBytes(disk, partition).Some?
    && Describes(SlotBytes(disk, partition).value, name)
  }

  predicate Missing(disk: seq<Byte>, partition: nat)
    requires Headed(disk) && partition > 0
  {
    partition > Entries(disk)
    || (SlotBytes(disk, partition).Some? && Untyped(SlotBytes(disk, partition).value))
  }

  lemma NamedIs(disk: seq<Byte>, partition: nat, name: seq<Byte>)
    requires |disk| <= SEEK_LIMIT && partition > 0 && Headed(disk)
    requires 0 < |name| < 36 && forall j :: 0 <= j < |name| ==> name[j] >= 0x20 && name[j] != 0x2f
    ensures TargetOf(disk, partition) == Some(Absent) <==> Missing(disk, partition)
    ensures
      var t := TargetOf(disk, partition);
      t.Some? && t.value.Present? && t.value.name == name <==> Named(disk, partition, name)
    ensures Named(disk, partition, name) ==>
      TargetOf(disk, partition) == Some(Present(Bytes(SlotBytes(disk, partition).value), name))
  {
    hide TargetOf, Headed, EntryTarget, FromLE, Untyped, Slot, Bytes, Describes;
    TargetIs(disk, partition);
    if partition <= Entries(disk) && SlotBytes(disk, partition).Some? {
      EntryIs(SlotBytes(disk, partition).value, name);
    }
  }

  /**
   * A refresh accepts a disk exactly when its header is right, entry 26 is a partition named "userdata", and entry 27
   * is missing or named "treeforge_os"; and what it then asks the kernel for are the byte ranges of these entries.
   */
  lemma CheckedIff(disk: seq<Byte>)
    requires |disk| <= SEEK_LIMIT
    ensures Checked(disk).Some? <==>
      && Headed(disk) && Named(disk, 26, USERDATA_NAME)
      && (Missing(disk, 27) || Named(disk, 27, OS_NAME))
    ensures Checked(disk).Some? ==>
      && Checked(disk).value.0 == Present(Bytes(SlotBytes(disk, 26).value), USERDATA_NAME)
      && Checked(disk).value.1 ==
        if Missing(disk, 27) then Absent else Present(Bytes(SlotBytes(disk, 27).value), OS_NAME)
  {
    hide TargetOf, Headed, FromLE, Untyped, Slot, Bytes, Describes;
    assert Ascii("userdata") == USERDATA_NAME;
    assert Ascii("treeforge_os") == OS_NAME;
    hide Ascii;
    if Headed(disk) {
      NamedIs(disk, 26, USERDATA_NAME);
      NamedIs(disk, 27, OS_NAME);
    } else {
      TargetIs(disk, 26);
    }
  }

  // ---- a table with both partitions, spelled out ----

  /** A name in two-byte units, low byte first. */
  function Wide(name: seq<Byte>): (s: seq<Byte>)
    ensures |s| == 2 * |name|
  {
    seq(2 * |name|, i requires 0 <= i < 2 * |name| => if i % 2 == 0 then name[i / 2] else 0)
  }

  /** A partition entry with the given blocks and name. */
  function EntryFor(first: nat, last: nat, name: seq<Byte>): (entry: seq<Byte>)
    requires first < TWO64 && last < TWO64 && |name| < 36
    ensures |entry| == 128
  {
    [1] + Zeros(31) + LE64(first) + LE64(last) + Zeros(8) + (Wide(name) + Zeros(72 - 2 * |name|))
  }

  lemma EntryForDescribes(first: nat, last: nat, name: seq<Byte>)
    requires first <= last < TWO64 && |name| < 36
    requires first * 4096 < TWO64 && (last - first + 1) * 4096 < TWO64
    ensures
      var e := EntryFor(first, last, name);
      Describes(e, name) && Bytes(e) == Extent(first * 4096, (last + 1) * 4096 - first * 4096)
  {
    hide FromLE, LE64, Wide, Zeros;
    EntryParts([1] + Zeros(31), LE64(first), LE64(last), Zeros(8), Wide(name) + Zeros(72 - 2 * |name|));
    WideUnits(name, Zeros(72 - 2 * |name|));
  }

  lemma EntryParts(a: seq<Byte>, b: seq<Byte>, c: seq<Byte>, d: seq<Byte>, field: seq<Byte>)
    requires |a| == 32 && |b| == |c| == |d| == 8 && |field| == 72
    ensures
      var e := a + b + c + d + field;
      && e[0] == a[0] && e[32..40] == b && e[40..48] == c
      && forall k :: 0 <= k < 72 ==> e[56 + k] == field[k]
  {}

  lemma WideUnits(name: seq<Byte>, rest: seq<Byte>)
    requires |name| < 36 && |rest| == 72 - 2 * |name| && AllZero(rest)
    ensures
      var field := Wide(name) + rest;
      && (forall j :: 0 <= j < |name| ==> field[2 * j] == name[j] && field[2 * j + 1] == 0)
      && field[2 * |name|] == 0 && field[2 * |name| + 1] == 0
  {}

  /** A disk of three blocks: the header in block 1, its 32 entries of 128 bytes from block 2 on. */
  function TableDisk(userdata: seq<Byte>, os: seq<Byte>): (disk: seq<Byte>)
    requires |userdata| == |os| == 128
    ensures |disk| == 12288
  {
    Zeros(4096) + ([0x45, 0x46, 0x49, 0x20, 0x50, 0x41, 0x52, 0x54] + Zeros(64) + LE64(2) + LE32(32) + LE32(128)
                   + Zeros(4008))
    + (Zeros(3200) + userdata + os + Zeros(640))
  }

  lemma TableDiskParts(userdata: seq<Byte>, os: seq<Byte>)
    requires |userdata| == |os| == 128
    ensures
      var disk := TableDisk(userdata, os);
      && Headed(disk) && Entries(disk) == 32
      && SlotBytes(disk, 26) == Some(userdata) && SlotBytes(disk, 27) == Some(os)
  {
    hide FromLE, LE64, LE32;
    var disk := TableDisk(userdata, os);
    var header := [0x45, 0x46, 0x49, 0x20, 0x50, 0x41, 0x52, 0x54] + Zeros(64) + LE64(2) + LE32(32) + LE32(128)
      + Zeros(4008);
    assert disk[4096..4104] == header[..8];
    assert disk[4168..4176] == header[72..80] == LE64(2);
    assert disk[4176..4180] == header[80..84] == LE32(32);
    assert disk[4180..4184] == header[84..88] == LE32(128);
    assert disk[11392..11520] == userdata && disk[11520..11648] == os;
  }

  /**
   * For all blocks that fit 64 bits as bytes: a table whose entries 26 and 27 are "userdata" and "treeforge_os" passes,
   * and a refresh leaves the kernel with exactly these ranges.
   */
  lemma SpelledTable(u0: nat, u1: nat, o0: nat, o1: nat, table: Table)
    requires u0 <= u1 < TWO64 && u0 * 4096 < TWO64 && (u1 - u0 + 1) * 4096 < TWO64
    requires o0 <= o1 < TWO64 && o0 * 4096 < TWO64 && (o1 - o0 + 1) * 4096 < TWO64
    ensures
      var disk := TableDisk(EntryFor(u0, u1, USERDATA_NAME), EntryFor(o0, o1, OS_NAME));
      && Checked(disk).Some?
      && var done := ApplyAll(table, Plan(table, Checked(disk).value));
      && 26 in done && done[26] == Extent(u0 * 4096, (u1 + 1) * 4096 - u0 * 4096)
      && 27 in done && done[27] == Extent(o0 * 4096, (o1 + 1) * 4096 - o0 * 4096)
      && SameElsewhere(table, done)
  {
    hide FromLE, LE64, LE32, EntryFor, TableDisk, Checked, ApplyAll, Plan, Describes, Bytes, SameElsewhere;
    var userdata, os := EntryFor(u0, u1, USERDATA_NAME), EntryFor(o0, o1, OS_NAME);
    var disk := TableDisk(userdata, os);
    EntryForDescribes(u0, u1, USERDATA_NAME);
    EntryForDescribes(o0, o1, OS_NAME);
    TableDiskParts(userdata, os);
    CheckedIff(disk);
    NotMissing(os);
    RefreshAgrees(table, disk);
  }

  lemma NotMissing(entry: seq<Byte>)
    requires |entry| == 128 && Describes(entry, OS_NAME)
    ensures !Untyped(entry)
  {
    hide FromLE;
  }
}
