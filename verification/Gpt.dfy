/**
 * Reading one entry of a GUID partition table, sections 5.3.2 and 5.3.3 of the UEFI Specification, the way
 * the boot menu does it with 64-bit arithmetic, against the same table read with unbounded numbers.
 */
module Gpt {
  import opened Wrappers
  import opened ByteStrings

  const BLOCK: nat := 4096
  const HEADER_OFFSET: nat := 4096
  const HEADER_BYTES: nat := 92
  const ENTRY_BYTES: nat := 128
  const SEEK_LIMIT: nat := 0x8000_0000_0000_0000
  const BLOCK_LIMIT: nat := (TWO64 - 1) / BLOCK
  const NAME_UNITS: nat := 36

  datatype Extent = Extent(start: nat, length: nat)

  datatype Target = Absent | Present(extent: Extent, name: seq<Byte>)

  datatype Header = Header(entriesLba: nat, entryCount: nat, entrySize: nat)

  function Read32(s: seq<Byte>, i: nat): (n: nat)
    requires i + 4 <= |s|
    ensures n < TWO32
  {
    LERange(s[i..i + 4]);
    Pow256Values();
    FromLE(s[i..i + 4])
  }

  function Read64(s: seq<Byte>, i: nat): (n: nat)
    requires i + 8 <= |s|
    ensures n < TWO64
  {
    LERange(s[i..i + 8]);
    Pow256Values();
    FromLE(s[i..i + 8])
  }

  /** Bytes at an offset; None past the end, or where the offset is negative as a seek position. */
  function ReadAt(disk: seq<Byte>, offset: nat, amount: nat): (r: Option<seq<Byte>>)
    ensures r.Some? ==> |r.value| == amount
  {
    if offset < SEEK_LIMIT && offset + amount <= |disk| then Some(disk[offset..offset + amount]) else None
  }

  // ---- names ----

  predicate NameByte(b: Byte) {
    b >= 0x20 && b != 0x2f
  }

  /** The name from unit `i` on; None for a unit that may not become part of a path. */
  function NameFrom(field: seq<Byte>, i: nat): (r: Option<seq<Byte>>)
    requires |field| == 2 * NAME_UNITS && i <= NAME_UNITS
    ensures r.Some? ==> |r.value| <= NAME_UNITS - i
    decreases NAME_UNITS - i
  {
    if i == NAME_UNITS || (field[2 * i] == 0 && field[2 * i + 1] == 0) then Some([])
    else if field[2 * i + 1] != 0 || !NameByte(field[2 * i]) then None
    else
      match NameFrom(field, i + 1)
      case None => None
      case Some(rest) => Some([field[2 * i]] + rest)
  }

  /** `tfb_gpt_decode_name`. */
  function DecodeName(field: seq<Byte>): Option<seq<Byte>>
    requires |field| == 2 * NAME_UNITS
  {
    if NameFrom(field, 0) == Some([]) then None else NameFrom(field, 0)
  }

  /** The field spells `name` in UTF-16, low byte first, from unit `i` on, and ends it there. */
  ghost predicate Spells(field: seq<Byte>, i: nat, name: seq<Byte>)
    requires |field| == 2 * NAME_UNITS
  {
    && i + |name| <= NAME_UNITS
    && (forall j :: i <= j < i + |name| ==>
          Low(field, j) == name[j - i] && High(field, j) == 0 && NameByte(name[j - i]))
    && (i + |name| < NAME_UNITS ==> Low(field, i + |name|) == 0 && High(field, i + |name|) == 0)
  }

  function Low(field: seq<Byte>, j: nat): Byte
    requires |field| == 2 * NAME_UNITS && j < NAME_UNITS
  {
    field[2 * j]
  }

  function High(field: seq<Byte>, j: nat): Byte
    requires |field| == 2 * NAME_UNITS && j < NAME_UNITS
  {
    field[2 * j + 1]
  }

  lemma {:induction false} NameFromIff(field: seq<Byte>, i: nat, name: seq<Byte>)
    requires |field| == 2 * NAME_UNITS && i <= NAME_UNITS
    ensures NameFrom(field, i) == Some(name) <==> Spells(field, i, name)
    decreases NAME_UNITS - i
  {
    if i < NAME_UNITS && !(field[2 * i] == 0 && field[2 * i + 1] == 0) {
      var rest := NameFrom(field, i + 1);
      assert rest.Some? ==> ([field[2 * i]] + rest.value)[1..] == rest.value;
      if name != [] {
        assert name == [name[0]] + name[1..];
        NameFromIff(field, i + 1, name[1..]);
        SpellsTail(field, i, name);
      }
    } else if name != [] && Spells(field, i, name) {
      SpellsFirst(field, i, name);
    }
  }

  lemma SpellsFirst(field: seq<Byte>, i: nat, name: seq<Byte>)
    requires |field| == 2 * NAME_UNITS && name != [] && Spells(field, i, name)
    ensures i < NAME_UNITS && field[2 * i] == name[0] >= 0x20
  {
    assert Low(field, i) == name[0] && NameByte(name[0]);
  }

  lemma SpellsTail(field: seq<Byte>, i: nat, name: seq<Byte>)
    requires |field| == 2 * NAME_UNITS && i < NAME_UNITS && name != []
    ensures Spells(field, i, name) <==>
            Spells(field, i + 1, name[1..]) && field[2 * i] == name[0] && field[2 * i + 1] == 0 && NameByte(name[0])
  {
    hide Spells, NameByte;
    if Spells(field, i, name) {
      SpellsRest(field, i, name);
    }
    if Spells(field, i + 1, name[1..]) && field[2 * i] == name[0] && field[2 * i + 1] == 0 && NameByte(name[0]) {
      SpellsMore(field, i, name);
    }
  }

  lemma SpellsRest(field: seq<Byte>, i: nat, name: seq<Byte>)
    requires |field| == 2 * NAME_UNITS && i < NAME_UNITS && name != [] && Spells(field, i, name)
    ensures Spells(field, i + 1, name[1..]) && field[2 * i] == name[0] && field[2 * i + 1] == 0 && NameByte(name[0])
  {
    var rest := name[1..];
    assert Low(field, i) == name[0] && High(field, i) == 0 && NameByte(name[0]);
    forall j | i + 1 <= j < i + 1 + |rest|
      ensures Low(field, j) == rest[j - (i + 1)] && High(field, j) == 0 && NameByte(rest[j - (i + 1)])
    {
      assert Low(field, j) == name[j - i] && High(field, j) == 0 && NameByte(name[j - i]);
      assert rest[j - (i + 1)] == name[j - i];
    }
  }

  lemma SpellsMore(field: seq<Byte>, i: nat, name: seq<Byte>)
    requires |field| == 2 * NAME_UNITS && i < NAME_UNITS && name != [] && Spells(field, i + 1, name[1..])
    requires field[2 * i] == name[0] && field[2 * i + 1] == 0 && NameByte(name[0])
    ensures Spells(field, i, name)
  {
    var rest := name[1..];
    forall j | i <= j < i + |name|
      ensures Low(field, j) == name[j - i] && High(field, j) == 0 && NameByte(name[j - i])
    {
      if j > i {
        assert rest[j - (i + 1)] == name[j - i];
        assert Low(field, j) == rest[j - (i + 1)];
      }
    }
    assert i + 1 + |rest| == i + |name|;
  }

  /**
   * Decoding and spelling are inverse: a field decodes to a name exactly when it spells that name in at most 36
   * units, low byte first, ends it with a zero unit if there is room, and no byte is below 0x20 or '/'. Bytes above
   * ASCII pass.
   */
  lemma DecodeNameIff(field: seq<Byte>, name: seq<Byte>)
    requires |field| == 72
    ensures DecodeName(field) == Some(name) <==>
      && 0 < |name| <= 36
      && (forall j :: 0 <= j < |name| ==> field[2 * j] == name[j] && field[2 * j + 1] == 0)
      && (|name| < 36 ==> field[2 * |name|] == 0 && field[2 * |name| + 1] == 0)
      && (forall j :: 0 <= j < |name| ==> name[j] >= 0x20 && name[j] != 0x2f)
  {
    NameFromIff(field, 0, name);
    if |name| <= 36 && forall j :: 0 <= j < |name| ==> field[2 * j] == name[j] && field[2 * j + 1] == 0 {
      forall j | 0 <= j < |name|
        ensures Low(field, j) == name[j] && High(field, j) == 0
      {}
    }
    if Spells(field, 0, name) {
      forall j | 0 <= j < |name|
        ensures field[2 * j] == name[j] && field[2 * j + 1] == 0
      {
        assert Low(field, j) == name[j] && High(field, j) == 0;
      }
    }
  }

  // ---- entries ----

  /** The last LBA is past the first, and both the start and the length fit 64 bits (as the code computes them). */
  predicate Representable(first: nat, last: nat) {
    first <= last && first <= BLOCK_LIMIT && (last - first + 1) % TWO64 <= BLOCK_LIMIT
  }

  function EntryTarget(entry: seq<Byte>): Option<Target>
    requires |entry| == ENTRY_BYTES
  {
    var first, last := Read64(entry, 32), Read64(entry, 40);
    if AllZero(entry[..16]) then Some(Absent)
    else if !Representable(first, last) then None
    else
      match DecodeName(entry[56..128])
      case None => None
      case Some(name) => Some(Present(Extent((first * BLOCK) % TWO64, ((last - first + 1) % TWO64 * BLOCK) % TWO64),
                                      name))
  }

  function HeaderOf(disk: seq<Byte>): Option<Header> {
    match ReadAt(disk, HEADER_OFFSET, HEADER_BYTES)
    case None => None
    case Some(h) =>
      var header := Header(Read64(h, 72), Read32(h, 80), Read32(h, 84));
      if h[..8] != Ascii("EFI PART") || header.entrySize < ENTRY_BYTES || header.entrySize > 4096
        || header.entriesLba == 0
      then None
      else Some(header)
  }

  /** The byte offset of an entry, as the code computes it. */
  function EntryOffset(h: Header, partition: nat): nat
    requires partition > 0
  {
    (h.entriesLba * BLOCK + (partition - 1) * h.entrySize) % TWO64
  }

  /** `tfb_gpt_read_partition_target`; None is its error return. */
  function TargetOf(disk: seq<Byte>, partition: nat): Option<Target>
    requires partition > 0
  {
    match HeaderOf(disk)
    case None => None
    case Some(h) =>
      if partition > h.entryCount then Some(Absent)
      else
        match ReadAt(disk, EntryOffset(h, partition), ENTRY_BYTES)
        case None => None
        case Some(entry) => EntryTarget(entry)
  }

  // ---- the same table with unbounded arithmetic ----

  function IdealEntry(entry: seq<Byte>): Option<Target>
    requires |entry| == ENTRY_BYTES
  {
    var first, last := Read64(entry, 32), Read64(entry, 40);
    if AllZero(entry[..16]) then Some(Absent)
    else if last < first || first * BLOCK >= TWO64 || (last - first + 1) * BLOCK >= TWO64 then None
    else
      match DecodeName(entry[56..128])
      case None => None
      case Some(name) => Some(Present(Extent(first * BLOCK, (last + 1) * BLOCK - first * BLOCK), name))
  }

  function IdealOffset(h: Header, partition: nat): nat
    requires partition > 0
  {
    h.entriesLba * BLOCK + (partition - 1) * h.entrySize
  }

  function IdealTarget(disk: seq<Byte>, partition: nat): Option<Target>
    requires partition > 0
  {
    match HeaderOf(disk)
    case None => None
    case Some(h) =>
      if partition > h.entryCount then Some(Absent)
      else if IdealOffset(h, partition) + ENTRY_BYTES > |disk| then None
      else IdealEntry(disk[IdealOffset(h, partition)..IdealOffset(h, partition) + ENTRY_BYTES])
  }

  /** The one pair whose length wraps. */
  predicate WholeRange(entry: seq<Byte>)
    requires |entry| == ENTRY_BYTES
  {
    Read64(entry, 32) == 0 && Read64(entry, 40) == TWO64 - 1
  }

  lemma BlockLimit(n: nat)
    ensures n <= BLOCK_LIMIT <==> n * BLOCK < TWO64
  {}

  /** On every entry the two readings agree, but for the single pair 0, 2^64 - 1. */
  lemma EntryAgreesIff(entry: seq<Byte>)
    requires |entry| == ENTRY_BYTES
    ensures EntryTarget(entry).None? ==> IdealEntry(entry).None?
    ensures EntryTarget(entry) == Some(Absent) ==> IdealEntry(entry) == Some(Absent)
    ensures EntryTarget(entry).Some? && EntryTarget(entry).value.Present? ==>
              (EntryTarget(entry) == IdealEntry(entry) <==> !WholeRange(entry))
  {
    hide DecodeName, Read64, AllZero;
    var first, last := Read64(entry, 32), Read64(entry, 40);
    if first <= last {
      BlockLimit(first);
      BlockLimit(last - first + 1);
      assert (last - first + 1) % TWO64 == if first == 0 && last == TWO64 - 1 then 0 else last - first + 1;
    }
  }

  /** The entry the code reads, when it reads one. */
  function EntryRead(disk: seq<Byte>, partition: nat): Option<seq<Byte>>
    requires partition > 0
  {
    match HeaderOf(disk)
    case None => None
    case Some(h) => if partition > h.entryCount then None else ReadAt(disk, EntryOffset(h, partition), ENTRY_BYTES)
  }

  predicate OffsetWraps(disk: seq<Byte>, partition: nat)
    requires partition > 0
  {
    HeaderOf(disk).Some? && partition <= HeaderOf(disk).value.entryCount
    && IdealOffset(HeaderOf(disk).value, partition) >= TWO64
  }

  /**
   * An answer for a present partition is the unbounded reading of the table exactly when the entry's offset
   * did not wrap and the entry is not the pair 0, 2^64 - 1; every refusal and every other absence agrees.
   */
  lemma TargetAgreesIff(disk: seq<Byte>, partition: nat)
    requires partition > 0 && |disk| <= SEEK_LIMIT
    ensures
      var r := TargetOf(disk, partition);
      && (r.None? ==> IdealTarget(disk, partition).None?)
      && (r.Some? && EntryRead(disk, partition).None? ==> r == IdealTarget(disk, partition))
      && (r.Some? && EntryRead(disk, partition).Some? ==>
            (r == IdealTarget(disk, partition) <==>
             !OffsetWraps(disk, partition) && (r.value.Present? ==> !WholeRange(EntryRead(disk, partition).value))))
  {
    hide HeaderOf, EntryTarget, IdealEntry, WholeRange, IdealOffset;
    if HeaderOf(disk).Some? && partition <= HeaderOf(disk).value.entryCount {
      var ideal := IdealOffset(HeaderOf(disk).value, partition);
      OffsetIs(HeaderOf(disk).value, partition);
      if ideal < TWO64 && ReadAt(disk, ideal, ENTRY_BYTES).Some? {
        EntryAgreesIff(ReadAt(disk, ideal, ENTRY_BYTES).value);
      }
    }
  }

  lemma OffsetIs(h: Header, partition: nat)
    requires partition > 0
    ensures EntryOffset(h, partition) == IdealOffset(h, partition) % TWO64
    ensures IdealOffset(h, partition) < TWO64 ==> EntryOffset(h, partition) == IdealOffset(h, partition)
  {}

  // ---- the two failing inputs, concretely ----

  /** An entry of the given extent, named "userdata". */
  function SampleEntry(first: nat, last: nat): (entry: seq<Byte>)
    requires first < TWO64 && last < TWO64
    ensures |entry| == ENTRY_BYTES
  {
    [1] + Zeros(31) + LE64(first) + LE64(last)
    + (Zeros(8) + [0x75, 0, 0x73, 0, 0x65, 0, 0x72, 0, 0x64, 0, 0x61, 0, 0x74, 0, 0x61, 0]
    + Zeros(56))
  }

  lemma SampleFields(first: nat, last: nat)
    requires first < TWO64 && last < TWO64
    ensures
      var e := SampleEntry(first, last);
      Read64(e, 32) == first && Read64(e, 40) == last && !AllZero(e[..16])
        && DecodeName(e[56..128]) == Some(Ascii("userdata"))
  {
    hide DecodeName, NameFrom, FromLE, LE64;
    var e := SampleEntry(first, last);
    assert e[32..40] == LE64(first) && e[40..48] == LE64(last) && e[..16][0] == 1;
    SampleName(e[56..128]);
  }

  lemma SampleName(field: seq<Byte>)
    requires field == [0x75, 0, 0x73, 0, 0x65, 0, 0x72, 0, 0x64, 0, 0x61, 0, 0x74, 0, 0x61, 0] + Zeros(56)
    ensures DecodeName(field) == Some(Ascii("userdata"))
  {
    hide NameFrom, DecodeName;
    DecodeNameIff(field, Ascii("userdata"));
  }

  /** A userdata entry covering all 2^64 blocks is accepted with length 0. */
  lemma WholeRangeWitness()
    ensures EntryTarget(SampleEntry(0, TWO64 - 1)) == Some(Present(Extent(0, 0), Ascii("userdata")))
    ensures IdealEntry(SampleEntry(0, TWO64 - 1)).None?
  {
    hide DecodeName, Read64, SampleEntry, Ascii;
    SampleFields(0, TWO64 - 1);
  }

  /** A table of 26 entries whose header places it 2^64 bytes further up than block 2. */
  function WrappedDisk(): (disk: seq<Byte>)
    ensures |disk| == 11520
  {
    Zeros(4096) + (Ascii("EFI PART") + Zeros(64) + LE64(0x10_0000_0000_0002) + LE32(26) + LE32(128) + Zeros(4))
      + Zeros(7204)
    + SampleEntry(10, 19)
  }

  /** The wrapped offset lands on the disk and its entry is taken, though no entry array can be there. */
  lemma WrappedWitness()
    ensures TargetOf(WrappedDisk(), 26) == Some(Present(Extent(40960, 40960), Ascii("userdata")))
    ensures OffsetWraps(WrappedDisk(), 26) && IdealTarget(WrappedDisk(), 26).None?
  {
    WrappedHeader();
    WrappedEntry();
    hide HeaderOf, EntryTarget, IdealEntry, ReadAt, SampleEntry, WrappedDisk, Ascii;
    var h := HeaderOf(WrappedDisk()).value;
    assert EntryOffset(h, 26) == 11392 && IdealOffset(h, 26) == TWO64 + 11392;
    hide EntryOffset, IdealOffset;
  }

  lemma WrappedEntry()
    ensures ReadAt(WrappedDisk(), 11392, ENTRY_BYTES) == Some(SampleEntry(10, 19))
    ensures EntryTarget(SampleEntry(10, 19)) == Some(Present(Extent(40960, 40960), Ascii("userdata")))
  {
    hide DecodeName, Read64, SampleEntry, Ascii, LE64, LE32, AllZero;
    assert WrappedDisk()[11392..11520] == SampleEntry(10, 19);
    SampleFields(10, 19);
  }

  lemma WrappedHeader()
    ensures HeaderOf(WrappedDisk()) == Some(Header(0x10_0000_0000_0002, 26, 128))
  {
    hide SampleEntry, FromLE, LE64, LE32;
    var h := Ascii("EFI PART") + Zeros(64) + LE64(0x10_0000_0000_0002) + LE32(26) + LE32(128) + Zeros(4);
    assert WrappedDisk()[4096..4188] == h;
    assert h[..8] == Ascii("EFI PART");
    assert h[72..80] == LE64(0x10_0000_0000_0002);
    assert h[80..84] == LE32(26);
    assert h[84..88] == LE32(128);
  }

  // ---- the code ----

  /** `/dev/block/sda`: reads are short or fail as they please. */
  class Device {
    const bytes: seq<Byte>
    var position: nat
    var failed: bool

    constructor (content: seq<Byte>)
      ensures bytes == content && !failed
    {
      bytes, position, failed := content, 0, false;
    }

    /** One read of at most `amount` bytes; None for an error, empty at the end. */
    method Read(amount: nat) returns (r: Option<seq<Byte>>)
      requires amount > 0
      modifies this
      ensures old(failed) ==> failed
      ensures r.None? ==> failed
      ensures r.Some? ==> |r.value| <= amount && failed == old(failed)
      ensures r.Some? ==> old(position) + |r.value| <= |bytes| || r.value == []
      ensures r.Some? && r.value == [] ==> old(position) >= |bytes|
      ensures r.Some? && r.value != [] ==> r.value == bytes[old(position)..old(position) + |r.value|]
      ensures r.Some? ==> position == old(position) + |r.value|
    {
      var wanted: int, fails: bool := *, *;
      if fails {
        failed := true;
        return None;
      }
      if position >= |bytes| {
        return Some([]);
      }
      var n := if 0 < wanted <= amount then wanted else amount;
      if n > |bytes| - position {
        n := |bytes| - position;
      }
      r := Some(bytes[position..position + n]);
      position := position + n;
    }

    /** `tfb_block_read_exact_at`. */
    method ReadExactAt(offset: nat, amount: nat) returns (r: Option<seq<Byte>>)
      requires amount > 0
      modifies this
      ensures r.Some? ==> r == ReadAt(bytes, offset, amount) && failed == old(failed)
      ensures r.None? ==> ReadAt(bytes, offset, amount).None? || failed
      ensures old(failed) ==> failed
    {
      if offset >= SEEK_LIMIT {
        return None;
      }
      position := offset;
      var buffer: seq<Byte> := [];
      while |buffer| < amount
        invariant |buffer| <= amount && position == offset + |buffer|
        invariant |buffer| > 0 ==> offset + |buffer| <= |bytes|
        invariant |buffer| > 0 ==> buffer == bytes[offset..offset + |buffer|]
        invariant failed == old(failed)
        decreases amount - |buffer|
      {
        var received := Read(amount - |buffer|);
        if received.None? || received.value == [] {
          return None;
        }
        buffer := buffer + received.value;
      }
      r := Some(buffer);
    }

    /** `tfb_gpt_read_partition_target`. */
    method ReadPartitionTarget(partition: nat) returns (r: Option<Target>)
      requires partition > 0
      modifies this
      ensures r.Some? ==> r == TargetOf(bytes, partition) && failed == old(failed)
      ensures r.None? ==> TargetOf(bytes, partition).None? || failed
      ensures old(failed) ==> failed
    {
      hide EntryTarget;
      var read := ReadExactAt(HEADER_OFFSET, HEADER_BYTES);
      if read.None? {
        return None;
      }
      var h := read.value;
      if h[..8] != Ascii("EFI PART") {
        return None;
      }
      var entriesLba := ReadLE64(h, 72);
      var entryCount, entrySize := Read32(h, 80), Read32(h, 84);
      if entrySize < ENTRY_BYTES || entrySize > 4096 || entriesLba == 0 {
        return None;
      }
      if partition > entryCount {
        return Some(Absent);
      }
      var offset := (entriesLba * BLOCK + (partition - 1) * entrySize) % TWO64;
      read := ReadExactAt(offset, ENTRY_BYTES);
      if read.None? {
        return None;
      }
      r := DecodeEntry(read.value);
    }
  }

  lemma NoBytes(s: seq<Byte>)
    requires s == []
    ensures FromLE(s) == 0
  {}

  lemma OneByte(s: seq<Byte>, i: nat)
    requires i < |s|
    ensures FromLE(s[i..]) == s[i] + 256 * FromLE(s[i + 1..])
  {
    assert s[i..][1..] == s[i + 1..];
  }

  /** `tfb_read_le64`. */
  method ReadLE64(s: seq<Byte>, at: nat) returns (n: nat)
    requires at + 8 <= |s|
    ensures n == Read64(s, at)
  {
    n := FoldLE(s[at..at + 8]);
  }

  method FoldLE(value: seq<Byte>) returns (n: nat)
    ensures n == FromLE(value)
  {
    hide FromLE;
    n := 0;
    var index := |value| - 1;
    NoBytes(value[|value|..]);
    while index >= 0
      invariant -1 <= index < |value|
      invariant n == FromLE(value[index + 1..])
    {
      OneByte(value, index);
      n := n * 256 + value[index];
      index := index - 1;
    }
    assert value[0..] == value;
  }

  method DecodeEntry(entry: seq<Byte>) returns (r: Option<Target>)
    requires |entry| == ENTRY_BYTES
    ensures r == EntryTarget(entry)
  {
    hide DecodeName, FromLE;
    var index := 0;
    while index < 16 && entry[index] == 0
      invariant 0 <= index <= 16
      invariant forall k :: 0 <= k < index ==> entry[k] == 0
    {
      index := index + 1;
    }
    if index == 16 {
      return Some(Absent);
    }
    assert entry[..16][index] != 0;
    var first := ReadLE64(entry, 32);
    var last := ReadLE64(entry, 40);
    if last < first || first > BLOCK_LIMIT || (last - first + 1) % TWO64 > BLOCK_LIMIT {
      return None;
    }
    var name := ReadName(entry[56..128]);
    if name.None? {
      return None;
    }
    r := Some(Present(Extent((first * BLOCK) % TWO64, ((last - first + 1) % TWO64 * BLOCK) % TWO64), name.value));
  }

  method ReadName(field: seq<Byte>) returns (r: Option<seq<Byte>>)
    requires |field| == 2 * NAME_UNITS
    ensures r == DecodeName(field)
  {
    hide NameFrom;
    var name: seq<Byte>, index := [], 0;
    JoinedStart(NameFrom(field, index));
    while index < NAME_UNITS && !(field[2 * index] == 0 && field[2 * index + 1] == 0)
      invariant 0 <= index <= NAME_UNITS && |name| == index
      invariant NameFrom(field, 0) == Joined(name, NameFrom(field, index))
    {
      NameStep(field, index);
      if field[2 * index + 1] != 0 || !NameByte(field[2 * index]) {
        return None;
      }
      JoinedMore(name, field[2 * index], NameFrom(field, index + 1));
      name := name + [field[2 * index]];
      index := index + 1;
    }
    NameStep(field, index);
    JoinedEnds(name);
    r := if name == [] then None else Some(name);
  }

  lemma NameStep(field: seq<Byte>, i: nat)
    requires |field| == 2 * NAME_UNITS && i <= NAME_UNITS
    ensures NameFrom(field, i) ==
      if i == NAME_UNITS || (field[2 * i] == 0 && field[2 * i + 1] == 0) then Some([])
      else if field[2 * i + 1] != 0 || !NameByte(field[2 * i]) then None
      else Joined([field[2 * i]], NameFrom(field, i + 1))
  {}
}
