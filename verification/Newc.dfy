/** The New ASCII cpio archive: header fields, entries, the serializer, and reading back what it writes. */
module Newc {
  import opened ByteStrings
  import opened Wrappers

  const HEADER_SIZE: nat := 110
  const FIELDS: nat := 13
  const MAGIC: seq<Byte> := Ascii("070701")
  const MAGIC_CRC: seq<Byte> := Ascii("070702")
  const TRAILER: seq<Byte> := Ascii("TRAILER!!!")

  /** The header fields other than the two sizes. */
  datatype Meta = Meta(ino: int, mode: int, uid: int, gid: int, nlink: int, mtime: int,
                       devmajor: int, devminor: int, rdevmajor: int, rdevminor: int, check: int)

  datatype Entry = Entry(magic: seq<Byte>, meta: Meta, name: seq<Byte>, data: seq<Byte>) {
    predicate IsTrailer() {
      name == TRAILER
    }
  }

  datatype Archive = Archive(entries: seq<Entry>, trailing: seq<Byte>)

  // ---- eight-byte header fields: Python's int(text, 16) ----

  function HexValue(b: Byte): Option<nat> {
    if 0x30 <= b <= 0x39 then Some(b - 0x30)
    else if 0x61 <= b <= 0x66 then Some(b - 0x61 + 10)
    else if 0x41 <= b <= 0x46 then Some(b - 0x41 + 10)
    else None
  }

  predicate IsSpace(b: Byte) {
    9 <= b <= 13 || b == 32
  }

  function SkipSpace(s: seq<Byte>): (r: seq<Byte>)
    ensures |r| <= |s|
  {
    if |s| > 0 && IsSpace(s[0]) then SkipSpace(s[1..]) else s
  }

  function TrimSpace(s: seq<Byte>): (r: seq<Byte>)
    ensures |r| <= |s|
  {
    if |s| > 0 && IsSpace(s[|s| - 1]) then TrimSpace(s[..|s| - 1]) else s
  }

  /** More digits after value `acc`; single underscores may separate digits. */
  function MoreDigits(s: seq<Byte>, acc: nat): Option<nat>
    decreases |s|
  {
    if |s| == 0 then Some(acc)
    else if s[0] == 0x5f then
      if |s| >= 2 && HexValue(s[1]).Some? then MoreDigits(s[2..], 16 * acc + HexValue(s[1]).value) else None
    else if HexValue(s[0]).Some? then MoreDigits(s[1..], 16 * acc + HexValue(s[0]).value)
    else None
  }

  function Digits(s: seq<Byte>): Option<nat> {
    if |s| > 0 && HexValue(s[0]).Some? then MoreDigits(s[1..], HexValue(s[0]).value) else None
  }

  /** Digits after an optional 0x prefix, which one underscore may follow. */
  function Unsigned(s: seq<Byte>): Option<nat> {
    if |s| >= 2 && s[0] == 0x30 && (s[1] == 0x78 || s[1] == 0x58) then
      Digits(if |s| >= 3 && s[2] == 0x5f then s[3..] else s[2..])
    else Digits(s)
  }

  /** Python's int(text, 16): blanks around an optionally signed number. None stands for ValueError. */
  function HexField(field: seq<Byte>): Option<int> {
    var s := TrimSpace(SkipSpace(field));
    var signed := |s| > 0 && (s[0] == 0x2d || s[0] == 0x2b);
    var n := Unsigned(if signed then s[1..] else s);
    if n.None? then None
    else if signed && s[0] == 0x2d then Some(0 - n.value)
    else Some(n.value)
  }

  function HexDigit(d: nat): (b: Byte)
    requires d < 16
    ensures HexValue(b) == Some(d) && !IsSpace(b) && b != 0x5f && b != 0x78 && b != 0x58 && b != 0x2d && b != 0x2b
  {
    if d < 10 then 0x30 + d else 0x61 + d - 10
  }

  function ToHex(n: nat, w: nat): (s: seq<Byte>)
    ensures |s| == w
  {
    if w == 0 then [] else ToHex(n / 16, w - 1) + [HexDigit(n % 16)]
  }

  function Pow16(w: nat): (p: nat)
    ensures p > 0
  {
    if w == 0 then 1 else 16 * Pow16(w - 1)
  }

  /** Eight lower-case digits of the low 32 bits. */
  function Field(value: int): (s: seq<Byte>)
    ensures |s| == 8
  {
    ToHex(value % TWO32, 8)
  }

  function Mask(value: int): int {
    value % TWO32
  }

  function MaskAll(vs: seq<int>): (r: seq<int>)
    ensures |r| == |vs| && forall i :: 0 <= i < |vs| ==> r[i] == Mask(vs[i])
  {
    if vs == [] then [] else [Mask(vs[0])] + MaskAll(vs[1..])
  }

  // ---- one entry ----

  function Align4(n: nat): (r: nat)
    ensures n <= r < n + 4 && r % 4 == 0
  {
    (n + 3) / 4 * 4
  }

  /** The thirteen header values, in header order. */
  function Values(e: Entry): (vs: seq<int>)
    ensures |vs| == FIELDS
  {
    [e.meta.ino, e.meta.mode, e.meta.uid, e.meta.gid, e.meta.nlink, e.meta.mtime, |e.data|,
     e.meta.devmajor, e.meta.devminor, e.meta.rdevmajor, e.meta.rdevminor, |e.name| + 1, e.meta.check]
  }

  function MetaOf(vs: seq<int>): Meta
    requires |vs| == FIELDS
  {
    Meta(vs[0], vs[1], vs[2], vs[3], vs[4], vs[5], vs[7], vs[8], vs[9], vs[10], vs[12])
  }

  function EncodeFields(vs: seq<int>): (s: seq<Byte>)
    ensures |s| == 8 * |vs|
  {
    if vs == [] then [] else Field(vs[0]) + EncodeFields(vs[1..])
  }

  function DecodeFields(s: seq<Byte>): (r: Option<seq<int>>)
    requires |s| % 8 == 0
    ensures r.Some? ==> 8 * |r.value| == |s|
  {
    if s == [] then Some([])
    else
      match HexField(s[..8])
      case None => None
      case Some(v) =>
        match DecodeFields(s[8..])
        case None => None
        case Some(vs) => Some([v] + vs)
  }

  /** An entry read at an aligned position, and the distance to the next one. */
  datatype Parsed = Parsed(entry: Entry, next: nat)

  /**
   * An entry whose size field is not negative. The parser itself does not refuse negative sizes; it is
   * modelled in NewcParser, and agrees with this reading exactly where it applies.
   */
  function ParseEntry(data: seq<Byte>): (r: Option<Parsed>)
    ensures r.Some? ==> HEADER_SIZE < r.value.next && r.value.next % 4 == 0
  {
    if |data| < HEADER_SIZE || (data[..6] != MAGIC && data[..6] != MAGIC_CRC) then None
    else
      var fields := DecodeFields(data[6..HEADER_SIZE]);
      if fields.None? then None
      else
        var filesize, namesize := fields.value[6], fields.value[11];
        if namesize < 1 || HEADER_SIZE + namesize > |data| || data[HEADER_SIZE + namesize - 1] != 0 then None
        else
          var start := Align4(HEADER_SIZE + namesize);
          if filesize < 0 || start + filesize > |data| then None
          else Some(Parsed(Entry(data[..6], MetaOf(fields.value), data[HEADER_SIZE..HEADER_SIZE + namesize - 1],
                                 data[start..start + filesize]),
                           Align4(start + filesize)))
  }

  function From(data: seq<Byte>, offset: nat): seq<Byte> {
    if offset <= |data| then data[offset..] else []
  }

  predicate KnownMagic(e: Entry) {
    e.magic == MAGIC || e.magic == MAGIC_CRC
  }

  /** One entry at an aligned position: header, name, padding, data, padding. */
  function Emit(e: Entry): (s: seq<Byte>)
    requires KnownMagic(e)
    ensures |s| > HEADER_SIZE
  {
    var head := e.magic + EncodeFields(Values(e)) + (e.name + [0]);
    head + Zeros(Pad4(|head|)) + e.data + Zeros(Pad4(|e.data|))
  }

  // ---- whole archives ----

  /** The archive from an aligned position on, entry by entry. */
  function Walk(data: seq<Byte>): Option<Archive>
    decreases |data|
  {
    match ParseEntry(data)
    case None => None
    case Some(p) =>
      var rest := From(data, p.next);
      if p.entry.IsTrailer() then
        if AllZero(rest) then Some(Archive([p.entry], rest)) else None
      else
        match Walk(rest)
        case None => None
        case Some(a) => Some(Archive([p.entry] + a.entries, a.trailing))
  }

  function TrailerCount(es: seq<Entry>): nat {
    if es == [] then 0 else (if es[0].IsTrailer() then 1 else 0) + TrailerCount(es[1..])
  }

  /** Exactly one trailer, and it is last. */
  predicate Population(es: seq<Entry>) {
    es != [] && TrailerCount(es) == 1 && es[|es| - 1].IsTrailer()
  }

  predicate Valid(a: Archive) {
    Population(a.entries) && AllZero(a.trailing)
  }

  predicate KnownMagics(es: seq<Entry>) {
    forall i :: 0 <= i < |es| ==> KnownMagic(es[i])
  }

  function EmitAll(es: seq<Entry>): seq<Byte>
    requires KnownMagics(es)
  {
    if es == [] then [] else Emit(es[0]) + EmitAll(es[1..])
  }

  /** `serialize_newc`: None stands for ValueError. */
  function Serialize(es: seq<Entry>): Option<seq<Byte>> {
    if Population(es) && KnownMagics(es) then Some(EmitAll(es)) else None
  }

  function SerializeArchive(a: Archive): Option<seq<Byte>> {
    if !Valid(a) then None
    else match Serialize(a.entries) case None => None case Some(s) => Some(s + a.trailing)
  }

  /** The archive in bytes whose size fields are not negative. */
  function ReadArchive(data: seq<Byte>): Option<Archive> {
    match Walk(data)
    case None => None
    case Some(a) => if Valid(a) then Some(a) else None
  }

  /** The entry with every metadata field reduced to 32 bits. */
  function MaskEntry(e: Entry): Entry {
    var m := e.meta;
    e.(meta := Meta(Mask(m.ino), Mask(m.mode), Mask(m.uid), Mask(m.gid), Mask(m.nlink), Mask(m.mtime),
                    Mask(m.devmajor), Mask(m.devminor), Mask(m.rdevmajor), Mask(m.rdevminor), Mask(m.check)))
  }

  function MaskEntries(es: seq<Entry>): (r: seq<Entry>)
    ensures |r| == |es| && forall i :: 0 <= i < |es| ==> r[i] == MaskEntry(es[i])
  {
    seq(|es|, i requires 0 <= i < |es| => MaskEntry(es[i]))
  }

  function MaskArchive(a: Archive): Archive {
    a.(entries := MaskEntries(a.entries))
  }

  /** The two sizes fit their header fields. */
  predicate SizesFit(e: Entry) {
    |e.name| + 1 < TWO32 && |e.data| < TWO32
  }

  /** Every metadata field is an unsigned 32-bit number. */
  predicate Unsigned32(e: Entry) {
    MaskEntry(e) == e
  }

  // ---- fields round trip ----

  lemma Pow16Eight()
    ensures Pow16(8) == TWO32
  {
    assert Pow16(4) == 65536;
    assert Pow16(8) == 65536 * Pow16(4);
  }

  lemma {:induction false} MoreDigitsAppend(a: seq<Byte>, d: Byte, acc: nat)
    requires forall i :: 0 <= i < |a| ==> a[i] != 0x5f
    requires d != 0x5f && HexValue(d).Some?
    ensures MoreDigits(a + [d], acc) ==
      match MoreDigits(a, acc) case None => None case Some(n) => Some(16 * n + HexValue(d).value)
  {
    if a == [] {
      assert a + [d] == [d] && [d][1..] == [];
    } else {
      assert (a + [d])[1..] == a[1..] + [d];
      if HexValue(a[0]).Some? {
        MoreDigitsAppend(a[1..], d, 16 * acc + HexValue(a[0]).value);
      }
    }
  }

  lemma {:induction false} ToHexShape(n: nat, w: nat)
    ensures forall i :: 0 <= i < w ==>
      var b := ToHex(n, w)[i];
      HexValue(b).Some? && !IsSpace(b) && b != 0x5f && b != 0x78 && b != 0x58 && b != 0x2d && b != 0x2b
  {
    if w > 0 {
      ToHexShape(n / 16, w - 1);
    }
  }

  /** Reading the digits back gives the low digits of the number. */
  lemma {:induction false} DigitsOfHex(n: nat, w: nat)
    requires n < Pow16(w) && w > 0
    ensures Digits(ToHex(n, w)) == Some(n)
  {
    if w == 1 {
      assert ToHex(n, 1) == [HexDigit(n)];
    } else {
      DigitsOfHex(n / 16, w - 1);
      var front, d := ToHex(n / 16, w - 1), HexDigit(n % 16);
      ToHexShape(n / 16, w - 1);
      assert (front + [d])[1..] == front[1..] + [d];
      MoreDigitsAppend(front[1..], d, HexValue(front[0]).value);
    }
  }

  lemma FieldRoundTrip(value: int)
    ensures HexField(Field(value)) == Some(Mask(value))
  {
    Pow16Eight();
    var n := value % TWO32;
    ToHexShape(n, 8);
    DigitsOfHex(n, 8);
    hide Digits, ToHex;
    NoBlanks(ToHex(n, 8));
  }

  /** Nothing to strip. */
  lemma NoBlanks(s: seq<Byte>)
    requires |s| > 0 && !IsSpace(s[0]) && !IsSpace(s[|s| - 1])
    ensures TrimSpace(SkipSpace(s)) == s
  {}

  /** A minus sign and seven digits, as Python reads them. */
  lemma MinusField(n: nat)
    requires n < Pow16(7)
    ensures HexField([0x2d] + ToHex(n, 7)) == Some(0 - n)
  {
    var digits := ToHex(n, 7);
    var s := [0x2d] + digits;
    ToHexShape(n, 7);
    DigitsOfHex(n, 7);
    hide Digits, ToHex, Pow16;
    assert s[|s| - 1] == digits[6] && s[1..] == digits;
    NoBlanks(s);
    hide TrimSpace, SkipSpace;
    assert Unsigned(digits) == Digits(digits);
  }

  lemma {:induction false} FieldsRoundTrip(vs: seq<int>)
    ensures DecodeFields(EncodeFields(vs)) == Some(MaskAll(vs))
  {
    if vs != [] {
      FieldRoundTrip(vs[0]);
      FieldsRoundTrip(vs[1..]);
      hide HexField, Field;
      assert EncodeFields(vs)[..8] == Field(vs[0]) && EncodeFields(vs)[8..] == EncodeFields(vs[1..]);
    }
  }

  /** `bound` times 16, `k` times over. */
  function Scale(bound: nat, k: nat): nat
    decreases k
  {
    if k == 0 then bound else Scale(16 * bound, k - 1)
  }

  lemma {:induction false} ScaleMonotone(b: nat, c: nat, k: nat)
    requires b <= c
    ensures Scale(b, k) <= Scale(c, k)
    decreases k
  {
    if k > 0 {
      ScaleMonotone(16 * b, 16 * c, k - 1);
    }
  }

  lemma {:induction false} ScaleGrows(b: nat, j: nat, k: nat)
    requires j <= k
    ensures Scale(b, j) <= Scale(b, k)
    decreases k
  {
    if j > 0 {
      ScaleGrows(16 * b, j - 1, k - 1);
    } else if k > 0 {
      ScaleGrows(16 * b, 0, k - 1);
    }
  }

  lemma {:induction false} MoreDigitsBound(s: seq<Byte>, acc: nat, bound: nat)
    requires acc < bound && MoreDigits(s, acc).Some?
    ensures MoreDigits(s, acc).value < Scale(bound, |s|)
    decreases |s|
  {
    if |s| > 0 {
      if s[0] == 0x5f {
        MoreDigitsBound(s[2..], 16 * acc + HexValue(s[1]).value, 16 * bound);
        ScaleMonotone(16 * bound, 256 * bound, |s| - 2);
        assert Scale(bound, |s|) == Scale(16 * bound, |s| - 1) == Scale(256 * bound, |s| - 2);
      } else {
        MoreDigitsBound(s[1..], 16 * acc + HexValue(s[0]).value, 16 * bound);
      }
    }
  }

  lemma DigitsBound(s: seq<Byte>)
    requires |s| <= 8 && Digits(s).Some?
    ensures Digits(s).value < TWO32
  {
    MoreDigitsBound(s[1..], HexValue(s[0]).value, 16);
    ScaleGrows(16, |s| - 1, 7);
    assert Scale(16, 4) == 0x10_0000;
    assert Scale(16, 7) == Scale(0x1_0000, 4) == TWO32;
  }

  /** Eight characters of text hold less than 2^32 in magnitude, whatever their syntax. */
  lemma HexFieldBound(field: seq<Byte>)
    requires |field| == 8 && HexField(field).Some?
    ensures HexField(field).value < TWO32 && 0 - HexField(field).value < TWO32
  {
    var s := TrimSpace(SkipSpace(field));
    var u := if |s| > 0 && (s[0] == 0x2d || s[0] == 0x2b) then s[1..] else s;
    var d := if |u| >= 2 && u[0] == 0x30 && (u[1] == 0x78 || u[1] == 0x58)
      then (if |u| >= 3 && u[2] == 0x5f then u[3..] else u[2..]) else u;
    assert Unsigned(u) == Digits(d);
    DigitsBound(d);
  }

  // ---- entries round trip ----

  lemma MaskValues(e: Entry)
    requires SizesFit(e)
    ensures MaskAll(Values(e)) == Values(MaskEntry(e))
  {
    hide MaskAll;
    var masked := MaskAll(Values(e));
    forall i | 0 <= i < FIELDS
      ensures masked[i] == Values(MaskEntry(e))[i]
    {}
  }

  lemma AlignPad(n: nat)
    ensures n + Pad4(n) == Align4(n)
  {}

  lemma Windows(magic: seq<Byte>, fields: seq<Byte>, name: seq<Byte>, gap: seq<Byte>, data: seq<Byte>, pad: seq<Byte>,
                rest: seq<Byte>)
    requires |magic| == 6 && |fields| == 104 && |name| > 0
    ensures
      var s := (magic + fields + name) + gap + data + pad + rest;
      var named := HEADER_SIZE + |name|;
      && s[..6] == magic && s[6..HEADER_SIZE] == fields
      && s[HEADER_SIZE..named] == name
      && s[named + |gap|..named + |gap| + |data|] == data
      && s[named + |gap| + |data| + |pad|..] == rest
  {}

  /** The aligned pieces of an emitted entry. */
  lemma EmitParts(e: Entry, rest: seq<Byte>)
    requires KnownMagic(e)
    ensures |Emit(e)| == Align4(Align4(HEADER_SIZE + |e.name| + 1) + |e.data|)
    ensures
      var s := Emit(e) + rest;
      var named := HEADER_SIZE + |e.name| + 1;
      && Align4(named) + |e.data| <= |Emit(e)|
      && s[..6] == e.magic
      && s[6..HEADER_SIZE] == EncodeFields(Values(e))
      && s[HEADER_SIZE..named] == e.name + [0]
      && s[Align4(named)..Align4(named) + |e.data|] == e.data
      && s[|Emit(e)|..] == rest
  {
    hide EncodeFields, Values, Align4;
    var fields := EncodeFields(Values(e));
    var named := HEADER_SIZE + |e.name| + 1;
    AlignPad(named);
    AlignPad(|e.data|);
    AlignedSum(Align4(named), |e.data|);
    Windows(e.magic, fields, e.name + [0], Zeros(Pad4(named)), e.data, Zeros(Pad4(|e.data|)), rest);
  }

  lemma AlignedSum(a: nat, n: nat)
    requires a % 4 == 0
    ensures Align4(a + n) == a + Align4(n)
  {}

  /** Parsing an emitted entry gives it back with its metadata reduced to 32 bits, and stops where it ends. */
  lemma EntryRoundTrip(e: Entry, rest: seq<Byte>)
    requires KnownMagic(e) && SizesFit(e)
    ensures ParseEntry(Emit(e) + rest) == Some(Parsed(MaskEntry(e), |Emit(e)|))
    ensures From(Emit(e) + rest, |Emit(e)|) == rest
  {
    hide EncodeFields, DecodeFields, Emit, MaskAll, Align4, HexField;
    EmitParts(e, rest);
    FieldsRoundTrip(Values(e));
    MaskValues(e);
    var s := Emit(e) + rest;
    var named := HEADER_SIZE + |e.name| + 1;
    var text := s[HEADER_SIZE..named];
    assert s[named - 1] == text[|e.name|] == 0;
    assert s[HEADER_SIZE..named - 1] == e.name by {
      assert s[HEADER_SIZE..named - 1] == text[..|e.name|];
    }
    MetaOfValues(MaskEntry(e));
    ParseFromPieces(s, e.magic, Values(MaskEntry(e)), e.name, e.data);
    hide ParseEntry, Values;
  }

  lemma MetaOfValues(e: Entry)
    ensures MetaOf(Values(e)) == e.meta
  {}

  /** Parsing succeeds on bytes that hold the pieces of an entry where the header says. */
  lemma ParseFromPieces(s: seq<Byte>, magic: seq<Byte>, values: seq<int>, name: seq<Byte>, data: seq<Byte>)
    requires |values| == FIELDS && values[6] == |data| && values[11] == |name| + 1
    requires magic == MAGIC || magic == MAGIC_CRC
    requires
      var named := HEADER_SIZE + |name| + 1;
      && Align4(named) + |data| <= |s|
      && s[..6] == magic && DecodeFields(s[6..HEADER_SIZE]) == Some(values)
      && s[HEADER_SIZE..named - 1] == name && s[named - 1] == 0
      && s[Align4(named)..Align4(named) + |data|] == data
    ensures
      var named := HEADER_SIZE + |name| + 1;
      ParseEntry(s) == Some(Parsed(Entry(magic, MetaOf(values), name, data), Align4(Align4(named) + |data|)))
  {
    hide DecodeFields;
  }

  lemma {:induction false} TrailerOnlyLast(es: seq<Entry>)
    requires |es| > 1 && Population(es)
    ensures !es[0].IsTrailer() && Population(es[1..])
  {
    if es[0].IsTrailer() {
      CountsLast(es[1..]);
    }
  }

  lemma {:induction false} CountsLast(es: seq<Entry>)
    requires es != [] && es[|es| - 1].IsTrailer()
    ensures TrailerCount(es) > 0
  {
    if |es| > 1 {
      CountsLast(es[1..]);
    }
  }

  lemma {:induction false} WalkRoundTrip(es: seq<Entry>, trailing: seq<Byte>)
    requires Population(es) && KnownMagics(es) && AllZero(trailing)
    requires forall i :: 0 <= i < |es| ==> SizesFit(es[i])
    ensures Walk(EmitAll(es) + trailing) == Some(MaskArchive(Archive(es, trailing)))
  {
    hide ParseEntry, Emit, MaskEntry, From, AllZero;
    var rest := EmitAll(es[1..]) + trailing;
    assert EmitAll(es) + trailing == Emit(es[0]) + rest;
    EntryRoundTrip(es[0], rest);
    MaskKeepsName(es[0]);
    var masked := MaskArchive(Archive(es, trailing)).entries;
    if |es| == 1 {
      assert es[1..] == [] && rest == trailing;
      assert masked == [MaskEntry(es[0])];
    } else {
      TrailerOnlyLast(es);
      WalkRoundTrip(es[1..], trailing);
      assert masked == [MaskEntry(es[0])] + MaskArchive(Archive(es[1..], trailing)).entries;
    }
  }

  lemma MaskKeepsName(e: Entry)
    ensures MaskEntry(e).IsTrailer() == e.IsTrailer()
  {}

  lemma {:induction false} MaskKeepsPopulation(es: seq<Entry>, ms: seq<Entry>)
    requires |es| == |ms| && forall i :: 0 <= i < |es| ==> ms[i] == MaskEntry(es[i])
    ensures TrailerCount(ms) == TrailerCount(es)
  {
    if es != [] {
      MaskKeepsPopulation(es[1..], ms[1..]);
    }
  }

  lemma ParseAdvances(data: seq<Byte>)
    requires ParseEntry(data).Some?
    ensures |data| >= HEADER_SIZE && |From(data, ParseEntry(data).value.next)| < |data|
  {
    hide DecodeFields;
  }

  // ---- reserializing what was parsed ----

  predicate NonNegative(e: Entry) {
    var m := e.meta;
    && m.ino >= 0 && m.mode >= 0 && m.uid >= 0 && m.gid >= 0 && m.nlink >= 0 && m.mtime >= 0
    && m.devmajor >= 0 && m.devminor >= 0 && m.rdevmajor >= 0 && m.rdevminor >= 0 && m.check >= 0
  }

  /** Less than 2^32 in magnitude. */
  predicate Narrow(v: int) {
    v < TWO32 && 0 - v < TWO32
  }

  lemma {:induction false} DecodedNarrow(s: seq<Byte>)
    requires |s| % 8 == 0 && DecodeFields(s).Some?
    ensures forall i :: 0 <= i < |DecodeFields(s).value| ==> Narrow(DecodeFields(s).value[i])
  {
    hide HexField;
    if s != [] {
      HexFieldBound(s[..8]);
      DecodedNarrow(s[8..]);
    }
  }

  lemma NarrowMeta(m: Meta)
    requires Narrow(m.ino) && Narrow(m.mode) && Narrow(m.uid) && Narrow(m.gid) && Narrow(m.nlink) && Narrow(m.mtime)
    requires Narrow(m.devmajor) && Narrow(m.devminor) && Narrow(m.rdevmajor) && Narrow(m.rdevminor) && Narrow(m.check)
    ensures forall e: Entry :: e.meta == m ==> (Unsigned32(e) <==> NonNegative(e))
  {
    forall e: Entry | e.meta == m
      ensures Unsigned32(e) <==> NonNegative(e)
    {
      if NonNegative(e) {
        assert MaskEntry(e).meta == m;
      }
    }
  }

  /** Serializing a parsed serialization changes no byte, whatever the fields were. */
  lemma {:induction false} EmitMasked(es: seq<Entry>, ms: seq<Entry>)
    requires KnownMagics(es) && |ms| == |es| && forall i :: 0 <= i < |es| ==> ms[i] == MaskEntry(es[i])
    ensures KnownMagics(ms) && EmitAll(ms) == EmitAll(es)
  {
    hide Emit;
    if es != [] {
      EmitMaskedEntry(es[0]);
      assert forall i :: 0 <= i < |es| - 1 ==> ms[1..][i] == MaskEntry(es[1..][i]);
      EmitMasked(es[1..], ms[1..]);
    }
  }

  lemma EmitMaskedEntry(e: Entry)
    requires KnownMagic(e)
    ensures KnownMagic(MaskEntry(e)) && Emit(MaskEntry(e)) == Emit(e)
  {
    hide Field;
    var m := e.meta;
    FieldMasked(m.ino); FieldMasked(m.mode); FieldMasked(m.uid); FieldMasked(m.gid); FieldMasked(m.nlink);
    FieldMasked(m.mtime); FieldMasked(m.devmajor); FieldMasked(m.devminor); FieldMasked(m.rdevmajor);
    FieldMasked(m.rdevminor); FieldMasked(m.check);
    EncodeByField(Values(e), Values(MaskEntry(e)));
  }

  lemma FieldMasked(v: int)
    ensures Field(Mask(v)) == Field(v)
  {
    hide ToHex;
    assert Mask(v) % TWO32 == v % TWO32;
  }

  lemma {:induction false} EncodeByField(vs: seq<int>, ws: seq<int>)
    requires |vs| == |ws| && forall i :: 0 <= i < |vs| ==> Field(vs[i]) == Field(ws[i])
    ensures EncodeFields(vs) == EncodeFields(ws)
  {
    if vs != [] {
      EncodeByField(vs[1..], ws[1..]);
    }
  }

  lemma AllMasked(vs: seq<int>)
    requires forall i :: 0 <= i < |vs| ==> 0 <= vs[i] < TWO32
    ensures MaskAll(vs) == vs
  {
    hide MaskAll;
    forall i | 0 <= i < |vs|
      ensures MaskAll(vs)[i] == vs[i]
    {
      assert MaskAll(vs)[i] == Mask(vs[i]);
    }
  }

  lemma DecodeCons(field: seq<Byte>, rest: seq<Byte>)
    requires |field| == 8 && |rest| % 8 == 0
    ensures DecodeFields(field + rest) ==
      if HexField(field).Some? && DecodeFields(rest).Some?
        then Some([HexField(field).value] + DecodeFields(rest).value) else None
  {
    hide HexField;
    assert (field + rest)[..8] == field && (field + rest)[8..] == rest;
  }
}
