/** Archives with minus signs in their header fields: accepted, misread, or never finished. */
module NewcSigns {
  import opened ByteStrings
  import opened Wrappers
  import opened Newc
  import opened NewcParser

  /** The field text of a negative number. */
  function Minus(n: nat): (s: seq<Byte>)
    ensures |s| == 8
  {
    [0x2d] + ToHex(n, 7)
  }

  /** The header fields of an entry whose inode and size fields are given as text. */
  function SignedFields(ino: seq<Byte>, size: seq<Byte>, namesize: nat): (s: seq<Byte>)
    requires |ino| == 8 && |size| == 8
    ensures |s| == 8 * FIELDS
  {
    ino + (EncodeFields([0, 0, 0, 0, 0]) + (size + EncodeFields([0, 0, 0, 0, namesize, 0])))
  }

  lemma {:induction false} DecodeAppend(a: seq<Byte>, b: seq<Byte>)
    requires |a| % 8 == 0 && |b| % 8 == 0 && DecodeFields(a).Some? && DecodeFields(b).Some?
    ensures DecodeFields(a + b) == Some(DecodeFields(a).value + DecodeFields(b).value)
    decreases |a|
  {
    hide HexField;
    if a == [] {
      assert a + b == b;
      assert [] + DecodeFields(b).value == DecodeFields(b).value;
    } else {
      var v, vs := HexField(a[..8]).value, DecodeFields(a[8..]).value;
      assert [v] + (vs + DecodeFields(b).value) == ([v] + vs) + DecodeFields(b).value;
      assert (a + b)[..8] == a[..8] && (a + b)[8..] == a[8..] + b;
      DecodeAppend(a[8..], b);
    }
  }

  lemma PlainFields(vs: seq<int>)
    requires forall i :: 0 <= i < |vs| ==> 0 <= vs[i] < TWO32
    ensures DecodeFields(EncodeFields(vs)) == Some(vs)
  {
    FieldsRoundTrip(vs);
    AllMasked(vs);
  }

  lemma SignedFieldsRead(ino: seq<Byte>, size: seq<Byte>, namesize: nat, i: int, z: int)
    requires |ino| == 8 && |size| == 8 && HexField(ino) == Some(i) && HexField(size) == Some(z) && namesize < TWO32
    ensures DecodeFields(SignedFields(ino, size, namesize)) == Some([i, 0, 0, 0, 0, 0, z, 0, 0, 0, 0, namesize, 0])
  {
    hide HexField, DecodeFields, EncodeFields;
    var a, b := [0, 0, 0, 0, 0], [0, 0, 0, 0, namesize, 0];
    PlainFields(a);
    PlainFields(b);
    DecodeCons(size, EncodeFields(b));
    DecodeAppend(EncodeFields(a), size + EncodeFields(b));
    DecodeCons(ino, EncodeFields(a) + (size + EncodeFields(b)));
    assert [i] + (a + ([z] + b)) == [i, 0, 0, 0, 0, 0, z, 0, 0, 0, 0, namesize, 0];
  }

  /** What the first iteration takes from an archive whose pieces are known. */
  lemma TakeFirst(data: seq<Byte>, fields: seq<int>, name: seq<Byte>)
    requires |fields| == FIELDS && fields[11] == |name| + 1 && HEADER_SIZE + |name| < |data|
    requires data[..6] == MAGIC && DecodeFields(data[6..HEADER_SIZE]) == Some(fields)
    requires data[HEADER_SIZE..HEADER_SIZE + |name|] == name && data[HEADER_SIZE + |name|] == 0
    requires AlignInt(HEADER_SIZE + |name| + 1) + fields[6] <= |data|
    ensures
      var start := AlignInt(HEADER_SIZE + |name| + 1);
      TakeEntry(data, 0) == Some(Taken(Entry(MAGIC, MetaOf(fields), name, Slice(data, start, start + fields[6])),
                                       fields[6],
                                       AlignInt(start + fields[6])))
  {
    hide DecodeFields, MetaOf;
    SliceInside(data, 0, HEADER_SIZE);
    SliceInside(data, HEADER_SIZE, HEADER_SIZE + |name| + 1);
    hide Slice;
    var header, raw := data[0..HEADER_SIZE], data[HEADER_SIZE..HEADER_SIZE + |name| + 1];
    assert header[..6] == data[..6] && header[6..] == data[6..HEADER_SIZE];
    assert raw[|name|] == data[HEADER_SIZE + |name|] && raw[..|name|] == data[HEADER_SIZE..HEADER_SIZE + |name|];
  }

  /** One entry without contents, padded to the next multiple of four. */
  function Single(ino: seq<Byte>, size: seq<Byte>, name: seq<Byte>): (s: seq<Byte>)
    requires |ino| == 8 && |size| == 8
  {
    MAGIC + SignedFields(ino, size, |name| + 1) + (name + [0]) + Zeros(Pad4(HEADER_SIZE + |name| + 1))
  }

  lemma SingleTaken(ino: seq<Byte>, size: seq<Byte>, name: seq<Byte>, i: int, z: int)
    requires |ino| == 8 && |size| == 8 && HexField(ino) == Some(i) && HexField(size) == Some(z)
    requires |name| + 1 < TWO32 && z <= 0
    ensures
      var data, meta := Single(ino, size, name), Meta(i, 0, 0, 0, 0, 0, 0, 0, 0, 0, 0);
      && |data| == Align4(HEADER_SIZE + |name| + 1) && |data| > 0
      && TakeEntry(data, 0) == Some(Taken(Entry(MAGIC, meta, name, Slice(data, |data|, |data| + z)), z,
                                          AlignInt(|data| + z)))
  {
    hide HexField, DecodeFields, SignedFields, Single, Slice, AlignInt, TakeEntry;
    SinglePieces(ino, size, name);
    SignedFieldsRead(ino, size, |name| + 1, i, z);
    AlignShift(0, HEADER_SIZE + |name| + 1);
    TakeFirst(Single(ino, size, name), [i, 0, 0, 0, 0, 0, z, 0, 0, 0, 0, |name| + 1, 0], name);
  }

  lemma SinglePieces(ino: seq<Byte>, size: seq<Byte>, name: seq<Byte>)
    requires |ino| == 8 && |size| == 8
    ensures
      var data := Single(ino, size, name);
      && |data| == Align4(HEADER_SIZE + |name| + 1) && HEADER_SIZE + |name| < |data|
      && data[..6] == MAGIC && data[6..HEADER_SIZE] == SignedFields(ino, size, |name| + 1)
      && data[HEADER_SIZE..HEADER_SIZE + |name|] == name && data[HEADER_SIZE + |name|] == 0
  {
    var n := HEADER_SIZE + |name| + 1;
    AlignPad(n);
    assert |MAGIC| == 6;
    hide SignedFields, Zeros, Pad4, Align4, Ascii;
    Pieces(MAGIC, SignedFields(ino, size, |name| + 1), name, Zeros(Pad4(n)));
  }

  lemma Pieces(magic: seq<Byte>, fields: seq<Byte>, name: seq<Byte>, pad: seq<Byte>)
    requires |magic| == 6 && |fields| == 104
    ensures
      var data := magic + fields + (name + [0]) + pad;
      && data[..6] == magic && data[6..HEADER_SIZE] == fields
      && data[HEADER_SIZE..HEADER_SIZE + |name|] == name && data[HEADER_SIZE + |name|] == 0
  {}

  lemma TrailerOnly(data: seq<Byte>, t: Taken)
    requires |data| > 0 && TakeEntry(data, 0) == Some(t) && t.entry.IsTrailer() && AllZero(Slice(data, t.next, |data|))
    ensures ParseArchive(data) == Accepted(Archive([t.entry], Slice(data, t.next, |data|)))
  {
    hide TakeEntry, AllZero, Slice;
    assert [t.entry][1..] == [];
    assert TrailerCount([t.entry]) == 1;
  }

  lemma SmallDigits()
    ensures HexField(Minus(1)) == Some(-1) && HexField(Minus(112)) == Some(-112) && HexField(Field(0)) == Some(0)
  {
    assert Pow16(3) == 4096;
    assert Pow16(7) >= 4096 by {
      assert Pow16(5) == 256 * Pow16(3);
      assert Pow16(7) == 256 * Pow16(5);
    }
    MinusField(1);
    MinusField(112);
    FieldRoundTrip(0);
  }

  /** A trailer-only archive of 124 bytes whose inode field is the text -0000001. */
  const SIGNED_INODE: seq<Byte> := Single(Minus(1), Field(0), TRAILER)

  /** The same with the size field -0000001. */
  const SIGNED_SIZE: seq<Byte> := Single(Field(0), Minus(1), TRAILER)

  /** One entry named "a" whose size field is -0000070, that is -112: it ends where it starts. */
  const STUCK: seq<Byte> := Single(Field(0), Minus(112), [0x61])

  /** A signed metadata field is accepted, and does not survive reserialization. */
  lemma SignedFieldWitness()
    ensures
      var a := Archive([Entry(MAGIC, Meta(-1, 0, 0, 0, 0, 0, 0, 0, 0, 0, 0), TRAILER, [])], []);
      && ParseArchive(SIGNED_INODE) == Accepted(a)
      && SerializeArchive(a).Some? && ParseArchive(SerializeArchive(a).value) != Accepted(a)
  {
    hide HexField, Single, Minus, Field, TakeEntry, AllZero, Slice, ParseArchive;
    SmallDigits();
    var s := SIGNED_INODE;
    SingleTaken(Minus(1), Field(0), TRAILER, -1, 0);
    var t := TakeEntry(s, 0).value;
    NoBytesLeft(s, 0);
    TrailerOnly(s, t);
    assert !NonNegative(t.entry);
    ReparseIff(s, Archive([t.entry], []));
  }

  /** Nothing is left at the end, and nothing lies between the end and a position before it. */
  lemma NoBytesLeft(s: seq<Byte>, z: int)
    requires |s| % 4 == 0 && -4 < z <= 0 && |s| >= 4
    ensures Slice(s, |s|, |s| + z) == [] && Slice(s, AlignInt(|s| + z), |s|) == [] && AllZero([])
  {}

  /**
   * A negative size that does not reach back a whole word selects nothing and is accepted, and survives
   * reserialization.
   */
  lemma SignedSizeWitness()
    ensures
      var a := Archive([Entry(MAGIC, Meta(0, 0, 0, 0, 0, 0, 0, 0, 0, 0, 0), TRAILER, [])], []);
      && ParseArchive(SIGNED_SIZE) == Accepted(a) && ReadArchive(SIGNED_SIZE).None?
      && SerializeArchive(a).Some? && ParseArchive(SerializeArchive(a).value) == Accepted(a)
  {
    hide HexField, Single, Minus, Field, TakeEntry, ParseEntry, ParseArchive, AllZero, Slice;
    SmallDigits();
    var s := SIGNED_SIZE;
    SingleTaken(Field(0), Minus(1), TRAILER, 0, -1);
    var t := TakeEntry(s, 0).value;
    NoBytesLeft(s, -1);
    TrailerOnly(s, t);
    NotStraight(s);
    hide ReadArchive;
    ReparseIff(s, Archive([t.entry], []));
  }

  lemma NotStraight(s: seq<Byte>)
    requires |s| > 0 && TakeEntry(s, 0).Some? && TakeEntry(s, 0).value.size < 0
    ensures ReadArchive(s).None?
  {
    hide TakeEntry, ParseEntry, AllZero, Valid;
    assert s[0..] == s;
    TakenStraight(s, 0);
  }

  /** On this archive neither parser returns: every iteration comes back to offset 0. */
  lemma NeverEnds()
    ensures NeverReturns(STUCK) && ParseArchive(STUCK) == Endless && ParseNewc(STUCK) == Endless
    ensures forall n: nat :: OffsetFrom(STUCK, 0, n) == Some(0)
  {
    hide HexField, Single, Minus, Field, TakeEntry, RunArchive, RunNewc, Slice;
    SmallDigits();
    SingleTaken(Field(0), Minus(112), [0x61], 0, -112);
    assert !TakeEntry(STUCK, 0).value.entry.IsTrailer() by {
      assert |TRAILER| > 1;
    }
    assert OffsetFrom(STUCK, 0, 0) == Some(0);
    OffsetAgain(STUCK, 1);
    EndlessIff(STUCK);
    ParsersAgree(STUCK);
    forall n: nat
      ensures OffsetFrom(STUCK, 0, n) == Some(0)
    {
      OffsetAgain(STUCK, n);
    }
  }

  lemma {:induction false} OffsetAgain(data: seq<Byte>, n: nat)
    requires Continues(data, 0) && TakeEntry(data, 0).value.next == 0
    ensures OffsetFrom(data, 0, n) == Some(0)
  {
    hide TakeEntry;
    if n > 0 {
      OffsetAgain(data, n - 1);
    }
  }
}
