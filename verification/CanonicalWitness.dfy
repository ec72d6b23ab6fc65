/** Canonical archives whose composed form the validator refuses, whatever dispatcher is put in. */
module CanonicalWitness {
  import opened ByteStrings
  import opened Wrappers
  import opened Newc
  import opened NewcParser
  import opened NewcSigns
  import opened CanonicalInitramfs

  const ZERO: Meta := Meta(0, 0, 0, 0, 0, 0, 0, 0, 0, 0, 0)

  /** An /init that is nothing but the transition literal. */
  const TINY_INIT: Entry := Entry(MAGIC, ZERO, INIT, TRANSITION_SOURCE)
  const END: Entry := Entry(MAGIC, ZERO, TRAILER, [])

  /** A canonical archive with a file named as the original init is set aside. */
  const RESERVED: Archive := Archive([TINY_INIT, Entry(MAGIC, ZERO, ORIGINAL_INIT_NAME, []), END], [])

  /** A canonical archive whose trailer has the inode text -0000001. */
  const SIGNED: Archive := Archive([TINY_INIT, END.(meta := ZERO.(ino := -1))], [])

  lemma TinyInit()
    ensures IsInit(TINY_INIT) && PatchedFirstStage(TRANSITION_SOURCE).Some?
    ensures !IsInit(END) && END.IsTrailer() && !TINY_INIT.IsTrailer()
  {
    assert |TRANSITION_SOURCE| == LITERAL;
    assert TRANSITION_SOURCE[0..LITERAL] == TRANSITION_SOURCE;
    assert LiteralAt(TRANSITION_SOURCE, 0);
    assert forall j: nat :: LiteralAt(TRANSITION_SOURCE, j) ==> j == 0;
    PatchMeaning(TRANSITION_SOURCE);
    hide PatchedFirstStage, LiteralAt;
    NamesDiffer(TINY_INIT);
    assert INIT[0] == 0x69 && TRAILER[0] == 0x54;
    hide Ascii;
    assert |INIT| == 4 && |TRAILER| == 10;
  }

  lemma {:induction false} OnlyTrailerCounts(es: seq<Entry>)
    requires es != [] && es[|es| - 1].IsTrailer() && forall i :: 0 <= i < |es| - 1 ==> !es[i].IsTrailer()
    ensures Population(es)
  {
    if |es| == 1 {
      assert es[1..] == [];
    } else {
      assert forall i :: 0 <= i < |es| - 1 ==> es[1..][i] == es[i + 1];
      OnlyTrailerCounts(es[1..]);
    }
  }

  lemma ZeroUnsigned(e: Entry)
    requires e.meta == ZERO
    ensures Unsigned32(e)
  {}

  /** Two or three known entries: one /init in front, the trailer last, nothing else in the way. */
  lemma Composable(es: seq<Entry>, trailing: seq<Byte>, dispatcher: seq<Byte>)
    requires |es| > 0 && es[0] == TINY_INIT && trailing == []
    requires forall i :: 1 <= i < |es| ==> !IsInit(es[i]) && |es[i].name| != 36
    ensures OneInit(es, 0) && Compose(Archive(es, trailing), 0, dispatcher).Some?
  {
    TinyInit();
    assert |FIRST_STAGE_INIT_NAME| == 36 && |INIT| == 4;
    hide Ascii, IsInit, PatchedFirstStage, MaxInode;
  }

  lemma ReservedEntries()
    ensures
      var es := RESERVED.entries;
      && |es| == 3 && es[0] == TINY_INIT && Population(es) && KnownMagics(es) && AllFit(es)
      && (forall i :: 0 <= i < |es| ==> Unsigned32(es[i])) && !NoReserved(es)
      && forall i :: 1 <= i < |es| ==> !IsInit(es[i]) && |es[i].name| != 36
  {
    TinyInit();
    var es := RESERVED.entries;
    NamesDiffer(es[1]);
    assert ORIGINAL_INIT_NAME[0] == 0x69 && TRAILER[0] == 0x54;
    hide Ascii, IsInit, Unsigned32;
    assert |ORIGINAL_INIT_NAME| == 33 && |TRAILER| == 10 && |INIT| == 4 && |TRANSITION_SOURCE| == 17;
    OnlyTrailerCounts(es);
    ZeroUnsigned(es[0]);
    ZeroUnsigned(es[1]);
    ZeroUnsigned(es[2]);
    assert es[1].name == ORIGINAL_INIT_NAME;
  }

  lemma NothingZero()
    ensures AllZero([])
  {}

  lemma ReservedReads()
    ensures SerializeArchive(RESERVED).Some? && ParseArchive(SerializeArchive(RESERVED).value) == Accepted(RESERVED)
  {
    ReservedEntries();
    NothingZero();
    hide Population, KnownMagics, AllFit, EmitAll, ParseArchive, NoReserved, IsInit, Unsigned32, AllZero;
    ArchiveRoundTrip(RESERVED);
  }

  /** A reserved name: the archive is canonical, can be composed, written and read back, and is refused. */
  lemma ReservedNameRefused(dispatcher: seq<Byte>)
    requires |dispatcher| < TWO32
    ensures SerializeArchive(RESERVED).Some? && ParseArchive(SerializeArchive(RESERVED).value) == Accepted(RESERVED)
    ensures OneInit(RESERVED.entries, 0) && Compose(RESERVED, 0, dispatcher).Some?
    ensures
      var result := Compose(RESERVED, 0, dispatcher).value;
      && SerializeArchive(result).Some? && OneInit(MaskArchive(result).entries, 0)
      && ParseArchive(SerializeArchive(result).value) == Accepted(MaskArchive(result))
      && !Accepts(RESERVED, 0, MaskArchive(result), 0)
  {
    ReservedReads();
    ReservedEntries();
    Composable(RESERVED.entries, [], dispatcher);
    Fitting(RESERVED.entries);
    hide Population, KnownMagics, AllFit, ParseArchive, NoReserved, IsInit, Unsigned32, Compose, OneInit,
         SerializeArchive, Accepts, MaskArchive;
    var result := Compose(RESERVED, 0, dispatcher).value;
    ComposedValidates(SerializeArchive(RESERVED).value, RESERVED, 0, dispatcher, result);
  }

  lemma Fitting(es: seq<Entry>)
    requires AllFit(es)
    ensures forall i :: 0 <= i < |es| ==> |es[i].data| < TWO32
  {
    forall i | 0 <= i < |es|
      ensures |es[i].data| < TWO32
    {
      assert SizesFit(es[i]);
    }
  }

  /** The bytes of the signed archive; no serializer writes them. */
  function SignedBytes(): seq<Byte> {
    Emit(TINY_INIT) + SIGNED_INODE
  }

  lemma TrailerWalks(ino: seq<Byte>, size: seq<Byte>, i: int)
    requires |ino| == 8 && HexField(ino) == Some(i) && |size| == 8 && HexField(size) == Some(0)
    ensures Walk(Single(ino, size, TRAILER)) == Some(Archive([Entry(MAGIC, ZERO.(ino := i), TRAILER, [])], []))
  {
    hide HexField, TakeEntry, AllZero, Single, Slice, Walk, AlignInt;
    assert |TRAILER| == 10;
    hide Ascii;
    SingleTaken(ino, size, TRAILER, i, 0);
    var s := Single(ino, size, TRAILER);
    NoBytesLeft(s, 0);
    AlignedEnd(|s|);
    WalkTrailer(s, TakeEntry(s, 0).value);
  }

  lemma SignedTail()
    ensures Walk(SIGNED_INODE) == Some(Archive([SIGNED.entries[1]], []))
  {
    hide HexField, Minus, Field, Single, Ascii, Walk;
    SmallDigits();
    TrailerWalks(Minus(1), Field(0), -1);
  }

  lemma AlignedEnd(n: nat)
    requires n % 4 == 0
    ensures AlignInt(n) == n
  {}

  /** A trailer at the front with nothing behind it is an archive. */
  lemma WalkTrailer(s: seq<Byte>, t: Taken)
    requires |s| > 0 && TakeEntry(s, 0) == Some(t) && t.size >= 0 && t.entry.IsTrailer() && t.next == |s|
    ensures Walk(s) == Some(Archive([t.entry], []))
  {
    hide TakeEntry, ParseEntry;
    assert s[0..] == s;
    TakenStraight(s, 0);
    assert From(s, t.next) == [];
  }

  lemma SignedEntries()
    ensures
      var es := SIGNED.entries;
      && |es| == 2 && es[0] == TINY_INIT && Population(es) && KnownMagics(es) && AllFit(es) && !AllUnsigned32(es)
      && forall i :: 1 <= i < |es| ==> !IsInit(es[i]) && |es[i].name| != 36
  {
    TinyInit();
    var es := SIGNED.entries;
    assert !Unsigned32(es[1]);
    hide Ascii, IsInit, Unsigned32;
    assert |TRAILER| == 10 && |INIT| == 4 && |TRANSITION_SOURCE| == 17;
    OnlyTrailerCounts(es);
  }

  lemma WalkOne(e: Entry, rest: seq<Byte>, a: Archive)
    requires KnownMagic(e) && SizesFit(e) && Unsigned32(e) && !e.IsTrailer() && Walk(rest) == Some(a)
    ensures Walk(Emit(e) + rest) == Some(Archive([e] + a.entries, a.trailing))
  {
    hide ParseEntry, Emit, AllZero, From, KnownMagic, SizesFit;
    EntryRoundTrip(e, rest);
  }

  lemma WalkParses(s: seq<Byte>, a: Archive)
    requires Walk(s) == Some(a) && Newc.Valid(a)
    ensures ParseArchive(s) == Accepted(a)
  {
    hide Walk, RunArchive, Newc.Valid;
    assert From(s, 0) == s;
    WalkRuns(s, 0, Enough(s));
  }

  lemma SignedReads()
    ensures ParseArchive(SignedBytes()) == Accepted(SIGNED)
  {
    hide Emit, AllZero, Population, AllUnsigned32, IsInit, SizesFit, KnownMagic, Ascii, Walk, ParseArchive, Unsigned32,
         Single, Minus, Field, PatchedFirstStage;
    TinyInit();
    SignedTail();
    SignedEntries();
    NothingZero();
    ZeroUnsigned(TINY_INIT);
    assert SizesFit(SIGNED.entries[0]) && KnownMagic(SIGNED.entries[0]);
    WalkOne(TINY_INIT, SIGNED_INODE, Archive([SIGNED.entries[1]], []));
    assert [TINY_INIT] + [SIGNED.entries[1]] == SIGNED.entries;
    WalkParses(SignedBytes(), SIGNED);
  }

  /** A signed field: the archive is accepted and can be composed, written and read back, and is refused. */
  lemma SignedFieldRefused(dispatcher: seq<Byte>)
    requires |dispatcher| < TWO32
    ensures ParseArchive(SignedBytes()) == Accepted(SIGNED)
    ensures OneInit(SIGNED.entries, 0) && Compose(SIGNED, 0, dispatcher).Some?
    ensures
      var result := Compose(SIGNED, 0, dispatcher).value;
      && SerializeArchive(result).Some? && OneInit(MaskArchive(result).entries, 0)
      && ParseArchive(SerializeArchive(result).value) == Accepted(MaskArchive(result))
      && !Accepts(SIGNED, 0, MaskArchive(result), 0)
  {
    SignedReads();
    SignedEntries();
    Composable(SIGNED.entries, [], dispatcher);
    Fitting(SIGNED.entries);
    hide Population, KnownMagics, AllFit, ParseArchive, AllUnsigned32, IsInit, Compose, OneInit, SerializeArchive,
         Accepts, MaskArchive, SignedBytes;
    var result := Compose(SIGNED, 0, dispatcher).value;
    ComposedValidates(SignedBytes(), SIGNED, 0, dispatcher, result);
  }
}
