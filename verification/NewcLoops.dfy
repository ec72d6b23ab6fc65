/** The imperative loops of the cpio code: reading entries at a cursor, appending them to a growing archive. */
module NewcLoops {
  import opened ByteStrings
  import opened Wrappers
  import opened Newc
  import opened NewcParser

  /** One loop body up to the new entry, at an offset that may be negative. */
  method ReadEntry(data: seq<Byte>, start: int) returns (r: Option<Taken>)
    ensures r == TakeEntry(data, start)
  {
    hide DecodeFields, Slice, AlignInt, MetaOf;
    var offset := start;
    var header := Slice(data, offset, offset + HEADER_SIZE);
    if |header| != HEADER_SIZE {
      return None;
    }
    var magic := header[..6];
    if magic != MAGIC && magic != MAGIC_CRC {
      return None;
    }
    var fields := ReadFields(header[6..]);
    if fields.None? {
      return None;
    }
    var filesize, namesize := fields.value[6], fields.value[11];
    if namesize < 1 {
      return None;
    }
    offset := offset + HEADER_SIZE;
    var nameEnd := offset + namesize;
    if nameEnd > |data| {
      return None;
    }
    var rawName := Slice(data, offset, nameEnd);
    if rawName == [] || rawName[|rawName| - 1] != 0 {
      return None;
    }
    var name := rawName[..|rawName| - 1];
    offset := AlignInt(nameEnd);
    var dataEnd := offset + filesize;
    if dataEnd > |data| {
      return None;
    }
    var payload := Slice(data, offset, dataEnd);
    offset := AlignInt(dataEnd);
    r := Some(Taken(Entry(magic, MetaOf(fields.value), name, payload), filesize, offset));
  }

  lemma DecodeNext(text: seq<Byte>, index: nat)
    requires |text| == 8 * FIELDS && index < FIELDS
    ensures DecodeFields(text[8 * index..]) ==
      var v := HexField(text[8 * index..8 * index + 8]);
      if v.None? then None else Joined([v.value], DecodeFields(text[8 * (index + 1)..]))
  {
    hide HexField;
    var rest := text[8 * index..];
    assert rest[..8] == text[8 * index..8 * index + 8] && rest[8..] == text[8 * (index + 1)..];
  }

  /** The thirteen fields, one after the other. */
  method ReadFields(text: seq<Byte>) returns (r: Option<seq<int>>)
    requires |text| == 8 * FIELDS
    ensures r == DecodeFields(text)
  {
    hide HexField, DecodeFields;
    var values: seq<int> := [];
    var index := 0;
    assert text[8 * 0..] == text;
    assert DecodeFields(text).Some? ==> [] + DecodeFields(text).value == DecodeFields(text).value;
    while index < FIELDS
      invariant 0 <= index <= FIELDS
      invariant DecodeFields(text) == Joined(values, DecodeFields(text[8 * index..]))
    {
      var v := HexField(text[8 * index..8 * index + 8]);
      DecodeNext(text, index);
      if v.None? {
        return None;
      }
      JoinedMore(values, v.value, DecodeFields(text[8 * (index + 1)..]));
      values := values + [v.value];
      index := index + 1;
    }
    assert text[8 * FIELDS..] == [];
    NoFields();
    assert values + [] == values;
    r := Some(values);
  }

  lemma NoFields()
    ensures DecodeFields([]) == Some([])
  {}

  // Collected entries in front of what the rest of the run comes to.

  function Leading(entries: seq<Entry>, v: Verdict<seq<Entry>>): Verdict<seq<Entry>> {
    match v
    case Accepted(es) => Accepted(entries + es)
    case other => other
  }

  function LeadingArchive(entries: seq<Entry>, v: Verdict<Archive>): Verdict<Archive> {
    match v
    case Accepted(a) => Accepted(Archive(entries + a.entries, a.trailing))
    case other => other
  }

  lemma LeadingNothing(v: Verdict<seq<Entry>>, w: Verdict<Archive>)
    ensures Leading([], v) == v && LeadingArchive([], w) == w
  {
    assert v.Accepted? ==> [] + v.value == v.value;
    assert w.Accepted? ==> [] + w.value.entries == w.value.entries;
  }

  lemma LeadingMore(entries: seq<Entry>, e: Entry, v: Verdict<seq<Entry>>, w: Verdict<Archive>)
    ensures Leading(entries, Lead(e, v)) == Leading(entries + [e], v)
    ensures LeadingArchive(entries, LeadArchive(e, w)) == LeadingArchive(entries + [e], w)
  {
    assert v.Accepted? ==> entries + ([e] + v.value) == (entries + [e]) + v.value;
    assert w.Accepted? ==> entries + ([e] + w.value.entries) == (entries + [e]) + w.value.entries;
  }

  /**
   * The loop of `parse_newc_archive`, on the byte strings for which it returns: by EndlessIff those on which
   * no offset is taken twice.
   */
  method ParseArchiveBytes(data: seq<Byte>) returns (v: Verdict<Archive>)
    requires !Revisits(data)
    ensures v == ParseArchive(data) && !v.Endless?
  {
    EndlessIff(data);
    hide TakeEntry, AllZero, Slice, Population, Revisits;
    var entries: seq<Entry> := [];
    var offset := 0;
    ghost var turns := Enough(data);
    LeadingNothing(Refused, RunArchive(data, 0, turns));
    while offset < |data|
      invariant RunArchive(data, 0, Enough(data)) == LeadingArchive(entries, RunArchive(data, offset, turns))
      decreases turns
    {
      var read := ReadEntry(data, offset);
      if read.None? {
        return Refused;
      }
      var e := read.value.entry;
      LeadingMore(entries, e, Refused, RunArchive(data, read.value.next, turns - 1));
      entries := entries + [e];
      offset := read.value.next;
      if e.IsTrailer() {
        var trailing := Slice(data, offset, |data|);
        var archive := Archive(entries, trailing);
        return if Valid(archive) then Accepted(archive) else Refused;
      }
      turns := turns - 1;
    }
    v := Refused;
  }

  /** The loop of `parse_newc`, on the same byte strings. */
  method ParseNewcBytes(data: seq<Byte>) returns (v: Verdict<seq<Entry>>)
    requires !Revisits(data)
    ensures v == ParseNewc(data) && !v.Endless?
  {
    EndlessIff(data);
    ParsersAgree(data);
    hide TakeEntry, AllZero, Slice, Population, Revisits;
    var entries: seq<Entry> := [];
    var offset := 0;
    ghost var turns := Enough(data);
    LeadingNothing(RunNewc(data, 0, turns), Refused);
    while offset < |data|
      invariant RunNewc(data, 0, Enough(data)) == Leading(entries, RunNewc(data, offset, turns))
      decreases turns
    {
      if |data| - offset < HEADER_SIZE {
        if !AllZero(Slice(data, offset, |data|)) {
          return Refused;
        }
        break;
      }
      var read := ReadEntry(data, offset);
      if read.None? {
        return Refused;
      }
      var e := read.value.entry;
      LeadingMore(entries, e, RunNewc(data, read.value.next, turns - 1), Refused);
      entries := entries + [e];
      offset := read.value.next;
      if e.IsTrailer() {
        if !AllZero(Slice(data, offset, |data|)) {
          return Refused;
        }
        return if Population(entries) then Accepted(entries) else Refused;
      }
      turns := turns - 1;
    }
    assert entries + [] == entries;
    v := if Population(entries) then Accepted(entries) else Refused;
  }

  /** The thirteen header fields appended one by one. */
  method EmitFields(archive: seq<Byte>, values: seq<int>) returns (out: seq<Byte>)
    ensures out == archive + EncodeFields(values)
  {
    hide Field;
    out := archive;
    var index := 0;
    assert values[..0] == [];
    assert archive + [] == archive;
    while index < |values|
      invariant 0 <= index <= |values|
      invariant out == archive + EncodeFields(values[..index])
    {
      EncodeSnoc(values[..index], values[index]);
      assert values[..index] + [values[index]] == values[..index + 1];
      out := out + Field(values[index]);
      index := index + 1;
    }
    assert values[..|values|] == values;
  }

  /** `_newc_emit_preserved`: appended piece by piece, padded to the archive's own alignment. */
  method EmitPreserved(archive: seq<Byte>, e: Entry) returns (r: Option<seq<Byte>>)
    requires |archive| % 4 == 0
    ensures r == if KnownMagic(e) then Some(archive + Emit(e)) else None
  {
    if !KnownMagic(e) {
      return None;
    }
    hide KnownMagic, EncodeFields, Values, Zeros, Pad4;
    var out := EmitFields(archive + e.magic, Values(e));
    out := out + (e.name + [0]);
    ghost var head := e.magic + EncodeFields(Values(e)) + (e.name + [0]);
    assert out == archive + head;
    PadShift(|archive|, |head|);
    out := out + Zeros(Pad4(|out|));
    ghost var named := head + Zeros(Pad4(|head|));
    assert out == archive + named;
    PadShift(|out|, |e.data|);
    out := out + e.data;
    out := out + Zeros(Pad4(|out|));
    assert out == archive + (named + e.data + Zeros(Pad4(|e.data|)));
    r := Some(out);
  }

  lemma PadShift(a: nat, n: nat)
    requires a % 4 == 0
    ensures Pad4(a + n) == Pad4(n)
  {}

  lemma {:induction false} EncodeSnoc(vs: seq<int>, v: int)
    ensures EncodeFields(vs + [v]) == EncodeFields(vs) + Field(v)
  {
    if vs == [] {
      assert vs + [v] == [v] && [v][1..] == [];
      assert EncodeFields([v]) == Field(v) + [];
    } else {
      assert (vs + [v])[1..] == vs[1..] + [v];
      EncodeSnoc(vs[1..], v);
      assert Field(vs[0]) + (EncodeFields(vs[1..]) + Field(v)) == (Field(vs[0]) + EncodeFields(vs[1..])) + Field(v);
    }
  }

  /** The loop of `serialize_newc`. */
  method SerializeEntries(es: seq<Entry>) returns (r: Option<seq<Byte>>)
    ensures r == Serialize(es)
  {
    hide Emit, TrailerCount, KnownMagic;
    if !Population(es) {
      return None;
    }
    var archive: seq<Byte> := [];
    var index := 0;
    assert EmitAll(es[..0]) == [];
    while index < |es|
      invariant 0 <= index <= |es|
      invariant KnownMagics(es[..index]) && archive == EmitAll(es[..index]) && |archive| % 4 == 0
    {
      var grown := EmitPreserved(archive, es[index]);
      if grown.None? {
        return None;
      }
      AlignedEmit(es[index]);
      EmitSnoc(es[..index], es[index]);
      assert es[..index] + [es[index]] == es[..index + 1];
      archive := grown.value;
      index := index + 1;
    }
    assert es[..|es|] == es;
    r := Some(archive);
  }

  lemma {:induction false} EmitSnoc(es: seq<Entry>, e: Entry)
    requires KnownMagics(es) && KnownMagic(e)
    ensures KnownMagics(es + [e]) && EmitAll(es + [e]) == EmitAll(es) + Emit(e)
  {
    hide Emit, KnownMagic;
    if es == [] {
      assert es + [e] == [e] && [e][1..] == [];
      assert EmitAll([e]) == Emit(e) + [];
    } else {
      assert (es + [e])[1..] == es[1..] + [e];
      EmitSnoc(es[1..], e);
      assert Emit(es[0]) + (EmitAll(es[1..]) + Emit(e)) == (Emit(es[0]) + EmitAll(es[1..])) + Emit(e);
    }
  }
}
