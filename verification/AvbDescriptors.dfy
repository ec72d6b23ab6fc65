/**
 * The descriptor stream of an AVB 2.0 vbmeta blob and the chain-key rewrite of owner signing.
 * Records are a 16-byte header (tag, bytes following) and a body; tag 4 is a chain partition.
 */
module AvbDescriptors {
  import opened ByteStrings
  import opened Wrappers

  const CHAIN_TAG: nat := 4
  const CHAIN_FIXED: nat := 92

  const REQUIRED_PARTITIONS: set<seq<Byte>> := {
    Ascii("boot"), Ascii("init_boot"), Ascii("vendor_boot"), Ascii("vendor_kernel_boot"),
    Ascii("dtbo"), Ascii("pvmfw"), Ascii("system"), Ascii("system_dlkm"), Ascii("system_ext"),
    Ascii("product"), Ascii("vendor"), Ascii("vendor_dlkm"), Ascii("vbmeta"),
    Ascii("vbmeta_system"), Ascii("vbmeta_vendor")
  }

  datatype Error =
    | TruncatedHeader
    | MalformedDescriptor
    | TruncatedChain
    | ChainLayout
    | ChainTarget
    | KeyTooLong

  /** What the rewrite step makes of one record: the new record and the chain names seen so far. */
  datatype Step = Step(record: seq<Byte>, seen: set<seq<Byte>>)

  /** A complete record stands at the front of `data`. */
  predicate Framed(data: seq<Byte>) {
    && |data| >= 16
    && U64At(data, 8) % 8 == 0
    && 16 + U64At(data, 8) <= |data|
    && U64At(data, 0) <= CHAIN_TAG
  }

  function RecordEnd(data: seq<Byte>): (end: nat)
    requires Framed(data)
    ensures 16 <= end <= |data|
  {
    16 + U64At(data, 8)
  }

  predicate IsChain(record: seq<Byte>)
    requires |record| >= 16
  {
    U64At(record, 0) == CHAIN_TAG
  }

  /** The declared name and key lie inside the chain record. */
  predicate ChainFits(record: seq<Byte>)
    requires |record| >= CHAIN_FIXED
  {
    CHAIN_FIXED + U32At(record, 20) + U32At(record, 24) <= |record|
  }

  function ChainName(record: seq<Byte>): seq<Byte>
    requires |record| >= CHAIN_FIXED && ChainFits(record)
  {
    record[CHAIN_FIXED..CHAIN_FIXED + U32At(record, 20)]
  }

  function ChainKey(record: seq<Byte>): seq<Byte>
    requires |record| >= CHAIN_FIXED && ChainFits(record)
  {
    record[CHAIN_FIXED + U32At(record, 20)..CHAIN_FIXED + U32At(record, 20) + U32At(record, 24)]
  }

  /** The record with its key replaced: length and key-length fields repacked, body padded to 8 bytes. */
  function WithKey(record: seq<Byte>, key: seq<Byte>): (r: seq<Byte>)
    requires |record| >= CHAIN_FIXED && ChainFits(record) && |key| < TWO32
    ensures |r| >= CHAIN_FIXED && |r| % 8 == 0 && |r| < TWO64
  {
    var name := ChainName(record);
    var body := CHAIN_FIXED + |name| + |key|;
    var length := body + Pad8(body);
    record[..8] + BE64(length - 16) + record[16..24] + BE32(|key|)
    + (record[28..CHAIN_FIXED] + name + key + Zeros(Pad8(body)))
  }

  function RewriteRecord(record: seq<Byte>, seen: set<seq<Byte>>, key: seq<Byte>): Result<Step, Error>
    requires |record| >= 16
  {
    if !IsChain(record) then Ok(Step(record, seen))
    else if |record| < CHAIN_FIXED then Err(TruncatedChain)
    else if !ChainFits(record) || U32At(record, 28) != 0 then Err(ChainLayout)
    else if ChainName(record) !in REQUIRED_PARTITIONS || ChainName(record) in seen || U32At(record, 16) == 0 then
      Err(ChainTarget)
    else if |key| >= TWO32 then Err(KeyTooLong)
    else Ok(Step(WithKey(record, key), seen + {ChainName(record)}))
  }

  /** The whole rewrite: records left to right, stopping at the first error. */
  function Rewrite(data: seq<Byte>, seen: set<seq<Byte>>, key: seq<Byte>): Result<seq<Byte>, Error>
    decreases |data|
  {
    if data == [] then Ok([])
    else if |data| < 16 then Err(TruncatedHeader)
    else if !Framed(data) then Err(MalformedDescriptor)
    else
      var step :- RewriteRecord(data[..RecordEnd(data)], seen, key);
      var rest :- Rewrite(data[RecordEnd(data)..], step.seen, key);
      Ok(step.record + rest)
  }

  /** One record, read independently of the rewrite. */
  datatype Descriptor =
    | Opaque(record: seq<Byte>)
    | Chain(location: nat, flags: nat, name: seq<Byte>, key: seq<Byte>, reserved: seq<Byte>)

  function ReadRecord(record: seq<Byte>): Option<Descriptor>
    requires |record| >= 16
  {
    if !IsChain(record) then Some(Opaque(record))
    else if |record| < CHAIN_FIXED || !ChainFits(record) then None
    else Some(Chain(U32At(record, 16), U32At(record, 28), ChainName(record), ChainKey(record), record[32..CHAIN_FIXED]))
  }

  /** The descriptor list a stream denotes, or None when it does not frame. */
  function Read(data: seq<Byte>): Option<seq<Descriptor>>
    decreases |data|
  {
    if data == [] then Some([])
    else if !Framed(data) then None
    else
      match ReadRecord(data[..RecordEnd(data)])
      case None => None
      case Some(d) =>
        match Read(data[RecordEnd(data)..])
        case None => None
        case Some(rest) => Some([d] + rest)
  }

  function SetKey(d: Descriptor, key: seq<Byte>): Descriptor {
    if d.Chain? then d.(key := key) else d
  }

  function SetKeys(ds: seq<Descriptor>, key: seq<Byte>): (r: seq<Descriptor>)
    ensures |r| == |ds|
  {
    seq(|ds|, i requires 0 <= i < |ds| => SetKey(ds[i], key))
  }

  /**
   * What the rewrite demands of one descriptor: a chain has zero flags, a location, and a known name not seen
   * before.
   */
  predicate Admits(d: Descriptor, seen: set<seq<Byte>>) {
    d.Chain? ==> d.flags == 0 && d.location != 0 && d.name in REQUIRED_PARTITIONS && d.name !in seen
  }

  function After(d: Descriptor, seen: set<seq<Byte>>): set<seq<Byte>> {
    if d.Chain? then seen + {d.name} else seen
  }

  predicate Admissible(ds: seq<Descriptor>, seen: set<seq<Byte>>) {
    ds == [] || (Admits(ds[0], seen) && Admissible(ds[1..], After(ds[0], seen)))
  }

  // ---- one chain record ----

  /** The parts of a rewritten chain record. */
  lemma WithKeyParts(record: seq<Byte>, key: seq<Byte>)
    requires |record| >= CHAIN_FIXED && ChainFits(record) && |key| < TWO32
    ensures
      var r := WithKey(record, key);
      var name := ChainName(record);
      && r[..8] == record[..8]
      && U64At(r, 8) == |r| - 16
      && r[16..24] == record[16..24]
      && U32At(r, 24) == |key|
      && r[28..CHAIN_FIXED] == record[28..CHAIN_FIXED]
      && |r| >= CHAIN_FIXED + |name| + |key|
      && r[CHAIN_FIXED..CHAIN_FIXED + |name|] == name
      && r[CHAIN_FIXED + |name|..CHAIN_FIXED + |name| + |key|] == key
  {
    hide FromBE, ToBE, BE32, BE64;
    var r, name := WithKey(record, key), ChainName(record);
    var padding := Zeros(Pad8(CHAIN_FIXED + |name| + |key|));
    RecordWindows(record[..8], BE64(|r| - 16), record[16..24], BE32(|key|), record[28..CHAIN_FIXED], name, key,
                  padding);
  }

  lemma RecordWindows(a: seq<Byte>, b: seq<Byte>, c: seq<Byte>, d: seq<Byte>, e: seq<Byte>, name: seq<Byte>,
                      key: seq<Byte>, padding: seq<Byte>)
    requires |a| == |b| == |c| == 8 && |d| == 4 && |e| == 64
    ensures
      var r := a + b + c + d + (e + name + key + padding);
      && r[..8] == a && r[8..16] == b && r[16..24] == c && r[24..28] == d && r[28..92] == e
      && r[92..92 + |name|] == name && r[92 + |name|..92 + |name| + |key|] == key
  {}

  lemma WithKeyReads(record: seq<Byte>, key: seq<Byte>)
    requires |record| >= CHAIN_FIXED && ChainFits(record) && IsChain(record) && |key| < TWO32
    ensures
      var r := WithKey(record, key);
      && Framed(r) && RecordEnd(r) == |r| && IsChain(r)
      && ChainFits(r)
      && ChainName(r) == ChainName(record)
      && ChainKey(r) == key
      && U32At(r, 16) == U32At(record, 16)
      && U32At(r, 28) == U32At(record, 28)
      && ReadRecord(r) == Some(SetKey(ReadRecord(record).value, key))
  {
    hide WithKey, U32At, U64At, ChainName, ChainKey;
    WithKeyFields(record, key);
  }

  /** Where name and key stand in the re-keyed record, and the fields that are as they were. */
  lemma WithKeyFields(record: seq<Byte>, key: seq<Byte>)
    requires |record| >= CHAIN_FIXED && ChainFits(record) && IsChain(record) && |key| < TWO32
    ensures
      var r := WithKey(record, key);
      && Framed(r) && RecordEnd(r) == |r| && IsChain(r) && ChainFits(r)
      && ChainName(r) == ChainName(record) && ChainKey(r) == key
      && U32At(r, 16) == U32At(record, 16) && U32At(r, 28) == U32At(record, 28)
      && r[32..CHAIN_FIXED] == record[32..CHAIN_FIXED]
  {
    hide WithKey, U32At, U64At;
    var r := WithKey(record, key);
    WithKeyParts(record, key);
    SameHead(r, record);
    assert (|r| - 16) % 8 == 0;
  }

  /** The header fields of a record that repacking leaves alone. */
  lemma SameHead(r: seq<Byte>, record: seq<Byte>)
    requires |r| >= CHAIN_FIXED && |record| >= CHAIN_FIXED
    requires r[..8] == record[..8] && r[16..24] == record[16..24] && r[28..CHAIN_FIXED] == record[28..CHAIN_FIXED]
    ensures U64At(r, 0) == U64At(record, 0) && U32At(r, 16) == U32At(record, 16)
    ensures U32At(r, 20) == U32At(record, 20) && U32At(r, 28) == U32At(record, 28)
    ensures r[32..CHAIN_FIXED] == record[32..CHAIN_FIXED]
  {
    hide FromBE;
    assert r[0..8] == r[..8] == record[0..8];
    Window(r, record, 16, 24, 16, 20);
    Window(r, record, 16, 24, 20, 24);
    Window(r, record, 28, CHAIN_FIXED, 28, 32);
    Window(r, record, 28, CHAIN_FIXED, 32, CHAIN_FIXED);
  }

  /** Setting a second key forgets the first, padding included. */
  lemma WithKeyTwice(record: seq<Byte>, k1: seq<Byte>, k2: seq<Byte>)
    requires |record| >= CHAIN_FIXED && ChainFits(record) && IsChain(record)
    requires |k1| < TWO32 && |k2| < TWO32
    ensures ChainFits(WithKey(record, k1))
    ensures WithKey(WithKey(record, k1), k2) == WithKey(record, k2)
  {
    WithKeyReads(record, k1);
    WithKeyParts(record, k1);
  }

  // ---- the stream ----

  /** A framed record followed by anything is found again whole. */
  lemma FrameAppend(record: seq<Byte>, rest: seq<Byte>)
    requires Framed(record) && RecordEnd(record) == |record|
    ensures Framed(record + rest) && RecordEnd(record + rest) == |record|
    ensures (record + rest)[..|record|] == record && (record + rest)[|record|..] == rest
  {
    assert (record + rest)[0..8] == record[0..8];
    assert (record + rest)[8..16] == record[8..16];
  }

  lemma FrameTake(data: seq<Byte>)
    requires Framed(data)
    ensures Framed(data[..RecordEnd(data)]) && RecordEnd(data[..RecordEnd(data)]) == RecordEnd(data)
  {
    var record := data[..RecordEnd(data)];
    assert record[0..8] == data[0..8];
    assert record[8..16] == data[8..16];
  }

  /** One step: it accepts exactly the admitted descriptors and emits a framed record that reads as the re-keyed one. */
  lemma StepMeaning(record: seq<Byte>, seen: set<seq<Byte>>, key: seq<Byte>)
    requires Framed(record) && RecordEnd(record) == |record|
    ensures
      var step, d := RewriteRecord(record, seen, key), ReadRecord(record);
      && (|key| < TWO32 ==> (step.Ok? <==> d.Some? && Admits(d.value, seen)))
      && (step.Ok? ==>
            && d.Some?
            && Framed(step.value.record) && RecordEnd(step.value.record) == |step.value.record|
            && ReadRecord(step.value.record) == Some(SetKey(d.value, key))
            && step.value.seen == After(d.value, seen))
  {
    hide WithKey, FromBE, Rewrite, Read;
    if RewriteRecord(record, seen, key).Ok? && IsChain(record) {
      WithKeyReads(record, key);
    }
  }

  /** Rewriting the step's own output is rewriting the original record. */
  lemma StepTwice(record: seq<Byte>, seen: set<seq<Byte>>, k1: seq<Byte>, k2: seq<Byte>)
    requires |record| >= 16
    requires RewriteRecord(record, seen, k1).Ok?
    ensures
      var r := RewriteRecord(record, seen, k1).value.record;
      |r| >= 16 && RewriteRecord(r, seen, k2) == RewriteRecord(record, seen, k2)
  {
    hide WithKey, FromBE, Rewrite, Read;
    if IsChain(record) {
      WithKeyReads(record, k1);
      if |k2| < TWO32 {
        WithKeyTwice(record, k1, k2);
      }
    }
  }

  /**
   * Whatever the rewrite emits it accepts again, and a later rewrite forgets an earlier one:
   * rewriting with k1 and then k2 is rewriting with k2, errors included.
   */
  lemma {:induction false} RewriteAbsorbs(data: seq<Byte>, seen: set<seq<Byte>>, k1: seq<Byte>, k2: seq<Byte>)
    requires Rewrite(data, seen, k1).Ok?
    ensures Rewrite(Rewrite(data, seen, k1).value, seen, k2) == Rewrite(data, seen, k2)
    decreases |data|
  {
    hide RewriteRecord, ReadRecord, FromBE;
    if data != [] {
      var record, tail := data[..RecordEnd(data)], data[RecordEnd(data)..];
      FrameTake(data);
      var step := RewriteRecord(record, seen, k1).value;
      var rest := Rewrite(tail, step.seen, k1).value;
      StepMeaning(record, seen, k1);
      StepTwice(record, seen, k1, k2);
      FrameAppend(step.record, rest);
      var out := step.record + rest;
      assert Rewrite(data, seen, k1).value == out;
      assert out[..RecordEnd(out)] == step.record && out[RecordEnd(out)..] == rest;
      if RewriteRecord(record, seen, k2).Ok? {
        SeenIndependent(record, seen, k1, k2);
      }
      RewriteAbsorbs(tail, step.seen, k1, k2);
    }
  }

  lemma SeenIndependent(record: seq<Byte>, seen: set<seq<Byte>>, k1: seq<Byte>, k2: seq<Byte>)
    requires |record| >= 16
    requires RewriteRecord(record, seen, k1).Ok? && RewriteRecord(record, seen, k2).Ok?
    ensures RewriteRecord(record, seen, k1).value.seen == RewriteRecord(record, seen, k2).value.seen
  {}

  lemma ReadCons(record: seq<Byte>, rest: seq<Byte>)
    requires Framed(record) && RecordEnd(record) == |record|
    ensures Read(record + rest) ==
      if ReadRecord(record).Some? && Read(rest).Some? then Some([ReadRecord(record).value] + Read(rest).value) else None
  {
    hide ReadRecord, FromBE;
    FrameAppend(record, rest);
  }

  lemma SetKeysCons(d: Descriptor, ds: seq<Descriptor>, key: seq<Byte>)
    ensures SetKeys([d] + ds, key) == [SetKey(d, key)] + SetKeys(ds, key)
  {}

  /**
   * What the rewrite means: it accepts exactly the streams that read as an admissible descriptor list
   * (a key of 2^32 bytes or more is refused once a chain record needs it), and its output reads as the
   * same list, record for record, with only the chain keys replaced.
   */
  lemma {:induction false} RewriteMeaning(data: seq<Byte>, seen: set<seq<Byte>>, key: seq<Byte>)
    requires |key| < TWO32
    ensures Rewrite(data, seen, key).Ok? <==> Read(data).Some? && Admissible(Read(data).value, seen)
    ensures Rewrite(data, seen, key).Ok? ==>
      Read(Rewrite(data, seen, key).value) == Some(SetKeys(Read(data).value, key))
    decreases |data|
  {
    hide RewriteRecord, ReadRecord, FromBE, Admits, After, SetKey, SetKeys;
    if data == [] {
      assert SetKeys([], key) == [];
    } else if Framed(data) {
      var record, tail := data[..RecordEnd(data)], data[RecordEnd(data)..];
      FrameTake(data);
      assert record + tail == data;
      ReadCons(record, tail);
      StepMeaning(record, seen, key);
      var step := RewriteRecord(record, seen, key);
      if step.Ok? {
        RewriteMeaning(tail, step.value.seen, key);
        if Read(tail).Some? {
          var d, ds := ReadRecord(record).value, Read(tail).value;
          assert ([d] + ds)[1..] == ds;
          SetKeysCons(d, ds, key);
        }
        if Rewrite(tail, step.value.seen, key).Ok? {
          ReadCons(step.value.record, Rewrite(tail, step.value.seen, key).value);
        }
      } else if Read(data).Some? {
        assert Read(data).value[0] == ReadRecord(record).value;
      }
    }
  }

  /** The partitions a chain may name. */
  predicate Known(name: seq<Byte>) {
    || name == Ascii("boot") || name == Ascii("init_boot") || name == Ascii("vendor_boot")
    || name == Ascii("vendor_kernel_boot") || name == Ascii("dtbo") || name == Ascii("pvmfw")
    || name == Ascii("system") || name == Ascii("system_dlkm") || name == Ascii("system_ext")
    || name == Ascii("product") || name == Ascii("vendor") || name == Ascii("vendor_dlkm")
    || name == Ascii("vbmeta") || name == Ascii("vbmeta_system") || name == Ascii("vbmeta_vendor")
  }

  predicate GoodChain(d: Descriptor, seen: set<seq<Byte>>) {
    d.Chain? ==> d.flags == 0 && d.location != 0 && Known(d.name) && d.name !in seen
  }

  lemma AdmitsIff(d: Descriptor, seen: set<seq<Byte>>)
    ensures Admits(d, seen) <==> GoodChain(d, seen)
  {
    hide Ascii;
  }

  /**
   * What is admitted: every chain has zero flags, a location, and a known name that has not been seen; and no two have
   * the same name.
   */
  lemma {:induction false} AdmissibleIff(ds: seq<Descriptor>, seen: set<seq<Byte>>)
    ensures Admissible(ds, seen) <==>
      && (forall i :: 0 <= i < |ds| ==> GoodChain(ds[i], seen))
      && forall i, j :: 0 <= i < j < |ds| && ds[i].Chain? && ds[j].Chain? ==> ds[i].name != ds[j].name
  {
    hide Known, Admits;
    if ds != [] {
      var rest, seen' := ds[1..], After(ds[0], seen);
      AdmitsIff(ds[0], seen);
      AdmissibleIff(rest, seen');
      forall i | 1 <= i < |ds|
        ensures ds[i] == rest[i - 1]
      {}
      if Admissible(ds, seen) {
        forall i | 0 <= i < |ds|
          ensures GoodChain(ds[i], seen)
        {
          assert i > 0 ==> GoodChain(rest[i - 1], seen');
        }
        forall i, j | 0 <= i < j < |ds| && ds[i].Chain? && ds[j].Chain?
          ensures ds[i].name != ds[j].name
        {
          assert GoodChain(rest[j - 1], seen');
        }
      }
      if (forall i :: 0 <= i < |ds| ==> GoodChain(ds[i], seen))
         && forall i, j :: 0 <= i < j < |ds| && ds[i].Chain? && ds[j].Chain? ==> ds[i].name != ds[j].name {
        forall i | 0 <= i < |rest|
          ensures GoodChain(rest[i], seen')
        {
          assert rest[i] == ds[i + 1] && GoodChain(ds[i + 1], seen);
        }
      }
    }
  }

  /**
   * A chain record, field by field: tag 4, the number of bytes that follow, location, the lengths of name and key,
   * flags, sixty reserved bytes, name, key, padding.
   */
  ghost predicate ChainBytes(record: seq<Byte>, d: Descriptor, following: seq<Byte>, padding: seq<Byte>)
    requires d.Chain?
  {
    && d.location < TWO32 && |d.name| < TWO32 && |d.key| < TWO32 && d.flags < TWO32 && |d.reserved| == 60
    && |following| == 8
    && record == ([0, 0, 0, 0, 0, 0, 0, 4] + following + BE32(d.location) + BE32(|d.name|) + BE32(|d.key|)
                  + BE32(d.flags)) + d.reserved + (d.name + d.key + padding)
  }

  /** A record reads as a chain exactly when it is spelled like that. */
  lemma ChainIff(record: seq<Byte>, d: Descriptor)
    requires |record| >= 16 && d.Chain?
    ensures ReadRecord(record) == Some(d) <==> exists following, padding :: ChainBytes(record, d, following, padding)
  {
    if ReadRecord(record) == Some(d) {
      ChainSplits(record, d);
    }
    if following, padding :| ChainBytes(record, d, following, padding) {
      ChainReads(record, d, following, padding);
    }
  }

  lemma TagIs(s: seq<Byte>)
    requires |s| == 8
    ensures FromBE(s) == 4 <==> s == [0, 0, 0, 0, 0, 0, 0, 4]
  {
    var four: seq<Byte> := [0, 0, 0, 0, 0, 0, 0, 4];
    FourIs();
    BEInverse(s);
    BEInverse(four);
  }

  lemma FourIs()
    ensures FromBE([0, 0, 0, 0, 0, 0, 0, 4]) == 4
  {
    var z: seq<Byte> := [0, 0, 0, 0, 0, 0, 0];
    assert [0, 0, 0, 0, 0, 0, 0, 4][..7] == z;
    LeadingZeros(7);
    assert z == Zeros(7);
  }

  lemma {:induction false} LeadingZeros(n: nat)
    ensures FromBE(Zeros(n)) == 0
  {
    if n > 0 {
      LeadingZeros(n - 1);
      assert Zeros(n)[..n - 1] == Zeros(n - 1);
    }
  }

  lemma ChainSplits(record: seq<Byte>, d: Descriptor)
    requires |record| >= 16 && d.Chain? && ReadRecord(record) == Some(d)
    ensures exists following, padding :: ChainBytes(record, d, following, padding)
  {
    hide FromBE, ToBE, BE32;
    TagIs(record[0..8]);
    BE32Of(record[16..20]);
    BE32Of(record[20..24]);
    BE32Of(record[24..28]);
    BE32Of(record[28..32]);
    var end := 92 + |d.name| + |d.key|;
    var following, padding := record[8..16], record[end..];
    RecordParts(record, 92 + |d.name|, end);
    assert ChainBytes(record, d, following, padding);
  }

  lemma RecordParts(record: seq<Byte>, nameEnd: nat, end: nat)
    requires 92 <= nameEnd <= end <= |record|
    ensures record == (record[0..8] + record[8..16] + record[16..20] + record[20..24] + record[24..28] + record[28..32])
      + record[32..92] + (record[92..nameEnd] + record[nameEnd..end] + record[end..])
  {}

  lemma ChainReads(record: seq<Byte>, d: Descriptor, following: seq<Byte>, padding: seq<Byte>)
    requires d.Chain? && ChainBytes(record, d, following, padding)
    ensures |record| >= 16 && ReadRecord(record) == Some(d)
  {
    hide FromBE, ToBE, BE32;
    var front := [0, 0, 0, 0, 0, 0, 0, 4] + following + BE32(d.location) + BE32(|d.name|) + BE32(|d.key|)
      + BE32(d.flags);
    FrontParts(following, BE32(d.location), BE32(|d.name|), BE32(|d.key|), BE32(d.flags));
    TagIs(record[0..8]);
    assert record[..32] == front;
    assert record[0..8] == front[0..8] && record[16..20] == front[16..20] && record[20..24] == front[20..24];
    assert record[24..28] == front[24..28] && record[28..32] == front[28..32];
    assert record[32..92] == d.reserved;
    assert record[92..92 + |d.name|] == d.name;
    assert record[92 + |d.name|..92 + |d.name| + |d.key|] == d.key;
  }

  lemma FrontParts(following: seq<Byte>, a: seq<Byte>, b: seq<Byte>, c: seq<Byte>, e: seq<Byte>)
    requires |following| == 8 && |a| == |b| == |c| == |e| == 4
    ensures
      var front := [0, 0, 0, 0, 0, 0, 0, 4] + following + a + b + c + e;
      && |front| == 32 && front[0..8] == [0, 0, 0, 0, 0, 0, 0, 4]
      && front[16..20] == a && front[20..24] == b && front[24..28] == c && front[28..32] == e
  {}

  /** A record of the format: tag 0 to 4, its length behind the sixteen bytes of its header, in units of eight. */
  predicate IsRecord(record: seq<Byte>) {
    |record| >= 16 && |record| % 8 == 0 && U64At(record, 0) <= 4 && U64At(record, 8) == |record| - 16
  }

  function Concat(records: seq<seq<Byte>>): seq<Byte> {
    if records == [] then [] else records[0] + Concat(records[1..])
  }

  /** The records' readings, one for one. */
  ghost predicate ReadsAs(records: seq<seq<Byte>>, ds: seq<Descriptor>) {
    |ds| == |records|
    && forall i :: 0 <= i < |records| ==> IsRecord(records[i]) && ReadRecord(records[i]) == Some(ds[i])
  }

  lemma FramedIff(data: seq<Byte>, record: seq<Byte>)
    requires record <= data && IsRecord(record)
    ensures Framed(data) && RecordEnd(data) == |record| && data[..|record|] == record
  {
    hide FromBE;
    assert data[0..8] == record[0..8] && data[8..16] == record[8..16];
  }

  lemma FramedRecord(data: seq<Byte>)
    requires Framed(data)
    ensures IsRecord(data[..RecordEnd(data)])
  {
    FrameTake(data);
    hide FromBE;
  }

  /** A stream reads as a list of descriptors exactly when it is one record after another, and each reads as its own. */
  lemma ReadIff(data: seq<Byte>, ds: seq<Descriptor>)
    ensures Read(data) == Some(ds) <==> exists records :: Concat(records) == data && ReadsAs(records, ds)
  {
    hide Read, ReadsAs;
    if Read(data) == Some(ds) {
      var records := RecordsOf(data, ds);
    }
    if records :| Concat(records) == data && ReadsAs(records, ds) {
      ReadsConcat(records, ds);
    }
  }

  lemma {:induction false} RecordsOf(data: seq<Byte>, ds: seq<Descriptor>) returns (records: seq<seq<Byte>>)
    requires Read(data) == Some(ds)
    ensures Concat(records) == data && ReadsAs(records, ds)
    decreases |data|
  {
    hide ReadRecord, FromBE;
    records := [];
    if data != [] {
      var record, tail := data[..RecordEnd(data)], data[RecordEnd(data)..];
      FramedRecord(data);
      var rest := RecordsOf(tail, Read(tail).value);
      records := [record] + rest;
      assert records[1..] == rest && record + tail == data;
      assert ds[0] == ReadRecord(record).value && ds[1..] == Read(tail).value;
      forall i | 0 <= i < |records|
        ensures IsRecord(records[i]) && ReadRecord(records[i]) == Some(ds[i])
      {
        assert i > 0 ==> records[i] == rest[i - 1] && ds[i] == ds[1..][i - 1];
      }
    }
  }

  lemma {:induction false} ReadsConcat(records: seq<seq<Byte>>, ds: seq<Descriptor>)
    requires ReadsAs(records, ds)
    ensures Read(Concat(records)) == Some(ds)
  {
    hide ReadRecord, FromBE;
    if records != [] {
      var data := Concat(records);
      FramedIff(data, records[0]);
      assert data[|records[0]|..] == Concat(records[1..]);
      forall i | 0 <= i < |records| - 1
        ensures IsRecord(records[1..][i]) && ReadRecord(records[1..][i]) == Some(ds[1..][i])
      {
        assert records[1..][i] == records[i + 1] && ds[1..][i] == ds[i + 1];
      }
      ReadsConcat(records[1..], ds[1..]);
      RecordNotEmpty(records[0]);
      assert [ds[0]] + ds[1..] == ds;
    }
  }

  lemma RecordNotEmpty(record: seq<Byte>)
    requires IsRecord(record)
    ensures |record| >= 16
  {}

  /** The repacking of one chain record: slice, append, pad, then patch both length fields. */
  method RekeyChain(record: seq<Byte>, name: seq<Byte>, key: seq<Byte>) returns (r: seq<Byte>)
    requires |record| >= CHAIN_FIXED && ChainFits(record) && name == ChainName(record) && |key| < TWO32
    ensures r == WithKey(record, key)
  {
    hide PackInto, FromBE;
    r := record[..CHAIN_FIXED] + name + key;
    r := r + Zeros(Pad8(|r|));
    ghost var back := record[28..CHAIN_FIXED] + name + key + Zeros(Pad8(CHAIN_FIXED + |name| + |key|));
    assert r == record[..8] + record[8..16] + record[16..24] + record[24..28] + back;
    PackTwoFields(record[..8], record[8..16], record[16..24], record[24..28], back, BE64(|r| - 16), BE32(|key|));
    r := PackInto(r, 8, BE64(|r| - 16));
    r := PackInto(r, 24, BE32(|key|));
  }

  /** The loop's treatment of one chain record: the checks in order, then the repacking. */
  method RewriteChain(record: seq<Byte>, seen: set<seq<Byte>>, key: seq<Byte>) returns (r: Result<Step, Error>)
    requires |record| >= 16 && IsChain(record)
    ensures r == RewriteRecord(record, seen, key)
  {
    if |record| < CHAIN_FIXED {
      return Err(TruncatedChain);
    }
    if CHAIN_FIXED + U32At(record, 20) + U32At(record, 24) > |record| || U32At(record, 28) != 0 {
      return Err(ChainLayout);
    }
    var name := record[CHAIN_FIXED..CHAIN_FIXED + U32At(record, 20)];
    if name !in REQUIRED_PARTITIONS || name in seen || U32At(record, 16) == 0 {
      return Err(ChainTarget);
    }
    if |key| >= TWO32 {
      return Err(KeyTooLong);
    }
    var rekeyed := RekeyChain(record, name, key);
    r := Ok(Step(rekeyed, seen + {name}));
  }

  /** `output` followed by the rewrite of what lies past `cursor` is the rewrite of everything. */
  ghost predicate Progress(data: seq<Byte>, key: seq<Byte>, output: seq<Byte>, rest: seq<Byte>, seen: set<seq<Byte>>) {
    match Rewrite(rest, seen, key)
    case Ok(more) => Rewrite(data, {}, key) == Ok(output + more)
    case Err(e) => Rewrite(data, {}, key) == Err(e)
  }

  lemma ProgressStep(data: seq<Byte>, key: seq<Byte>, output: seq<Byte>, rest: seq<Byte>, seen: set<seq<Byte>>)
    requires Progress(data, key, output, rest, seen) && Framed(rest)
    ensures
      var s := RewriteRecord(rest[..RecordEnd(rest)], seen, key);
      if s.Ok? then Progress(data, key, output + s.value.record, rest[RecordEnd(rest)..], s.value.seen)
      else Rewrite(data, {}, key) == Err(s.error)
  {
    hide RewriteRecord, RecordEnd;
    var step := RewriteRecord(rest[..RecordEnd(rest)], seen, key);
    if step.Ok? {
      var more := Rewrite(rest[RecordEnd(rest)..], step.value.seen, key);
      if more.Ok? {
        assert output + (step.value.record + more.value) == (output + step.value.record) + more.value;
      }
    }
  }

  /** The cursor loop of the source computes the rewrite. */
  method RewriteDescriptors(data: seq<Byte>, key: seq<Byte>) returns (r: Result<seq<Byte>, Error>)
    ensures r == Rewrite(data, {}, key)
  {
    var output: seq<Byte> := [];
    var cursor := 0;
    var seen: set<seq<Byte>> := {};
    assert data[0..] == data;
    assert Rewrite(data, seen, key).Ok? ==> output + Rewrite(data, seen, key).value == Rewrite(data, seen, key).value;
    while cursor < |data|
      invariant 0 <= cursor <= |data|
      invariant Progress(data, key, output, data[cursor..], seen)
    {
      ghost var left := data[cursor..];
      if |data| - cursor < 16 {
        return Err(TruncatedHeader);
      }
      var tag := U64At(data, cursor);
      var following := U64At(data, cursor + 8);
      assert left[0..8] == data[cursor..cursor + 8] && left[8..16] == data[cursor + 8..cursor + 16];
      var end := cursor + 16 + following;
      if following % 8 != 0 || end > |data| || tag > CHAIN_TAG {
        return Err(MalformedDescriptor);
      }
      var record := data[cursor..end];
      assert left[..RecordEnd(left)] == record && left[RecordEnd(left)..] == data[end..];
      ProgressStep(data, key, output, left, seen);
      assert record[0..8] == left[0..8];
      if tag == CHAIN_TAG {
        var step := RewriteChain(record, seen, key);
        if step.Err? {
          return Err(step.error);
        }
        record, seen := step.value.record, step.value.seen;
      }
      output := output + record;
      cursor := end;
    }
    assert data[cursor..] == [];
    assert output + [] == output;
    r := Ok(output);
  }
}
