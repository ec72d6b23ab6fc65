/** The signing procedure itself, over a mutable image file, and the input on which its final check fails. */
module OwnerSigning {
  import opened ByteStrings
  import opened Wrappers
  import opened OwnerFamily
  import AvbDescriptors

  /** An image opened for reading and writing: its bytes and the stream position. */
  class ImageFile {
    var data: seq<Byte>
    var position: nat

    constructor (bytes: seq<Byte>)
      ensures data == bytes && position == 0
    {
      data := bytes;
      position := 0;
    }

    method Seek(offset: nat)
      modifies this`position
      ensures position == offset
    {
      position := offset;
    }

    /** At most `count` bytes from the position on. */
    method Read(count: nat) returns (bytes: seq<Byte>)
      modifies this`position
      ensures old(position) + count <= |data| ==>
        bytes == data[old(position)..old(position) + count] && position == old(position) + count
      ensures old(position) <= |data| < old(position) + count ==> bytes == data[old(position)..] && position == |data|
      ensures |data| < old(position) ==> bytes == [] && position == old(position)
    {
      if |data| < position {
        return [];
      }
      var end := if position + count <= |data| then position + count else |data|;
      bytes := data[position..end];
      position := end;
    }

    /** Overwrites in place; the procedure never writes past the end. */
    method Write(bytes: seq<Byte>)
      requires position + |bytes| <= |data|
      modifies this
      ensures data == PackInto(old(data), old(position), bytes) && position == old(position) + |bytes|
    {
      data := PackInto(data, position, bytes);
      position := position + |bytes|;
    }
  }

  /** Writing blob, zeros and footer one after the other is the patch. */
  lemma WritesArePatch(image: seq<Byte>, start: nat, end: nat, blob: seq<Byte>)
    requires start + |blob| <= end <= |image|
    ensures PackInto(PackInto(image, start, blob), start + |blob|, Zeros(end - start - |blob|))
      == Overlay(image, start, end, blob)
  {
    var gap := Zeros(end - start - |blob|);
    hide Zeros;
    var first := PackInto(image, start, blob);
    assert first == image[..start] + blob + image[start + |blob|..];
    assert first[..start + |blob|] == image[..start] + blob;
    assert first[end..] == image[end..];
  }

  /** Rewriting the whole footer with one field changed is packing that field. */
  lemma FooterWrite(body: seq<Byte>, footer: seq<Byte>, field: seq<Byte>)
    requires |body| >= FOOTER_SIZE == |footer| && |field| == 8 && body[|body| - FOOTER_SIZE..] == footer
    ensures
      var at := |body| - FOOTER_SIZE;
      PackInto(body, at, PackInto(footer, 28, field)) == PackInto(body, at + 28, field)
  {
    var at := |body| - FOOTER_SIZE;
    assert body == body[..at] + footer;
    assert PackInto(body, at + 28, field) == body[..at] + footer[..28] + field + footer[36..];
  }

  lemma PackThree(header: seq<Byte>, a: seq<Byte>, b: seq<Byte>, c: seq<Byte>)
    requires |header| == HEADER_SIZE && |a| == 20 && |b| == 32 && |c| == 48
    ensures PackInto(PackInto(PackInto(header, 12, a), 32, b), 64, c) == header[..12] + (a + b + c) + header[112..]
  {
    var h1 := PackInto(header, 12, a);
    assert h1 == header[..12] + a + header[32..];
    var h2 := PackInto(h1, 32, b);
    assert h2 == header[..12] + a + b + header[64..];
    var h3 := PackInto(h2, 64, c);
    assert h3 == header[..12] + a + b + c + header[112..];
  }

  /** Packing the three groups of header fields, signing, and putting the blob together. */
  method BuildBlob(header: seq<Byte>, descriptors: seq<Byte>, public: seq<Byte>, crypto: Crypto)
    returns (blob: Result<seq<Byte>, Error>)
    requires |header| == HEADER_SIZE
    ensures blob == NewBlob(header, descriptors, public, crypto)
  {
    hide FromBE, ToBE, BE64, BE32, PackInto, Zeros;
    var key := KeyAlgorithm(public);
    if key.None? {
      return Err(KeyFormat);
    }
    var algorithm := key.value;
    var auxiliary := descriptors + public;
    auxiliary := auxiliary + Zeros(Pad64(|auxiliary|));
    if |auxiliary| >= TWO64 {
      return Err(PackRange);
    }
    PackThree(header, BlockFields(algorithm, |auxiliary|), AuthenticationFields(algorithm),
              AuxiliaryFields(|descriptors|, |public|));
    hide BlockFields, AuthenticationFields, AuxiliaryFields;
    var rebuilt := PackInto(header, 12, BlockFields(algorithm, |auxiliary|));
    rebuilt := PackInto(rebuilt, 32, AuthenticationFields(algorithm));
    rebuilt := PackInto(rebuilt, 64, AuxiliaryFields(|descriptors|, |public|));
    var signed := rebuilt + auxiliary;
    var signature := (crypto.sign)(signed);
    if signature.None? {
      return Err(SigningFailed);
    }
    if |signature.value| != algorithm.signatureSize {
      return Err(SignatureSize);
    }
    blob := Ok(rebuilt + Authentication(signed, signature.value, algorithm, crypto) + auxiliary);
  }

  /** The blob over the old metadata, then zeros over what is left of it. */
  method OverlayBlob(image: ImageFile, offset: nat, oldSize: nat, blob: seq<Byte>)
    requires offset + Max(oldSize, |blob|) <= |image.data|
    modifies image
    ensures image.data == Overlay(old(image.data), offset, offset + Max(oldSize, |blob|), blob)
  {
    hide Overlay, PackInto, Zeros;
    WritesArePatch(image.data, offset, offset + Max(oldSize, |blob|), blob);
    image.Seek(offset);
    image.Write(blob);
    if oldSize > |blob| {
      image.Write(Zeros(oldSize - |blob|));
    } else {
      EmptyWrite(image.data, offset + |blob|);
    }
  }

  lemma EmptyWrite(s: seq<Byte>, i: nat)
    requires i <= |s|
    ensures PackInto(s, i, Zeros(0)) == s
  {}

  /** The writes: the expansion check first, then the blob, and the footer with its size field repacked. */
  method WriteBlob(image: ImageFile, offset: nat, oldSize: nat, blob: seq<Byte>, footer: Option<seq<Byte>>)
    returns (written: bool)
    requires offset + Max(oldSize, |blob|) <= Limit(image.data, footer) && |image.data| >= HEADER_SIZE
    requires |blob| < TWO64
    requires footer.Some? ==> footer.value == image.data[|image.data| - FOOTER_SIZE..]
    modifies image
    ensures written == (|blob| > oldSize ==> AllZero(old(image.data)[offset + oldSize..offset + |blob|]))
    ensures image.data ==
      if written then Patch(old(image.data), offset, offset + Max(oldSize, |blob|), blob, footer.Some?)
        else old(image.data)
  {
    hide FromBE, ToBE, BE64, AllZero, Overlay, PackInto;
    ghost var before := image.data;
    if |blob| > oldSize {
      image.Seek(offset + oldSize);
      var covered := image.Read(|blob| - oldSize);
      if !AllZero(covered) {
        return false;
      }
    }
    OverlayBlob(image, offset, oldSize, blob);
    if footer.Some? {
      OverlayKeepsTail(before, offset, offset + Max(oldSize, |blob|), blob);
      FooterWrite(image.data, footer.value, BE64(|blob|));
      image.Seek(|image.data| - FOOTER_SIZE);
      image.Write(PackInto(footer.value, 28, BE64(|blob|)));
    }
    written := true;
  }

  lemma OverlayKeepsTail(image: seq<Byte>, start: nat, end: nat, blob: seq<Byte>)
    requires start + |blob| <= end <= |image| - FOOTER_SIZE
    ensures Overlay(image, start, end, blob)[|image| - FOOTER_SIZE..] == image[|image| - FOOTER_SIZE..]
  {
    hide Zeros;
  }

  /**
   * The whole procedure. Every refusal leaves the image untouched and reports the first failing check;
   * otherwise the image becomes the planned one, and the outcome is the verdict of the final checks on it.
   */
  method Resign(image: ImageFile, crypto: Crypto, public: seq<Byte>, chainKey: seq<Byte>)
    returns (outcome: Result<Receipt, Error>)
    modifies image
    ensures Prepare(old(image.data), crypto, public, chainKey).Err? ==>
      && image.data == old(image.data)
      && outcome == Err(Prepare(old(image.data), crypto, public, chainKey).error)
    ensures Prepare(old(image.data), crypto, public, chainKey).Ok? ==>
      var p := Prepare(old(image.data), crypto, public, chainKey).value;
      && image.data == p.image
      && Contract(old(image.data), p)
      && outcome == Judge(old(image.data), p, crypto)
  {
    hide ReadMetadata, NewBlob, FromBE, ToBE, AllZero, AvbDescriptors.Rewrite, Patch, FooterFacts, FinalChecks;
    ghost var before := image.data;
    var read := ReadMetadata(image.data);
    if read.Err? {
      return Err(read.error);
    }
    var was := read.value;
    ReadFacts(image.data, was);
    PrepareErrors(before, crypto, public, chainKey, was);
    var payload := (crypto.digest)(image.data[..was.offset]);
    var rewritten := AvbDescriptors.RewriteDescriptors(was.descriptors, chainKey);
    if rewritten.Err? {
      return Err(Descriptors(rewritten.error));
    }
    var built := BuildBlob(was.header, rewritten.value, public, crypto);
    if built.Err? {
      return Err(built.error);
    }
    var blob := built.value;
    PrepareFrom(before, crypto, public, chainKey, was, rewritten.value, blob);
    hide Prepare;
    if was.offset + |blob| > Limit(image.data, was.footer) || |blob| > METADATA_LIMIT {
      return Err(DoesNotFit);
    }
    FooterInPlace(before, was);
    var written := WriteBlob(image, was.offset, BlobSize(was.header), blob, was.footer);
    if !written {
      return Err(ExpansionNotPadding);
    }
    ghost var p := Prepare(before, crypto, public, chainKey).value;
    PlanFromParts(before, crypto, public, chainKey, was, rewritten.value, blob);
    ContractHoldsIff(before, crypto, public, chainKey, p);
    outcome := FinalChecks(image.data, was, rewritten.value, payload, crypto, U32At(public, 0));
  }

  lemma FooterInPlace(image: seq<Byte>, was: Metadata)
    requires FooterFacts(image, was)
    ensures was.footer.Some? ==> was.footer.value == image[|image| - FOOTER_SIZE..]
    ensures |image| >= HEADER_SIZE
  {
    hide FromBE;
  }

  /** A successful plan consists of the pieces it was decided from. */
  lemma PlanFromParts(image: seq<Byte>, crypto: Crypto, public: seq<Byte>, chainKey: seq<Byte>, was: Metadata,
                      descriptors: seq<Byte>, blob: seq<Byte>)
    requires Prepare(image, crypto, public, chainKey).Ok?
    requires ReadMetadata(image) == Ok(was) && |was.header| == HEADER_SIZE
    requires AvbDescriptors.Rewrite(was.descriptors, {}, chainKey) == Ok(descriptors)
    requires NewBlob(was.header, descriptors, public, crypto) == Ok(blob)
    ensures
      var p := Prepare(image, crypto, public, chainKey).value;
      && p.was == was && p.descriptors == descriptors && p.blob == blob
      && Fits(image, p)
      && |public| >= 4 && p.bits == U32At(public, 0)
  {
    hide ReadMetadata, FromBE, AvbDescriptors.Rewrite, Patch, FooterFacts, HeaderFacts, Auxiliary, NewHeader,
         Authentication;
    PlanFacts(image, crypto, public, chainKey, Prepare(image, crypto, public, chainKey).value);
  }

  // ---- the input on which the final check fails ----

  /** A 1152-byte footerless image: a minimal header, then padding. */
  const WITNESS_HEADER: seq<Byte> := HEADER_MAGIC + BE32(1) + Zeros(248)
  const WITNESS_IMAGE: seq<Byte> := WITNESS_HEADER + Zeros(896)
  /** An RSA-2048 key blob whose last eight bytes start with AVBf. */
  const WITNESS_KEY: seq<Byte> := BE32(2048) + Zeros(508) + FOOTER_MAGIC + Zeros(4)

  lemma {:induction false} ZerosDecode(n: nat)
    ensures FromBE(Zeros(n)) == 0
  {
    if n > 0 {
      ZerosDecode(n - 1);
      assert Zeros(n)[..n - 1] == Zeros(n - 1);
    }
  }

  lemma ZeroField(s: seq<Byte>, i: nat, n: nat)
    requires i + n <= |s| && forall k :: i <= k < i + n ==> s[k] == 0
    ensures FromBE(s[i..i + n]) == 0
  {
    ZerosDecode(n);
    assert s[i..i + n] == Zeros(n);
  }

  lemma WitnessReads()
    ensures ReadMetadata(WITNESS_IMAGE) == Ok(Metadata(WITNESS_HEADER, [], 0, None))
  {
    hide FromBE, ToBE, BE32, HeaderError;
    var image, header := WITNESS_IMAGE, WITNESS_HEADER;
    assert image[0..256] == header;
    assert image[1088..1152][0] == 0 && image[1088..][..4][0] == 0;
    WitnessHeader();
    assert image[256..256] == [];
  }

  lemma WitnessHeader()
    ensures |WITNESS_HEADER| == HEADER_SIZE && HeaderError(WITNESS_HEADER, 1152, None) == None
    ensures U64At(WITNESS_HEADER, 12) == 0 && U64At(WITNESS_HEADER, 20) == 0
    ensures U64At(WITNESS_HEADER, 96) == 0 && U64At(WITNESS_HEADER, 104) == 0
    ensures WITNESS_HEADER[0] == 0x41
  {
    hide FromBE, ToBE, BE32;
    var header := WITNESS_HEADER;
    assert header[4..8] == BE32(1);
    ZeroField(header, 12, 8);
    ZeroField(header, 20, 8);
    ZeroField(header, 88, 8);
    ZeroField(header, 96, 8);
    ZeroField(header, 104, 8);
    ZeroField(header, 120, 4);
  }

  /**
   * The final check can fail: signing this image with this key, under any signer that returns 256 bytes,
   * writes a blob whose padded key ends where a footer would stand, and the contract check then refuses
   * an image it has already changed.
   */
  lemma ForgeryWitness(crypto: Crypto)
    requires forall x :: (crypto.sign)(x).Some? && |(crypto.sign)(x).value| == 256
    ensures Prepare(WITNESS_IMAGE, crypto, WITNESS_KEY, []).Ok?
    ensures
      var p := Prepare(WITNESS_IMAGE, crypto, WITNESS_KEY, []).value;
      && Contract(WITNESS_IMAGE, p) && WillForge(WITNESS_IMAGE, WITNESS_KEY, [])
      && Judge(WITNESS_IMAGE, p, crypto).Err? && p.image != WITNESS_IMAGE
  {
    hide ReadMetadata, FromBE, ToBE, BE32, BE64, NewHeader, Authentication, HeaderError, Patch, Judge;
    var was := Metadata(WITNESS_HEADER, [], 0, None);
    WitnessReads();
    WitnessHeader();
    WitnessBlob(crypto);
    var blob := NewBlob(WITNESS_HEADER, [], WITNESS_KEY, crypto).value;
    hide NewBlob;
    assert AllZero(WITNESS_IMAGE[256..1152]);
    PrepareFrom(WITNESS_IMAGE, crypto, WITNESS_KEY, [], was, [], blob);
    hide Prepare;
    var p := Prepare(WITNESS_IMAGE, crypto, WITNESS_KEY, []).value;
    PlanFromParts(WITNESS_IMAGE, crypto, WITNESS_KEY, [], was, [], blob);
    PatchBytes(WITNESS_IMAGE, 0, 1152, blob, false);
    assert p.image == blob;
    assert WITNESS_IMAGE[1088..][..4][0] == 0;
    ContractHoldsIff(WITNESS_IMAGE, crypto, WITNESS_KEY, [], p);
  }

  lemma WitnessBlob(crypto: Crypto)
    requires forall x :: (crypto.sign)(x).Some? && |(crypto.sign)(x).value| == 256
    ensures
      var r := NewBlob(WITNESS_HEADER, [], WITNESS_KEY, crypto);
      |WITNESS_HEADER| == HEADER_SIZE && r.Ok? && |r.value| == 1152 && r.value[1088..][..4] == FOOTER_MAGIC
  {
    hide FromBE, ToBE, BE32, BE64, NewHeader, Authentication;
    var key := WITNESS_KEY;
    assert key[0..4] == BE32(2048);
    var aux := Auxiliary([], key);
    assert aux == key + Zeros(56);
    assert aux[512..516] == FOOTER_MAGIC;
    var blob := NewBlob(WITNESS_HEADER, [], WITNESS_KEY, crypto).value;
    hide NewBlob, Auxiliary;
    NewBlobParts(WITNESS_HEADER, [], WITNESS_KEY, crypto, blob);
    assert blob[576..] == aux;
    assert blob[1088..][..4] == blob[576..][512..516];
  }
}
