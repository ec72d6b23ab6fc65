/**
 * What a verifier of Android Verified Boot finds in a rebuilt blob, following only the offsets and sizes that the
 * blob's own header declares: the digest and the signature of header and auxiliary block, and the public key.
 */
module OwnerVerify {
  import opened ByteStrings
  import opened Wrappers
  import opened OwnerFamily
  import AvbDescriptors

  // ---- which images can be signed ----

  /** A footer in the last 64 bytes: AVBf, version 1.0, and a blob of its size at its offset, in front of it. */
  predicate FooterSays(image: seq<Byte>, offset: nat, size: nat)
    requires |image| >= 256
  {
    var f := image[|image| - 64..];
    && f[..4] == [0x41, 0x56, 0x42, 0x66] && U32At(f, 4) == 1 && U32At(f, 8) == 0
    && U64At(f, 12) <= offset && U64At(f, 20) == offset && U64At(f, 28) == size
  }

  /**
   * A header: AVB0, major version 1, two blocks of whole 64-byte units and at most 64 KiB in all, no flags, no key
   * metadata, and descriptors inside the second block.
   */
  predicate HeaderSays(h: seq<Byte>, size: nat, descriptorsAt: nat, descriptorsSize: nat)
    requires |h| == 256
  {
    && h[..4] == [0x41, 0x56, 0x42, 0x30] && U32At(h, 4) == 1
    && U64At(h, 12) % 64 == 0 && U64At(h, 20) % 64 == 0 && size == 256 + U64At(h, 12) + U64At(h, 20) <= 65536
    && U32At(h, 120) == 0 && U64At(h, 88) == 0
    && descriptorsAt == 256 + U64At(h, 12) + U64At(h, 96) && descriptorsSize == U64At(h, 104)
    && U64At(h, 96) + U64At(h, 104) <= U64At(h, 20)
  }

  /** A raw image of at least 256 bytes, with a footer whose blob it has, or without one and a blob at its front. */
  predicate Signable(image: seq<Byte>, m: Metadata, size: nat) {
    && |image| >= 256 && image[..4] != [0x3a, 0xff, 0x26, 0xed]
    && |m.header| == 256
    && var tail := image[|image| - 64..];
    && m.footer == (if tail[..4] == [0x41, 0x56, 0x42, 0x66] then Some(tail) else None)
    && (if m.footer.Some? then FooterSays(image, m.offset, size) && m.offset + size <= |image| - 64
        else m.offset == 0 && size <= |image|)
    && HeaderSays(m.header, size, 256 + U64At(m.header, 12) + U64At(m.header, 96), |m.descriptors|)
    && m.offset + 256 <= |image| && m.header == image[m.offset..m.offset + 256]
    && var at := m.offset + 256 + U64At(m.header, 12) + U64At(m.header, 96);
    at + |m.descriptors| <= |image| && m.descriptors == image[at..at + |m.descriptors|]
  }

  /** The reader accepts exactly these images, and returns what it is said to find in them. */
  lemma ReadIff(image: seq<Byte>, m: Metadata)
    ensures ReadMetadata(image) == Ok(m) <==>
      |m.header| == 256 && Signable(image, m, 256 + U64At(m.header, 12) + U64At(m.header, 20))
  {
    hide FromBE, ReadBlob;
    if |image| >= 256 {
      var footer := image[|image| - 64..];
      if footer[..4] != FOOTER_MAGIC {
        BlobIff(image, 0, None, m);
      } else if FooterFits(footer, |image| - 64) {
        BlobIff(image, U64At(footer, 20), Some(footer), m);
      }
    }
  }

  lemma BlobIff(image: seq<Byte>, offset: nat, footer: Option<seq<Byte>>, m: Metadata)
    requires offset + 64 <= |image| && (footer.Some? ==> |footer.value| == 64)
    ensures ReadBlob(image, offset, footer) == Ok(m) <==>
      && m.offset == offset && m.footer == footer && |m.header| == 256
      && var size := 256 + U64At(m.header, 12) + U64At(m.header, 20);
      && HeaderSays(m.header, size, 256 + U64At(m.header, 12) + U64At(m.header, 96), |m.descriptors|)
      && (footer.Some? ==> U64At(footer.value, 28) == size)
      && offset + size <= |image| - (if footer.Some? then 64 else 0)
      && m.header == image[offset..offset + 256]
      && var at := offset + 256 + U64At(m.header, 12) + U64At(m.header, 96);
      m.descriptors == image[at..at + |m.descriptors|]
  {
    hide FromBE;
  }

  // ---- what a signed image holds ----

  /** `size` bytes at `at`, if the block has them. */
  function Part(block: seq<Byte>, at: nat, size: nat): Option<seq<Byte>> {
    if at + size <= |block| then Some(block[at..at + size]) else None
  }

  /** The authentication block holds the digest of `signed`, then its signature, then zeros. */
  ghost predicate Authenticates(h: seq<Byte>, block: seq<Byte>, signed: seq<Byte>, crypto: Crypto)
    requires |h| == HEADER_SIZE
  {
    && Part(block, U64At(h, 32), U64At(h, 40)) == Some((crypto.digest)(signed))
    && (crypto.sign)(signed).Some?
    && Part(block, U64At(h, 48), U64At(h, 56)) == (crypto.sign)(signed)
    && forall i | 0 <= i < |block| ::
         U64At(h, 32) <= i < U64At(h, 32) + U64At(h, 40) || U64At(h, 48) <= i < U64At(h, 48) + U64At(h, 56)
         || block[i] == 0
  }

  /** The auxiliary block holds the descriptors and the key where the header says, and only padding besides. */
  ghost predicate Carries(h: seq<Byte>, block: seq<Byte>, descriptors: seq<Byte>, public: seq<Byte>)
    requires |h| == HEADER_SIZE
  {
    && Part(block, U64At(h, 96), U64At(h, 104)) == Some(descriptors)
    && Part(block, U64At(h, 64), U64At(h, 72)) == Some(public)
    && U64At(h, 80) == |descriptors| + |public| && U64At(h, 88) == 0
    && |descriptors| + |public| <= |block| < |descriptors| + |public| + 64 && |block| % 64 == 0
    && AllZero(block[|descriptors| + |public|..])
  }

  /** Key, algorithm code and the sizes of signature and authentication block belong together. */
  predicate Consistent(h: seq<Byte>, public: seq<Byte>)
    requires |h| == HEADER_SIZE
  {
    && |public| >= 4
    && (|| (U32At(public, 0) == 2048 && |public| == 520 && U32At(h, 28) == 1 && U64At(h, 56) == 256
            && U64At(h, 12) == 320)
        || (U32At(public, 0) == 4096 && |public| == 1032 && U32At(h, 28) == 2 && U64At(h, 56) == 512
            && U64At(h, 12) == 576))
  }

  /** The blob passes the verifier: everything it needs is where the header says it is. */
  ghost predicate Verifies(blob: seq<Byte>, descriptors: seq<Byte>, public: seq<Byte>, crypto: Crypto) {
    && |blob| >= HEADER_SIZE
    && var h := blob[..HEADER_SIZE];
    && HEADER_SIZE + U64At(h, 12) + U64At(h, 20) == |blob|
    && var middle := HEADER_SIZE + U64At(h, 12);
    && Consistent(h, public)
    && Authenticates(h, blob[HEADER_SIZE..middle], h + blob[middle..], crypto)
    && Carries(h, blob[middle..], descriptors, public)
  }

  /** The parts a blob is put together from. */
  lemma BlobParts(header: seq<Byte>, descriptors: seq<Byte>, public: seq<Byte>, crypto: Crypto, blob: seq<Byte>)
    requires |header| == HEADER_SIZE && NewBlob(header, descriptors, public, crypto) == Ok(blob)
    ensures KeyAlgorithm(public).Some? && KeyAlgorithm(public).value in {RSA2048, RSA4096}
    ensures |Auxiliary(descriptors, public)| < TWO64
    ensures
      var algorithm, aux := KeyAlgorithm(public).value, Auxiliary(descriptors, public);
      var h := NewHeader(header, algorithm, |descriptors|, |public|, |aux|);
      var signature := (crypto.sign)(h + aux);
      && signature.Some? && |signature.value| == algorithm.signatureSize
      && blob == h + Authentication(h + aux, signature.value, algorithm, crypto) + aux
  {
    hide NewHeader, Authentication, Auxiliary, FromBE, ToBE;
  }

  lemma KeySizes(public: seq<Byte>)
    requires KeyAlgorithm(public).Some?
    ensures
      var a := KeyAlgorithm(public).value;
      && |public| >= 4
      && (|| (U32At(public, 0) == 2048 && |public| == 520 && a == Algorithm(2048, 1, 256, 320))
          || (U32At(public, 0) == 4096 && |public| == 1032 && a == Algorithm(4096, 2, 512, 576)))
  {
    hide FromBE;
  }

  lemma FieldWindows(a: seq<Byte>, b: seq<Byte>, c: seq<Byte>, front: seq<Byte>, back: seq<Byte>)
    requires |front| == 12 && |a| == 20 && |b| == 32 && |c| == 48
    ensures
      var r := front + (a + b + c) + back;
      && r[28..32] == a[16..20]
      && r[32..40] == b[0..8] && r[40..48] == b[8..16] && r[48..56] == b[16..24] && r[56..64] == b[24..32]
      && r[64..72] == c[0..8] && r[72..80] == c[8..16] && r[80..88] == c[16..24]
  {}

  /** The values of four fields in a row. */
  lemma FourFields(a: seq<Byte>, b: seq<Byte>, c: seq<Byte>, d: seq<Byte>, rest: seq<Byte>)
    requires |a| == |b| == |c| == |d| == 8
    ensures
      var r := a + b + c + d + rest;
      r[0..8] == a && r[8..16] == b && r[16..24] == c && r[24..32] == d
  {}

  /** The header fields a verifier follows, by their place in the header. */
  lemma HeaderPlaces(header: seq<Byte>, algorithm: Algorithm, descriptors: nat, public: nat, aux: nat)
    requires |header| == HEADER_SIZE && algorithm in {RSA2048, RSA4096}
    requires descriptors + public <= aux < TWO64
    ensures
      var r := NewHeader(header, algorithm, descriptors, public, aux);
      && U32At(r, 28) == algorithm.code
      && U64At(r, 32) == 0 && U64At(r, 40) == 32 && U64At(r, 48) == 32 && U64At(r, 56) == algorithm.signatureSize
      && U64At(r, 64) == descriptors && U64At(r, 72) == public && U64At(r, 80) == descriptors + public
  {
    hide FromBE, ToBE, BE64, BE32;
    var a, b, c := BlockFields(algorithm, aux), AuthenticationFields(algorithm), AuxiliaryFields(descriptors, public);
    assert a[16..20] == BE32(algorithm.code);
    assert b == BE64(0) + BE64(32) + BE64(32) + BE64(algorithm.signatureSize) + [];
    FourFields(BE64(0), BE64(32), BE64(32), BE64(algorithm.signatureSize), []);
    var rest := BE64(0) + BE64(descriptors);
    assert c == BE64(descriptors) + BE64(public) + BE64(descriptors + public) + BE64(0) + rest;
    FourFields(BE64(descriptors), BE64(public), BE64(descriptors + public), BE64(0), rest);
    FieldWindows(a, b, c, header[..12], header[112..]);
  }

  /** The authentication block, part by part. */
  lemma BlockParts(digest: Digest, signature: seq<Byte>, padding: seq<Byte>)
    requires AllZero(padding)
    ensures
      var block := digest + signature + padding;
      && Part(block, 0, 32) == Some(digest) && Part(block, 32, |signature|) == Some(signature)
      && forall i :: 32 + |signature| <= i < |block| ==> block[i] == 0
  {
    var block := digest + signature + padding;
    assert block[0..32] == digest;
    assert block[32..32 + |signature|] == signature;
  }

  lemma AuxiliaryParts(descriptors: seq<Byte>, public: seq<Byte>)
    ensures
      var aux := Auxiliary(descriptors, public);
      && Part(aux, 0, |descriptors|) == Some(descriptors)
      && Part(aux, |descriptors|, |public|) == Some(public)
      && |aux| < |descriptors| + |public| + 64 && AllZero(aux[|descriptors| + |public|..])
  {
    var aux := Auxiliary(descriptors, public);
    assert aux[|descriptors|..|descriptors| + |public|] == public;
    assert aux[|descriptors| + |public|..] == Zeros(Pad64(|descriptors| + |public|));
  }

  lemma JoinedBlob(h: seq<Byte>, middle: seq<Byte>, aux: seq<Byte>)
    ensures
      var blob := h + middle + aux;
      blob[..|h|] == h && blob[|h|..|h| + |middle|] == middle && blob[|h| + |middle|..] == aux
  {}

  /**
   * Every blob the procedure builds passes the verifier: by its own header's offsets it holds the digest and the
   * signature of its header and auxiliary block, and the public key they belong to.
   */
  lemma BlobVerifies(header: seq<Byte>, descriptors: seq<Byte>, public: seq<Byte>, crypto: Crypto, blob: seq<Byte>)
    requires |header| == HEADER_SIZE && NewBlob(header, descriptors, public, crypto) == Ok(blob)
    ensures Verifies(blob, descriptors, public, crypto)
  {
    hide NewBlob, NewHeader, Auxiliary, KeyAlgorithm, FromBE, ToBE, Part;
    BlobParts(header, descriptors, public, crypto, blob);
    KeySizes(public);
    var algorithm, aux := KeyAlgorithm(public).value, Auxiliary(descriptors, public);
    var h := NewHeader(header, algorithm, |descriptors|, |public|, |aux|);
    var signature := (crypto.sign)(h + aux).value;
    NewHeaderFields(header, algorithm, |descriptors|, |public|, |aux|);
    HeaderPlaces(header, algorithm, |descriptors|, |public|, |aux|);
    BlockParts((crypto.digest)(h + aux), signature, Zeros(algorithm.authenticationSize - 32 - |signature|));
    AuxiliaryParts(descriptors, public);
    JoinedBlob(h, Authentication(h + aux, signature, algorithm, crypto), aux);
    hide U64At, U32At;
  }

  /**
   * What a signed image holds: at the place the metadata had, a blob that passes the verifier, with the rewritten
   * descriptors and the new key in it.
   */
  lemma SignedVerifies(image: seq<Byte>, crypto: Crypto, public: seq<Byte>, chainKey: seq<Byte>, p: Plan)
    requires Prepare(image, crypto, public, chainKey) == Ok(p)
    ensures ReadMetadata(image) == Ok(p.was)
    ensures AvbDescriptors.Rewrite(p.was.descriptors, {}, chainKey) == Ok(p.descriptors)
    ensures
      var start := p.was.offset;
      && start + HEADER_SIZE <= |p.image|
      && var size := BlobSize(p.image[start..start + HEADER_SIZE]);
      && start + size <= |p.image|
      && Verifies(p.image[start..start + size], p.descriptors, public, crypto)
  {
    hide Prepare, ReadMetadata, NewBlob, FromBE, BlobFor, AvbDescriptors.Rewrite, Verifies, U64At, Fits, CoversPadding,
         HeaderFacts, FooterFacts;
    PlanFacts(image, crypto, public, chainKey, p);
    PlanIsSound(image, crypto, public, chainKey, p);
    SoundSizes(image, p, public);
    BlobVerifies(p.was.header, p.descriptors, public, crypto, p.blob);
    BlobHeader(p.was.header, p.descriptors, public, p.blob);
    Standing(p.image, p.was.offset, p.blob, 0, HEADER_SIZE);
  }

  /**
   * What the checks after the write accept, whatever image they look at: the payload's digest is the old one, and the
   * image can be read, at the old offset, with the new descriptors and every header byte outside 12-111 as it was.
   */
  lemma ChecksIff(image: seq<Byte>, was: Metadata, descriptors: seq<Byte>, payload: Digest, crypto: Crypto, bits: nat)
    requires was.offset <= |image| && |was.header| == HEADER_SIZE
    ensures FinalChecks(image, was, descriptors, payload, crypto, bits).Ok? <==>
      && (crypto.digest)(image[..was.offset]) == payload
      && exists m :: ReadMetadata(image) == Ok(m) && Kept(m, was, descriptors)
    ensures FinalChecks(image, was, descriptors, payload, crypto, bits).Ok? ==>
      FinalChecks(image, was, descriptors, payload, crypto, bits).value == Receipt(was.offset, payload, bits)
  {
    hide ReadMetadata, FromBE;
    if ReadMetadata(image).Ok? {
      var m := ReadMetadata(image).value;
      ReadFacts(image, m);
      KeptBytes(m, was, descriptors);
    }
  }

  predicate Kept(m: Metadata, was: Metadata, descriptors: seq<Byte>) {
    && m.offset == was.offset && m.descriptors == descriptors && |m.header| == |was.header| == 256
    && forall i :: 0 <= i < 256 && !(12 <= i < 112) ==> m.header[i] == was.header[i]
  }

  lemma KeptBytes(m: Metadata, was: Metadata, descriptors: seq<Byte>)
    requires |m.header| == |was.header| == HEADER_SIZE
    ensures Kept(m, was, descriptors) <==>
      && m.header[..12] == was.header[..12] && m.header[112..] == was.header[112..]
      && m.descriptors == descriptors && m.offset == was.offset
  {
    if m.header[..12] == was.header[..12] && m.header[112..] == was.header[112..] {
      forall i | 0 <= i < 256 && !(12 <= i < 112)
        ensures m.header[i] == was.header[i]
      {
        assert i < 12 ==> m.header[..12][i] == was.header[..12][i];
        assert i >= 112 ==> m.header[112..][i - 112] == was.header[112..][i - 112];
      }
    }
  }

  // ---- which signings succeed ----

  /** An RSA-2048 or RSA-4096 key in the format of Android Verified Boot. */
  predicate GoodKey(public: seq<Byte>) {
    && |public| >= 4
    && ((U32At(public, 0) == 2048 && |public| == 520) || (U32At(public, 0) == 4096 && |public| == 1032))
  }

  /** The size of the blob for such a key: header, authentication block, and descriptors and key in units of 64. */
  function SizeFor(descriptors: nat, public: seq<Byte>): nat
    requires |public| >= 4
  {
    256 + (if U32At(public, 0) == 2048 then 320 else 576) + (descriptors + |public| + 63) / 64 * 64
  }

  /** A signer that never fails, and signs with the key's own size. */
  ghost predicate Works(crypto: Crypto, public: seq<Byte>)
    requires |public| >= 4
  {
    forall x :: (crypto.sign)(x).Some? && |(crypto.sign)(x).value| == if U32At(public, 0) == 2048 then 256 else 512
  }

  lemma KeyIff(public: seq<Byte>)
    ensures KeyAlgorithm(public).Some? <==> GoodKey(public)
  {
    hide FromBE;
  }

  lemma PaddedSize(descriptors: seq<Byte>, public: seq<Byte>)
    ensures |Auxiliary(descriptors, public)| == (|descriptors| + |public| + 63) / 64 * 64
  {}

  /** With a working signer a blob is built exactly for a good key and sizes of 64 bits; its size is known before. */
  lemma BuildsIff(header: seq<Byte>, descriptors: seq<Byte>, public: seq<Byte>, crypto: Crypto)
    requires |header| == HEADER_SIZE && (|public| >= 4 ==> Works(crypto, public))
    ensures
      var blob := NewBlob(header, descriptors, public, crypto);
      && (blob.Ok? <==> GoodKey(public) && (|descriptors| + |public| + 63) / 64 * 64 < 0x1_0000_0000_0000_0000)
      && (blob.Ok? ==> |blob.value| == SizeFor(|descriptors|, public))
  {
    hide NewHeader, Authentication, Auxiliary, FromBE;
    KeyIff(public);
    PaddedSize(descriptors, public);
    if KeyAlgorithm(public).Some? {
      KeySizes(public);
    }
  }

  /** The bytes the new blob covers beyond the old one are all zero. */
  predicate Covers(image: seq<Byte>, at: nat, oldSize: nat, size: nat) {
    forall i :: at + oldSize <= i < at + size && i < |image| ==> image[i] == 0
  }

  /**
   * With a working signer, an image is signed exactly when it can be read, its descriptors can be rewritten, the key
   * is good, and the new blob fits in front of a footer, in 64 KiB, and over zeros: all known before the call.
   */
  lemma SignsIff(image: seq<Byte>, crypto: Crypto, public: seq<Byte>, chainKey: seq<Byte>, was: Metadata)
    requires ReadMetadata(image) == Ok(was)
    requires |public| >= 4 ==> Works(crypto, public)
    ensures
      var d := AvbDescriptors.Rewrite(was.descriptors, {}, chainKey);
      Prepare(image, crypto, public, chainKey).Ok? <==>
        && d.Ok? && GoodKey(public) && |was.header| == 256
        && var size := SizeFor(|d.value|, public);
        && was.offset + size <= |image| - (if was.footer.Some? then 64 else 0) && size <= 65536
        && Covers(image, was.offset, 256 + U64At(was.header, 12) + U64At(was.header, 20), size)
  {
    hide ReadMetadata, NewBlob, Prepare, AvbDescriptors.Rewrite, FromBE, Works, FooterFacts, AllZero, U64At;
    ReadFacts(image, was);
    PrepareErrors(image, crypto, public, chainKey, was);
    var d := AvbDescriptors.Rewrite(was.descriptors, {}, chainKey);
    if d.Ok? {
      BuildsIff(was.header, d.value, public, crypto);
      if NewBlob(was.header, d.value, public, crypto).Ok? {
        var blob := NewBlob(was.header, d.value, public, crypto).value;
        PrepareFrom(image, crypto, public, chainKey, was, d.value, blob);
        if was.offset + |blob| <= Limit(image, was.footer) && |blob| > BlobSize(was.header) {
          CoversIff(image, was.offset, BlobSize(was.header), |blob|);
        }
      }
    }
  }

  lemma CoversIff(image: seq<Byte>, at: nat, oldSize: nat, size: nat)
    requires oldSize <= size && at + size <= |image|
    ensures AllZero(image[at + oldSize..at + size]) <==> Covers(image, at, oldSize, size)
  {
    if AllZero(image[at + oldSize..at + size]) {
      AllZeroAt(image, at + oldSize, at + size);
    }
  }
}
