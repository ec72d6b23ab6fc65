/**
 * Owner re-signing of a raw AVB 2.0 image: locate and check the vbmeta blob, rebuild it under a new
 * key, and patch it into the image in place. The digest and the RSA signer are parameters.
 */
module OwnerFamily {
  import opened ByteStrings
  import opened Wrappers
  import AvbDescriptors

  const SPARSE_MAGIC: seq<Byte> := [0x3a, 0xff, 0x26, 0xed]
  const FOOTER_MAGIC: seq<Byte> := [0x41, 0x56, 0x42, 0x66] // AVBf
  const HEADER_MAGIC: seq<Byte> := [0x41, 0x56, 0x42, 0x30] // AVB0
  const HEADER_SIZE: nat := 256
  const FOOTER_SIZE: nat := 64
  const METADATA_LIMIT: nat := 65536

  datatype Error =
    | SparseImage | TooSmall | BadFooter | BadHeader | BadBounds | SizeMismatch | NonzeroFlags
    | PublicKeyMetadata | DescriptorBounds
    | Descriptors(cause: AvbDescriptors.Error)
    | KeyFormat | PackRange | SigningFailed | SignatureSize | DoesNotFit | ExpansionNotPadding
    | PayloadChanged | ContractFailed

  datatype Metadata = Metadata(header: seq<Byte>, descriptors: seq<Byte>, offset: nat, footer: Option<seq<Byte>>)

  type Digest = d: seq<Byte> | |d| == 32 witness Zeros(32)

  /** SHA-256, and the signer: None when the signing command fails. */
  datatype Crypto = Crypto(digest: seq<Byte> -> Digest, sign: seq<Byte> -> Option<seq<Byte>>)

  datatype Algorithm = Algorithm(bits: nat, code: nat, signatureSize: nat, authenticationSize: nat)

  const RSA2048 := Algorithm(2048, 1, 256, 320)
  const RSA4096 := Algorithm(4096, 2, 512, 576)

  datatype Receipt = Receipt(payloadBytes: nat, payloadDigest: Digest, bits: nat)

  /** Everything decided before the first byte is written. */
  datatype Plan = Plan(was: Metadata, descriptors: seq<Byte>, blob: seq<Byte>, image: seq<Byte>, bits: nat)

  // ---- reading ----

  function BlobSize(header: seq<Byte>): nat
    requires |header| >= 28
  {
    HEADER_SIZE + U64At(header, 12) + U64At(header, 20)
  }

  /** The footer's own checks: version 1.0, original size and declared blob within the image. */
  predicate FooterFits(footer: seq<Byte>, room: int)
    requires |footer| == FOOTER_SIZE
  {
    && U32At(footer, 4) == 1 && U32At(footer, 8) == 0
    && U64At(footer, 12) <= U64At(footer, 20)
    && U64At(footer, 20) + U64At(footer, 28) <= room
  }

  function ReadMetadata(image: seq<Byte>): Result<Metadata, Error> {
    if |image| >= 4 && image[..4] == SPARSE_MAGIC then Err(SparseImage)
    else if |image| < HEADER_SIZE then Err(TooSmall)
    else
      var footer := image[|image| - FOOTER_SIZE..];
      if footer[..4] != FOOTER_MAGIC then ReadBlob(image, 0, None)
      else if !FooterFits(footer, |image| - FOOTER_SIZE) then Err(BadFooter)
      else ReadBlob(image, U64At(footer, 20), Some(footer))
  }

  /** The header checks; `room` is what the image has from the header on, less a footer. */
  function HeaderError(header: seq<Byte>, room: int, footer: Option<seq<Byte>>): Option<Error>
    requires FOOTER_SIZE <= |header| <= HEADER_SIZE && (|header| < HEADER_SIZE ==> room < HEADER_SIZE)
    requires footer.Some? ==> |footer.value| == FOOTER_SIZE
  {
    if header[..4] != HEADER_MAGIC || U32At(header, 4) != 1 then Some(BadHeader)
    else if U64At(header, 12) % 64 != 0 || U64At(header, 20) % 64 != 0
            || BlobSize(header) > METADATA_LIMIT || BlobSize(header) > room
    then Some(BadBounds)
    else if footer.Some? && U64At(footer.value, 28) != BlobSize(header) then Some(SizeMismatch)
    else if U32At(header, 120) != 0 then Some(NonzeroFlags)
    else if U64At(header, 88) != 0 then Some(PublicKeyMetadata)
    else if U64At(header, 96) + U64At(header, 104) > U64At(header, 20) then Some(DescriptorBounds)
    else None
  }

  /** From the header on. A short header read near the end of the image fails the bounds check. */
  function ReadBlob(image: seq<Byte>, offset: nat, footer: Option<seq<Byte>>): Result<Metadata, Error>
    requires offset + FOOTER_SIZE <= |image|
    requires footer.Some? ==> |footer.value| == FOOTER_SIZE
  {
    var header := image[offset..if |image| < offset + HEADER_SIZE then |image| else offset + HEADER_SIZE];
    var room := Limit(image, footer) - offset;
    var error := HeaderError(header, room, footer);
    if error.Some? then Err(error.value)
    else
      var start := offset + HEADER_SIZE + U64At(header, 12) + U64At(header, 96);
      Ok(Metadata(header, image[start..start + U64At(header, 104)], offset, footer))
  }

  function Limit(image: seq<Byte>, footer: Option<seq<Byte>>): int {
    |image| - (if footer.Some? then FOOTER_SIZE else 0)
  }

  /** A complete header whose declared blob lies within the image. */
  ghost predicate HeaderFacts(image: seq<Byte>, m: Metadata) {
    && |m.header| == HEADER_SIZE
    && m.offset + BlobSize(m.header) <= Limit(image, m.footer)
    && BlobSize(m.header) <= METADATA_LIMIT
    && m.header == image[m.offset..m.offset + HEADER_SIZE]
    && m.header[..4] == HEADER_MAGIC && U32At(m.header, 4) == 1 && U32At(m.header, 120) == 0
  }

  ghost predicate FooterFacts(image: seq<Byte>, m: Metadata) {
    && |image| >= HEADER_SIZE
    && image[..4] != SPARSE_MAGIC
    && var tail := image[|image| - FOOTER_SIZE..];
    if m.footer.None? then m.offset == 0 && tail[..4] != FOOTER_MAGIC
    else
      && m.footer.value == tail
      && tail[..4] == FOOTER_MAGIC
      && U32At(tail, 4) == 1 && U32At(tail, 8) == 0 && U64At(tail, 12) <= m.offset == U64At(tail, 20)
  }

  lemma BlobFacts(image: seq<Byte>, offset: nat, footer: Option<seq<Byte>>, m: Metadata)
    requires offset + FOOTER_SIZE <= |image|
    requires footer.Some? ==> |footer.value| == FOOTER_SIZE
    requires ReadBlob(image, offset, footer) == Ok(m)
    ensures m.offset == offset && m.footer == footer && HeaderFacts(image, m)
  {
    hide FromBE;
  }

  /** What a successful read says about the image. */
  lemma ReadFacts(image: seq<Byte>, m: Metadata)
    requires ReadMetadata(image) == Ok(m)
    ensures HeaderFacts(image, m) && FooterFacts(image, m)
  {
    hide FromBE, ReadBlob, HeaderFacts;
    var footer := image[|image| - FOOTER_SIZE..];
    if footer[..4] != FOOTER_MAGIC {
      BlobFacts(image, 0, None, m);
    } else {
      BlobFacts(image, U64At(footer, 20), Some(footer), m);
    }
  }

  // ---- rebuilding ----

  function KeyAlgorithm(public: seq<Byte>): Option<Algorithm> {
    if |public| < 4 then None
    else if U32At(public, 0) == 2048 && |public| == 520 then Some(RSA2048)
    else if U32At(public, 0) == 4096 && |public| == 1032 then Some(RSA4096)
    else None
  }

  /** Header bytes 12-31: block sizes and the algorithm. */
  function BlockFields(algorithm: Algorithm, aux: nat): (r: seq<Byte>)
    requires algorithm in {RSA2048, RSA4096} && aux < TWO64
    ensures |r| == 20
  {
    BE64(algorithm.authenticationSize) + BE64(aux) + BE32(algorithm.code)
  }

  /** Header bytes 32-63: where digest and signature stand in the authentication block. */
  function AuthenticationFields(algorithm: Algorithm): (r: seq<Byte>)
    requires algorithm in {RSA2048, RSA4096}
    ensures |r| == 32
  {
    BE64(0) + BE64(32) + BE64(32) + BE64(algorithm.signatureSize)
  }

  /** Header bytes 64-111: where the key and the descriptors stand in the auxiliary block; no key metadata. */
  function AuxiliaryFields(descriptors: nat, public: nat): (r: seq<Byte>)
    requires descriptors + public < TWO64
    ensures |r| == 48
  {
    BE64(descriptors) + BE64(public) + BE64(descriptors + public) + BE64(0) + BE64(0) + BE64(descriptors)
  }

  /** The rebuilt header: bytes 12-111 describe the new blocks, everything else is kept. */
  function NewHeader(header: seq<Byte>, algorithm: Algorithm, descriptors: nat, public: nat, aux: nat): (r: seq<Byte>)
    requires |header| == HEADER_SIZE && algorithm in {RSA2048, RSA4096}
    requires descriptors + public <= aux < TWO64
    ensures |r| == HEADER_SIZE
  {
    header[..12]
    + (BlockFields(algorithm, aux) + AuthenticationFields(algorithm) + AuxiliaryFields(descriptors, public))
    + header[112..]
  }

  function Auxiliary(descriptors: seq<Byte>, public: seq<Byte>): (aux: seq<Byte>)
    ensures |aux| % 64 == 0 && |descriptors| + |public| <= |aux|
    ensures aux[..|descriptors|] == descriptors
  {
    descriptors + public + Zeros(Pad64(|descriptors| + |public|))
  }

  function Authentication(signed: seq<Byte>, signature: seq<Byte>, algorithm: Algorithm, crypto: Crypto): (r: seq<Byte>)
    requires algorithm in {RSA2048, RSA4096} && |signature| == algorithm.signatureSize
    ensures |r| == algorithm.authenticationSize
  {
    (crypto.digest)(signed) + signature + Zeros(algorithm.authenticationSize - 32 - algorithm.signatureSize)
  }

  function NewBlob(header: seq<Byte>, descriptors: seq<Byte>, public: seq<Byte>, crypto: Crypto)
    : Result<seq<Byte>, Error>
    requires |header| == HEADER_SIZE
  {
    var key := KeyAlgorithm(public);
    if key.None? then Err(KeyFormat)
    else
      var auxiliary := Auxiliary(descriptors, public);
      if |auxiliary| >= TWO64 then Err(PackRange)
      else
        var header' := NewHeader(header, key.value, |descriptors|, |public|, |auxiliary|);
        var signature := (crypto.sign)(header' + auxiliary);
        if signature.None? then Err(SigningFailed)
        else if |signature.value| != key.value.signatureSize then Err(SignatureSize)
        else Ok(header' + Authentication(header' + auxiliary, signature.value, key.value, crypto) + auxiliary)
  }

  function Max(a: nat, b: nat): nat {
    if a < b then b else a
  }

  /**
   * The image after the write: `blob` over the old metadata at `start`, zeros up to `end` over what is
   * left of the old metadata, and the size field of a footer repacked.
   */
  function Patch(image: seq<Byte>, start: nat, end: nat, blob: seq<Byte>, hasFooter: bool): (r: seq<Byte>)
    requires |blob| < TWO64 && |image| >= FOOTER_SIZE
    requires start + |blob| <= end <= |image| - (if hasFooter then FOOTER_SIZE else 0)
    ensures |r| == |image|
  {
    var body := Overlay(image, start, end, blob);
    if hasFooter then PackInto(body, |image| - FOOTER_SIZE + 28, BE64(|blob|)) else body
  }

  /** `blob` at `start`, then zeros up to `end`. */
  function Overlay(image: seq<Byte>, start: nat, end: nat, blob: seq<Byte>): (r: seq<Byte>)
    requires start + |blob| <= end <= |image|
    ensures |r| == |image|
  {
    image[..start] + (blob + Zeros(end - start - |blob|)) + image[end..]
  }

  function Prepare(image: seq<Byte>, crypto: Crypto, public: seq<Byte>, chainKey: seq<Byte>): Result<Plan, Error> {
    var was :- ReadMetadata(image);
    ReadFacts(image, was);
    var rewritten := AvbDescriptors.Rewrite(was.descriptors, {}, chainKey);
    if rewritten.Err? then Err(Descriptors(rewritten.error))
    else
      var blob :- NewBlob(was.header, rewritten.value, public, crypto);
      var oldSize := BlobSize(was.header);
      if was.offset + |blob| > Limit(image, was.footer) || |blob| > METADATA_LIMIT
      then Err(DoesNotFit)
      else if |blob| > oldSize && !AllZero(image[was.offset + oldSize..was.offset + |blob|])
      then Err(ExpansionNotPadding)
      else Ok(Plan(was, rewritten.value, blob, Patch(image, was.offset, was.offset + Max(oldSize, |blob|), blob,
                                                     was.footer.Some?),
                   KeyAlgorithm(public).value.bits))
  }

  /** The checks the source runs after writing, on the bytes now in the file. */
  function FinalChecks(image: seq<Byte>, was: Metadata, descriptors: seq<Byte>, payload: Digest, crypto: Crypto,
                       bits: nat)
    : Result<Receipt, Error>
    requires was.offset <= |image| && |was.header| == HEADER_SIZE
  {
    if (crypto.digest)(image[..was.offset]) != payload then Err(PayloadChanged)
    else
      var after :- ReadMetadata(image);
      ReadFacts(image, after);
      if after.header[..12] != was.header[..12] || after.header[112..] != was.header[112..]
         || after.descriptors != descriptors || after.offset != was.offset
      then Err(ContractFailed)
      else Ok(Receipt(was.offset, payload, bits))
  }

  function Judge(image: seq<Byte>, plan: Plan, crypto: Crypto): Result<Receipt, Error>
    requires Contract(image, plan)
  {
    FinalChecks(plan.image, plan.was, plan.descriptors, (crypto.digest)(image[..plan.was.offset]), crypto, plan.bits)
  }

  // ---- what a prepared plan contains ----

  lemma BlockWindows(algorithm: Algorithm, aux: nat)
    requires algorithm in {RSA2048, RSA4096} && aux < TWO64
    ensures BlockFields(algorithm, aux)[0..8] == BE64(algorithm.authenticationSize)
    ensures BlockFields(algorithm, aux)[8..16] == BE64(aux)
  {
    hide FromBE, ToBE;
  }

  lemma AuxiliaryWindows(descriptors: nat, public: nat)
    requires descriptors + public < TWO64
    ensures AuxiliaryFields(descriptors, public)[24..32] == BE64(0)
    ensures AuxiliaryFields(descriptors, public)[32..40] == BE64(0)
    ensures AuxiliaryFields(descriptors, public)[40..48] == BE64(descriptors)
  {
    hide FromBE, ToBE, BE64;
    var first := BE64(descriptors) + BE64(public) + BE64(descriptors + public);
    var r := AuxiliaryFields(descriptors, public);
    assert r == first + BE64(0) + BE64(0) + BE64(descriptors);
    hide AuxiliaryFields;
    assert |first| == 24;
  }

  lemma NewHeaderFields(header: seq<Byte>, algorithm: Algorithm, descriptors: nat, public: nat, aux: nat)
    requires |header| == HEADER_SIZE && algorithm in {RSA2048, RSA4096}
    requires descriptors + public <= aux < TWO64
    ensures
      var r := NewHeader(header, algorithm, descriptors, public, aux);
      && r[..12] == header[..12] && r[112..] == header[112..]
      && U64At(r, 12) == algorithm.authenticationSize && U64At(r, 20) == aux
      && U64At(r, 88) == 0 && U64At(r, 96) == 0 && U64At(r, 104) == descriptors
      && r[..4] == header[..4] && U32At(r, 4) == U32At(header, 4) && U32At(r, 120) == U32At(header, 120)
  {
    var r := NewHeader(header, algorithm, descriptors, public, aux);
    var a, b, c := BlockFields(algorithm, aux), AuthenticationFields(algorithm), AuxiliaryFields(descriptors, public);
    BlockWindows(algorithm, aux);
    AuxiliaryWindows(descriptors, public);
    hide BlockFields, AuthenticationFields, AuxiliaryFields, FromBE, ToBE;
    HeaderWindows(header[..12], a, b, c, header[112..]);
    hide NewHeader;
    assert r[0..12] == header[0..12] && r[112..256] == header[112..256];
    Window(r, header, 0, 12, 0, 4);
    Window(r, header, 0, 12, 4, 8);
    Window(r, header, 112, 256, 120, 124);
  }

  lemma HeaderWindows(front: seq<Byte>, a: seq<Byte>, b: seq<Byte>, c: seq<Byte>, back: seq<Byte>)
    requires |front| == 12 && |a| == 20 && |b| == 32 && |c| == 48
    ensures
      var r := front + (a + b + c) + back;
      && r[..12] == front && r[112..] == back
      && r[12..20] == a[0..8] && r[20..28] == a[8..16]
      && r[88..96] == c[24..32] && r[96..104] == c[32..40] && r[104..112] == c[40..48]
  {}

  /** A rebuilt blob starts with the rebuilt header and ends with the auxiliary block, descriptors first. */
  ghost predicate BlobFor(header: seq<Byte>, descriptors: seq<Byte>, public: seq<Byte>, blob: seq<Byte>) {
    var algorithm, aux := KeyAlgorithm(public), Auxiliary(descriptors, public);
    && |header| == HEADER_SIZE
    && algorithm.Some? && algorithm.value in {RSA2048, RSA4096} && |aux| < TWO64
    && |blob| == HEADER_SIZE + algorithm.value.authenticationSize + |aux|
    && blob[..HEADER_SIZE] == NewHeader(header, algorithm.value, |descriptors|, |public|, |aux|)
    && blob[HEADER_SIZE + algorithm.value.authenticationSize..] == aux
  }

  lemma NewBlobParts(header: seq<Byte>, descriptors: seq<Byte>, public: seq<Byte>, crypto: Crypto, blob: seq<Byte>)
    requires |header| == HEADER_SIZE && NewBlob(header, descriptors, public, crypto) == Ok(blob)
    ensures BlobFor(header, descriptors, public, blob)
  {
    hide NewHeader, Authentication, Auxiliary, FromBE, ToBE;
  }

  /** A blob whose own header describes it and passes the reader's checks. */
  ghost predicate Describes(blob: seq<Byte>, descriptors: seq<Byte>) {
    && HEADER_SIZE <= |blob| <= METADATA_LIMIT
    && var h := blob[..HEADER_SIZE];
    && h[..4] == HEADER_MAGIC && U32At(h, 4) == 1 && U32At(h, 120) == 0
    && BlobSize(h) == |blob| && U64At(h, 12) % 64 == 0 && U64At(h, 20) % 64 == 0
    && U64At(h, 88) == 0 && U64At(h, 96) == 0 && U64At(h, 104) == |descriptors| <= U64At(h, 20)
    && blob[HEADER_SIZE + U64At(h, 12)..HEADER_SIZE + U64At(h, 12) + |descriptors|] == descriptors
  }

  /** The header bytes outside 12-111 are the old ones. */
  ghost predicate KeepsHeader(header: seq<Byte>, blob: seq<Byte>) {
    && |header| == HEADER_SIZE <= |blob|
    && blob[..HEADER_SIZE][..12] == header[..12] && blob[..HEADER_SIZE][112..] == header[112..]
  }

  lemma BlobHeader(header: seq<Byte>, descriptors: seq<Byte>, public: seq<Byte>, blob: seq<Byte>)
    requires BlobFor(header, descriptors, public, blob) && |blob| <= METADATA_LIMIT
    requires header[..4] == HEADER_MAGIC && U32At(header, 4) == 1 && U32At(header, 120) == 0
    ensures Describes(blob, descriptors) && KeepsHeader(header, blob)
  {
    hide FromBE, ToBE, BE64, BE32, NewHeader, U32At, U64At, Auxiliary, KeyAlgorithm;
    var algorithm, aux := KeyAlgorithm(public).value, Auxiliary(descriptors, public);
    NewHeaderFields(header, algorithm, |descriptors|, |public|, |aux|);
    TailHolds(blob, HEADER_SIZE + algorithm.authenticationSize, aux, descriptors);
  }

  lemma TailHolds(blob: seq<Byte>, from: nat, aux: seq<Byte>, descriptors: seq<Byte>)
    requires from <= |blob| && blob[from..] == aux && |descriptors| <= |aux| && aux[..|descriptors|] == descriptors
    ensures from + |descriptors| <= |blob| && blob[from..from + |descriptors|] == descriptors
  {
    assert blob[from..from + |descriptors|] == blob[from..][..|descriptors|];
  }

  /** Past both the old and the new metadata. */
  function End(p: Plan): (end: nat)
    requires |p.was.header| == HEADER_SIZE
    ensures p.was.offset + |p.blob| <= end
  {
    p.was.offset + Max(BlobSize(p.was.header), |p.blob|)
  }

  /** The sizes that make the patch well formed. */
  ghost predicate Fits(image: seq<Byte>, p: Plan) {
    && |p.was.header| == HEADER_SIZE && |image| >= HEADER_SIZE
    && HEADER_SIZE <= |p.blob| <= METADATA_LIMIT
    && End(p) <= Limit(image, p.was.footer)
    && p.image == Patch(image, p.was.offset, End(p), p.blob, p.was.footer.Some?)
  }

  ghost predicate CoversPadding(image: seq<Byte>, p: Plan)
    requires Fits(image, p)
  {
    var start := p.was.offset;
    |p.blob| > BlobSize(p.was.header) ==> AllZero(image[start + BlobSize(p.was.header)..start + |p.blob|])
  }

  /** What is known of a plan, in the parts the proofs below use. */
  lemma PlanFacts(image: seq<Byte>, crypto: Crypto, public: seq<Byte>, chainKey: seq<Byte>, p: Plan)
    requires Prepare(image, crypto, public, chainKey) == Ok(p)
    ensures Fits(image, p) && CoversPadding(image, p)
    ensures HeaderFacts(image, p.was) && FooterFacts(image, p.was)
    ensures BlobFor(p.was.header, p.descriptors, public, p.blob)
    ensures ReadMetadata(image) == Ok(p.was)
    ensures AvbDescriptors.Rewrite(p.was.descriptors, {}, chainKey) == Ok(p.descriptors)
    ensures NewBlob(p.was.header, p.descriptors, public, crypto) == Ok(p.blob)
  {
    hide ReadMetadata, NewBlob, Patch, KeyAlgorithm, AllZero, FooterFacts, BlobFor, FromBE;
    ReadFacts(image, p.was);
    NewBlobParts(p.was.header, p.descriptors, public, crypto, p.blob);
    BlobForSize(p.was.header, p.descriptors, public, p.blob);
  }

  lemma BlobForSize(header: seq<Byte>, descriptors: seq<Byte>, public: seq<Byte>, blob: seq<Byte>)
    requires BlobFor(header, descriptors, public, blob)
    ensures |blob| >= HEADER_SIZE
  {
    hide NewHeader, Auxiliary, KeyAlgorithm;
  }

  // ---- conservation ----

  /** Where the overlaid image agrees with the old one, and what it holds elsewhere. */
  ghost predicate Overlaid(image: seq<Byte>, start: nat, end: nat, blob: seq<Byte>, r: seq<Byte>) {
    && |r| == |image| && start + |blob| <= end <= |image|
    && r[start..start + |blob|] == blob
    && (forall i :: 0 <= i < start ==> r[i] == image[i])
    && (forall i :: start + |blob| <= i < end ==> r[i] == 0)
    && (forall i :: end <= i < |image| ==> r[i] == image[i])
  }

  /** The same for the patched image, whose footer's size field is repacked. */
  ghost predicate PatchedBytes(image: seq<Byte>, start: nat, end: nat, blob: seq<Byte>, hasFooter: bool, r: seq<Byte>) {
    var field := |image| - FOOTER_SIZE + 28;
    && |r| == |image| && |blob| < TWO64
    && start + |blob| <= end <= |image| && (hasFooter ==> end <= |image| - FOOTER_SIZE)
    && r[start..start + |blob|] == blob
    && (hasFooter ==> r[field..field + 8] == BE64(|blob|))
    && (forall i :: 0 <= i < start ==> r[i] == image[i])
    && (forall i :: start + |blob| <= i < end ==> r[i] == 0)
    && (forall i :: end <= i < |image| && !(hasFooter && field <= i < field + 8) ==> r[i] == image[i])
  }

  lemma OverlayBytes(image: seq<Byte>, start: nat, end: nat, blob: seq<Byte>)
    requires start + |blob| <= end <= |image|
    ensures Overlaid(image, start, end, blob, Overlay(image, start, end, blob))
  {
    var gap := Zeros(end - start - |blob|);
    hide Zeros;
    var r := image[..start] + (blob + gap) + image[end..];
    assert r[start..start + |blob|] == blob;
  }

  lemma PatchBytes(image: seq<Byte>, start: nat, end: nat, blob: seq<Byte>, hasFooter: bool)
    requires |blob| < TWO64 && |image| >= FOOTER_SIZE
    requires start + |blob| <= end <= |image| - (if hasFooter then FOOTER_SIZE else 0)
    ensures PatchedBytes(image, start, end, blob, hasFooter, Patch(image, start, end, blob, hasFooter))
  {
    hide FromBE, ToBE, BE64, Overlay, PackInto;
    OverlayBytes(image, start, end, blob);
    if hasFooter {
      hide Overlaid, PatchedBytes;
      FieldBytes(image, start, end, blob, Overlay(image, start, end, blob));
    }
  }

  /** Packing the footer field leaves the regions of the overlay as they are. */
  lemma FieldBytes(image: seq<Byte>, start: nat, end: nat, blob: seq<Byte>, body: seq<Byte>)
    requires Overlaid(image, start, end, blob, body) && end <= |image| - FOOTER_SIZE && |blob| < TWO64
    ensures PatchedBytes(image, start, end, blob, true, PackInto(body, |image| - FOOTER_SIZE + 28, BE64(|blob|)))
  {
    hide FromBE, ToBE, BE64;
    var field := |image| - FOOTER_SIZE + 28;
    PackIntoElsewhere(body, field, BE64(|blob|));
    var r := PackInto(body, field, BE64(|blob|));
    hide PackInto;
    assert r[start..start + |blob|] == body[start..start + |blob|];
  }

  /** Every byte of the image before and after, by region. */
  ghost predicate Conserves(image: seq<Byte>, p: Plan) {
    && |p.was.header| == HEADER_SIZE
    && PatchedBytes(image, p.was.offset, End(p), p.blob, p.was.footer.Some?, p.image)
    && forall i :: p.was.offset + BlobSize(p.was.header) <= i < p.was.offset + |p.blob| ==> image[i] == 0
  }

  /**
   * Byte for byte, what a prepared write does: bytes before the metadata, bytes past both the old and
   * the new metadata, and every footer byte but the eight of the size field keep their value; what is
   * newly covered was zero, what is uncovered becomes zero, and the new blob stands in between.
   */
  lemma WriteConserves(image: seq<Byte>, crypto: Crypto, public: seq<Byte>, chainKey: seq<Byte>, p: Plan)
    requires Prepare(image, crypto, public, chainKey) == Ok(p)
    ensures Conserves(image, p)
  {
    PlanFacts(image, crypto, public, chainKey, p);
    hide Prepare, Fits, CoversPadding, Conserves, HeaderFacts, FooterFacts, BlobFor, ReadMetadata, NewBlob;
    FittingConserves(image, p);
  }

  lemma FittingConserves(image: seq<Byte>, p: Plan)
    requires Fits(image, p) && CoversPadding(image, p)
    ensures Conserves(image, p)
  {
    hide Patch, FromBE, U64At, PatchedBytes, AllZero;
    var start, oldSize := p.was.offset, BlobSize(p.was.header);
    PatchBytes(image, start, End(p), p.blob, p.was.footer.Some?);
    if |p.blob| > oldSize {
      AllZeroAt(image, start + oldSize, start + |p.blob|);
    }
  }

  // ---- reading back ----

  /** The metadata the patched image should carry. */
  function NewMetadata(p: Plan): Metadata
    requires HEADER_SIZE <= |p.blob| < TWO64
    requires p.was.footer.Some? ==> |p.was.footer.value| == FOOTER_SIZE
  {
    Metadata(p.blob[..HEADER_SIZE], p.descriptors, p.was.offset,
             if p.was.footer.None? then None else Some(PackInto(p.was.footer.value, 28, BE64(|p.blob|))))
  }

  /** The slot a footer would occupy in a footerless image reads as a footer after the write. */
  predicate FooterForged(p: Plan) {
    p.was.footer.None? && |p.image| >= FOOTER_SIZE && p.image[|p.image| - FOOTER_SIZE..][..4] == FOOTER_MAGIC
  }

  /** The facts about a plan that reading back needs. */
  ghost predicate Sound(image: seq<Byte>, p: Plan, public: seq<Byte>) {
    && Fits(image, p)
    && Conserves(image, p)
    && HeaderFacts(image, p.was) && FooterFacts(image, p.was)
    && BlobFor(p.was.header, p.descriptors, public, p.blob)
  }

  lemma PlanIsSound(image: seq<Byte>, crypto: Crypto, public: seq<Byte>, chainKey: seq<Byte>, p: Plan)
    requires Prepare(image, crypto, public, chainKey) == Ok(p)
    ensures Sound(image, p, public)
  {
    PlanFacts(image, crypto, public, chainKey, p);
    WriteConserves(image, crypto, public, chainKey, p);
    hide Prepare, Fits, Conserves, HeaderFacts, FooterFacts, BlobFor, ReadMetadata, NewBlob;
  }

  /** The footer of the patched image: only its size field changed. */
  lemma PatchedFooter(image: seq<Byte>, p: Plan, footer: seq<Byte>)
    requires |image| >= HEADER_SIZE && FooterFacts(image, p.was) && p.was.footer == Some(footer)
    requires |p.was.header| == HEADER_SIZE && PatchedBytes(image, p.was.offset, End(p), p.blob, true, p.image)
    ensures |footer| == FOOTER_SIZE && |p.image| == |image|
    ensures p.image[|p.image| - FOOTER_SIZE..] == PackInto(footer, 28, BE64(|p.blob|))
  {
    hide FromBE, ToBE, BE64, U32At, U64At, PackInto, BlobSize;
    var tail, field := |image| - FOOTER_SIZE, BE64(|p.blob|);
    assert p.image[tail + 28..tail + 36] == field && footer == image[tail..];
    PatchedTail(image, p.image, tail, field);
  }

  /** Only eight bytes of the last 64 were replaced. */
  lemma PatchedTail(before: seq<Byte>, after: seq<Byte>, tail: nat, field: seq<Byte>)
    requires |before| == |after| == tail + FOOTER_SIZE && |field| == 8 && after[tail + 28..tail + 36] == field
    requires forall i :: tail <= i < |before| && !(tail + 28 <= i < tail + 36) ==> after[i] == before[i]
    ensures after[tail..] == PackInto(before[tail..], 28, field)
  {
    var footer := before[tail..];
    PackIntoElsewhere(footer, 28, field);
    var packed := PackInto(footer, 28, field);
    hide PackInto;
    forall i | 0 <= i < FOOTER_SIZE
      ensures after[tail..][i] == packed[i]
    {
      if 28 <= i < 36 {
        assert after[tail + 28..tail + 36][i - 28] == after[tail + i] && packed[28..36][i - 28] == packed[i];
      }
    }
  }

  /** A footer whose size field is repacked still passes the footer checks, at the same offset. */
  lemma RepackedFooter(footer: seq<Byte>, size: nat, offset: nat)
    requires |footer| == FOOTER_SIZE && size < TWO64
    requires footer[..4] == FOOTER_MAGIC && U32At(footer, 4) == 1 && U32At(footer, 8) == 0
    requires U64At(footer, 12) <= offset == U64At(footer, 20)
    ensures
      var r := PackInto(footer, 28, BE64(size));
      && r[..4] == FOOTER_MAGIC && U32At(r, 4) == 1 && U32At(r, 8) == 0
      && U64At(r, 12) <= offset == U64At(r, 20) && U64At(r, 28) == size
  {
    var r := PackInto(footer, 28, BE64(size));
    assert r[0..28] == footer[0..28] && r[28..36] == BE64(size);
    hide PackInto, FromBE, ToBE;
    Window(r, footer, 0, 28, 0, 4);
    Window(r, footer, 0, 28, 4, 8);
    Window(r, footer, 0, 28, 8, 12);
    Window(r, footer, 0, 28, 12, 20);
    Window(r, footer, 0, 28, 20, 28);
  }

  /** Sizes and place of the written blob. */
  lemma SoundSizes(image: seq<Byte>, p: Plan, public: seq<Byte>)
    requires Sound(image, p, public)
    ensures |p.image| == |image| >= HEADER_SIZE && HEADER_SIZE <= |p.blob| <= METADATA_LIMIT
    ensures |p.was.header| == HEADER_SIZE
    ensures p.was.offset + |p.blob| <= Limit(image, p.was.footer)
    ensures p.image[p.was.offset..p.was.offset + |p.blob|] == p.blob
    ensures p.was.header[..4] == HEADER_MAGIC && U32At(p.was.header, 4) == 1 && U32At(p.was.header, 120) == 0
    ensures p.was.header == image[p.was.offset..p.was.offset + HEADER_SIZE]
    ensures forall i :: 0 <= i < p.was.offset ==> p.image[i] == image[i]
    ensures BlobFor(p.was.header, p.descriptors, public, p.blob)
  {
    hide FromBE, BlobFor, FooterFacts, Patch, ToBE, BE64, AllZero;
  }

  lemma SoundRaw(image: seq<Byte>, p: Plan, public: seq<Byte>)
    requires Sound(image, p, public)
    ensures |image| >= 4 && image[..4] != SPARSE_MAGIC
  {
    hide FromBE, BlobFor, Patch, PatchedBytes, ToBE, BE64;
  }

  /** The first four bytes are kept, so a raw image stays raw. */
  lemma PatchedMagic(image: seq<Byte>, p: Plan, public: seq<Byte>)
    requires Sound(image, p, public)
    ensures |p.image| == |image| && p.image[..4] != SPARSE_MAGIC
  {
    hide FromBE, BlobFor, Sound, Describes, KeepsHeader;
    SoundSizes(image, p, public);
    SoundRaw(image, p, public);
    BlobHeader(p.was.header, p.descriptors, public, p.blob);
    MagicKept(image, p.image, p.was.offset, p.was.header, p.blob);
  }

  lemma MagicKept(before: seq<Byte>, after: seq<Byte>, start: nat, header: seq<Byte>, blob: seq<Byte>)
    requires |before| == |after| && |header| == HEADER_SIZE <= |blob| && start + |blob| <= |after|
    requires before[start..start + HEADER_SIZE] == header && after[start..start + |blob|] == blob
    requires KeepsHeader(header, blob)
    requires forall i :: 0 <= i < start ==> after[i] == before[i]
    ensures after[..4] == before[..4]
  {
    forall i | 0 <= i < 4
      ensures after[i] == before[i]
    {
      if i >= start {
        var k := i - start;
        assert after[i] == after[start..start + |blob|][k] == blob[k];
        assert blob[k] == blob[..HEADER_SIZE][..12][k] == header[..12][k];
        assert before[i] == before[start..start + HEADER_SIZE][k];
      }
    }
  }

  /** A blob that describes itself, standing in an image, reads back under any footer that leaves room and agrees. */
  lemma StandingBlobReads(image: seq<Byte>, start: nat, blob: seq<Byte>, descriptors: seq<Byte>,
                          footer: Option<seq<Byte>>)
    requires Describes(blob, descriptors)
    requires start + |blob| <= |image| && image[start..start + |blob|] == blob
    requires footer.Some? ==> |footer.value| == FOOTER_SIZE
    ensures
      var r := ReadBlob(image, start, footer);
      if start + |blob| > Limit(image, footer) then r == Err(BadBounds)
      else if footer.Some? && U64At(footer.value, 28) != |blob| then r == Err(SizeMismatch)
      else r == Ok(Metadata(blob[..HEADER_SIZE], descriptors, start, footer))
  {
    hide FromBE;
    var header := blob[..HEADER_SIZE];
    Standing(image, start, blob, 0, HEADER_SIZE);
    var from := HEADER_SIZE + U64At(header, 12);
    Standing(image, start, blob, from, from + |descriptors|);
  }

  lemma Standing(image: seq<Byte>, start: nat, blob: seq<Byte>, lo: nat, hi: nat)
    requires start + |blob| <= |image| && image[start..start + |blob|] == blob && lo <= hi <= |blob|
    ensures image[start + lo..start + hi] == blob[lo..hi]
  {
    var whole := image[start..start + |blob|];
    forall k | lo <= k < hi
      ensures image[start + k] == blob[k]
    {
      assert whole[k] == image[start + k];
    }
  }

  lemma BlobReadsBack(image: seq<Byte>, p: Plan, public: seq<Byte>, footer: Option<seq<Byte>>)
    requires Sound(image, p, public)
    requires footer.Some? ==> |footer.value| == FOOTER_SIZE
    ensures |p.image| == |image| && p.was.offset + FOOTER_SIZE <= |p.image| && HEADER_SIZE <= |p.blob|
    ensures
      var r := ReadBlob(p.image, p.was.offset, footer);
      if p.was.offset + |p.blob| > Limit(p.image, footer) then r == Err(BadBounds)
      else if footer.Some? && U64At(footer.value, 28) != |p.blob| then r == Err(SizeMismatch)
      else r == Ok(Metadata(p.blob[..HEADER_SIZE], p.descriptors, p.was.offset, footer))
  {
    hide FromBE, BlobFor, ReadBlob, Sound, Describes, KeepsHeader;
    SoundSizes(image, p, public);
    BlobHeader(p.was.header, p.descriptors, public, p.blob);
    StandingBlobReads(p.image, p.was.offset, p.blob, p.descriptors, footer);
  }

  /** A footer can only be forged by a blob that reaches into the last 64 bytes. */
  lemma ForgeryNeedsOverlap(image: seq<Byte>, p: Plan, public: seq<Byte>)
    requires Sound(image, p, public) && FooterForged(p)
    ensures |p.blob| + FOOTER_SIZE > |image|
  {
    hide FromBE, BlobFor;
    var tail := |image| - FOOTER_SIZE;
    if |p.blob| <= tail {
      SameWindow(image, p.image, tail);
    }
  }

  lemma SameWindow(a: seq<Byte>, b: seq<Byte>, i: nat)
    requires i + 4 <= |a| && i + 4 <= |b| && b[i..][..4] == FOOTER_MAGIC
    requires forall k :: i <= k < i + 4 ==> b[k] == a[k] || b[k] == 0
    ensures a[i..][..4] == FOOTER_MAGIC
  {
    forall k | 0 <= k < 4
      ensures a[i + k] == FOOTER_MAGIC[k]
    {
      assert b[i + k] == b[i..][..4][k];
    }
  }

  lemma OffsetReported(image: seq<Byte>, offset: nat, footer: Option<seq<Byte>>)
    requires offset + FOOTER_SIZE <= |image|
    requires footer.Some? ==> |footer.value| == FOOTER_SIZE
    ensures ReadBlob(image, offset, footer).Ok? ==> ReadBlob(image, offset, footer).value.offset == offset
  {
    hide HeaderError;
  }

  /**
   * Unless a footer was forged, the patched image reads back as exactly the planned metadata; if one was, it
   * does not.
   */
  lemma ImageReadsBack(image: seq<Byte>, p: Plan, public: seq<Byte>)
    requires Sound(image, p, public)
    ensures HEADER_SIZE <= |p.blob| < TWO64 && (p.was.footer.Some? ==> |p.was.footer.value| == FOOTER_SIZE)
    ensures !FooterForged(p) ==> ReadMetadata(p.image) == Ok(NewMetadata(p))
    ensures FooterForged(p) ==> ReadMetadata(p.image).Err? || ReadMetadata(p.image).value.offset != p.was.offset
  {
    PatchedMagic(image, p, public);
    if p.was.footer.Some? {
      PatchedFooter(image, p, p.was.footer.value);
      RepackedFooter(p.was.footer.value, |p.blob|, p.was.offset);
      FooterBranch(image, p, public);
    } else if FooterForged(p) {
      ForgeryNeedsOverlap(image, p, public);
      ForgedBranch(image, p, public);
    } else {
      BlobReadsBack(image, p, public, None);
      hide FromBE, ReadBlob, Sound, Fits;
    }
  }

  lemma FooterBranch(image: seq<Byte>, p: Plan, public: seq<Byte>)
    requires Sound(image, p, public) && p.was.footer.Some? && |p.was.footer.value| == FOOTER_SIZE
    requires |p.image| == |image| && p.image[..4] != SPARSE_MAGIC && |p.blob| < TWO64
    requires
      var r := PackInto(p.was.footer.value, 28, BE64(|p.blob|));
      && p.image[|p.image| - FOOTER_SIZE..] == r
      && r[..4] == FOOTER_MAGIC && U32At(r, 4) == 1 && U32At(r, 8) == 0
      && U64At(r, 12) <= p.was.offset == U64At(r, 20) && U64At(r, 28) == |p.blob|
    ensures HEADER_SIZE <= |p.blob| && ReadMetadata(p.image) == Ok(NewMetadata(p))
  {
    hide FromBE, PackInto, BE64, ReadBlob, Sound, ReadMetadata, BlobFor;
    var r := PackInto(p.was.footer.value, 28, BE64(|p.blob|));
    BlobReadsBack(image, p, public, Some(r));
    SoundSizes(image, p, public);
    ReadsThroughFooter(p.image, r);
  }

  lemma ReadsThroughFooter(image: seq<Byte>, footer: seq<Byte>)
    requires |image| >= HEADER_SIZE && image[..4] != SPARSE_MAGIC
    requires footer == image[|image| - FOOTER_SIZE..] && footer[..4] == FOOTER_MAGIC
    ensures FooterFits(footer, |image| - FOOTER_SIZE) ==>
      ReadMetadata(image) == ReadBlob(image, U64At(footer, 20), Some(footer))
    ensures !FooterFits(footer, |image| - FOOTER_SIZE) ==> ReadMetadata(image) == Err(BadFooter)
  {
    hide FromBE, ReadBlob;
  }

  lemma ForgedBranch(image: seq<Byte>, p: Plan, public: seq<Byte>)
    requires Sound(image, p, public) && FooterForged(p) && |p.blob| + FOOTER_SIZE > |image|
    requires |p.image| == |image| && p.image[..4] != SPARSE_MAGIC
    ensures ReadMetadata(p.image).Err? || ReadMetadata(p.image).value.offset != p.was.offset
  {
    hide FromBE, ReadBlob, Sound, ReadMetadata, BlobFor;
    var footer := p.image[|p.image| - FOOTER_SIZE..];
    SoundSizes(image, p, public);
    BlobReadsBack(image, p, public, Some(footer));
    FooterlessOffset(image, p, public);
    ReadsThroughFooter(p.image, footer);
    if FooterFits(footer, |p.image| - FOOTER_SIZE) {
      OffsetReported(p.image, U64At(footer, 20), Some(footer));
    }
  }

  lemma FooterlessOffset(image: seq<Byte>, p: Plan, public: seq<Byte>)
    requires Sound(image, p, public) && p.was.footer.None?
    ensures p.was.offset == 0
  {
    hide FromBE, BlobFor, Patch;
  }

  /** The write leaves the payload, header bytes 0-11 and 112-255 and the descriptors' place as promised. */
  ghost predicate Contract(image: seq<Byte>, p: Plan) {
    && |p.image| == |image| && p.was.offset <= |image| && |p.was.header| == HEADER_SIZE
    && HEADER_SIZE <= |p.blob| < TWO64
    && (p.was.footer.Some? ==> |p.was.footer.value| == FOOTER_SIZE)
    && p.image[..p.was.offset] == image[..p.was.offset]
    && KeepsHeader(p.was.header, p.blob)
  }

  lemma SoundFooter(image: seq<Byte>, p: Plan, public: seq<Byte>)
    requires Sound(image, p, public)
    ensures p.was.footer.Some? ==> |p.was.footer.value| == FOOTER_SIZE
  {
    hide FromBE, BlobFor, Patch, PatchedBytes, ToBE, BE64;
  }

  lemma SoundContract(image: seq<Byte>, p: Plan, public: seq<Byte>)
    requires Sound(image, p, public)
    ensures Contract(image, p)
  {
    hide FromBE, BlobFor, Sound, Describes, KeepsHeader;
    SoundSizes(image, p, public);
    SoundFooter(image, p, public);
    BlobHeader(p.was.header, p.descriptors, public, p.blob);
    assert p.image[..p.was.offset] == image[..p.was.offset];
  }

  /**
   * What a footerless image will hold behind the header and the authentication block, `at` bytes in: the
   * auxiliary block, zeros over what is left of the old blob, and the old image.
   */
  function Foretold(image: seq<Byte>, oldSize: nat, at: nat, aux: seq<Byte>): (tail: seq<Byte>)
    requires Max(oldSize, at + |aux|) <= |image|
    ensures |tail| == |image| - at
  {
    var end := Max(oldSize, at + |aux|);
    aux + Zeros(end - at - |aux|) + image[end..]
  }

  /**
   * The image has no footer, and signing it with this key will put AVBf where one would stand. All of it is
   * known before the call, and neither the signature nor the digest has a part in it.
   */
  predicate WillForge(image: seq<Byte>, public: seq<Byte>, chainKey: seq<Byte>) {
    var was, algorithm := ReadMetadata(image), KeyAlgorithm(public);
    && was.Ok? && was.value.footer.None? && |was.value.header| == HEADER_SIZE && algorithm.Some?
    && var descriptors := AvbDescriptors.Rewrite(was.value.descriptors, {}, chainKey);
    && descriptors.Ok?
    && var aux, at := Auxiliary(descriptors.value, public), HEADER_SIZE + algorithm.value.authenticationSize;
    && Max(BlobSize(was.value.header), at + |aux|) <= |image| && at + FOOTER_SIZE <= |image|
    && Foretold(image, BlobSize(was.value.header), at, aux)[|image| - FOOTER_SIZE - at..][..4] == FOOTER_MAGIC
  }

  lemma ForetoldTail(image: seq<Byte>, end: nat, blob: seq<Byte>, r: seq<Byte>, at: nat, aux: seq<Byte>, oldSize: nat)
    requires PatchedBytes(image, 0, end, blob, false, r) && end == Max(oldSize, |blob|)
    requires at <= |blob| && blob[at..] == aux
    ensures at + |aux| == |blob| && Max(oldSize, at + |aux|) <= |image| && r[at..] == Foretold(image, oldSize, at, aux)
  {
    var tail := Foretold(image, oldSize, at, aux);
    forall i | 0 <= i < |tail|
      ensures r[at..][i] == tail[i]
    {
      if i < |aux| {
        assert r[at + i] == r[0..0 + |blob|][at + i] == blob[at + i] == blob[at..][i];
      }
    }
  }

  /** The blob ends in the auxiliary block, which alone is longer than a footer. */
  lemma AuxiliaryTail(header: seq<Byte>, descriptors: seq<Byte>, public: seq<Byte>, blob: seq<Byte>)
    requires BlobFor(header, descriptors, public, blob)
    ensures
      var at := HEADER_SIZE + KeyAlgorithm(public).value.authenticationSize;
      at + FOOTER_SIZE <= |blob| && blob[at..] == Auxiliary(descriptors, public)
  {
    hide NewHeader;
    assert |public| >= 520;
    hide Auxiliary, KeyAlgorithm;
  }

  lemma TailTail(r: seq<Byte>, at: nat, k: nat)
    requires at <= k <= |r|
    ensures r[k..] == r[at..][k - at..]
  {}

  /** A footerless plan, in the parts the condition speaks about. */
  lemma FooterlessPlan(image: seq<Byte>, crypto: Crypto, public: seq<Byte>, chainKey: seq<Byte>, p: Plan)
    requires Prepare(image, crypto, public, chainKey) == Ok(p) && p.was.footer.None?
    ensures |p.image| == |image| >= HEADER_SIZE && |p.was.header| == HEADER_SIZE
    ensures ReadMetadata(image) == Ok(p.was)
    ensures AvbDescriptors.Rewrite(p.was.descriptors, {}, chainKey) == Ok(p.descriptors)
    ensures PatchedBytes(image, 0, Max(BlobSize(p.was.header), |p.blob|), p.blob, false, p.image)
    ensures BlobFor(p.was.header, p.descriptors, public, p.blob)
  {
    hide Prepare, ReadMetadata, NewBlob, AvbDescriptors.Rewrite, FromBE, BlobFor, Patch, PatchedBytes, HeaderFacts,
         U64At, CoversPadding;
    PlanFacts(image, crypto, public, chainKey, p);
    PlanIsSound(image, crypto, public, chainKey, p);
    SoundSizes(image, p, public);
    FooterlessOffset(image, p, public);
  }

  lemma KeyOfBlob(header: seq<Byte>, descriptors: seq<Byte>, public: seq<Byte>, blob: seq<Byte>)
    requires BlobFor(header, descriptors, public, blob)
    ensures KeyAlgorithm(public).Some?
  {
    hide NewHeader, Auxiliary, KeyAlgorithm;
  }

  /** A footer is forged in the patched image exactly when the inputs foretell it. */
  lemma ForgedIff(image: seq<Byte>, crypto: Crypto, public: seq<Byte>, chainKey: seq<Byte>, p: Plan)
    requires Prepare(image, crypto, public, chainKey) == Ok(p)
    ensures FooterForged(p) <==> WillForge(image, public, chainKey)
  {
    hide Prepare, ReadMetadata, NewBlob, AvbDescriptors.Rewrite, FromBE, BlobFor, Patch, PatchedBytes, HeaderFacts,
         Auxiliary, Foretold, U64At, KeyAlgorithm, BlobSize, Max, FooterFacts;
    if p.was.footer.None? {
      FooterlessPlan(image, crypto, public, chainKey, p);
      AuxiliaryTail(p.was.header, p.descriptors, public, p.blob);
      KeyOfBlob(p.was.header, p.descriptors, public, p.blob);
      var at, oldSize := HEADER_SIZE + KeyAlgorithm(public).value.authenticationSize, BlobSize(p.was.header);
      var aux := Auxiliary(p.descriptors, public);
      ForetoldTail(image, Max(oldSize, |p.blob|), p.blob, p.image, at, aux, oldSize);
      MaxBounds(oldSize, |p.blob|);
      TailTail(p.image, at, |image| - FOOTER_SIZE);
    } else {
      PlanReads(image, crypto, public, chainKey, p);
    }
  }

  lemma MaxBounds(a: nat, b: nat)
    ensures a <= Max(a, b) && b <= Max(a, b)
  {}

  lemma PlanReads(image: seq<Byte>, crypto: Crypto, public: seq<Byte>, chainKey: seq<Byte>, p: Plan)
    requires Prepare(image, crypto, public, chainKey) == Ok(p)
    ensures ReadMetadata(image) == Ok(p.was)
  {
    hide ReadMetadata, NewBlob, Patch, KeyAlgorithm, AllZero, FromBE;
  }

  /**
   * The final contract check of the source fires exactly when the inputs forge a footer: with a real footer
   * never, and without one exactly when the auxiliary block, the zeros behind it or the old image spell AVBf
   * where a footer would stand. When it passes, the image reads back as exactly the planned metadata. A
   * footer, or an image at least 64 bytes longer than the new blob, is enough to be safe.
   */
  lemma ContractHoldsIff(image: seq<Byte>, crypto: Crypto, public: seq<Byte>, chainKey: seq<Byte>, p: Plan)
    requires Prepare(image, crypto, public, chainKey) == Ok(p)
    ensures Contract(image, p)
    ensures Judge(image, p, crypto).Ok? <==> !WillForge(image, public, chainKey)
    ensures Judge(image, p, crypto).Ok? ==>
      && Judge(image, p, crypto).value == Receipt(p.was.offset, (crypto.digest)(image[..p.was.offset]), p.bits)
      && ReadMetadata(p.image) == Ok(NewMetadata(p))
    ensures p.was.footer.Some? || |p.blob| + FOOTER_SIZE <= |image| ==> !WillForge(image, public, chainKey)
  {
    PlanIsSound(image, crypto, public, chainKey, p);
    SoundContract(image, p, public);
    ImageReadsBack(image, p, public);
    if FooterForged(p) {
      ForgeryNeedsOverlap(image, p, public);
    }
    ForgedIff(image, crypto, public, chainKey, p);
    NotForgedWithFooter(p);
    hide FromBE, Prepare, ReadMetadata, Sound, FooterForged, WillForge;
    if ReadMetadata(p.image).Ok? {
      ReadFacts(p.image, ReadMetadata(p.image).value);
    }
  }

  lemma NotForgedWithFooter(p: Plan)
    ensures p.was.footer.Some? ==> !FooterForged(p)
  {}

  // ---- signing again ----

  /** The rebuilt blob depends on the old header only through the bytes a rebuild keeps. */
  lemma NewBlobCongruent(h1: seq<Byte>, h2: seq<Byte>, descriptors: seq<Byte>, public: seq<Byte>, crypto: Crypto)
    requires |h1| == |h2| == HEADER_SIZE && h1[..12] == h2[..12] && h1[112..] == h2[112..]
    ensures NewBlob(h1, descriptors, public, crypto) == NewBlob(h2, descriptors, public, crypto)
  {
    hide BlockFields, AuthenticationFields, AuxiliaryFields, Authentication, FromBE, ToBE;
  }

  /** Patching a patched image gives what patching the original gives, if the first patch only covered zeros. */
  lemma PatchAbsorbs(image: seq<Byte>, mid: seq<Byte>, start: nat, size: nat, b1: seq<Byte>, b2: seq<Byte>,
                     hasFooter: bool,
                     direct: seq<Byte>, viaMid: seq<Byte>)
    requires PatchedBytes(image, start, start + Max(size, |b1|), b1, hasFooter, mid)
    requires PatchedBytes(image, start, start + Max(size, |b2|), b2, hasFooter, direct)
    requires PatchedBytes(mid, start, start + Max(|b1|, |b2|), b2, hasFooter, viaMid)
    requires forall i :: start + size <= i < start + |b1| ==> image[i] == 0
    ensures direct == viaMid
  {
    hide FromBE, ToBE, BE64;
    var field := |image| - FOOTER_SIZE + 28;
    forall i | 0 <= i < |image|
      ensures direct[i] == viaMid[i]
    {
      if start <= i < start + |b2| {
        assert direct[i] == direct[start..start + |b2|][i - start];
        assert viaMid[i] == viaMid[start..start + |b2|][i - start];
      } else if hasFooter && field <= i < field + 8 {
        assert direct[i] == direct[field..field + 8][i - field];
        assert viaMid[i] == viaMid[field..field + 8][i - field];
      }
    }
  }

  /** The expansion check answers the same on the original and on the patched image. */
  lemma ExpansionAgrees(image: seq<Byte>, mid: seq<Byte>, start: nat, size: nat, b1: seq<Byte>, length: nat,
                        hasFooter: bool)
    requires PatchedBytes(image, start, start + Max(size, |b1|), b1, hasFooter, mid)
    requires forall i :: start + size <= i < start + |b1| ==> image[i] == 0
    requires start + length <= |image| - (if hasFooter then FOOTER_SIZE else 0)
    ensures (length > size ==> AllZero(image[start + size..start + length]))
       <==> (length > |b1| ==> AllZero(mid[start + |b1|..start + length]))
  {
    hide FromBE, ToBE, BE64;
    if length > size && AllZero(image[start + size..start + length]) {
      AllZeroAt(image, start + size, start + length);
    }
    if length > |b1| && AllZero(mid[start + |b1|..start + length]) {
      AllZeroAt(mid, start + |b1|, start + length);
      if length > size {
        forall i | start + size <= i < start + length
          ensures image[i] == 0
        {
          assert i >= start + |b1| ==> mid[i] == image[i];
        }
      }
    }
  }

  /** What a plan's outcome is, given the pieces it is decided from. */
  lemma PrepareFrom(image: seq<Byte>, crypto: Crypto, public: seq<Byte>, chainKey: seq<Byte>, was: Metadata,
                    descriptors: seq<Byte>, blob: seq<Byte>)
    requires ReadMetadata(image) == Ok(was) && |was.header| == HEADER_SIZE
    requires AvbDescriptors.Rewrite(was.descriptors, {}, chainKey) == Ok(descriptors)
    requires NewBlob(was.header, descriptors, public, crypto) == Ok(blob)
    ensures was.offset + |blob| > Limit(image, was.footer) || |blob| > METADATA_LIMIT ==>
      Prepare(image, crypto, public, chainKey) == Err(DoesNotFit)
    ensures was.offset + |blob| <= Limit(image, was.footer) && |blob| <= METADATA_LIMIT ==>
      && 0 <= was.offset + BlobSize(was.header) <= |image|
      && was.offset + |blob| <= |image|
      && if |blob| > BlobSize(was.header) ==> AllZero(image[was.offset + BlobSize(was.header)..was.offset + |blob|])
         then Prepare(image, crypto, public, chainKey).Ok?
           && Prepare(image, crypto, public, chainKey).value.blob == blob
         else Prepare(image, crypto, public, chainKey) == Err(ExpansionNotPadding)
  {
    hide ReadMetadata, NewBlob, Patch, AllZero, FromBE, FooterFacts;
    ReadFacts(image, was);
  }

  lemma PrepareErrors(image: seq<Byte>, crypto: Crypto, public: seq<Byte>, chainKey: seq<Byte>, was: Metadata)
    requires ReadMetadata(image) == Ok(was) && |was.header| == HEADER_SIZE
    ensures
      var d := AvbDescriptors.Rewrite(was.descriptors, {}, chainKey);
      && (d.Err? ==> Prepare(image, crypto, public, chainKey) == Err(Descriptors(d.error)))
      && (d.Ok? && NewBlob(was.header, d.value, public, crypto).Err? ==>
            Prepare(image, crypto, public, chainKey) == Err(NewBlob(was.header, d.value, public, crypto).error))
  {
    hide ReadMetadata, NewBlob, Patch, AllZero, FromBE, FooterFacts, HeaderFacts;
  }

  /**
   * Signing twice is signing once: on an image just signed under (c1, s1, k1), signing under (c2, s2, k2)
   * refuses exactly as on the original, with the same error, and when it accepts it leaves the same image.
   */
  lemma ResignAbsorbs(image: seq<Byte>, c1: Crypto, s1: seq<Byte>, k1: seq<Byte>, p1: Plan,
                      c2: Crypto, s2: seq<Byte>, k2: seq<Byte>)
    requires Prepare(image, c1, s1, k1) == Ok(p1) && !WillForge(image, s1, k1)
    ensures
      var once, again := Prepare(image, c2, s2, k2), Prepare(p1.image, c2, s2, k2);
      if once.Err? then again == Err(once.error)
      else again.Ok? && again.value.image == once.value.image && again.value.blob == once.value.blob
  {
    hide Prepare, ReadMetadata, NewBlob, FromBE, FooterForged, WillForge, Conserves, AvbDescriptors.Rewrite, U64At;
    ForgedIff(image, c1, s1, k1, p1);
    SignedOnce(image, c1, s1, k1, p1);
    var was, mid := p1.was, NewMetadata(p1);
    PrepareErrors(image, c2, s2, k2, was);
    PrepareErrors(p1.image, c2, s2, k2, mid);
    AvbDescriptors.RewriteAbsorbs(was.descriptors, {}, k1, k2);
    var d := AvbDescriptors.Rewrite(was.descriptors, {}, k2);
    if d.Ok? {
      NewBlobCongruent(was.header, mid.header, d.value, s2, c2);
      if NewBlob(was.header, d.value, s2, c2).Ok? {
        WriteAgrees(image, p1, mid, c2, s2, k2, d.value, NewBlob(was.header, d.value, s2, c2).value);
      }
    }
  }

  /** The second signing from the point where its blob is built. */
  lemma WriteAgrees(image: seq<Byte>, p1: Plan, mid: Metadata, c2: Crypto, s2: seq<Byte>, k2: seq<Byte>,
                    descriptors: seq<Byte>, b2: seq<Byte>)
    requires |p1.was.header| == HEADER_SIZE <= |p1.blob| && Conserves(image, p1)
    requires ReadMetadata(image) == Ok(p1.was) && ReadMetadata(p1.image) == Ok(mid)
    requires |mid.header| == HEADER_SIZE && BlobSize(mid.header) == |p1.blob|
    requires mid.offset == p1.was.offset && mid.footer.Some? == p1.was.footer.Some?
    requires AvbDescriptors.Rewrite(p1.was.descriptors, {}, k2) == Ok(descriptors)
      == AvbDescriptors.Rewrite(mid.descriptors, {}, k2)
    requires NewBlob(p1.was.header, descriptors, s2, c2) == Ok(b2) == NewBlob(mid.header, descriptors, s2, c2)
    ensures
      var once, again := Prepare(image, c2, s2, k2), Prepare(p1.image, c2, s2, k2);
      if once.Err? then again == Err(once.error)
      else again.Ok? && again.value.image == once.value.image && again.value.blob == once.value.blob
  {
    hide Prepare, ReadMetadata, NewBlob, AllZero, FromBE, AvbDescriptors.Rewrite, U64At, PatchedBytes;
    PrepareFrom(image, c2, s2, k2, p1.was, descriptors, b2);
    PrepareFrom(p1.image, c2, s2, k2, mid, descriptors, b2);
    assert |p1.image| == |image| by {
      ConservesLength(image, p1);
    }
    if p1.was.offset + |b2| <= Limit(image, p1.was.footer) && |b2| <= METADATA_LIMIT {
      ExpansionAgrees(image, p1.image, p1.was.offset, BlobSize(p1.was.header), p1.blob, |b2|, p1.was.footer.Some?);
      if Prepare(image, c2, s2, k2).Ok? {
        SignedTwice(image, p1, mid, c2, s2, k2, b2);
      }
    }
  }

  lemma ConservesLength(image: seq<Byte>, p: Plan)
    requires Conserves(image, p)
    ensures |p.image| == |image|
  {
    hide FromBE, U64At;
  }

  /** The first signing, as the second one finds it. */
  lemma SignedOnce(image: seq<Byte>, crypto: Crypto, public: seq<Byte>, chainKey: seq<Byte>, p: Plan)
    requires Prepare(image, crypto, public, chainKey) == Ok(p) && !FooterForged(p)
    ensures HEADER_SIZE <= |p.blob| < TWO64 && (p.was.footer.Some? ==> |p.was.footer.value| == FOOTER_SIZE)
    ensures ReadMetadata(image) == Ok(p.was) && ReadMetadata(p.image) == Ok(NewMetadata(p))
    ensures Conserves(image, p) && KeepsHeader(p.was.header, p.blob)
    ensures BlobSize(p.blob[..HEADER_SIZE]) == |p.blob|
    ensures AvbDescriptors.Rewrite(p.was.descriptors, {}, chainKey) == Ok(p.descriptors)
  {
    hide Prepare, ReadMetadata, NewBlob, Patch, AllZero, FromBE, BlobFor, FooterForged, Sound, HeaderFacts, FooterFacts,
         Conserves;
    PlanFacts(image, crypto, public, chainKey, p);
    PlanIsSound(image, crypto, public, chainKey, p);
    ImageReadsBack(image, p, public);
    SoundSizes(image, p, public);
    BlobHeader(p.was.header, p.descriptors, public, p.blob);
    WriteConserves(image, crypto, public, chainKey, p);
  }

  lemma SignedTwice(image: seq<Byte>, p1: Plan, mid: Metadata, crypto: Crypto, public: seq<Byte>, chainKey: seq<Byte>,
                    b2: seq<Byte>)
    requires |p1.was.header| == HEADER_SIZE <= |p1.blob| && Conserves(image, p1)
    requires ReadMetadata(image) == Ok(p1.was) && ReadMetadata(p1.image) == Ok(mid)
    requires |mid.header| == HEADER_SIZE && BlobSize(mid.header) == |p1.blob|
    requires mid.offset == p1.was.offset && mid.footer.Some? == p1.was.footer.Some?
    requires Prepare(image, crypto, public, chainKey).Ok? && Prepare(image, crypto, public, chainKey).value.blob == b2
    requires Prepare(p1.image, crypto, public, chainKey).Ok?
      && Prepare(p1.image, crypto, public, chainKey).value.blob == b2
    ensures Prepare(image, crypto, public, chainKey).value.image
      == Prepare(p1.image, crypto, public, chainKey).value.image
  {
    hide Prepare, ReadMetadata, NewBlob, Patch, AllZero, FromBE, BlobFor, HeaderFacts, FooterFacts, PatchedBytes, U64At;
    var direct, viaMid := Prepare(image, crypto, public, chainKey).value,
      Prepare(p1.image, crypto, public, chainKey).value;
    WriteConserves(image, crypto, public, chainKey, direct);
    WriteConserves(p1.image, crypto, public, chainKey, viaMid);
    PlanFacts(image, crypto, public, chainKey, direct);
    PlanFacts(p1.image, crypto, public, chainKey, viaMid);
    PatchAbsorbs(image, p1.image, p1.was.offset, BlobSize(p1.was.header), p1.blob, b2, p1.was.footer.Some?,
                 direct.image, viaMid.image);
  }
}
