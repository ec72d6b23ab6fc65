# A verified model of TreeForge Bootstrap's algorithms

TreeForge Bootstrap builds and runs a first-stage Android boot manager. This project models the algorithms inside
it in Dafny 4.11 and proves what they promise. `dafny verify dfyconfig.toml` checks all of it.

Code that updates things in place is modelled as methods over arrays, files and object fields, each proved against
a specification function; the theorems are about those functions, over every input, every run or every
interleaving. Where a promise does not hold on all inputs, the code is kept as it is, the exact condition is proved,
and a concrete failing input is given.

| module | what it models |
|---|---|
| `Wrappers`, `ByteStrings` (Bytes.dfy) | results, byte strings, fixed-width integers, padding |
| `AvbDescriptors` | re-keying the chain records of an Android Verified Boot descriptor stream |
| `OwnerFamily`, `OwnerVerify`, `OwnerSigning` | reading vbmeta, rebuilding and patching it in place, what a verifier finds afterwards, and the final checks; signatures and digests are functions given from outside |
| `Newc`, `NewcText`, `NewcParser`, `NewcLoops`, `NewcSigns` | the New ASCII cpio archive: the serializer, the text of its headers, the two parsers with Python's integers and slices, when they return, and archives with minus signs |
| `Bundle`, `Utf8`, `BundleHost`, `BundleDevice`, `BundleWitness` | the runtime bundle: encoder, strict host validator, looser streaming device decoder, and bundles on which they part |
| `CanonicalInitramfs`, `CanonicalBuild`, `CanonicalWitness` | replacing /init in the canonical archive, patching the first stage, validating the result, the whole build, and archives that are refused |
| `ResetHandshake`, `AdbService` | the two-process reset protocol over marker files; the ADB supervisor, setup and teardown |
| `Menu`, `MenuParse`, `MenuLoop`, `MenuLoopCode`, `MenuDepth`, `MenuMarkers` | menu profiles and their parser, selection walks, the run loop with page stack, autoboot and scoped markers |
| `MenuGeometry`, `Touch`, `MenuTaps` | card layout and hit testing; the tap recogniser, alone and in the loop |
| `Framebuffer` | accepted scanouts, clipped fills, two forms of landscape rotation |
| `Gpt`, `GptRefresh`, `GptTable` | decoding GUID partition entries (sections 5.3.2 and 5.3.3 of the UEFI Specification); bringing the kernel's table into line |
| `LiveConsole`, `Matcher` | the console ring against its history; the streaming slot matcher |

## Findings

Promises that fail on some input, each with its exact condition and an input that fails:

- Re-signing a footerless image can end its blob with bytes that read as a footer in the last 64 bytes; the final
  check then fails after the write. Whether it will is decided by the old image, the key and the rewritten
  descriptors (`OwnerFamily.ContractHoldsIff`, `OwnerFamily.WillForge`, `OwnerSigning.ForgeryWitness`).
- newc header fields are read with Python's `int(x, 16)`, which takes signs. A negative metadata field is accepted and
  does not survive reserialization (`NewcParser.ReparseIff`, `NewcSigns.SignedFieldWitness`). A negative size is accepted
  as well; it may be harmless (`NewcSigns.SignedSizeWitness`) or send the loop back for ever, which happens exactly when
  one offset is taken twice (`NewcParser.EndlessIff`, `NewcSigns.NeverEnds`) and never without a negative size
  (`NewcParser.UnsignedRun`).
- Host and device agree on a validated bundle exactly when links have at most 512 bytes and no path has a NUL
  (`BundleDevice.DeviceAgrees`, `BundleWitness.LongLinkRefused`, `BundleWitness.NulPathMisplaced`).
- A composed archive validates exactly when no canonical entry carries a reserved name, every canonical field is
  unsigned 32-bit and the dispatcher is good (`CanonicalInitramfs.ComposedValidates`,
  `CanonicalWitness.ReservedNameRefused`, `CanonicalWitness.SignedFieldRefused`).
- The reset handshake gets stuck exactly when a request marker cannot be created after its announcement
  (`ResetHandshake.StuckIff`, `ResetHandshake.StuckIffDropped`, `ResetHandshake.StuckForever`). Requests merge only after a
  failed announcement, and then exactly unless the service is faster (`ResetHandshake.MergeNeedsUnannounced`,
  `ResetHandshake.NextMergesIff`, `ResetHandshake.MergeWitness`).
- Past the last entry the device's move restarts at entry 0, Python's at the last one (`Menu.MovesAgreeIff`).
- The profile parser starts its root at depth 0 and admits depth 4, five levels; the device stacks four pages, and
  shows exactly the pages within four levels of visible entries (`MenuDepth.ShownIff`, `MenuDepth.FifthLevelRefused`).
- A GPT answer is the unbounded reading of the table exactly when the entry's offset does not wrap 2^64 and the entry
  is not the pair 0, 2^64 - 1 (`Gpt.TargetAgreesIff`, `Gpt.WrappedWitness`, `Gpt.WholeRangeWitness`). Partition names are
  called ASCII in the code's comment; every byte from 0x20 up but '/' is accepted (`Gpt.DecodeNameIff`).
- The slot matcher restarts from the first byte only; it is exact if and only if no prefix of the needle ends in a
  shorter prefix that continues differently. The two quoted slot A needles do not meet this (`Matcher.ExactIff`,
  `Matcher.NeedlesInUse`).

## Hypotheses

- Menu theorems hold for one fixed runtime state (which entries are visible), a profile in which every page has a
  visible entry, a root that is not the Pixel Partitioner page, and a Pixel Partitioner page without submenus
  (`MenuLoop.GoodRoot`; `MenuDepth.ScopeEscapes` shows what the last one is for).
- The tap theorems speak of touch events on one page; a key press or page change between press and release is not
  part of such a history.
- RESTARTING and the other markers are created and removed one file operation at a time; a stop request to the
  ADB service is not part of the runs.

## Model

| member | source | states |
|---|---|---|
| AvbDescriptors.RewriteMeaning | src/treeforge_bootstrap/owner_family.py:116-214 | accepts exactly the streams that read as a descriptor list with admissible chain records, and its output reads as that list, record for record, with only chain keys replaced |
| AvbDescriptors.RewriteAbsorbs | src/treeforge_bootstrap/owner_family.py:116-214 | its output is accepted again, and rewriting with k1 and then k2 is rewriting with k2, errors included |
| AvbDescriptors.AdmissibleIff | src/treeforge_bootstrap/owner_family.py:148-187 | what is admitted: chains with zero flags, a location and one of the fifteen known names, not seen before, no two alike |
| AvbDescriptors.ReadIff | src/treeforge_bootstrap/owner_family.py:121-146 | a stream reads as a descriptor list exactly when it is one record of the format after another, each read on its own |
| AvbDescriptors.ChainIff | src/treeforge_bootstrap/owner_family.py:125-187 | a record reads as a chain exactly when it is tag, length, location, two lengths, flags, sixty reserved bytes, name, key and padding |
| AvbDescriptors.StepMeaning | src/treeforge_bootstrap/owner_family.py:125-211 | one record: accepted exactly when it reads as an admitted descriptor; what is emitted is framed and reads as the re-keyed one |
| AvbDescriptors.WithKeyReads | src/treeforge_bootstrap/owner_family.py:189-209 | a re-keyed chain record keeps tag, name and location and carries the new key |
| AvbDescriptors.WithKeyTwice | src/treeforge_bootstrap/owner_family.py:189-209 | a second key replaces the first, padding included |
| AvbDescriptors.RekeyChain | src/treeforge_bootstrap/owner_family.py:189-209 | the in-place repacking (slice, append, pad, patch two lengths) computes the re-keyed record |
| AvbDescriptors.RewriteChain | src/treeforge_bootstrap/owner_family.py:148-209 | the checks of one chain record in their order, then the repacking |
| AvbDescriptors.RewriteDescriptors | src/treeforge_bootstrap/owner_family.py:116-214 | the cursor loop with its growing output and `seen` set computes the specified rewrite |
| OwnerFamily.ReadFacts | src/treeforge_bootstrap/owner_family.py:51-85 | what an accepted image guarantees about its header, descriptors, offset and footer |
| OwnerVerify.ReadIff | src/treeforge_bootstrap/owner_family.py:51-85 | the reader accepts exactly the raw images with a consistent header in front of a consistent footer, or at the front without one, and returns what stands there |
| OwnerFamily.WriteConserves | src/treeforge_bootstrap/owner_family.py:344-419 | byte for byte: everything before the metadata, past both metadata sizes, and in the footer but its size field is kept; newly covered bytes were zero |
| OwnerFamily.ImageReadsBack | src/treeforge_bootstrap/owner_family.py:429-448 | the patched image reads back as exactly the planned metadata if and only if the blob did not forge a footer |
| OwnerFamily.ForgeryNeedsOverlap | src/treeforge_bootstrap/owner_family.py:56-66 | a footer is forged only by a blob that reaches into the last 64 bytes |
| OwnerFamily.ForgedIff | src/treeforge_bootstrap/owner_family.py:56-66 | a footer is forged exactly when old image, key and descriptors foretell it; signature and digest have no part in it |
| OwnerFamily.ContractHoldsIff | src/treeforge_bootstrap/owner_family.py:421-448 | the final contract check passes exactly when the inputs forge no footer; a real footer, or 64 bytes of room, is enough |
| OwnerVerify.BlobVerifies | src/treeforge_bootstrap/owner_family.py:258-342 | every blob built passes a verifier that follows its header: the digest and the signature of header and auxiliary block, the key they belong to, the descriptors, zeros elsewhere, and the algorithm code of the key |
| OwnerVerify.SignedVerifies | src/treeforge_bootstrap/owner_family.py:217-419 | so does what stands in the image after signing, at the place of the old metadata, with the rewritten descriptors and the new key |
| OwnerVerify.SignsIff | src/treeforge_bootstrap/owner_family.py:217-382 | with a working signer: an image is signed exactly when it reads, its descriptors can be rewritten, the key is good, and the blob, whose size is known beforehand, fits and covers only zeros |
| OwnerVerify.ChecksIff | src/treeforge_bootstrap/owner_family.py:421-448 | what the checks after the write accept, whatever image they look at |
| OwnerFamily.NewBlobCongruent | src/treeforge_bootstrap/owner_family.py:258-342 | the rebuilt blob depends on the old header only through bytes 0-11 and 112-255 |
| OwnerFamily.PatchAbsorbs | src/treeforge_bootstrap/owner_family.py:384-414 | patching twice at one place is patching with the second blob over the first extent |
| OwnerFamily.ExpansionAgrees | src/treeforge_bootstrap/owner_family.py:369-382 | the expansion check answers alike before and after an earlier signing |
| OwnerFamily.ResignAbsorbs | src/treeforge_bootstrap/owner_family.py:217-419 | signing twice refuses as signing once does, with the same error, and leaves the same image |
| OwnerSigning.BuildBlob | src/treeforge_bootstrap/owner_family.py:258-342 | packing, signing and joining compute the specified blob, or its error |
| OwnerSigning.OverlayBlob | src/treeforge_bootstrap/owner_family.py:384-394 | the blob over the old metadata, then zeros over what is left of it |
| OwnerSigning.WriteBlob | src/treeforge_bootstrap/owner_family.py:368-419 | a refused expansion leaves the image untouched; otherwise blob and footer size are patched in |
| OwnerSigning.Resign | src/treeforge_bootstrap/owner_family.py:217-448 | every refusal before the write leaves the image as it was with the first failing check's error; otherwise the planned image, and the verdict of the final checks on it |
| OwnerSigning.ForgeryWitness | src/treeforge_bootstrap/owner_family.py:429-448 | a concrete image and key for which the final check fails after the image has been changed |
| Newc.FieldRoundTrip | src/treeforge_bootstrap/newc.py:232-252 | a header field written as eight hex digits reads as the value reduced to 32 bits |
| Newc.HexFieldBound | src/treeforge_bootstrap/newc.py:232-252 | whatever Python syntax eight characters use, the value is below 2^32 in magnitude |
| NewcText.HexFieldIff | src/treeforge_bootstrap/newc.py:232-252 | a field is accepted exactly when it is blanks, an optional sign, an optional 0x, digits with single underscores, and blanks; the value is that of the digits |
| NewcText.CaseAlike | src/treeforge_bootstrap/newc.py:232-252 | upper-case and lower-case spellings have the same value |
| NewcText.EmitLayout | src/treeforge_bootstrap/newc.py:665-724 | an emitted entry, field by field at the offsets of the format, with its padding |
| NewcText.ParseIff | src/treeforge_bootstrap/newc.py:290-390 | which bytes are read as an entry without a negative size, and what each number of the header becomes |
| Newc.EntryRoundTrip | src/treeforge_bootstrap/newc.py:665-724 | parsing an emitted entry gives it back with masked metadata and stops where it ends |
| Newc.WalkRoundTrip | src/treeforge_bootstrap/newc.py:665-761 | reading entry by entry what was emitted gives the archive back, metadata masked, padding included |
| NewcParser.EndlessIff | src/treeforge_bootstrap/newc.py:255-614 | for every byte string, with Python's negative offsets and slices: the parsing loop never returns exactly when it takes one offset twice |
| NewcParser.TakenInRange | src/treeforge_bootstrap/newc.py:262-290 | iterations go on only at offsets inside the archive, counted from either end |
| NewcParser.UnsignedRun | src/treeforge_bootstrap/newc.py:468-614 | a run that meets no negative size field ends, with the straight reading's answer |
| NewcParser.TakenStraight | src/treeforge_bootstrap/newc.py:262-390 | at an aligned offset an entry without a negative size is the straight reading of the bytes there, and no other entry is |
| NewcParser.ParsedFacts | src/treeforge_bootstrap/newc.py:468-614 | every accepted archive can be serialized; its entries have known magics, names that fit, and metadata that is unsigned 32-bit exactly where it is not negative |
| NewcParser.ArchiveRoundTrip | src/treeforge_bootstrap/newc.py:468-635 | parsing a serialized archive gives it back masked exactly when all sizes fit 32 bits: identity exactly when the metadata fits too |
| NewcParser.SerializeStable | src/treeforge_bootstrap/newc.py:625-635 | serializing what was read back gives the same bytes |
| NewcParser.ParsersAgree | src/treeforge_bootstrap/newc.py:255-614 | both parsers accept the same byte strings with the same entries, refuse the same, and loop for ever on the same |
| NewcParser.ReparseIff | src/treeforge_bootstrap/newc.py:468-635 | every accepted input serializes, and parsing that gives the same archive exactly when no metadata field is negative and every payload is below 4 GiB |
| NewcSigns.SignedFieldWitness | src/treeforge_bootstrap/newc.py:232-252 | an accepted archive with inode text -0000001 that does not survive reserialization |
| NewcSigns.SignedSizeWitness | src/treeforge_bootstrap/newc.py:564-579 | a 124-byte archive with size text -0000001 is accepted, and does survive |
| NewcLoops.ReadEntry | src/treeforge_bootstrap/newc.py:262-390 | one loop body at any offset, negative ones included, takes the specified entry |
| NewcLoops.ReadFields | src/treeforge_bootstrap/newc.py:290-320 | the thirteen fields in order, or the error |
| NewcLoops.ParseArchiveBytes | src/treeforge_bootstrap/newc.py:468-614 | on every byte string for which no offset is taken twice the loop returns, with the specified verdict |
| NewcLoops.ParseNewcBytes | src/treeforge_bootstrap/newc.py:255-423 | the same for the entry-list parser |
| NewcLoops.EmitFields | src/treeforge_bootstrap/newc.py:683-709 | appending the fields one by one appends the encoded header |
| NewcLoops.EmitPreserved | src/treeforge_bootstrap/newc.py:665-724 | growing the archive piece by piece appends exactly the emitted entry |
| NewcLoops.SerializeEntries | src/treeforge_bootstrap/newc.py:727-761 | the emission loop computes the serialization |
| NewcSigns.NeverEnds | src/treeforge_bootstrap/newc.py:262-371 | a 112-byte input with size text -0000070 keeps both loops at offset 0 for ever |
| Bundle.DecodeOfEncoded | src/treeforge_bootstrap/canonical_initramfs.py:1040-1188 | decoding an encoded list gives it back exactly when every item is acceptable |
| Bundle.DecodedIsEncoded | src/treeforge_bootstrap/canonical_initramfs.py:1040-1188 | whatever is decoded is the encoding of its result |
| Bundle.AcceptedDistinct | src/treeforge_bootstrap/canonical_initramfs.py:1078-1180 | acceptance is per item plus pairwise distinct paths |
| Bundle.ValidateOfPacked | src/treeforge_bootstrap/canonical_initramfs.py:978-1217 | on an executable with a packed list behind it the validator returns the list exactly when it is well formed |
| Bundle.ValidatedIsPacked | src/treeforge_bootstrap/canonical_initramfs.py:978-1217 | conversely every accepted file is some executable followed by a packed well-formed list |
| Bundle.EncodedValidates | src/treeforge_bootstrap/canonical_initramfs.py:446-632 | the encoder's output for a good retained list validates, and decodes to each file's destination with its mode and contents, or mode 0 and its NUL-terminated target, in order |
| Bundle.ItemIff | src/treeforge_bootstrap/canonical_initramfs.py:507-589 | one retained file is encoded exactly when it may be, as the entry it should become |
| Bundle.BundleIff | src/treeforge_bootstrap/canonical_initramfs.py:446-632 | the encoder refuses exactly the lists with a file that may not be encoded, or too long for their length fields |
| Bundle.FrameIff | src/treeforge_bootstrap/canonical_initramfs.py:1040-1110 | a frame is an encoded entry with anything behind it |
| Bundle.PackedLayout | src/treeforge_bootstrap/canonical_initramfs.py:489-632 | the bundle byte by byte: both magics, the counts, the entries |
| Bundle.WellFormedIff | src/treeforge_bootstrap/canonical_initramfs.py:978-1217 | the lists the validator accepts, spelled out |
| Utf8.Utf8Iff | src/treeforge_bootstrap/canonical_initramfs.py:1166-1176 | link targets: the byte test passes exactly the encodings of sequences of Unicode scalar values |
| BundleHost.EncodeBundle | src/treeforge_bootstrap/canonical_initramfs.py:446-632 | the encoder's growing body computes the specified bundle, or its refusal |
| BundleHost.Walk | src/treeforge_bootstrap/canonical_initramfs.py:1040-1188 | the validator's cursor and duplicate set compute the specified decoding |
| BundleDevice.MaterializesDecoded | src/treeforge_bootstrap/dispatcher.py:972-1249 | on decodable bytes the device loop succeeds exactly when every link payload fits 512 bytes, writing what was decoded |
| BundleDevice.WrittenIsWanted | src/treeforge_bootstrap/dispatcher.py:972-1249 | with plain, distinct paths it writes exactly the wanted destinations over what was there |
| BundleDevice.DeviceAgrees | src/treeforge_bootstrap/dispatcher.py:827-1250 | on a validated file: success exactly when links fit; the validator's destination map exactly when also no path has a NUL |
| BundleDevice.MaterializeIff | src/treeforge_bootstrap/dispatcher.py:972-1249 | for every byte string: the device succeeds exactly when it starts with that many encoded entries that are good for the device, and then has written them in order |
| BundleDevice.DeviceIff | src/treeforge_bootstrap/dispatcher.py:827-1250 | for every file: unpacked exactly when it ends in a bundle of 1 to 256 good entries, and then they are written in order |
| BundleDevice.EncodedMaterializes | src/treeforge_bootstrap/canonical_initramfs.py:446-632 | from staged files to the device: unpacked exactly when no link target exceeds 511 bytes; then, without NULs in destinations, each holds its file's contents and mode or its link, and there is nothing else |
| BundleWitness.LongLinkRefused | src/treeforge_bootstrap/dispatcher.py:1062-1074 | a validated bundle with a link of 513 bytes, which the device refuses |
| BundleWitness.NulPathMisplaced | src/treeforge_bootstrap/dispatcher.py:1016-1034 | a validated bundle with a NUL in a path, which the device unpacks elsewhere |
| BundleDevice.Runtime.Read | src/treeforge_bootstrap/dispatcher.py:688-712 | one read returns any short count, the end of file, or a failure |
| BundleDevice.Runtime.ReadExact | src/treeforge_bootstrap/dispatcher.py:688-712 | looping over short reads yields the exact bytes, or fails only for a fault or the end of the file |
| BundleDevice.Runtime.CopyPayload | src/treeforge_bootstrap/dispatcher.py:1150-1246 | a regular file's payload is copied whole, in pieces of any size |
| BundleDevice.Runtime.Payload | src/treeforge_bootstrap/dispatcher.py:1056-1246 | one entry's payload becomes a link or a file at its path, or is refused |
| BundleDevice.Runtime.Entry | src/treeforge_bootstrap/dispatcher.py:979-1246 | one entry consumes exactly its bytes and writes exactly its destination |
| BundleDevice.Runtime.Entries | src/treeforge_bootstrap/dispatcher.py:972-1249 | the entry loop computes the specified materialization |
| BundleDevice.Runtime.MaterializeBundle | src/treeforge_bootstrap/dispatcher.py:827-1250 | whatever the read sizes: success is the specified tree, failure is a fault or bytes the device does not take |
| CanonicalInitramfs.PatchMeaning | src/treeforge_bootstrap/canonical_initramfs.py:319-355 | patching succeeds exactly when the literal stands at one position, and changes those 17 bytes only |
| CanonicalInitramfs.PatchFirstStage | src/treeforge_bootstrap/canonical_initramfs.py:319-355 | count, search and replace compute the patched first stage |
| CanonicalInitramfs.Rebuild | src/treeforge_bootstrap/canonical_initramfs.py:715-780 | the rebuild loop keeps every entry in order, replaces /init and adds one entry after it |
| CanonicalInitramfs.AcceptedConserves | src/treeforge_bootstrap/canonical_initramfs.py:815-957 | an accepted candidate is the canonical archive minus /init, in order, shuffled with its own /init, one first stage and original-init entries; equal /init metadata and padding; the first stage differs in the literal only |
| CanonicalInitramfs.ComposedSerializes | src/treeforge_bootstrap/canonical_initramfs.py:703-788 | the surgery keeps the archive serializable |
| CanonicalInitramfs.ComposedParts | src/treeforge_bootstrap/canonical_initramfs.py:703-786 | what is composed: every other entry in order, the dispatcher under /init's metadata, the first stage with /init's magic and metadata and an inode just above all others; refused exactly without one literal or with the name taken |
| CanonicalInitramfs.StageInode | src/treeforge_bootstrap/canonical_initramfs.py:703-722 | after writing and reading back, the first stage shares its inode exactly if the canonical ones include both 2^32 - 1 and 0 |
| CanonicalInitramfs.ComposedValidates | src/treeforge_bootstrap/canonical_initramfs.py:703-957 | what is composed can be written, reads back exactly when payloads are below 4 GiB, and validates exactly when the dispatcher is good, no canonical name is reserved and all canonical fields are unsigned 32-bit |
| CanonicalBuild.BuiltValidates | src/treeforge_bootstrap/canonical_initramfs.py:640-957 | the whole build: encoding a good list behind a good executable, composing, writing and reading back gives an archive the validator accepts |
| CanonicalBuild.DispatcherIff | src/treeforge_bootstrap/canonical_initramfs.py:843-890 | which dispatchers are good: an AArch64 ELF with three texts and a valid bundle |
| CanonicalBuild.InitIff | src/treeforge_bootstrap/canonical_initramfs.py:301-317 | which entry counts as /init |
| CanonicalWitness.ReservedNameRefused | src/treeforge_bootstrap/canonical_initramfs.py:902-931 | a canonical archive with a reserved name: composed, written, read back and refused |
| CanonicalWitness.SignedFieldRefused | src/treeforge_bootstrap/canonical_initramfs.py:902-931 | the same for a trailer with inode text -0000001 |
| ResetHandshake.RunConserves | src/treeforge_bootstrap/dispatcher.py:9408-9463 | over every interleaving, failed creations included: accepted requests are consumed, pending, merged, dropped or being placed |
| ResetHandshake.AsksAnswered | src/treeforge_bootstrap/dispatcher.py:9408-9463 | over every run: what the user asks for is gone ahead with or refused, and nothing else is |
| ResetHandshake.NothingCreated | src/treeforge_bootstrap/dispatcher.py:9408-9463 | markers come from successful creations alone |
| ResetHandshake.HandshakeSafe | runtime/initramfs/src/adb_service.c:2197-2251 | while creations succeed, RESTARTING exists exactly from announcement to withdrawal, its three phases exclude each other, and nothing is lost or merged |
| ResetHandshake.HandshakeFromStart | runtime/initramfs/src/adb_service.c:2299-2318 | from the start: RESTARTING implies a request in one of the three phases, and accepted is consumed plus pending plus in progress |
| ResetHandshake.ErrorsOverRuns | runtime/initramfs/src/adb_service.c:2137-2194 | at most one error marker stands at any time |
| ResetHandshake.MarkersTell | runtime/initramfs/src/adb_service.c:2137-2251 | over every run: an error marker that stands tells that the last finished reset failed, and its kind; after a success none stands |
| ResetHandshake.ResetEnds | runtime/initramfs/src/adb_service.c:2137-2251 | the step that ends a reset leaves no marker after a success, and exactly the one of its kind after a failure, if it can be created |
| ResetHandshake.SetupsAnnounced | runtime/initramfs/src/adb_service.c:2197-2251 | if the service can create it, RESTARTING stands throughout its setups, whatever the dispatcher could create |
| ResetHandshake.PendingConsumed | runtime/initramfs/src/adb_service.c:2299-2318 | a pending request is consumed within 26 service steps, whatever the dispatcher does |
| ResetHandshake.StuckIff | src/treeforge_bootstrap/dispatcher.py:9408-9463 | over every run: stuck exactly when some request marker failed while its announcement stood, nothing was pending and no reset was under way |
| ResetHandshake.StuckIffDropped | src/treeforge_bootstrap/dispatcher.py:9440-9463 | with every announcement made, exactly when any request marker failed |
| ResetHandshake.NextMergesIff | src/treeforge_bootstrap/dispatcher.py:9408-9463 | with a request pending, the next accepted one merges into it exactly unless the service consumed the first before |
| ResetHandshake.DropSticks | src/treeforge_bootstrap/dispatcher.py:9440-9463 | a request marker that cannot be created after its announcement leaves the handshake stuck |
| ResetHandshake.StuckForever | src/treeforge_bootstrap/dispatcher.py:9408-9463 | a stuck handshake accepts and consumes nothing ever again |
| ResetHandshake.MergeNeedsUnannounced | src/treeforge_bootstrap/dispatcher.py:9408-9463 | requests merge only if some RESTARTING marker could not be created |
| ResetHandshake.MergeWitness | src/treeforge_bootstrap/dispatcher.py:9408-9463 | such a state is reachable: two accepted requests, one marker |
| AdbService.SupervisorState | runtime/initramfs/src/adb_service.c:2254-2385 | the supervisor is settled exactly once a setup succeeded or a reset was asked for; until then its tick counter is known |
| AdbService.AutomaticIff | runtime/initramfs/src/adb_service.c:2299-2373 | automatic setups run exactly at polls 0, 79, 158, ... while no setup succeeded and no reset was asked for |
| AdbService.StandingIff | runtime/initramfs/src/adb_service.c:2254-2385 | after any polls: ready exactly when a reset or a setup of its own brought it up and its daemon has not gone since, manual recovery required exactly when it went down |
| AdbService.AliveIff | runtime/initramfs/src/adb_service.c:808-885 | whatever the kernel answers, a check calls the child dead exactly if there is then no such process: a running one never, an exited one unless wait4 fails, otherwise only on ESRCH |
| AdbService.ReadyIff | runtime/initramfs/src/adb_service.c:2320-2345 | over polls without a reset request the service stays ready exactly until a check finds the child gone or collects it, and then waits for manual recovery |
| AdbService.Service.AdbdAlive | runtime/initramfs/src/adb_service.c:808-905 | the daemon is forgotten exactly if its process is gone afterwards; one that has exited before is, unless wait4 fails |
| AdbService.Service.StopAdbd | runtime/initramfs/src/adb_service.c:908-970 | a child is given up in every case |
| AdbService.Service.Teardown | runtime/initramfs/src/adb_service.c:1121-1242 | everything held is released unless a release call fails; the g1 root is never removed |
| AdbService.Service.Setup | runtime/initramfs/src/adb_service.c:1627-1964 | tries its 21 steps in their order and succeeds exactly when none fails; failure names the stage of the failing step and ends released; success is linked, bound, mounted and served; g1 is kept |
| AdbService.Service.BuildGadget | runtime/initramfs/src/adb_service.c:1690-1786 | the gadget's directories and strings, or the ConfigFs error |
| AdbService.Service.ServeGadget | runtime/initramfs/src/adb_service.c:1788-1946 | mount, daemon, link and binding in order, with the liveness checks between them |
| AdbService.Service.StartAdbd | runtime/initramfs/src/adb_service.c:973-1069 | the daemon is held exactly if the clone succeeded |
| AdbService.Service.StillAlive | runtime/initramfs/src/adb_service.c:1889-1946 | the checks around the binding: a daemon proven dead is forgotten and fails its own stage |
| AdbService.Service.WaitEndpoints | runtime/initramfs/src/adb_service.c:1245-1293 | waiting ends with the daemon alive, or it is forgotten |
| AdbService.Service.PublishError | runtime/initramfs/src/adb_service.c:2137-2194 | exactly the marker of the last error stands afterwards |
| AdbService.Service.ManualReset | runtime/initramfs/src/adb_service.c:2197-2251 | the request and RESTARTING are withdrawn, at most two setups run, error markers name the last failure or are gone |
| AdbService.Service.SupervisorPoll | runtime/initramfs/src/adb_service.c:2254-2385 | one poll moves the supervisor by its specification and runs an automatic setup exactly when that says so; a ready service without a request stays as it is unless its daemon is gone afterwards |
| Menu.ParsedPage | src/treeforge_bootstrap/menu.py:417-741 | a parsed page has pairwise distinct identifiers throughout and a bounded number of levels |
| Menu.EntryIdsDistinct | src/treeforge_bootstrap/menu.py:440-454 | entries of one page have distinct identifiers |
| MenuParse.ParseIff | src/treeforge_bootstrap/menu.py:417-741 | the parser accepts exactly the profiles of the right shape with pairwise distinct, new identifiers, and returns what it was given |
| MenuParse.SelectionsIff | src/treeforge_bootstrap/menu.py:336-390 | Python's selections: when they raise, what the default is, and where a move ends up |
| MenuParse.ShownIff | src/treeforge_bootstrap/menu.py:243-334 | which entries each runtime state shows |
| Menu.VisibleCount | src/treeforge_bootstrap/dispatcher.py:2073-2099 | the index scan counts the filtered entries |
| Menu.VisibleEntry | src/treeforge_bootstrap/dispatcher.py:2102-2146 | the index scan finds the entry the filtered tuple holds, and none out of range |
| Menu.DefaultSelectionScan | src/treeforge_bootstrap/dispatcher.py:2149-2188 | the scan computes the visible rank of the default index, or 0 |
| Menu.MoveSelectionWrap | src/treeforge_bootstrap/dispatcher.py:2191-2224 | the wrapping loops compute a floor remainder and end |
| Menu.DefaultsAgree | src/treeforge_bootstrap/menu.py:336-360 | with distinct identifiers the device's default is Python's default selection |
| Menu.ParsedDefaultsAgree | src/treeforge_bootstrap/menu.py:336-360 | so on every parsed page with a visible entry |
| Menu.MovesAgreeIff | src/treeforge_bootstrap/menu.py:363-390 | device and Python moves agree exactly on selections not past the end (or with one visible entry) |
| MenuLoop.RunKeeps | src/treeforge_bootstrap/dispatcher.py:15171-15584 | in every reachable state: 1 to 4 pages, each opened by the one below; a visible selection; READY exactly on the Pixel Partitioner page; refreshes only for requests made there; at most one timeout action |
| MenuLoop.StepKeeps | src/treeforge_bootstrap/dispatcher.py:15247-15584 | each single happening keeps all of that, and cancellation is permanent |
| MenuLoop.ActivateKeeps | src/treeforge_bootstrap/dispatcher.py:14843-15026 | so does activating the selected entry, whatever fails |
| MenuLoop.NoTimeoutAfter | src/treeforge_bootstrap/dispatcher.py:15355-15560 | from the first menu key or touch-down on, the timeout action never runs, though opening a page re-arms its flag |
| MenuLoop.CanceledIff | src/treeforge_bootstrap/dispatcher.py:15322-15530 | the timeout is cancelled exactly by a menu key or a touch-down, and for good |
| MenuLoop.QuietTimeout | src/treeforge_bootstrap/dispatcher.py:15533-15560 | left alone, the timeout action runs exactly at the first poll n with 25 n at or past the timeout |
| MenuLoop.OpensOnDefault | src/treeforge_bootstrap/dispatcher.py:2149-2188 | a page of distinct entries opens on its default entry if visible, and on the first one otherwise |
| MenuLoop.KeyEffects | src/treeforge_bootstrap/dispatcher.py:15432-15529 | in every reachable state: volume up and down select the neighbours, wrapping around; power activates; each cancels the timeout; other events change nothing |
| MenuLoop.SubmenuOpens | src/treeforge_bootstrap/dispatcher.py:14886-14954 | a selected submenu opens unless its markers fail or four pages are stacked, which needs a profile of more than four levels |
| MenuLoop.LeaveUndoesEnter | src/treeforge_bootstrap/dispatcher.py:14956-15002 | leaving undoes entering up to selection and clock, and leaves no marker behind |
| MenuMarkers.PollAnswers | src/treeforge_bootstrap/dispatcher.py:14771-14838 | the end of a poll answers a pending request of the page: REFRESHED if the refresh succeeded, FAILED if not; otherwise no marker changes |
| MenuMarkers.MarkersTell | src/treeforge_bootstrap/dispatcher.py:14771-15026 | after every run: REFRESHED and FAILED stand exactly for the result of the last refresh since the page was opened, and a request exactly if one is waiting |
| MenuDepth.ShownIff | src/treeforge_bootstrap/dispatcher.py:14843-15026 | for every good profile: some run shows a page exactly if it lies within four levels of visible entries |
| MenuDepth.FifthLevelRefused | src/treeforge_bootstrap/menu.py:570-579 | the parser accepts a five-level profile, whose last page power presses never open |
| MenuDepth.ScopeEscapes | src/treeforge_bootstrap/dispatcher.py:14899-14944 | why the Pixel Partitioner page must open no other page: two presses from the root leave READY behind it |
| MenuLoopCode.RunLoop.constructor | src/treeforge_bootstrap/dispatcher.py:15171-15222 | the loop starts on the root page with its default selection |
| MenuLoopCode.RunLoop.ActivatePixel | src/treeforge_bootstrap/dispatcher.py:13755-13817 | READY is written only if the nodes were realized, over cleared markers |
| MenuLoopCode.RunLoop.ActivateSelected | src/treeforge_bootstrap/dispatcher.py:14843-15026 | the pointer-updating procedure computes the specified activation |
| MenuLoopCode.RunLoop.OpenSubmenu | src/treeforge_bootstrap/dispatcher.py:14886-14954 | pushing a page, with its depth and marker checks |
| MenuLoopCode.RunLoop.CloseSubmenu | src/treeforge_bootstrap/dispatcher.py:14956-15002 | popping a page, with its marker removal |
| MenuLoopCode.RunLoop.HandleEvent | src/treeforge_bootstrap/dispatcher.py:15322-15530 | one input event computes the specified step |
| MenuLoopCode.RunLoop.HandleTouch | src/treeforge_bootstrap/dispatcher.py:15355-15430 | its touch part |
| MenuLoopCode.RunLoop.HandleKey | src/treeforge_bootstrap/dispatcher.py:15432-15529 | its key part |
| MenuLoopCode.RunLoop.OpenInput | src/treeforge_bootstrap/dispatcher.py:15250-15313 | a node opened again starts with a reset contact |
| MenuLoopCode.RunLoop.FinishPoll | src/treeforge_bootstrap/dispatcher.py:15533-15584 | the autoboot clock, then a pending refresh request is answered by its result |
| MenuLoopCode.RunLoop.ServeRequest | src/treeforge_bootstrap/dispatcher.py:14771-14838 | on the page a pending request is taken and answered by REFRESHED or FAILED as the refresh went; otherwise no marker changes |
| Touch.TapIff | src/treeforge_bootstrap/dispatcher.py:12829-13031 | after any events, activation is reported exactly when the primary contact lifts having touched down in a row and stayed in that row within slop; the selection is that row |
| Touch.PressIff | src/treeforge_bootstrap/dispatcher.py:12934-12992 | a press is reported, and the selection moved, exactly when a contact's first complete position touches a row |
| Touch.RunTracks | src/treeforge_bootstrap/dispatcher.py:12829-13031 | the recogniser's fields are always what the event history says |
| Touch.CanceledStays | src/treeforge_bootstrap/dispatcher.py:12994-13030 | a cancelled contact never becomes a tap again |
| Touch.TapOnCard | src/treeforge_bootstrap/dispatcher.py:12829-13031 | every position of an activating contact lies on the selected row's card as it is drawn |
| MenuTaps.TapActivates | src/treeforge_bootstrap/dispatcher.py:15355-15430 | in the loop, on one page: a touch event activates an entry exactly if it completes a tap, and then the one whose card was under the finger; otherwise page and markers stay |
| Touch.ProcessEvent | src/treeforge_bootstrap/dispatcher.py:12829-13031 | the procedure on one array slot computes the specified step and touches no other slot |
| Touch.Track | src/treeforge_bootstrap/dispatcher.py:12862-12928 | its tracking-id part |
| Touch.Position | src/treeforge_bootstrap/dispatcher.py:12934-13030 | its position part |
| MenuGeometry.HitIff | src/treeforge_bootstrap/dispatcher.py:12705-12818 | a raw point hits row i exactly when card i is drawn on it |
| MenuGeometry.TouchRowIff | src/treeforge_bootstrap/dispatcher.py:12705-12818 | while the menu is shown a raw point touches row i exactly when card i of the page is drawn on it |
| MenuGeometry.HitRange | src/treeforge_bootstrap/dispatcher.py:12705-12818 | a hit is a row that exists, anything else -1 |
| MenuGeometry.CardsDisjoint | src/treeforge_bootstrap/dispatcher.py:3664-3886 | no raw point lies on two cards |
| MenuGeometry.RowsFitIff | src/treeforge_bootstrap/dispatcher.py:3808-3886 | the rows of an ordinary page stay inside the content band exactly up to nine visible entries |
| MenuGeometry.ColumnIs | src/treeforge_bootstrap/dispatcher.py:3664-3886 | where the cards stand: as high as fits the band, centred in it, or the viewers' fixed places |
| MenuGeometry.FindTouchRow | src/treeforge_bootstrap/dispatcher.py:12705-12818 | the scaling arithmetic and the row loop compute the specified hit test |
| Framebuffer.AcceptedFits | src/treeforge_bootstrap/dispatcher.py:8433-8520 | an accepted description puts every pixel inside the mapping, for both programs' checks |
| Framebuffer.AcceptsIff | src/treeforge_bootstrap/dispatcher.py:8433-8520 | what both programs ask of a description, and what the boot menu asks besides |
| Framebuffer.OffsetInjective | src/treeforge_bootstrap/dispatcher.py:1382-1449 | two places in the mapping are equal only if line and byte are |
| Framebuffer.PaintedUnique | src/treeforge_bootstrap/dispatcher.py:1382-1449 | the painted pixels determine all bytes |
| Framebuffer.PaintOne | src/treeforge_bootstrap/dispatcher.py:1425-1445 | storing one pixel adds exactly that pixel |
| Framebuffer.FillRect | src/treeforge_bootstrap/dispatcher.py:1382-1449 | sets exactly the pixels of the clipped rectangle and writes nowhere else |
| Framebuffer.UiFillRect | src/treeforge_bootstrap/dispatcher.py:2889-2943 | the block fill sets exactly the rotated, clipped rectangle |
| Framebuffer.DiagnosticFillRect | runtime/initramfs/src/diagnostic_init.c:465-607 | the per-pixel program sets exactly the same pixels |
| Framebuffer.RotationsAgree | runtime/initramfs/src/diagnostic_init.c:480-607 | block rotation and per-pixel rotation produce equal memory |
| Framebuffer.RotatedIff | src/treeforge_bootstrap/dispatcher.py:2889-2943 | the rotation, pixel by pixel |
| Gpt.DecodeNameIff | src/treeforge_bootstrap/dispatcher.py:13964-14032 | a field decodes to a name exactly when it spells it: 1 to 36 units with a zero high byte, none below 0x20, no '/', ended by a zero unit if there is room |
| Gpt.EntryAgreesIff | src/treeforge_bootstrap/dispatcher.py:14163-14258 | 64-bit and unbounded readings of an entry agree, except for first LBA 0 with last LBA 2^64-1 |
| Gpt.TargetAgreesIff | src/treeforge_bootstrap/dispatcher.py:14035-14259 | the answer is the unbounded reading of the table exactly when the entry offset does not wrap and the entry is not that pair; refusals always agree |
| Gpt.WholeRangeWitness | src/treeforge_bootstrap/dispatcher.py:14209-14256 | an accepted entry of length 0 |
| Gpt.WrappedWitness | src/treeforge_bootstrap/dispatcher.py:14144-14178 | a disk whose wrapped entry offset is read although no entry array can be there |
| Gpt.Device.ReadExactAt | src/treeforge_bootstrap/dispatcher.py:13910-13961 | short reads add up to the exact bytes, or to a failure |
| Gpt.Device.ReadPartitionTarget | src/treeforge_bootstrap/dispatcher.py:14035-14259 | computes the specified target, or fails with the device |
| Gpt.ReadLE64 | src/treeforge_bootstrap/dispatcher.py:13887-13907 | the shifting loop computes the little-endian value |
| Gpt.DecodeEntry | src/treeforge_bootstrap/dispatcher.py:14163-14258 | the loops over one entry compute the specified target |
| Gpt.ReadName | src/treeforge_bootstrap/dispatcher.py:13964-14032 | the loop over 36 units computes the specified name |
| GptRefresh.RefreshAgrees | src/treeforge_bootstrap/dispatcher.py:14597-14768 | after a refresh the kernel agrees with the disk on partitions 26 and 27 and is unchanged elsewhere; only those are touched, userdata never deleted; additions are asked for only where there is no partition, the rest only where there is one; a second refresh changes nothing |
| GptRefresh.RefreshIsIdeal | src/treeforge_bootstrap/dispatcher.py:14597-14768 | where no offset wraps and no entry is the pair 0, 2^64-1, the kernel ends up with the two partitions as unbounded arithmetic reads them |
| GptTable.CheckedIff | src/treeforge_bootstrap/dispatcher.py:14035-14259 | which disks a refresh accepts, by their bytes: a right header, entry 26 a partition named userdata, entry 27 missing or named treeforge_os; and the byte ranges it takes from them |
| GptTable.EntryIs | src/treeforge_bootstrap/dispatcher.py:14163-14258 | what the decoder makes of an entry, by its bytes |
| GptTable.SpelledTable | src/treeforge_bootstrap/dispatcher.py:14597-14768 | for all blocks that fit 64 bits: a table that spells both partitions passes, and the kernel ends up with exactly these ranges |
| GptRefresh.NeededEffect | src/treeforge_bootstrap/dispatcher.py:14490-14594 | the operation chosen for one partition makes the kernel agree on it and leaves others alone |
| GptRefresh.Kernel.RefreshOne | src/treeforge_bootstrap/dispatcher.py:14490-14594 | asks for exactly the needed operation, none where none is allowed; fails only then or on a refusal |
| GptRefresh.Kernel.Reprobe | src/treeforge_bootstrap/dispatcher.py:14597-14768 | asks nothing of the kernel unless both entries pass; asks a first part of the plan; succeeds exactly when disk, device, kernel and device nodes all went along, and then the whole plan is done |
| GptRefresh.Kernel.Settle | src/treeforge_bootstrap/dispatcher.py:14706-14768 | waiting leaves the kernel's table alone and says whether the devices settled |
| LiveConsole.ViewportStays | src/treeforge_bootstrap/dispatcher.py:10047-10076 | as lines arrive a scrolled viewport keeps its absolute end, and shows the same lines, exactly until its offset would pass the maximum |
| LiveConsole.FollowsNewest | src/treeforge_bootstrap/dispatcher.py:10047-10076 | a viewport that is not scrolled follows the newest lines |
| LiveConsole.ViewIs | src/treeforge_bootstrap/dispatcher.py:10188-10230 | the screen shows the 42 lines ending `scroll` lines before the newest, or all of fewer |
| LiveConsole.ScrollClosed | src/treeforge_bootstrap/dispatcher.py:10047-10076 | the offset after any number of lines, in closed form |
| LiveConsole.SanitisedFacts | src/treeforge_bootstrap/dispatcher.py:9970-10045 | a kept line is the shown form of at most 191 bytes of the payload, or one space; so never empty, within its row, printable ASCII |
| LiveConsole.ShownMeaning | src/treeforge_bootstrap/dispatcher.py:10000-10040 | byte for byte what a kept line shows, and where it ends |
| LiveConsole.PayloadIs | src/treeforge_bootstrap/dispatcher.py:9972-9998 | the message is what follows the first ';', or the whole record |
| LiveConsole.Console.Append | src/treeforge_bootstrap/dispatcher.py:9965-10076 | the history grows by the sanitised line and the ring still holds its last 64 |
| LiveConsole.Console.LineAt | src/treeforge_bootstrap/dispatcher.py:10079-10110 | line i is the i-th of the last min(n, 64), and empty outside that range |
| LiveConsole.Console.Sanitise | src/treeforge_bootstrap/dispatcher.py:9972-10045 | the two scanning loops compute the sanitised line |
| LiveConsole.Scroll | src/treeforge_bootstrap/dispatcher.py:10420-10460 | volume keys keep the offset in range |
| Matcher.ExactIff | src/treeforge_bootstrap/dispatcher.py:3528-3606 | a reported needle occurs; the matcher is exact on every text if and only if prefixes ending in shorter prefixes continue alike |
| Matcher.ScanAppend | src/treeforge_bootstrap/dispatcher.py:3550-3596 | scanning in two pieces is scanning the whole |
| Matcher.ScanLongest | src/treeforge_bootstrap/dispatcher.py:3568-3594 | for such needles the matched count is always the longest possible |
| Matcher.MissedWitness | src/treeforge_bootstrap/dispatcher.py:3568-3594 | for any other needle, a text that contains it and is answered no |
| Matcher.NeedlesInUse | src/treeforge_bootstrap/dispatcher.py:3609-3660 | of the six needles in use four are matched exactly; the two quoted slot A ones are not, with their missed texts |
| Matcher.FileContains | src/treeforge_bootstrap/dispatcher.py:3528-3606 | the nested loops compute the scan of the concatenation, however reads split the input |

## Left out

- NewcLoops.ParseArchiveBytes: a method must return, so it is stated for the byte strings on which the loop does; the others are NewcParser.EndlessIff's.
- BundleDevice.Materialize: destinations form a flat map; parent directories, ownership, umask and path conflicts between files and directories are not modelled.
- BundleDevice.Runtime.CopyPayload: a failed write counts as a fault; the removal of the half-written file is not modelled.
- AvbDescriptors.RewriteRecord: a chain name that is not ASCII is refused as an unknown target; the source lets the decoding error through.
- OwnerFamily.Prepare: key files, openssl and temporary directories; the signer and the digest are parameters, and a signer may fail or return any length.
- OwnerFamily.Judge: the file's hash is compared as a value of the digest parameter; fsync and file metadata are not modelled.
- CanonicalInitramfs.Compose: building the dispatcher and reading the canonical provider from disk.
- AdbService.Service.Setup: sysfs, ConfigFS, mount, clone and wait calls are steps that succeed or fail arbitrarily.
- AdbService.Service.ManualReset: unlinking a marker is taken to succeed; creating one may fail.
- AdbService.Service.Ask: a child's process number is not given to another process while the service holds it.
- AdbService.Service.StopAdbd: signals and waiting are abstracted to the child being given up.
- ResetHandshake.Run: steps of a stop request, after which the service exits.
- Menu.ParsePage: label, description, icon, subtitle and label-state fields, and the rejection of unknown keys and wrong types.
- MenuLoop.Activate: actions other than Back leave the loop's state as it was; what they do (boot, reboot, diagnostics, live console) and their events consumed in between are not modelled.
- MenuLoop.Serve: the refresh itself is GptRefresh; here it succeeds or fails. Removing a marker and writing a result marker are taken to succeed; only writing READY may fail.
- MenuLoop.Step: redraw flags, status texts, logging, the display's ADB state and the status and log files of the Pixel Partitioner page.
- MenuGeometry.Layout: 32-bit wrap-around, which needs more than 2^24 entries; the parser admits eight.
- Touch.Step: overflow of coordinate differences beyond 32 bits, which panel coordinates cannot reach.
- Framebuffer.FillRect: 64-bit address wrap-around, excluded by the accepted mapping size.
- GptRefresh.Kernel.Blkpg: the kernel's own reasons to refuse (overlaps, open devices, a resize that moves the start) are arbitrary refusals.
- GptRefresh.Kernel.Settle: device nodes and by-name links are steps that succeed or fail; removal of treeforge_os nodes is not modelled.
- Gpt.HeaderOf: the header's CRCs, revision and backup copy, which the source does not check either.
- LiveConsole.Console.Append: rows are kept as values, not as 192-byte buffers overwritten in place.
- Matcher.FileContains: an unreadable file is the same as an empty one.
- Downloads, caches, compression, git handling and pinned-hash checks: comparisons with constants.
- Drivers over avbtool, mkbootimg, mke2fs, debugfs, cpio and lz4, whose behaviour is not in these files.
- Fonts, colours, text layout and page-specific panels: presentation.
