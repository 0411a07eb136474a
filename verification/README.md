# A verified model of go-rpmutils

This project models the parts of go-rpmutils that transform bytes or keep state,
and proves what they promise for every input and every run:

- **Version order** (`Vercmp.dfy`, `VercmpLaws.dfy`, `VersionOrder.dfy`). The loop of
  `Vercmp` is proved equal to the lexicographic order of token lists with
  Tilde < end < Alpha < Num, where a numeric token is the number it denotes. The
  order laws of `Vercmp`, `NEVRAcmp` and both `Less` methods follow.
- **RPM headers** (`Header.dfy`, `HeaderGetters.dfy`, `WriteHeader.dfy`,
  `HeaderCodec.dfy`). Reader and writer of the "Header Structure" part of the
  "Package File Format" section of the Linux Standard Base Core specification:
  the store layout, the round trip with its exact condition, the canonical form.
- **The signature header** (`SignatureHeader.dfy`, `RpmFile.dfy`,
  `Signatures.dfy`, `Verify.dfy`, `SignedFiles.dfy`, `Resigning.dfy`). Dumping at
  the original size, signing, splicing, rewriting in place or as a new file,
  verifying, the theorem that connects them, and signing a signed file again.
- **cpio archives** (`CpioFormat.dfy`, `CpioMachine.dfy`, `CpioSchedules.dfy`,
  `CpioArchive.dfy`, `CpioDelivery.dfy`, `CpioReader.dfy`, `CpioClient.dfy`,
  `CpioReadThrough.dfy`). The reader objects are proved against a state machine,
  call by call, for whole lists of calls and for archives that are read through;
  about the machine: entry isolation, progress, schedule independence, and the round
  trip of the New ASCII Format of cpio(5), over all interleavings of `Next` and
  `Read`.
- **Payload files** (`Payload.dfy`). The one-pass hard-link analysis, and stripped
  payloads read in sync with the sizes it computes.

`Bytes.dfy`, `Outcomes.dfy`, `Streams.dfy` and `Digests.dfy` hold what they share;
`HeaderExamples.dfy` holds concrete headers, among them a file that is signed and
verified under a toy scheme, so that the hypotheses of the theorems can be met.

Conventions. A byte is an `int` below 256. 32-bit wrap-around and truncation in
headers are written out (`U32`, `Wrap32`). A run-time panic of the original is the
outcome `Panic`, so the operations are total instead of excluding the inputs that
crash. An `io.Reader` is a `Source` that may deliver fewer bytes than asked for,
as decided by a schedule (`limits`), and may report the end together with the last
bytes or afterwards; all contracts hold for every schedule. Hash functions and PGP
are a value of type `Crypto`, and every statement holds for all of them; the one
law assumed where signatures must verify is `Trusts`, an explicit hypothesis. Code
that updates objects is a class or a method with loops, proved against a function;
the lemmas are about these functions.

## Findings

Where code and documentation disagree the model follows the code; each point below
has its exact condition and an input that shows it.

- `Vercmp` returns 0 when either string has a newline behind its leading junk
  (vercmp.go:59-61). Such a string ties with everything, so `Less` orders a slice
  exactly when no element is of this kind or all the other elements have the same
  tokens (`VersionsOrderedIff`, `NewlineBreaksTies`), and a package can be sorted
  among arbitrary accepted ones exactly when none of its fields is of this kind
  (`PackageIsOrderedIff`, `NewlineBreaksPackages`).
- `DumpSignatureHeader(true)` is documented to keep the size, but can only do so
  when the entries need exactly the old size or leave 16 bytes (`SameSizeIff`); a
  header of 72 bytes becomes 64 or 80 bytes long (`PaddedDumpChangesSize`).
- The offset in the region trailer is the negative index length only up to 2^27
  records; the reader accepts twice as many (`RegionPointsBack`,
  `WrappedCountFails`; a header of 2^27 tags: `LargeRegionWraps`).
- On a truncated archive `Next` reports EOF or UnexpectedEOF depending on how much
  of the last entry was read before (`TruncationDependsOnReading`); that is the only
  way in which a schedule can show (`IndependentIff`), and every archive that is cut
  off inside the contents of a member shows it (`CutIsAmbiguous`).
- A call of `Next` that failed can be repeated only if the header lies at or beyond
  the end of the archive; otherwise the second call panics, because the position has
  passed the header (`RetryPanicsIff`; six zero bytes: `RetryPanicsOnZeros`).
- `Filesize64` is documented to come from `SetFileSizes`, but stays 0 for stripped
  entries (cpio/header.go:132-141, 198-200), so it is the size exactly for newc and
  for empty entries (`Filesize64Iff`; one byte of contents: `StrippedSize64IsZero`).
- `SignatureOptions.Hash` is documented to default to SHA-256, but a zero hash in
  options that are present is used as it is (signatures.go:34-46): the documented
  hash is used exactly when the options are absent or set one (`DocumentedHashIff`),
  and otherwise signing a readable file panics (`UnsetHashPanics`,
  `ToyUnsetHashPanics`).
- A SHA-256 tag of string type with a count of 0 or less makes `getHashAndType`
  panic, and so does such a SHA-1 tag when there is no SHA-256 digest
  (signatures.go:91-105; `HashAndTypePanicsIff`). Every file whose signature header
  can be read and is of this kind makes `ReadHeader` panic (`ReadPanicsOnDigest`; a
  concrete lead and header: `EmptyShaPanics`).

## Model

| member | source | states |
|---|---|---|
| Vercmp.Vercmp | vercmp.go:53-155 | for all strings, the loop returns the lexicographic comparison of the two independently tokenized strings, or 0 if one of them has a newline behind its leading junk; it terminates because the combined length falls |
| Vercmp.CompareSegments | vercmp.go:88-143 | the leading segments decide the token order, or are equal and the remaining strings decide it; the branch the source calls unreachable is unreachable |
| Vercmp.CompareHeads | vercmp.go:119-140 | trimming zeros, then length, then text compares numeric segments by value and alphabetic ones as text |
| Vercmp.TrimmedCmp | vercmp.go:119-140 | length-then-text order of zero-trimmed digit strings is the order of the numbers they denote |
| Vercmp.SameClassStep | vercmp.go:88-143 | two segments of the same class compare first, and the remaining token lists decide a tie |
| Vercmp.MixedStep | vercmp.go:92-114 | numeric segments are newer than alphabetic ones |
| Vercmp.TildeStep | vercmp.go:71-86 | a tilde sorts before everything including the end; the end sorts before any other token |
| Vercmp.JunkStep | vercmp.go:56-69 | skipping junk keeps the token list, and an accepted string stays accepted |
| VercmpLaws.CharacterClasses | vercmp.go:24-28 | what counts as digit, letter, tilde and junk, as ASCII characters |
| VercmpLaws.TextCmpIff | vercmp.go:133-138 | a string is less than another if and only if it is a proper prefix of it or smaller in the first byte that differs |
| VercmpLaws.TokensOfRendered | vercmp.go:56-117 | a string put together from numbers, words, tildes and separators has exactly their meanings as its tokens |
| VercmpLaws.RenderedCompare | vercmp.go:53-155 | such strings compare as the lists of these meanings |
| VercmpLaws.NumbersDecide | vercmp.go:119-140 | leading numbers compare by value, and the rest of the strings decides a tie |
| VercmpLaws.WordsDecide | vercmp.go:133-140 | leading words compare as text, and the rest of the strings decides a tie |
| VercmpLaws.NumberBeatsWord | vercmp.go:92-114 | a number is newer than a word, and both are newer than nothing |
| VercmpLaws.TildeFirst | vercmp.go:71-81 | a tilde sorts before everything else, the end included, and two tildes cancel |
| VercmpLaws.JunkIsIgnored | vercmp.go:66-69 | separators in front of a string do not matter |
| VercmpLaws.LongerWordIsNewer | vercmp_test.go:25 | "1.0a" is less than "1.0aa" |
| VercmpLaws.CandidateIsOlder | vercmp_test.go:29 | "1.0~rc1" is less than "1.0" |
| VercmpLaws.WordIsOlder | vercmp_test.go:18 | "xyz.4" is less than "8" |
| VercmpLaws.LargerNumberIsNewer | vercmp_test.go:15 | the last segments of "5.5p1" and "5.5p10" compare as numbers |
| VersionOrder.EqualIffSameTokens | vercmp.go:51-155 | accepted versions compare equal exactly when their canonical token lists are equal |
| VersionOrder.VersionCmpAntisymmetric | vercmp.go:51-155 | cmp(a,b) = -cmp(b,a) and cmp(a,a) = 0 for all strings |
| VersionOrder.VersionCmpTransitive | vercmp.go:51-155 | for all strings, exactly when transitivity holds and when equal versions are interchangeable against a third: both fail only through a string with a newline behind its leading junk |
| VersionOrder.AcceptedVersionsAreOrdered | vercmp.go:38-42 | Less is a strict weak order on slices of accepted versions |
| VersionOrder.VersionsOrderedIff | vercmp.go:38-42 | Less is a strict weak order on a slice if and only if no element is rejected or all accepted elements have the same tokens |
| VersionOrder.NewlineBreaksTies | vercmp.go:59-61 | a concrete slice that Less does not order |
| VersionOrder.FormatUint | header.go:374 | the printed epoch is the digit string without leading zeros that denotes the number |
| VersionOrder.EpochsCompareByValue | nevra.go:40-43 | printed numbers compare by value |
| VersionOrder.HeaderEpochsCompareByValue | header.go:355-376 | epochs as GetNEVRA fills them in, with 0 for none, compare by their numeric value |
| VersionOrder.EpochOfHeader | header.go:355-361 | the epoch is 0 without tag 1003 or with an empty array, otherwise the first value of an integer array of any width, and an error for other types |
| VersionOrder.NEVRAcmp | nevra.go:40-51 | epoch, then version, then release decide |
| VersionOrder.EpochDecides | nevra.go:41-43 | the package with the smaller epoch is older, whatever versions and releases are |
| VersionOrder.VersionDecides | nevra.go:44-46 | with epochs that mean the same the versions decide, whatever the releases are |
| VersionOrder.ReleaseDecides | nevra.go:47-50 | with epochs and versions that mean the same the releases decide |
| VersionOrder.EpochBeatsVersion | nevra.go:41-46 | epoch 2, version 1 is newer than epoch 1, version 2 |
| VersionOrder.PackageCmpAntisymmetric | nevra.go:39-51 | cmp(a,b) = -cmp(b,a), reflexivity, and 0 exactly when epoch, version and release mean the same |
| VersionOrder.PackageCmpTransitive | nevra.go:39-51 | transitivity, and equal packages are interchangeable, for accepted packages |
| VersionOrder.PackageCmpTransitiveIff | nevra.go:39-51 | the comparison is transitive through a package, for all accepted others, if and only if the package is accepted |
| VersionOrder.PackagesAreOrdered | nevra.go:60-62 | NEVRASlice.Less is a strict weak order, as sort.Sort requires, on slices of accepted packages |
| VersionOrder.PackageIsOrderedIff | nevra.go:60-62 | every slice of a package and arbitrary accepted ones is ordered if and only if none of its three fields has a newline behind its leading junk |
| VersionOrder.NewlineBreaksPackages | nevra.go:60-62 | concrete packages that Less does not order |
| Streams.Source.Read | header.go:69-73 | io.Reader: delivers the next bytes of the data, as many as the schedule allows |
| Streams.Source.ReadFull | header.go:69-73 | io.ReadFull: exactly n bytes or EOF/UnexpectedEOF, whatever the schedule |
| Header.ParseEntry | header.go:119-138 | an entry is cut out of the store by element size or by counting NULs; bad offsets panic, missing NULs are an error |
| Header.SizedEntryIs | header.go:59-67 | records of type NULL, CHAR, INT8, INT16, INT32, INT64 and BIN cut out 0, 1, 1, 2, 4, 8 and 1 times their count of bytes, or panic exactly when these do not lie in the store |
| Header.StringEntryFailsIff | header.go:123-138 | a record of strings panics exactly when it lies outside of the store, and is an error exactly when there are fewer NULs behind it than strings |
| Header.RecordFields | header.go:49-51 | tag, type, offset and count lie in this order in the 16 bytes of a record |
| Header.ParseEntries | header.go:111-139 | the map after all records, a later record winning, or the first failure |
| Header.LastRecordWins | header.go:111-139 | for every tag, the map has the entry of the last record with this tag |
| Header.OnlyRecordedTags | header.go:111-139 | the map has no tags but those of the records |
| Header.ReadParts | header.go:76-101 | the intro, index and store are read with 32-bit lengths, or the first failing part is reported |
| Header.ReadHeader | header.go:75-146 | the result for every stream and schedule is that of the pure parser, and exactly the header's bytes are consumed |
| Header.StringsEndSound | header.go:123-132 | k strings end right behind the k-th NUL |
| Header.StringsEndComplete | header.go:123-132 | contents made of terminated strings are found wherever they lie in a store |
| Header.EntryAtSound | header.go:119-138 | every entry that is read has exactly count elements or count terminated strings |
| Header.EntryAtComplete | header.go:119-138 | every such entry is read back from a record in front of its blob |
| Header.ReadHeaderInvariant | header.go:87-101 | a successful read has 16 index bytes per record despite the 32-bit product, well-formed entries only, and a length that is a multiple of 8 in a signature block |
| Header.WrappedCountFails | header.go:87-118 | a record count whose index length wraps around is never accepted |
| Header.CutHeaderFails | header.go:79-101 | which error is reported for bytes that are no header or are cut off in its intro, index or store, and how long a header is |
| Header.ParseHeaderIsLocal | header.go:75-146 | what follows a header does not influence its reading |
| HeaderGetters.GetStringsOfRead | header.go:182-212 | for every string entry that was read, GetStrings returns count NUL-free strings whose terminated concatenation is the contents; a negative count panics |
| HeaderGetters.SplitInverse | header.go:210-211 | splitting at NULs and terminating again gives the contents |
| HeaderGetters.GetInts | header.go:245-271 | all values, or an error for 64-bit arrays and 32-bit values of 2^31 and more |
| HeaderGetters.GetIntsOfRead | header.go:215-240 | every integer entry that was read decodes to count values that encode to the contents again |
| HeaderGetters.IntsAreDecoded | header.go:214-316 | values encoded with 1, 1, 2, 4 or 8 bytes each in an entry of type CHAR, INT8, INT16, INT32 or INT64 are what the getters return; GetUint32s refuses 64-bit arrays |
| HeaderGetters.GettersByType | header.go:182-340 | strings are accepted for the types 6, 8 and 9 only, bytes for 7, integers for 1 to 5; an absent tag is its own error |
| WriteHeader.Sorted | writeheader.go:84 | sort.Ints: strictly increasing with the same elements |
| WriteHeader.Gap | writeheader.go:28-36 | the least gap that aligns the next blob for its type |
| WriteHeader.AlignmentOfTypes | writeheader.go:28-36 | INT16, INT32 and INT64 are aligned to 2, 4 and 8 bytes with the least gap, other types not at all |
| WriteHeader.PaddingOfRegions | writeheader.go:107-121 | signature headers are padded to a multiple of 8 bytes, other headers not at all |
| WriteHeader.WrittenTags | writeheader.go:75-84 | exactly the tags from 64 on are written |
| WriteHeader.Sink.Write | writeheader.go:133-138 | a buffer keeps what is written, byteCountSink its length |
| WriteHeader.WriteTag | writeheader.go:27-50 | index and store grow by the record and the aligned blob |
| WriteHeader.WriteRegion | writeheader.go:52-68 | the region entry holds a record that points back over the whole index |
| WriteHeader.HeaderArea.CollectTags | writeheader.go:75-84 | the tags from 64 on in increasing order, whatever order the map yields |
| WriteHeader.HeaderArea.WriteTags | writeheader.go:85-94 | index and store of all tags in order |
| WriteHeader.FinishHeader | writeheader.go:95-121 | intro, region record, index, store, trailer and padding are written in order |
| WriteHeader.HeaderArea.WriteTo | writeheader.go:71-123 | writes exactly the serialized header, or refuses a region tag of 64 or more and writes nothing |
| WriteHeader.HeaderArea.Size | writeheader.go:125-131 | the length of the serialized header, counted without keeping it |
| HeaderCodec.StoreLayout | writeheader.go:27-94 | records in strictly increasing tag order describe their blobs, integer blobs are aligned, blobs are in bounds, in order and disjoint |
| HeaderCodec.LayoutAt | writeheader.go:27-50 | record i and blob i are where the layout puts them |
| HeaderCodec.SerializedParts | writeheader.go:95-121 | a written header is intro, index with the region record in front, and store with the region trailer behind |
| HeaderCodec.SerializedLength | writeheader.go:107-121 | the total length, a multiple of 8 for a signature header |
| HeaderExamples.WrittenBytes | writeheader.go:71-123 | the bytes written for a name and an epoch, one by one |
| HeaderExamples.ReadBytes | header.go:75-146 | what is read from these bytes, whatever follows them |
| Bytes.Put32Bytes | writeheader.go:38-47 | 32-bit numbers are written most significant byte first |
| Bytes.U32IsModular | writeheader.go:38-47 | conversion to 32 bits keeps the low bits |
| HeaderCodec.WrittenExtents | writeheader.go:95-121 | count and size in the intro make the reader find exactly the index and the store that were written |
| HeaderCodec.RegionPointsBack | writeheader.go:52-68 | the region trailer directly behind the blobs points back over exactly the index if and only if there are at most 2^27 records, the region's included; beyond that its 32-bit offset wraps |
| HeaderExamples.LargeRegionWraps | writeheader.go:52-68 | a header of 2^27 tags whose region trailer does not point back and which is read all the same |
| HeaderCodec.RoundTrip | writeheader.go:71-123 | reading a written header, whatever follows it, gives the entries from tag 64 on plus the region entry and consumes exactly what was written |
| HeaderCodec.RoundTripIff | header.go:75-146 | this holds if and only if the entries are ones a reader can produce and offsets and counts fit their 32-bit fields |
| SignatureHeader.RpmHeader.DumpSignatureHeader | writeheader.go:152-181 | the bytes that are dumped and the entries that are left in the map |
| SignatureHeader.CanonicalForm | writeheader.go:71-123 | writing what was read from a written header gives the same bytes |
| SignatureHeader.DumpAgain | writeheader.go:152-181 | dumping again gives the same bytes, and an earlier padded dump does not show in a later one |
| SignatureHeader.StoreShift | writeheader.go:27-50 | reserved space in the middle makes the store behind it longer by exactly its size |
| SignatureHeader.OffsetShift | writeheader.go:27-50 | it moves the blob of every later tag by exactly its size, a multiple of 8, so that no alignment gap changes |
| SignatureHeader.DumpedLength | writeheader.go:159-174 | the length of the padded and of the plain dump |
| SignatureHeader.SameSizeIff | writeheader.go:146-181 | over a signature header that was read, the padded dump has the original size if and only if the entries need exactly that size or leave at least 16 bytes |
| HeaderExamples.PaddedDumpChangesSize | writeheader.go:146-181 | a header of 72 bytes that was read, and entries for which the padded dump is shorter or longer |
| SignatureHeader.FallbackHasNoReservedSpace | signatures.go:277-286 | when the size differs no reserved space is left in the map |
| SignatureHeader.ReservedSpaceIsZero | writeheader.go:156-174 | a dump adds or drops nothing but entry 1008, which is there exactly when 16 bytes are free and holds zero bytes |
| RpmFile.ReadSignatureHeader | rpmutils.go:117-136 | lead check, source flag and signature header for every stream |
| RpmFile.ReadBothHeaders | rpmutils.go:97-115 | both headers, with the digest of the general header checked; the stream is left at the payload |
| RpmFile.SpliceIsRead | rpmutils.go:97-136 | with another signature header spliced in, the file reads as before except for that header, which takes exactly its own bytes |
| RpmFile.AssembledFileIsRead | rpmutils.go:94-136 | a lead, two written headers and a payload in a row, with a matching header digest, are read back as these headers and this payload |
| RpmFile.SpliceReadMeansFits | writeheader.go:71-123 | conversely such a reading implies that the header fits its 32-bit fields |
| RpmFile.SameHashAndType | signatures.go:107-114 | the header digest depends on the SHA-256 and SHA-1 tags only |
| RpmFile.HashAndTypeIs | signatures.go:91-114 | the digest of the general header is the first string of tag 273 as SHA-256, else that of tag 269 as SHA-1, else there is none |
| RpmFile.HeaderDigestIsChecked | header.go:102-110 | a file is read only if its general header has the recorded digest |
| RpmFile.WrongDigestIsRefused | header.go:102-110 | another digest is an error, and one that cannot be computed a panic |
| RpmFile.SourceFlagOfLead | rpmutils.go:130-131 | a package is a source package exactly when bytes 6 and 7 of the lead are 0 and 1 |
| RpmFile.LeadIsChecked | rpmutils.go:117-128 | a file is read only if it has a lead of 96 bytes that starts with the magic bytes; the errors of others |
| Digests.HexPairs | verify_digests.go:85 | digests are compared as two lower-case hexadecimal digits for every byte |
| RpmFile.HashAndTypePanicsIff | signatures.go:91-114 | for every header that was read, taking its digest panics if and only if the SHA-256 entry is a string entry of no strings, or the SHA-1 entry is one and SHA-256 yields none |
| RpmFile.ReadPanicsOnDigest | rpmutils.go:97-115 | every file whose signature header can be read and is of that kind makes ReadHeader panic |
| HeaderExamples.EmptyShaPanics | signatures.go:91-105 | a concrete lead and signature header of that kind, which can be read, make ReadHeader panic whatever follows |
| Signatures.CopyAll | verify_digests.go:82-84 | every writer absorbs the whole rest of the stream, in any chunking |
| Signatures.DigestPayload | verify_digests.go:73-111 | succeeds exactly when the recorded payload digest, or else the MD5 over header and payload, matches; then every writer has absorbed the payload |
| Signatures.RecordedDigestIsChecked | verify_digests.go:75-90 | with a recorded digest of a known kind (1, 2, 8, 9, 10, 11) a payload is accepted exactly when it has this digest |
| Signatures.LegacyDigestIsChecked | verify_digests.go:91-110 | without one, exactly when tag 1004 holds the MD5 digest of general header and payload |
| Signatures.DocumentedHashIff | signatures.go:34-46 | the documented hash is used if and only if the options are absent or set a hash |
| Signatures.UnsetHashPanics | signatures.go:34-46 | with options that leave the hash unset, signing any readable file panics |
| HeaderExamples.ToyUnsetHashPanics | signatures.go:34-46 | a concrete readable file for which it does |
| Signatures.InsertSignatures | signatures.go:76-89 | PGP and RSA entries are set, GPG and DSA entries removed, nothing else changes |
| Signatures.DigestForSigning | signatures.go:116-124 | one hash of the chosen algorithm absorbs the general header, the other the general header and the payload |
| Signatures.SignRpmStream | signatures.go:126-159 | the headers with signatures over exactly these bytes, or the first failure |
| Signatures.WriteInPlace | signatures.go:277-299 | for every header and file: the file with the padded dump over its beginning, the unchanged file when the size differs, or an error for a lead that is not 96 bytes long |
| Signatures.WriteRpm | signatures.go:301-320 | old lead, new signature header and what is left of the old file, or an error for a file without a lead |
| Signatures.RewriteRpm | signatures.go:228-275 | for every header and file: in place when possible, otherwise a new file, or the first failure; with the entries left in the header |
| Signatures.RewriteFailsIff | signatures.go:228-320 | exactly when rewriting fails and with which error; never for a lead of 96 bytes and a file that has one |
| Signatures.NewFileHasNoReservedSpace | signatures.go:228-286 | over a header that was read, a new file has no reserved space, even after an attempt in place |
| Verify.CollectSignature | verify_digests.go:40-68 | one round of the loops keeps signatures, hashes of their algorithms and payload writers in step |
| Verify.CollectSignatures | verify_digests.go:40-68 | the loops find exactly the signatures of the specification, each with a hash that has absorbed the general header and waits for the payload unless the signature covers the header only |
| Verify.DigestAndVerify | verify_digests.go:36-71 | parallel lists in which each hash is of its signature's algorithm, that of a header-only signature has absorbed the general header, and every other one header and payload |
| Verify.Verify | verify.go:54-88 | accepts exactly when headers, digests and all signatures found are valid |
| Verify.VerifiedIff | verify.go:54-88 | a file is accepted if and only if it is read, its payload digest matches, and each signature under the tags 268 and 267 holds over the general header and each under 1002 and 1005 over general header and payload; exactly these are reported |
| Verify.BadSignatureIsRefused | verify.go:72-78 | one signature that does not hold is enough to refuse a file, with its error when everything else is in order |
| Verify.AddSignatureIs | verify_digests.go:21-34 | when a signature cannot be checked, and what is then reported |
| HeaderExamples.BadSignatureFails | verify.go:72-78 | a concrete readable file with a matching payload digest and a wrong signature is refused |
| SignedFiles.SignedFileVerifies | writeheader.go:150-151 | for every stream that can be signed, the dumped signature header in place of the original gives a file that Verify accepts: same general header and payload, and exactly the RSA signature over the header and the PGP signature over header and payload |
| SignedFiles.AssembledFileIsSigned | signatures.go:126-159 | every file assembled from headers that fit, with matching header and payload digests, can be signed |
| SignedFiles.SignedFileVerifiesIff | signatures.go:126-159 | this holds if and only if the new signature header fits its 32-bit fields |
| SignedFiles.RewritesAgree | signatures.go:228-320 | in-place write and full rewrite give the same lead, general header and payload and the same signature entries except the reserved space |
| SignedFiles.SignedRewriteVerifies | signatures.go:228-320 | whatever rewriteRpm leaves as the output for a signed header, in place or as a new file, is accepted by Verify with the two signatures just made |
| SignedFiles.RewriteIsSignedFile | signatures.go:228-320 | that output is the spliced file with reserved space exactly when it was written in place |
| Resigning.SigningReplaces | signatures.go:76-159 | signing a signed file again, with any key and options, fails as signing the original does or leaves no trace of the earlier signatures: the entries, and the file unless it is padded to a size that has changed, are those of signing the original |
| Resigning.SigningIsIdempotent | signatures.go:76-159 | signing a signed file again in the same way succeeds and gives the same file |
| HeaderExamples.ToyFileVerifies | verify.go:54-88 | the hypotheses of SignedFileVerifies are met by a concrete file, which is signed and verified |
| CpioFormat.Pad | cpio/cpio.go:157-163 | the next multiple of 4, and what the remainder of Go gives for negative numbers |
| CpioFormat.FormatStrings | cpio/header.go:27-31 | the magic numbers and the name of the trailer as text |
| CpioFormat.HexCharacters | cpio/header.go:61-72 | hexadecimal digits of either case with their values |
| CpioFormat.SignedNumbers | cpio/header.go:61-72 | a number may have a sign and needs a digit |
| CpioFormat.NewcFields | cpio/header.go:89-128 | the 13 fields of a newc header lie one after the other, eight characters each, in the order of the format |
| CpioFormat.StrippedFields | cpio/header.go:132-141 | the index of a stripped header lies behind its magic |
| CpioFormat.BadMagicIff | cpio/header.go:74-88 | any other magic is refused |
| CpioMachine.NewcEntryIs | cpio/cpio.go:84-118 | the name without its terminator, contents behind the padded name, and the failures of truncated or empty names |
| CpioMachine.StrippedEntryIs | cpio/cpio.go:120-134 | the size comes from the list by index; exactly when which error is reported |
| CpioArchive.TrailerIsTheEnd | cpio/reader.go:46-56 | an entry named TRAILER!!! is the end, and no other |
| CpioMachine.SeekReaches | cpio/cpio.go:68-79 | a call that succeeds has found its header exactly at the next position |
| CpioMachine.EntryIsolation | cpio/stream.go:44-63 | after any interleaving, what an entry's stream has delivered is a prefix of that entry's own range, and a stream that is not the latest delivers nothing |
| CpioMachine.RunKeepsInv | cpio/cpio.go:68-155 | the invariant behind isolation and scheduling holds after every run on every archive |
| CpioMachine.ScheduleIndependence | cpio/cpio.go:65-134 | the results of Next do not depend on what is read in between; only the report of a truncated archive may differ |
| CpioSchedules.IndependentIff | cpio/cpio.go:65-155 | on every archive, the results of the first k calls of Next, errors included, are the same for all schedules if and only if no entry before them has its contents cut off by the end |
| CpioSchedules.UnambiguousRun | cpio/cpio.go:65-155 | without such an entry, any run gets the results of the run that reads no contents, and is ahead of it only within the current entry |
| CpioSchedules.SchedulesDiffer | cpio/cpio.go:142-155 | with such an entry, reading it to the end first makes the next call report EOF instead of UnexpectedEOF |
| CpioMachine.TruncationDependsOnReading | cpio/cpio.go:142-155 | when the next header lies beyond the end the report depends on the position |
| CpioMachine.CursorStaysBehind | cpio/cpio.go:101-102 | the position never passes the next header while calls succeed with sizes that are not negative |
| CpioMachine.RetryPanicsIff | cpio/cpio.go:69-79 | after any failure of Next on any archive, the next call panics if and only if the header lies before the end; otherwise it reports EOF |
| CpioMachine.RetryPanicsOnZeros | cpio/cpio.go:69-79 | on six zero bytes the first call reports a bad magic and the second panics |
| CpioMachine.Filesize64Iff | cpio/header.go:132-141 | for every entry that is read, Filesize64 is the size if and only if the entry is newc or empty |
| CpioArchive.StrippedSize64IsZero | cpio/header.go:132-141 | a stripped entry of one byte whose Filesize64 is 0 |
| CpioMachine.RunKeepsTail | cpio/cpio.go:100-134 | after any run on any archive the latest stream belongs to the latest result and reads exactly where the archive stands |
| CpioMachine.ReadAdvances | cpio/stream.go:44-63 | after any run whose latest call of Next succeeded, a read of the latest stream advances by exactly what is asked for, what the reader gives and what is left; it makes progress, and a large enough one completes the entry |
| CpioArchive.HexOfPutHex | cpio/header.go:61-72 | eight hexadecimal digits denote the number they were made from |
| CpioArchive.NumbersAreRead | cpio/header.go:89-128 | the numbers of a header are read back in order |
| CpioArchive.SamePadding | cpio/cpio.go:92-102 | padding relative to a header at a multiple of 4 and padding of the absolute position agree |
| CpioArchive.MemberIsRead | cpio/cpio.go:68-134 | reading at the encoding of a member, newc or stripped, gives its header and the extent of its contents, and the next header right behind it |
| CpioArchive.ArchiveIsListed | cpio/cpio.go:65-134 | any run over an encoded archive lists exactly its members; every stream delivers a prefix of its member's contents, and all of them when exhausted |
| CpioDelivery.ArchiveRoundTrip | cpio/cpio.go:65-134 | any run over an encoded archive lists exactly its members, and every stream has delivered exactly as many bytes of its member's contents as were asked of it while its entry was the latest |
| CpioDelivery.ReaderListsArchive | cpio/reader.go:46-56 | Reader.Next returns every header and then EOF at the trailer |
| CpioDelivery.ArchiveIsReadBack | cpio/reader.go:46-62 | reading every member to its end, in any portions, gives every header with exactly the member's contents and then EOF |
| CpioDelivery.CutIsAmbiguous | cpio/cpio.go:142-155 | an encoded archive cut off inside the contents of a member is ambiguous there, and from the next call on the results depend on the schedule |
| CpioReader.CountingReader.Read | cpio/cpio.go:136-140 | counts what it delivers |
| CpioReader.CountingReader.ReadFull | cpio/header.go:61-65 | exactly n bytes or EOF/UnexpectedEOF, whatever the schedule |
| CpioReader.CountingReader.Seek | cpio/cpio.go:142-155 | moves forward by reading; EOF without any byte is no error, a negative offset panics |
| CpioReader.Read16 | cpio/header.go:61-72 | eight characters parsed as a hexadecimal number with optional sign |
| CpioReader.ReadHeader | cpio/header.go:74-141 | a newc header with its 13 numbers in order or a stripped header with its index |
| CpioReader.FileStream.constructor | cpio/stream.go:31-42 | starts at the current position |
| CpioReader.FileStream.Read | cpio/stream.go:44-63 | EOF at the end of the entry, an error out of order, otherwise the next bytes within the entry |
| CpioReader.CpioStream.ReadNextEntry | cpio/cpio.go:68-118 | the step of the state machine, with a fresh stream over the contents |
| CpioReader.CpioStream.ReadNewcEntry | cpio/cpio.go:84-118 | name, padding and extent of a newc entry, with its panics |
| CpioReader.CpioStream.ReadStrippedEntry | cpio/cpio.go:120-134 | the size comes from the list of sizes; a missing list or index is an error |
| CpioReader.Reader.Next | cpio/reader.go:46-56 | the step of the state machine with the trailer as EOF; the current entry changes on success only |
| CpioReader.Reader.Read | cpio/reader.go:60-62 | reads the current entry with the result of its stream, EOF and the out-of-order error included; panics before the first one |
| CpioClient.PerformAll | cpio/cpio.go:65-134 | any list of calls on a stream object and the entry objects it returns leaves them in the state of a run that performs these calls; the streams are the payloads of the returned entries |
| CpioClient.PerformNext | cpio/cpio.go:68-118 | Next keeps all objects in step with the machine; the new stream is the payload of the returned entry |
| CpioClient.PerformRead | cpio/stream.go:44-63 | Read on any entry object keeps all objects in step with the machine |
| CpioReadThrough.ReadContents | cpio/reader.go:58-62 | copying from the current entry ends after exactly its contents, whatever the underlying reader delivers at a time |
| CpioReadThrough.ReadMember | cpio/reader.go:46-62 | Next and Read on a Reader over an encoded archive give the header and contents of the next member, or EOF at the trailer |
| CpioReadThrough.ReadArchive | cpio/reader.go:46-62 | driving a Reader to its end gives every header with exactly the member's contents in order, and EOF |
| Payload.AnalyzeFiles | payload.go:55-76 | a file is marked exactly when it is regular with a nonzero inode that a later regular file shares; sizes and names are those of the specification |
| Payload.RecordFile | payload.go:61-75 | one round of the loop extends the analysis by one file |
| Payload.OneContentPerGroup | payload.go:65-71 | exactly the last member of a link group is unmarked and keeps its size; all others have none |
| Payload.TypeOfMode | fileinfo.go:103-105 | the type of a file is in the mode above its twelve permission bits |
| Payload.InodeIsPair | fileinfo.go:107-109 | inodes are equal exactly when device and number are, and absent when both are 0 |
| Payload.HardLinkIff | payload.go:61-71 | in terms of mode, device and inode: exactly when a file is a link to a later one |
| Payload.PayloadSizeIs | payload.go:61-75 | the size of the contents of every kind of file |
| Payload.PayloadReader.constructor | payload.go:48-79 | the reader is set up with the marks, names and sizes of the analysis |
| Payload.PayloadReader.Next | payload.go:84-112 | the file named by index, or the last one the name stands for; failures leave the current index; a stripped index is always in range, and a name is unknown only if it stands for no file |
| Payload.MembersByName | payload.go:98-106 | a member "./x" belongs to the last file named "/x", any other name to the last file that has it |
| Payload.PayloadReader.IsLink | payload.go:122-124 | whether a later file carries the contents of the current one |
| Payload.StrippedIndexInRange | payload.go:107-109 | a stripped entry that was read refers to a file |
| Payload.PayloadInSync | payload.go:48-79 | a stripped payload laid out with these sizes is read in sync over any run: each index with exactly as many bytes of its own contents as were asked for, and hard links with none |
| Payload.PayloadIsReadBack | payload.go:48-79 | in the state machine, a stripped payload read through in any portions gives the index of every file with exactly its own contents, and EOF at the trailer |
| Payload.ReadFile | payload.go:84-117 | Next and Read on a PayloadReader give the file a stripped or newc member belongs to, with exactly the member's contents |
| Payload.ReadPayload | payload.go:84-117 | driving a PayloadReader to its end gives for every member the FileInfo it belongs to with exactly its contents in order, and EOF |

## Left out

- PGP packet parsing, key lookup and signing (verify_v3.go, verify_v4.go, `makeSignature`): a foreign library, represented by the functions of `Crypto`.
- Hash functions: uninterpreted functions of the bytes absorbed.
- I/O errors other than the end of the stream, short writes and memory limits.
- Decompression, `cpio.Extract`, `fileutil`, and the operating-system side of `rewriteRpm` (stat, temporary file, rename, chmod): only which bytes result is modelled, and whether the output may be overwritten is a parameter.
- The internals of `sort.Ints` and `sort.Sort`: a sorted permutation is the specification; that the `Less` methods meet the contract is proved.
- The regular-expression engine: the three expressions are prefix scanners on bytes, which is exact because every byte of a multi-byte character is junk.
- `GetStrings` for OLDFILENAMES built from DIRNAMES, BASENAMES and DIRINDEXES, `GetFiles`, `GetNEVRA` apart from the epoch, tag constants, forwarding getters, `Read` of the payload reader (it forwards to `Reader.Read`), accessors of `FileInfo`: tabular.
- Buffers passed to `Read` are returned as sequences instead of being filled in place.
- `Swap` and `Len` of the slices, `NEVRA.String`, `Verify`'s identity attributes of signers.
- PackagesAreOrdered: is stated for slices of packages whose fields have no newline behind their leading junk. On other slices it can fail (`NewlineBreaksPackages`); `PackageIsOrderedIff` gives the exact condition package by package, over all slices. For one given slice with a rejected field no condition short of comparing its elements is known.
- PackageCmpTransitive: is stated for accepted packages; `PackageCmpTransitiveIff` shows that the package in the middle has to be one.
- StrippedEntry: positions and sizes are unbounded, while cpio/cpio.go:128 adds 64-bit numbers; a recorded size for which position and size add up to 2^63 or more makes the original's next position negative and its next call panic, where the model reports the end of the archive.
