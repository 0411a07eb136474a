/** Concrete headers: inputs at which documented behaviour fails, and one file that can be signed and verified. */
module HeaderExamples {
  import opened Bytes
  import opened Outcomes
  import opened Digests
  import opened Header
  import opened WriteHeader
  import opened HeaderCodec
  import opened HeaderGetters
  import opened SignatureHeader
  import opened RpmFile
  import opened Signatures
  import opened Verify
  import opened SignedFiles

  // ---- headers of binary entries -------------------------------------------

  /** The sizes of the blobs of some tags, which need no gaps when all are binary. */
  function BlobTotal(keys: seq<int>, m: Entries): (n: nat)
    requires Covers(keys, m)
  {
    if keys == [] then 0 else BlobTotal(keys[..|keys| - 1], m) + |m[keys[|keys| - 1]].contents|
  }

  ghost predicate Ungapped(keys: seq<int>, m: Entries)
    requires Covers(keys, m)
  {
    forall i :: 0 <= i < |keys| ==> Align(m[keys[i]].dataType) == 1
  }

  lemma {:induction false} StoreOfUngapped(keys: seq<int>, m: Entries)
    requires Covers(keys, m) && Ungapped(keys, m)
    ensures |AddTags(keys, m).store| == BlobTotal(keys, m)
  {
    hide AddTag;
    if keys != [] {
      var n := |keys| - 1;
      StoreAfter(keys, m);
      assert keys[..n][..] == keys[..n];
      forall i | 0 <= i < n ensures Align(m[keys[..n][i]].dataType) == 1 {
        assert keys[..n][i] == keys[i];
      }
      StoreOfUngapped(keys[..n], m);
      assert Gap(|AddTags(keys[..n], m).store|, m[keys[n]].dataType) == 0;
    }
  }

  /** The layout of a header whose tags are known. */
  lemma {:induction false} LayoutOf(m: Entries, keys: seq<int>)
    requires Increasing(keys) && forall k :: k in keys <==> k in m && k >= HEADER_REGIONS
    requires Covers(keys, m) && Ungapped(keys, m)
    ensures Tags(m) == keys && |Layout(m).store| == BlobTotal(keys, m)
  {
    hide AddTags, Sorted;
    SortedIsUnique(Tags(m), keys);
    StoreOfUngapped(keys, m);
  }

  /** A header with one binary entry of n zero bytes. */
  function OneBlob(tag: int, n: nat): (m: Entries) { map[tag := Entry(BIN_TYPE, Wrap32(n), Zeros(n))] }

  lemma {:induction false} OneBlobFits(tag: int, n: nat)
    requires HEADER_REGIONS <= tag < TWO_TO_31 && n < TWO_TO_31
    ensures var m := OneBlob(tag, n);
            Fits(m) && WellFormed(Kept(m)) && |Tags(m)| == 1 && |Layout(m).store| == n
  {
    hide Layout, Tags, Zeros;
    OneBlobTotal(tag, n);
    LayoutOf(OneBlob(tag, n), [tag]);
  }

  lemma {:induction false} OneBlobHeader(tag: int, n: nat)
    requires HEADER_REGIONS <= tag < TWO_TO_31 && n < TWO_TO_31 && n % 8 == 0
    ensures Fits(OneBlob(tag, n)) && WellFormed(Kept(OneBlob(tag, n)))
    ensures |Serialized(OneBlob(tag, n), HEADER_SIGNATURES)| == 64 + n
  {
    hide Layout, Tags, Serialized, OneBlob, Fits, WellFormed;
    OneBlobFits(tag, n);
    SerializedLength(OneBlob(tag, n), HEADER_SIGNATURES);
    SameModulo8(0, n / 8 + 2);
  }

  lemma {:induction false} OneBlobTotal(tag: int, n: nat)
    ensures var m := OneBlob(tag, n);
            Covers([tag], m) && Ungapped([tag], m) && BlobTotal([tag], m) == n
  {
    assert [tag][..0] == [];
  }

  // ---- a header byte by byte -----------------------------------------------

  /** The name "a", the epoch 7 and a region entry that is not written. */
  const NAME_AND_EPOCH: Entries :=
    map[62 := Entry(7, 1, [1]), 1000 := Entry(6, 1, [97, 0]), 1003 := Entry(4, 1, [0, 0, 0, 7])]

  /** The intro: magic, reserved, 3 records, 24 bytes of store. */
  const INTRO_BYTES: seq<byte> := [0x8e, 0xad, 0xe8, 0x01, 0, 0, 0, 0, 0, 0, 0, 3, 0, 0, 0, 24]

  /** The records of the region (BIN, at 8, 16 bytes), the name (STRING, at 0) and the epoch (INT32, at 4). */
  const REGION_RECORD: seq<byte> := [0, 0, 0, 63, 0, 0, 0, 7, 0, 0, 0, 8, 0, 0, 0, 16]
  const NAME_RECORD: seq<byte> := [0, 0, 3, 0xe8, 0, 0, 0, 6, 0, 0, 0, 0, 0, 0, 0, 1]
  const EPOCH_RECORD: seq<byte> := [0, 0, 3, 0xeb, 0, 0, 0, 4, 0, 0, 0, 4, 0, 0, 0, 1]

  /** The name, a gap, and the epoch; then the region trailer, which points back 48 bytes. */
  const STORE_BYTES: seq<byte> := [97, 0, 0, 0, 0, 0, 0, 7]
  const REGION_TRAILER: seq<byte> := [0, 0, 0, 63, 0, 0, 0, 7, 0xff, 0xff, 0xff, 0xd0, 0, 0, 0, 16]

  lemma {:induction false} SmallPut32(x: nat)
    requires x < 0x1_0000
    ensures Put32(x) == [0, 0, x / 256, x % 256]
  {
    hide Put32, U32;
    U32IsModular(x, 0);
    Put32Bytes(x);
  }

  /** A record of small numbers. */
  lemma {:induction false} SmallRecord(r: Record)
    requires 0 <= r.tag < 0x1_0000 && 0 <= r.dataType < 256 && 0 <= r.offset < 256 && 0 <= r.count < 256
    ensures PutRecord(r)
         == [0, 0, r.tag / 256, r.tag % 256] + [0, 0, 0, r.dataType] + [0, 0, 0, r.offset] + [0, 0, 0, r.count]
  {
    hide Put32;
    SmallPut32(r.tag);
    SmallPut32(r.dataType);
    SmallPut32(r.offset);
    SmallPut32(r.count);
  }

  lemma {:induction false} TrailerBytes()
    ensures PutRecord(Record(63, 7, -48, 16)) == REGION_TRAILER
  {
    hide Put32;
    Patterns();
    Put32Bytes(-48);
    SmallPut32(63);
    SmallPut32(7);
    SmallPut32(16);
  }

  lemma {:induction false} IntroBytes()
    ensures Intro(2, 8) == INTRO_BYTES
  {
    hide Put32;
    Patterns();
    Put32Bytes(0x8eade801);
    SmallPut32(0);
    SmallPut32(3);
    SmallPut32(24);
  }

  lemma {:induction false} RecordBytes()
    ensures PutRecord(Record(63, 7, 8, 16)) == REGION_RECORD
    ensures PutRecord(Record(1000, 6, 0, 1)) == NAME_RECORD
    ensures PutRecord(Record(1003, 4, 4, 1)) == EPOCH_RECORD
    ensures PutRecord(Record(63, 7, -48, 16)) == REGION_TRAILER
  {
    hide PutRecord;
    TrailerBytes();
    SmallRecord(Record(63, 7, 8, 16));
    SmallRecord(Record(1000, 6, 0, 1));
    SmallRecord(Record(1003, 4, 4, 1));
  }

  lemma {:induction false} Patterns()
    ensures U32(-48) == 0xffff_ffd0 && U32(0x8eade801) == 0x8eade801
  {
  }

  lemma {:induction false} NameAndEpochLayout()
    ensures Tags(NAME_AND_EPOCH) == [1000, 1003]
    ensures Layout(NAME_AND_EPOCH) == Buffers(NAME_RECORD + EPOCH_RECORD, STORE_BYTES)
  {
    hide Tags, PutRecord, Zeros;
    var keys: seq<int> := [1000, 1003];
    SortedIsUnique(Tags(NAME_AND_EPOCH), keys);
    RecordBytes();
    var one: seq<int> := [1000];
    assert keys[..1] == one && one[..0] == [];
    assert [] + Zeros(0) == [] && [97, 0] + Zeros(2) == [97, 0, 0, 0] by { ZeroBytes(); }
    assert AddTags(one, NAME_AND_EPOCH) == Buffers(NAME_RECORD, [97, 0]);
    assert [97, 0, 0, 0] + [0, 0, 0, 7] == STORE_BYTES;
  }

  lemma {:induction false} ZeroBytes()
    ensures Zeros(0) == [] && Zeros(2) == [0, 0]
  {
  }

  /** The file format, byte by byte: what is written for a name and an epoch. */
  lemma {:induction false} WrittenBytes()
    ensures Serialized(NAME_AND_EPOCH, 63)
         == INTRO_BYTES + REGION_RECORD + (NAME_RECORD + EPOCH_RECORD) + (STORE_BYTES + REGION_TRAILER)
  {
    hide Layout, Tags, PutRecord, Intro, Zeros;
    NameAndEpochLayout();
    RecordBytes();
    IntroBytes();
    ZeroBytes();
    assert Wrap32(63) == 63 && Wrap32(8) == 8 && Wrap32(-48) == -48;
    assert [] + REGION_RECORD == REGION_RECORD && STORE_BYTES + [] == STORE_BYTES;
    var s := INTRO_BYTES + REGION_RECORD + (NAME_RECORD + EPOCH_RECORD) + (STORE_BYTES + REGION_TRAILER);
    assert s + [] == s;
  }

  const NAME_AND_EPOCH_READ: Entries :=
    map[63 := Entry(7, 16, REGION_TRAILER), 1000 := Entry(6, 1, [97, 0]), 1003 := Entry(4, 1, [0, 0, 0, 7])]

  lemma {:induction false} NameAndEpochReread()
    ensures Reread(NAME_AND_EPOCH, 63) == NAME_AND_EPOCH_READ
  {
    hide Tags, PutRecord;
    NameAndEpochLayout();
    TrailerBytes();
    assert Wrap32(63) == 63 && Wrap32(-48) == -48;
    var m := Reread(NAME_AND_EPOCH, 63);
    assert m[63] == Entry(7, 16, REGION_TRAILER);
    assert m.Keys == {63, 1000, 1003};
  }

  /** And what is read from these bytes, whatever follows them. */
  lemma {:induction false} ReadBytes(c: Crypto, rest: seq<byte>)
    ensures var s := INTRO_BYTES + REGION_RECORD + (NAME_RECORD + EPOCH_RECORD) + (STORE_BYTES + REGION_TRAILER);
            ParseHeader(c, s + rest, [], NoHash, false, false)
            == Ok(Header(NAME_AND_EPOCH_READ, false, s))
  {
    hide Serialized, ParseHeader, PutRecord, Layout, Tags, Reread;
    NameAndEpochLayout();
    WrittenBytes();
    NameAndEpochReread();
    NameAndEpochAreWellFormed();
    RoundTrip(c, NAME_AND_EPOCH, 63, NoHash, false, rest);
  }

  lemma {:induction false} NameAndEpochAreWellFormed()
    ensures WellFormed(Kept(NAME_AND_EPOCH))
  {
    var text: seq<byte> := [97, 0];
    assert text[1..] == [0] && text[1..][1..] == [];
    assert CountNul(text) == 1;
  }

  // ---- the padded dump cannot always keep the size -------------------------

  /**
    A signature header of 72 bytes. With 8 bytes less, the padded dump is 8 bytes
    shorter than the original; with 8 bytes more it is longer.
   */
  lemma {:induction false} PaddedDumpChangesSize(c: Crypto)
    ensures var s := Serialized(OneBlob(SIG_PGP, 8), HEADER_SIGNATURES);
            var h := ParseHeader(c, s, [], NoHash, false, true);
            && h.Ok? && |h.value.orig| == 72
            && |DumpedHeader(OneBlob(SIG_PGP, 0), 72, true)| == 64
            && |DumpedHeader(OneBlob(SIG_PGP, 16), 72, true)| == 80
  {
    hide Serialized, ParseHeader, OneBlob, DumpedHeader, Needed, Reread, Fits, WellFormed;
    OneBlobHeader(SIG_PGP, 8);
    var s := Serialized(OneBlob(SIG_PGP, 8), HEADER_SIGNATURES);
    assert s + [] == s;
    RoundTrip(c, OneBlob(SIG_PGP, 8), HEADER_SIGNATURES, NoHash, false, []);
    NeededOfOneBlob(0);
    NeededOfOneBlob(16);
    DumpedLength(OneBlob(SIG_PGP, 0), 72);
    DumpedLength(OneBlob(SIG_PGP, 16), 72);
  }

  lemma {:induction false} NeededOfOneBlob(n: nat)
    requires n < TWO_TO_31 && n % 8 == 0
    ensures Needed(OneBlob(SIG_PGP, n)) == 64 + n
  {
    hide Serialized, Zeros;
    OneBlobHeader(SIG_PGP, n);
    assert WithoutReserved(OneBlob(SIG_PGP, n)) == OneBlob(SIG_PGP, n);
  }

  // ---- the region trailer of a large header does not point back ------------

  /** The n tags from 64 on. */
  function FirstTags(n: nat): (keys: seq<int>) { seq(n, i => HEADER_REGIONS + i) }

  /** A header with n empty binary entries. */
  function EmptyBlobs(n: nat): (m: Entries)
    ensures forall k :: k in m <==> HEADER_REGIONS <= k < HEADER_REGIONS + n
    ensures forall k :: k in m ==> m[k] == Entry(BIN_TYPE, 0, [])
  {
    if n == 0 then map[] else EmptyBlobs(n - 1)[HEADER_REGIONS + n - 1 := Entry(BIN_TYPE, 0, [])]
  }

  lemma {:induction false} NoBlobs(keys: seq<int>, m: Entries)
    requires Covers(keys, m) && forall k :: k in m ==> m[k].contents == []
    ensures BlobTotal(keys, m) == 0
  {
    if keys != [] {
      NoBlobs(keys[..|keys| - 1], m);
    }
  }

  lemma {:induction false} EmptyBlobsFit(n: nat)
    requires n < 0xFFF_FFFF
    ensures var m := EmptyBlobs(n); |Tags(m)| == n && Fits(m) && WellFormed(Kept(m))
  {
    hide Layout, Tags, EmptyBlobs;
    var keys := FirstTags(n);
    forall k | HEADER_REGIONS <= k < HEADER_REGIONS + n ensures k in keys {
      assert keys[k - HEADER_REGIONS] == k;
    }
    NoBlobs(keys, EmptyBlobs(n));
    LayoutOf(EmptyBlobs(n), keys);
  }

  /** With 2^27 tags the offset in the region trailer has wrapped, and the header is read all the same. */
  lemma {:induction false} LargeRegionWraps(c: Crypto, rest: seq<byte>)
    ensures var m, s := EmptyBlobs(0x800_0000), Serialized(EmptyBlobs(0x800_0000), HEADER_IMMUTABLE);
            && GetRecord(RegionEntry(HEADER_IMMUTABLE, |Tags(m)|).contents).offset != -|Table(m, HEADER_IMMUTABLE)|
            && ParseHeader(c, s + rest, [], NoHash, false, false) == Ok(Header(Reread(m, HEADER_IMMUTABLE), false, s))
  {
    hide Serialized, ParseHeader, EmptyBlobs, Tags, Table, GetRecord, RegionEntry, Reread, Fits, WellFormed;
    EmptyBlobsFit(0x800_0000);
    RegionPointsBack(EmptyBlobs(0x800_0000), HEADER_IMMUTABLE);
    RoundTrip(c, EmptyBlobs(0x800_0000), HEADER_IMMUTABLE, NoHash, false, rest);
  }

  // ---- a header digest that makes reading panic ----------------------------

  /** A lead with the magic of an RPM. */
  const LEAD: seq<byte> := [0xed, 0xab, 0xee, 0xdb] + Zeros(92)

  lemma {:induction false} LeadHasMagic()
    ensures |LEAD| == LEAD_LENGTH && GetU32(LEAD[0..4]) == LEAD_MAGIC
  {
    hide Zeros;
    var s: seq<byte> := [0xed, 0xab, 0xee, 0xdb];
    assert LEAD[0..4] == s;
    assert s[..3] == [0xed, 0xab, 0xee] && s[..3][..2] == [0xed, 0xab] && s[..3][..2][..1] == [0xed];
    assert GetBE([0xed]) == 0xed by { assert [0xed][..0] == []; }
    assert GetBE([0xed, 0xab]) == 0xedab by { assert [0xed, 0xab][..1] == [0xed]; }
    assert GetBE([0xed, 0xab, 0xee]) == 0xedabee by { assert [0xed, 0xab, 0xee][..2] == [0xed, 0xab]; }
    assert GetBE(s) == 0xedabeedb;
  }

  /** A signature header whose only entry is a SHA-1 digest of no strings. */
  const EMPTY_SHA1: Entries := map[SIG_SHA1 := Entry(STRING_TYPE, 0, [])]

  lemma {:induction false} EmptyShaFits()
    ensures Fits(EMPTY_SHA1) && WellFormed(EMPTY_SHA1) && WellFormed(Kept(EMPTY_SHA1))
  {
    hide Layout, Tags;
    var keys: seq<int> := [SIG_SHA1];
    assert keys[..0] == [];
    LayoutOf(EMPTY_SHA1, keys);
  }

  /** Every file that starts with this lead and this signature header makes ReadHeader panic. */
  lemma {:induction false} EmptyShaPanics(c: Crypto, rest: seq<byte>)
    ensures NoString(EMPTY_SHA1, SIG_SHA1)
    ensures var s := LEAD + Serialized(EMPTY_SHA1, HEADER_SIGNATURES) + rest;
            ReadSignature(c, s).Ok? && ReadRpm(c, s) == Panic
  {
    hide Serialized, ParseHeader, HashAndType, Fits, WellFormed, GetU32, GetBE, Reread;
    EmptyShaFits();
    HashAndTypePanicsIff(EMPTY_SHA1);
    LeadHasMagic();
    var h := Serialized(EMPTY_SHA1, HEADER_SIGNATURES);
    SplicedSlices(LEAD, h, rest);
    RoundTrip(c, EMPTY_SHA1, HEADER_SIGNATURES, NoHash, IsSourceLead(LEAD), rest);
    HashAndTypeOfReread(EMPTY_SHA1, HEADER_SIGNATURES);
  }

  // ---- a file that is signed and verified ----------------------------------

  /** A toy scheme: every digest is one zero byte, and a SHA-256 signature is the message itself. */
  const TOY := Crypto(
    (a: Algorithm, m: seq<byte>) => [NUL],
    (a: Algorithm) => a != NoHash,
    (k: Key, a: Algorithm, m: seq<byte>) => if a == SHA256 then Ok(m) else Err(SigningFailed),
    (b: seq<byte>) => Ok(Packet(SHA256, b)),
    (p: Packet, ring: KeyRing, m: seq<byte>) => p.body == m)

  /** Its signature header holds the MD5 digest, its general header nothing, and its payload is empty. */
  function ToyFile(): (s: seq<byte>) { AssembledFile(LEAD, OneBlob(SIG_MD5, 1), map[], []) }

  lemma {:induction false} ToyTrusts(key: Key, ring: KeyRing)
    ensures Trusts(TOY, key, SHA256, ring)
  {
  }

  lemma {:induction false} NoEntriesFit()
    ensures Fits(map[]) && WellFormed(Kept(map[])) && |Serialized(map[], HEADER_IMMUTABLE)| == 48
  {
    hide Layout, Tags, Serialized;
    LayoutOf(map[], []);
    SerializedLength(map[], HEADER_IMMUTABLE);
  }

  lemma {:induction false} ToyDigests()
    ensures HashAndType(OneBlob(SIG_MD5, 1)) == Ok(([], SHA1))
    ensures CheckPayload(TOY, OneBlob(SIG_MD5, 1), AssembledRpm(LEAD, OneBlob(SIG_MD5, 1), map[]).gen, []) == Ok(())
  {
    hide Serialized, RegionEntry, Tags;
    var gen := AssembledRpm(LEAD, OneBlob(SIG_MD5, 1), map[]).gen;
    assert PAYLOADDIGEST !in gen.entries;
    assert LegacyMd5(OneBlob(SIG_MD5, 1)) == [NUL];
  }

  lemma {:induction false} ToyIsSigned(key: Key)
    ensures Signed(TOY, ToyFile(), key, None).Ok?
    ensures ReadRpm(TOY, ToyFile()) == Ok(AssembledRpm(LEAD, OneBlob(SIG_MD5, 1), map[]))
    ensures |ToyFile()| >= PayloadStart(AssembledRpm(LEAD, OneBlob(SIG_MD5, 1), map[]))
    ensures Payload(ToyFile(), AssembledRpm(LEAD, OneBlob(SIG_MD5, 1), map[])) == []
  {
    hide Serialized, OneBlob, Fits, WellFormed, ReadRpm, CheckPayload, HashAndType, GetU32, AssembledRpm,
      AssembledFile, Signed;
    LeadHasMagic();
    OneBlobFits(SIG_MD5, 1);
    NoEntriesFit();
    ToyDigests();
    AssembledFileIsRead(TOY, LEAD, OneBlob(SIG_MD5, 1), map[], [], [], SHA1);
    AssembledFileIsSigned(TOY, LEAD, OneBlob(SIG_MD5, 1), map[], [], [], SHA1, key, None);
  }

  /** The entries of the signed toy file: two signatures of 48 bytes and the digest. */
  lemma {:induction false} ThreeBlobsFit(d: Entries)
    requires forall k :: k in d && k >= HEADER_REGIONS <==> k in {SIG_RSA, SIG_PGP, SIG_MD5}
    requires SIG_RSA in d && SIG_PGP in d && SIG_MD5 in d
    requires d[SIG_RSA].dataType == d[SIG_PGP].dataType == d[SIG_MD5].dataType == BIN_TYPE
    requires |d[SIG_RSA].contents| == |d[SIG_PGP].contents| == 48 && |d[SIG_MD5].contents| == 1
    ensures Fits(d)
  {
    hide Layout, Tags;
    var keys: seq<int> := [SIG_RSA, SIG_PGP, SIG_MD5];
    var two, one: seq<int> := [SIG_RSA, SIG_PGP], [SIG_RSA];
    assert keys[..2] == two && two[..1] == one && one[..0] == [];
    assert BlobTotal(one, d) == 48;
    assert BlobTotal(two, d) == 96;
    assert BlobTotal(keys, d) == 97;
    LayoutOf(d, keys);
  }

  lemma {:induction false} ToyEntries(g: seq<byte>, n: nat)
    requires |g| == 48
    ensures var d := DumpEntries(WithSignatures(Reread(OneBlob(SIG_MD5, 1), HEADER_SIGNATURES), g, g), n, false);
            Fits(d)
  {
    hide Fits, RegionEntry, Needed, Tags, Wrap32;
    var d := DumpEntries(WithSignatures(Reread(OneBlob(SIG_MD5, 1), HEADER_SIGNATURES), g, g), n, false);
    ThreeBlobsFit(d);
  }

  lemma {:induction false} ToySignedEntries(key: Key, h: Rpm)
    requires Signed(TOY, ToyFile(), key, None) == Ok(h)
    ensures Fits(SignedEntries(h, false))
  {
    hide Serialized, Fits, ReadRpm, CheckPayload, ToyFile, Reread, WithSignatures, DumpEntries, OneBlob, Payload;
    ToyIsSigned(key);
    NoEntriesFit();
    var r := AssembledRpm(LEAD, OneBlob(SIG_MD5, 1), map[]);
    var g := r.gen.orig;
    assert g + [] == g;
    ToyEntries(g, |h.sig.orig|);
  }

  /** With the toy scheme, a hash that is not set makes signing the toy file panic. */
  lemma {:induction false} ToyUnsetHashPanics(key: Key)
    ensures ReadRpm(TOY, ToyFile()).Ok? && Signed(TOY, ToyFile(), key, Some(Options(NoHash))) == Panic
  {
    hide Signed, ReadRpm, ToyFile, AssembledRpm;
    ToyIsSigned(key);
    UnsetHashPanics(TOY, ToyFile(), key);
  }

  /** The hypotheses of SignedFileVerifies can be met: the toy file is signed, and its signed form verifies. */
  lemma {:induction false} ToyFileVerifies(key: Key, ring: KeyRing)
    ensures Trusts(TOY, key, HashOf(None), ring)
    ensures Signed(TOY, ToyFile(), key, None).Ok? && ReadRpm(TOY, ToyFile()).Ok?
    ensures var h := Signed(TOY, ToyFile(), key, None).value;
            && Fits(SignedEntries(h, false)) && LEAD_LENGTH + |h.sig.orig| <= |ToyFile()|
            && Verified(TOY, SignedFile(ToyFile(), h, false), ring).Ok?
  {
    hide Signed, ReadRpm, ToyFile, Fits, SignedEntries, SignedFile, Verified, Trusts, AssembledRpm;
    ToyIsSigned(key);
    ToyTrusts(key, ring);
    var h, r := Signed(TOY, ToyFile(), key, None).value, ReadRpm(TOY, ToyFile()).value;
    ToySignedEntries(key, h);
    SignedFileVerifies(TOY, ToyFile(), key, None, ring, false, h, r);
  }

  // ---- a file with a bad signature -----------------------------------------

  /** A signature header with an RSA signature of one zero byte and the MD5 digest. */
  const BAD_SIGNATURE: Entries := map[268 := Entry(7, 1, [0]), 1004 := Entry(7, 1, [0])]

  lemma {:induction false} BadSignatureFits()
    ensures Fits(BAD_SIGNATURE) && WellFormed(Kept(BAD_SIGNATURE)) && HashAndType(BAD_SIGNATURE) == Ok(([], SHA1))
  {
    hide Layout, Tags;
    var keys, one: seq<int> := [268, 1004], [268];
    assert keys[..1] == one && one[..0] == [];
    assert BlobTotal(one, BAD_SIGNATURE) == 1;
    LayoutOf(BAD_SIGNATURE, keys);
  }

  /** The file is read and its payload has the recorded digest, but the signature is of nothing: Verify fails. */
  lemma {:induction false} BadSignatureFails(ring: KeyRing)
    ensures var s := AssembledFile(LEAD, BAD_SIGNATURE, map[], []);
            ReadRpm(TOY, s).Ok? && Verified(TOY, s, ring) == Err(BadSignature)
  {
    hide Serialized, Fits, WellFormed, ReadRpm, HashAndType, GetU32, AssembledFile, Verified, CheckPayload;
    var s, r := AssembledFile(LEAD, BAD_SIGNATURE, map[], []), AssembledRpm(LEAD, BAD_SIGNATURE, map[]);
    LeadHasMagic();
    BadSignatureFits();
    NoEntriesFit();
    AssembledFileIsRead(TOY, LEAD, BAD_SIGNATURE, map[], [], [], SHA1);
    BadSignatureEntries();
    BadSignatureIsRefused(TOY, s, ring, 268);
  }

  lemma {:induction false} BadSignatureEntries()
    ensures var r := AssembledRpm(LEAD, BAD_SIGNATURE, map[]);
            && Checkable(TOY, r.sig.entries) && CheckPayload(TOY, r.sig.entries, r.gen, []) == Ok(())
            && GetBytes(r.sig.entries, 268) == Ok([0]) && |r.gen.orig| == 48
  {
    hide Serialized, RegionEntry, Tags, HasSignature, CheckPayload;
    NoEntriesFit();
    var r := AssembledRpm(LEAD, BAD_SIGNATURE, map[]);
    assert r.sig.entries[268] == r.sig.entries[1004] == Entry(7, 1, [0]);
    assert 267 !in r.sig.entries && 1002 !in r.sig.entries && 1005 !in r.sig.entries;
    ToySignatureIsFound(r.sig.entries);
    ToyLegacyDigest(r.sig.entries, r.gen);
  }

  lemma {:induction false} ToySignatureIsFound(m: Entries)
    requires 268 in m && m[268] == Entry(7, 1, [0])
    ensures HasSignature(TOY, m, 268)
  {
  }

  lemma {:induction false} ToyLegacyDigest(m: Entries, gen: Header)
    requires 1004 in m && m[1004] == Entry(7, 1, [0]) && PAYLOADDIGEST !in gen.entries
    ensures CheckPayload(TOY, m, gen, []) == Ok(())
  {
    assert LegacyMd5(m) == [0];
  }
}
