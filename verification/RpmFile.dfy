/** Reading the lead and both headers of an RPM (rpmutils.go), and splicing in another signature header. */
module RpmFile {
  import opened Bytes
  import opened Outcomes
  import opened Streams
  import opened Digests
  import opened Header
  import opened WriteHeader
  import opened HeaderCodec
  import opened HeaderGetters
  import opened SignatureHeader

  const LEAD_MAGIC := 0xedabeedb

  const SIG_DSA := 267
  const SIG_RSA := 268
  const SIG_SHA1 := 269
  const SIG_SHA256 := 273
  const SIG_PGP := 1002
  const SIG_MD5 := 1004
  const SIG_GPG := 1005
  const PAYLOADDIGEST := 5092
  const PAYLOADDIGESTALGO := 5093

  datatype Rpm = Rpm(lead: seq<byte>, sig: Header, gen: Header)

  /** getSha1 and getSha256: an absent or mistyped tag counts as an empty digest. */
  function FirstString(m: Entries, tag: int): (r: Outcome<seq<byte>>) {
    match GetStrings(m, tag)
    case Err(_) => Ok([])
    case Panic => Panic
    case Ok(v) => if v == [] then Panic else Ok(v[0])
  }

  /** getHashAndType: a SHA-256 digest of the general header is preferred over a SHA-1 one. */
  function HashAndType(m: Entries): (r: Outcome<(seq<byte>, Algorithm)>) {
    var h256 :- FirstString(m, SIG_SHA256);
    if h256 != [] then Ok((h256, SHA256))
    else
      var h1 :- FirstString(m, SIG_SHA1);
      Ok((h1, SHA1))
  }

  predicate IsSourceLead(lead: seq<byte>)
    requires |lead| == LEAD_LENGTH
  {
    GetBE(lead[6..8]) == 1
  }

  /** readSignatureHeader on a stream holding s. */
  function ReadSignature(c: Crypto, s: seq<byte>): (r: Outcome<(seq<byte>, Header)>)
    ensures r.Ok? ==> |s| >= LEAD_LENGTH && r.value.0 == s[..LEAD_LENGTH] && r.value.1.orig <= s[LEAD_LENGTH..]
  {
    if |s| < LEAD_LENGTH then Err(HeaderTruncated)
    else
      var lead := s[..LEAD_LENGTH];
      if GetU32(lead[0..4]) != LEAD_MAGIC then Err(NotAnRpm)
      else
        var h :- ParseHeader(c, s[LEAD_LENGTH..], [], NoHash, IsSourceLead(lead), true);
        Ok((lead, h))
  }

  /** ReadHeader on a stream holding s. */
  function ReadRpm(c: Crypto, s: seq<byte>): (r: Outcome<Rpm>)
    ensures r.Ok? ==>
      && |s| >= PayloadStart(r.value) && r.value.lead == s[..LEAD_LENGTH]
      && r.value.sig.orig == s[LEAD_LENGTH..LEAD_LENGTH + |r.value.sig.orig|]
      && r.value.gen.orig == s[LEAD_LENGTH + |r.value.sig.orig|..PayloadStart(r.value)]
  {
    var (lead, sig) :- ReadSignature(c, s);
    var (digest, alg) :- HashAndType(sig.entries);
    var gen :- ParseHeader(c, s[LEAD_LENGTH + |sig.orig|..], digest, alg, sig.isSource, false);
    Ok(Rpm(lead, sig, gen))
  }

  /** Where the payload starts: the end of GetRange. */
  function PayloadStart(r: Rpm): (n: nat) {
    LEAD_LENGTH + |r.sig.orig| + |r.gen.orig|
  }

  method ReadSignatureHeader(c: Crypto, src: Source) returns (r: Outcome<(seq<byte>, Header)>)
    requires src.Valid()
    modifies src
    ensures src.Valid() && r == ReadSignature(c, src.data[old(src.pos)..])
    ensures old(src.pos) <= src.pos
    ensures r.Ok? ==> src.pos == old(src.pos) + LEAD_LENGTH + |r.value.1.orig|
  {
    hide ParseHeader, GetU32, GetBE;
    ghost var p, s := src.pos, src.data[src.pos..];
    var lead := src.ReadFull(LEAD_LENGTH);
    if lead.IsFailure() {
      return Err(HeaderTruncated);
    }
    assert lead.value == s[..LEAD_LENGTH];
    if GetU32(lead.value[0..4]) != LEAD_MAGIC {
      return Err(NotAnRpm);
    }
    var isSource := IsSourceLead(lead.value);
    assert src.data[src.pos..] == s[LEAD_LENGTH..];
    var hdr := ReadHeader(c, src, [], NoHash, isSource, true);
    if hdr.IsFailure() {
      return hdr.PropagateFailure();
    }
    return Ok((lead.value, hdr.value));
  }

  method ReadBothHeaders(c: Crypto, src: Source) returns (r: Outcome<Rpm>)
    requires src.Valid()
    modifies src
    ensures src.Valid() && r == ReadRpm(c, src.data[old(src.pos)..])
    ensures old(src.pos) <= src.pos
    ensures r.Ok? ==> src.pos == old(src.pos) + PayloadStart(r.value)
  {
    hide ParseHeader, ReadSignature, HashAndType;
    ghost var s := src.data[src.pos..];
    var first := ReadSignatureHeader(c, src);
    if first.IsFailure() {
      return first.PropagateFailure();
    }
    var (lead, sig) := first.value;
    var digest := HashAndType(sig.entries);
    if digest.IsFailure() {
      return digest.PropagateFailure();
    }
    assert src.data[src.pos..] == s[LEAD_LENGTH + |sig.orig|..];
    var gen := ReadHeader(c, src, digest.value.0, digest.value.1, sig.isSource, false);
    if gen.IsFailure() {
      return gen.PropagateFailure();
    }
    return Ok(Rpm(lead, sig, gen.value));
  }

  // ---- splicing in another signature header --------------------------------

  /** The file s with its signature header replaced by one holding the entries m. */
  function Spliced(s: seq<byte>, r: Rpm, m: Entries): (t: seq<byte>)
    requires |s| >= LEAD_LENGTH + |r.sig.orig|
  {
    r.lead + Serialized(m, HEADER_SIGNATURES) + s[LEAD_LENGTH + |r.sig.orig|..]
  }

  /** What reading the spliced file must give. */
  ghost function SplicedRpm(r: Rpm, m: Entries): (t: Rpm) {
    r.(sig := Header(Reread(m, HEADER_SIGNATURES), r.sig.isSource, Serialized(m, HEADER_SIGNATURES)))
  }

  lemma {:induction false} SplicedSlices(lead: seq<byte>, h: seq<byte>, rest: seq<byte>)
    requires |lead| == LEAD_LENGTH
    ensures var t := lead + h + rest;
            && t[..LEAD_LENGTH] == lead && t[LEAD_LENGTH..] == h + rest
            && t[LEAD_LENGTH + |h|..] == rest
  {
    var t := lead + h + rest;
    assert t == lead + (h + rest);
  }

  /** Two maps agree on a tag. */
  predicate SameAt(m: Entries, w: Entries, tag: int) {
    (tag in m <==> tag in w) && (tag in m ==> m[tag] == w[tag])
  }

  lemma {:induction false} SameStrings(m: Entries, w: Entries, tag: int)
    requires SameAt(m, w, tag)
    ensures GetStrings(m, tag) == GetStrings(w, tag)
  {
    hide Split;
  }

  /** The header digest is taken from two tags only. */
  lemma {:induction false} SameHashAndType(m: Entries, w: Entries)
    requires SameAt(m, w, SIG_SHA256) && SameAt(m, w, SIG_SHA1)
    ensures HashAndType(m) == HashAndType(w)
  {
    hide GetStrings;
    SameStrings(m, w, SIG_SHA256);
    SameStrings(m, w, SIG_SHA1);
  }

  lemma {:induction false} RereadIsSameAt(m: Entries, regionTag: int, tag: int)
    requires regionTag < HEADER_REGIONS <= tag
    ensures SameAt(Reread(m, regionTag), m, tag)
  {
    hide RegionEntry;
  }

  lemma {:induction false} HashAndTypeOfReread(m: Entries, regionTag: int)
    requires regionTag < HEADER_REGIONS
    ensures HashAndType(Reread(m, regionTag)) == HashAndType(m)
  {
    hide HashAndType, Reread;
    RereadIsSameAt(m, regionTag, SIG_SHA256);
    RereadIsSameAt(m, regionTag, SIG_SHA1);
    SameHashAndType(Reread(m, regionTag), m);
  }

  /** The spliced file is read as before except for the signature header, which takes exactly its own bytes. */
  lemma {:induction false} SpliceIsRead(c: Crypto, s: seq<byte>, m: Entries)
    requires ReadRpm(c, s).Ok?
    requires Fits(m) && WellFormed(Kept(m)) && HashAndType(m) == HashAndType(ReadRpm(c, s).value.sig.entries)
    ensures var r := ReadRpm(c, s).value;
            && ReadRpm(c, Spliced(s, r, m)) == Ok(SplicedRpm(r, m))
            && PayloadStart(SplicedRpm(r, m)) <= |Spliced(s, r, m)|
            && Spliced(s, r, m)[PayloadStart(SplicedRpm(r, m))..] == s[PayloadStart(r)..]
  {
    hide ParseHeader, Serialized, Fits, WellFormed, Reread, HashAndType, GetU32, GetBE;
    var r := ReadRpm(c, s).value;
    var h, rest := Serialized(m, HEADER_SIGNATURES), s[LEAD_LENGTH + |r.sig.orig|..];
    SplicedSlices(r.lead, h, rest);
    SourceFlagIsKept(c, s);
    RoundTrip(c, m, HEADER_SIGNATURES, NoHash, r.sig.isSource, rest);
    HashAndTypeOfReread(m, HEADER_SIGNATURES);
    var t := Spliced(s, r, m);
    var n := |r.gen.orig|;
    assert t[LEAD_LENGTH + |h|..][n..] == t[LEAD_LENGTH + |h| + n..];
    assert rest[n..] == s[PayloadStart(r)..];
  }

  lemma {:induction false} SourceFlagIsKept(c: Crypto, s: seq<byte>)
    requires ReadSignature(c, s).Ok?
    ensures ReadSignature(c, s).value.1.isSource == IsSourceLead(s[..LEAD_LENGTH])
  {
    ReadHeaderInvariant(c, s[LEAD_LENGTH..], [], NoHash, IsSourceLead(s[..LEAD_LENGTH]), true);
  }

  /** Conversely, a spliced header that is read as itself fits its 32-bit fields. */
  lemma {:induction false} SpliceReadMeansFits(c: Crypto, s: seq<byte>, m: Entries)
    requires ReadRpm(c, s).Ok?
    requires ReadRpm(c, Spliced(s, ReadRpm(c, s).value, m)) == Ok(SplicedRpm(ReadRpm(c, s).value, m))
    ensures Fits(m) && WellFormed(Kept(m))
  {
    hide ParseHeader, Serialized, Fits, WellFormed, Reread, HashAndType, GetU32, GetBE;
    var r := ReadRpm(c, s).value;
    var h, rest := Serialized(m, HEADER_SIGNATURES), s[LEAD_LENGTH + |r.sig.orig|..];
    SplicedSlices(r.lead, h, rest);
    SourceFlagIsKept(c, s);
    ExactReadIsLocal(c, h, rest, r.sig.isSource, true);
    RoundTripIff(c, m, HEADER_SIGNATURES, NoHash, r.sig.isSource);
  }

  lemma {:induction false} ExactReadIsLocal(c: Crypto, s: seq<byte>, rest: seq<byte>, isSource: bool, sigBlock: bool)
    requires var h := ParseHeader(c, s + rest, [], NoHash, isSource, sigBlock);
             h.Ok? && h.value.orig == s
    ensures ParseHeader(c, s, [], NoHash, isSource, sigBlock)
         == ParseHeader(c, s + rest, [], NoHash, isSource, sigBlock)
  {
    hide GetU32, TableLength, StoreLength, EntriesUpTo;
    var u := s + rest;
    var x := Extents(u, sigBlock).value;
    assert |u[..x.end]| == x.end == |s|;
    assert u[0..4] == s[0..4] && u[8..12] == s[8..12] && u[12..16] == s[12..16];
    assert u[16..x.table] == s[16..x.table] && u[x.table..x.end] == s[x.table..x.end] && u[..x.end] == s[..x.end];
  }

  // ---- when the header digest cannot be taken ------------------------------

  /** A string entry without any string. */
  predicate NoString(m: Entries, tag: int) {
    tag in m && StringType(m[tag].dataType) && m[tag].count <= 0
  }

  /** A string entry whose first string is not empty. */
  predicate HasString(m: Entries, tag: int) {
    tag in m && StringType(m[tag].dataType) && m[tag].count > 0 && m[tag].contents != [] && m[tag].contents[0] != 0
  }

  lemma {:induction false} FirstPart(s: seq<byte>)
    requires CountNul(s) > 0
    ensures s != [] && (Split(s)[0] == [] <==> s[0] == 0)
  {
    CountNulZero(s);
    SplitUnfolds(s);
  }

  lemma {:induction false} FirstStringOf(m: Entries, tag: int)
    requires WellFormed(m)
    ensures FirstString(m, tag) == Panic <==> NoString(m, tag)
    ensures FirstString(m, tag).Ok? && FirstString(m, tag).value != [] <==> HasString(m, tag)
    ensures FirstString(m, tag) == Panic || FirstString(m, tag).Ok?
  {
    hide Split;
    if tag in m && StringType(m[tag].dataType) {
      GetStringsOfRead(m, tag);
      if m[tag].count > 0 {
        FirstPart(m[tag].contents);
      }
    }
  }

  /**
    For every header that was read, taking the header digest panics if and only if
    the SHA-256 entry is a string entry without any string, or the SHA-1 entry is
    one and the SHA-256 entry yields no digest; otherwise it succeeds.
   */
  lemma {:induction false} HashAndTypePanicsIff(m: Entries)
    requires WellFormed(m)
    ensures HashAndType(m) == Panic <==>
      NoString(m, SIG_SHA256) || (!HasString(m, SIG_SHA256) && NoString(m, SIG_SHA1))
    ensures HashAndType(m) == Panic || HashAndType(m).Ok?
    ensures HashAndType(m).Ok? ==> (HashAndType(m).value.1 == SHA256 <==> HasString(m, SIG_SHA256))
  {
    hide FirstString, NoString, HasString, WellFormed;
    FirstStringOf(m, SIG_SHA256);
    FirstStringOf(m, SIG_SHA1);
  }

  /** The contents begin with d and its terminator. */
  predicate BeginsWith(contents: seq<byte>, d: seq<byte>) { NulFree(d) && d + [NUL] <= contents }

  lemma {:induction false} FirstPartIs(s: seq<byte>, d: seq<byte>)
    requires BeginsWith(s, d)
    ensures CountNul(s) > 0 && Split(s)[0] == d
  {
    assert s[|d|] == 0;
    CountNulZero(s);
    SplitUnfolds(s);
    assert forall i :: 0 <= i < |d| ==> s[i] == d[i];
    assert IndexNul(s) == |d|;
  }

  /** The first string of an entry that was read. */
  lemma {:induction false} FirstStringIs(m: Entries, tag: int, d: seq<byte>)
    requires tag in m && m[tag].dataType in {6, 8, 9} && m[tag].count > 0 && BeginsWith(m[tag].contents, d)
    requires WellFormed(m)
    ensures FirstString(m, tag) == Ok(d)
  {
    FirstPartIs(m[tag].contents, d);
    GetStringsOfRead(m, tag);
  }

  /** Which digest of the general header is used: SHA-256 of tag 273, else SHA-1 of tag 269, else none. */
  lemma {:induction false} HashAndTypeIs(m: Entries, d: seq<byte>)
    requires WellFormed(m)
    ensures 273 in m && m[273].dataType in {6, 8, 9} && m[273].count > 0 && BeginsWith(m[273].contents, d) && d != []
            ==> HashAndType(m) == Ok((d, SHA256))
    ensures 273 !in m && 269 in m && m[269].dataType in {6, 8, 9} && m[269].count > 0 && BeginsWith(m[269].contents, d)
            ==> HashAndType(m) == Ok((d, SHA1))
    ensures 273 !in m && 269 !in m ==> HashAndType(m) == Ok(([], SHA1))
  {
    hide WellFormed, BeginsWith, Split;
    if 273 in m && m[273].dataType in {6, 8, 9} && m[273].count > 0 && BeginsWith(m[273].contents, d) {
      FirstStringIs(m, 273, d);
    }
    if 269 in m && m[269].dataType in {6, 8, 9} && m[269].count > 0 && BeginsWith(m[269].contents, d) {
      FirstStringIs(m, 269, d);
    }
  }

  /**
    A file is read only if the general header has the digest its signature header
    records; a digest of at most one character is not checked.
   */
  lemma {:induction false} HeaderDigestIsChecked(c: Crypto, s: seq<byte>)
    requires ReadRpm(c, s).Ok?
    ensures var r := ReadRpm(c, s).value;
            && HashAndType(r.sig.entries).Ok?
            && var (d, alg) := HashAndType(r.sig.entries).value;
               |d| > 1 ==> c.available(alg) && Hex(c.sum(alg, r.gen.orig)) == d
  {
    hide HashAndType, Hex, EntriesUpTo, Extents;
  }

  /** A general header with another digest is refused, and one whose digest cannot be computed makes reading panic. */
  lemma {:induction false} WrongDigestIsRefused(c: Crypto, s: seq<byte>, d: seq<byte>, alg: Algorithm, isSource: bool)
    requires Extents(s, false).Ok? && |d| > 1
    requires !c.available(alg) || Hex(c.sum(alg, s[..Extents(s, false).value.end])) != d
    ensures ParseHeader(c, s, d, alg, isSource, false) == if c.available(alg) then Err(DigestMismatch) else Panic
  {
    hide Extents, Hex;
  }

  /** A source package has the type 1, a big-endian number behind the magic and the version of the lead. */
  lemma {:induction false} SourceFlagOfLead(lead: seq<byte>)
    requires |lead| == 96
    ensures IsSourceLead(lead) <==> lead[6] == 0 && lead[7] == 1
  {
    var t := lead[6..8];
    assert t[..1] == [lead[6]] && [lead[6]][..0] == [];
    assert GetBE(t) == GetBE(t[..1]) * 256 + lead[7];
  }

  /** A file is read only if it has a lead with the magic bytes; the errors of files that have not. */
  lemma {:induction false} LeadIsChecked(c: Crypto, s: seq<byte>)
    ensures |s| < 96 ==> ReadRpm(c, s) == Err(HeaderTruncated)
    ensures |s| >= 96 && s[..4] != [0xed, 0xab, 0xee, 0xdb] ==> ReadRpm(c, s) == Err(NotAnRpm)
    ensures ReadRpm(c, s).Ok? ==> |s| >= 96 && s[..4] == [0xed, 0xab, 0xee, 0xdb]
  {
    hide HashAndType, ParseHeader, GetU32;
    if |s| >= 96 {
      MagicOfLead(s[..96]);
      assert s[..96][..4] == s[..4];
    }
  }

  lemma {:induction false} MagicOfLead(lead: seq<byte>)
    requires |lead| == 96
    ensures GetU32(lead[0..4]) == LEAD_MAGIC <==> lead[..4] == [0xed, 0xab, 0xee, 0xdb]
  {
    hide GetU32;
    assert lead[0..4] == lead[..4];
    FourBytes(lead[..4], 0xed, 0xab, 0xee, 0xdb);
  }

  /** On every file whose signature header can be read, ReadHeader panics if that header is of this kind. */
  lemma {:induction false} ReadPanicsOnDigest(c: Crypto, s: seq<byte>)
    requires ReadSignature(c, s).Ok?
    ensures var m := ReadSignature(c, s).value.1.entries;
            NoString(m, SIG_SHA256) || (!HasString(m, SIG_SHA256) && NoString(m, SIG_SHA1)) ==> ReadRpm(c, s) == Panic
  {
    hide ParseHeader, HashAndType, NoString, HasString, WellFormed;
    ReadHeaderInvariant(c, s[LEAD_LENGTH..], [], NoHash, IsSourceLead(s[..LEAD_LENGTH]), true);
    HashAndTypePanicsIff(ReadSignature(c, s).value.1.entries);
  }

  // ---- files assembled from headers ----------------------------------------

  /** A lead, the two headers and a payload in a row. */
  function AssembledFile(lead: seq<byte>, sig: Entries, gen: Entries, payload: seq<byte>): (s: seq<byte>) {
    lead + Serialized(sig, HEADER_SIGNATURES) + (Serialized(gen, HEADER_IMMUTABLE) + payload)
  }

  /** What reading such a file must give. */
  ghost function AssembledRpm(lead: seq<byte>, sig: Entries, gen: Entries): (r: Rpm)
    requires |lead| == LEAD_LENGTH
  {
    var src := IsSourceLead(lead);
    Rpm(lead, Header(Reread(sig, HEADER_SIGNATURES), src, Serialized(sig, HEADER_SIGNATURES)),
        Header(Reread(gen, HEADER_IMMUTABLE), src, Serialized(gen, HEADER_IMMUTABLE)))
  }

  /** A digest that matches does not change what is read. */
  lemma {:induction false} MatchingDigest(c: Crypto, s: seq<byte>, expected: seq<byte>, alg: Algorithm, isSource: bool,
                                          sigBlock: bool)
    requires var h := ParseHeader(c, s, [], alg, isSource, sigBlock);
             h.Ok? && CheckDigest(c, expected, alg, h.value.orig) == Ok(())
    ensures ParseHeader(c, s, expected, alg, isSource, sigBlock) == ParseHeader(c, s, [], alg, isSource, sigBlock)
  {
    hide Extents, EntriesUpTo;
  }

  /** Headers that are well-formed and fit, written into a file with a matching header digest, are read back. */
  lemma {:induction false} AssembledFileIsRead(c: Crypto, lead: seq<byte>, sig: Entries, gen: Entries,
                                               payload: seq<byte>,
                                               digest: seq<byte>, alg: Algorithm)
    requires |lead| == LEAD_LENGTH && GetU32(lead[0..4]) == LEAD_MAGIC
    requires Fits(sig) && WellFormed(Kept(sig)) && Fits(gen) && WellFormed(Kept(gen))
    requires HashAndType(sig) == Ok((digest, alg))
    requires CheckDigest(c, digest, alg, Serialized(gen, HEADER_IMMUTABLE)) == Ok(())
    ensures var s, r := AssembledFile(lead, sig, gen, payload), AssembledRpm(lead, sig, gen);
            ReadRpm(c, s) == Ok(r) && |s| >= PayloadStart(r) && s[PayloadStart(r)..] == payload
  {
    hide ParseHeader, Serialized, Fits, WellFormed, Reread, HashAndType, GetU32, GetBE, CheckDigest;
    var src := IsSourceLead(lead);
    var h, g := Serialized(sig, HEADER_SIGNATURES), Serialized(gen, HEADER_IMMUTABLE);
    SplicedSlices(lead, h, g + payload);
    RoundTrip(c, sig, HEADER_SIGNATURES, NoHash, src, g + payload);
    HashAndTypeOfReread(sig, HEADER_SIGNATURES);
    RoundTrip(c, gen, HEADER_IMMUTABLE, alg, src, payload);
    MatchingDigest(c, g + payload, digest, alg, src, false);
    var s := AssembledFile(lead, sig, gen, payload);
    assert s[LEAD_LENGTH + |h|..][|g|..] == s[LEAD_LENGTH + |h| + |g|..];
    assert (g + payload)[|g|..] == payload;
  }
}
