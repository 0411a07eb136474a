/** Signing an RPM and rewriting its signature header (signatures.go). */
module Signatures {
  import opened Bytes
  import opened Outcomes
  import opened Streams
  import opened Digests
  import opened Header
  import opened WriteHeader
  import opened HeaderGetters
  import opened SignatureHeader
  import opened RpmFile

  // ---- specification -------------------------------------------------------

  function SignatureEntry(value: seq<byte>): (e: Entry) { Entry(BIN_TYPE, Wrap32(|value|), value) }

  /** insertSignatures: the PGP and RSA entries are set, the GPG and DSA ones removed. */
  function WithSignatures(m: Entries, sigPgp: seq<byte>, sigRsa: seq<byte>): (r: Entries) {
    m[SIG_PGP := SignatureEntry(sigPgp)][SIG_RSA := SignatureEntry(sigRsa)] - {SIG_GPG, SIG_DSA}
  }

  /** PAYLOADDIGESTALGO values */
  function DigestAlgorithm(n: nat): (a: Option<Algorithm>) {
    if n == 1 then Some(MD5)
    else if n == 2 then Some(SHA1)
    else if n == 8 then Some(SHA256)
    else if n == 9 then Some(SHA384)
    else if n == 10 then Some(SHA512)
    else if n == 11 then Some(SHA224)
    else None
  }

  /** getPayloadDigest: None when the general header records no digest of a known kind. */
  function PayloadDigest(m: Entries): (r: Outcome<Option<(seq<byte>, Algorithm)>>) {
    match GetStrings(m, PAYLOADDIGEST)
    case Panic => Panic
    case Err(_) => Ok(None)
    case Ok(digests) =>
      if digests == [] then Ok(None)
      else match GetUint32s(m, PAYLOADDIGESTALGO)
        case Panic => Panic
        case Err(_) => Ok(None)
        case Ok(algos) =>
          if algos == [] then Ok(None)
          else match DigestAlgorithm(algos[0])
            case None => Ok(None)
            case Some(a) => Ok(Some((digests[0], a)))
  }

  /** The MD5 digest of header and payload in the signature header, if there is one. */
  function LegacyMd5(sig: Entries): (r: seq<byte>) {
    match GetBytes(sig, SIG_MD5)
    case Ok(v) => v
    case _ => []
  }

  /** digestPayload: the recorded digest of the payload must match. */
  function CheckPayload(c: Crypto, sig: Entries, gen: Header, payload: seq<byte>): (r: Outcome<()>) {
    var recorded :- PayloadDigest(gen.entries);
    match recorded
    case Some((value, alg)) =>
      if !c.available(alg) then Err(UnknownPayloadDigest)
      else if Hex(c.sum(alg, payload)) != value then Err(PayloadDigestMismatch)
      else Ok(())
    case None =>
      var md5 := LegacyMd5(sig);
      if md5 == [] then Err(NoPayloadDigest)
      else if c.sum(MD5, gen.orig + payload) != md5 then Err(PayloadDigestMismatch)
      else Ok(())
  }

  function Payload(s: seq<byte>, r: Rpm): (p: seq<byte>)
    requires PayloadStart(r) <= |s|
  {
    s[PayloadStart(r)..]
  }

  /** SignatureOptions; NoHash is a hash that was not set. */
  datatype Options = Options(hash: Algorithm)

  /** SignatureOptions.hash: the default applies only when there are no options at all. */
  function HashOf(opts: Option<Options>): (a: Algorithm) {
    match opts
    case None => SHA256
    case Some(o) => o.hash
  }

  /** The hash the documentation of SignatureOptions promises: SHA-256 when it is not set. */
  function DocumentedHash(opts: Option<Options>): (a: Algorithm) {
    match opts
    case None => SHA256
    case Some(o) => if o.hash == NoHash then SHA256 else o.hash
  }

  /** SignRpmStream on a stream holding s. */
  function Signed(c: Crypto, s: seq<byte>, key: Key, opts: Option<Options>): (r: Outcome<Rpm>) {
    var alg := HashOf(opts);
    var r :- ReadRpm(c, s);
    if !c.available(alg) then Panic
    else
      var payload := Payload(s, r);
      var _ :- CheckPayload(c, r.sig.entries, r.gen, payload);
      var sigPgp :- c.sign(key, alg, r.gen.orig + payload);
      var sigRsa :- c.sign(key, alg, r.gen.orig);
      Ok(r.(sig := r.sig.(entries := WithSignatures(r.sig.entries, sigPgp, sigRsa))))
  }

  /** The documented hash is used if and only if options, when present, set one. */
  lemma {:induction false} DocumentedHashIff(opts: Option<Options>)
    ensures HashOf(opts) == DocumentedHash(opts) <==> opts.None? || opts.value.hash != NoHash
    ensures HashOf(opts) == SHA256 <==> opts.None? || opts.value.hash == SHA256
  {
  }

  /** With options that leave the hash unset, signing a readable RPM panics. */
  lemma {:induction false} UnsetHashPanics(c: Crypto, s: seq<byte>, key: Key)
    requires ReadRpm(c, s).Ok? && !c.available(NoHash)
    ensures Signed(c, s, key, Some(Options(NoHash))) == Panic
  {
    hide ReadRpm, CheckPayload;
  }

  // ---- what an accepted payload has ----------------------------------------

  /** The algorithms a payload digest is recorded for, by their numbers. */
  predicate DigestNumber(n: nat, alg: Algorithm) {
    (n, alg) in {(1, MD5), (2, SHA1), (8, SHA256), (9, SHA384), (10, SHA512), (11, SHA224)}
  }

  /** The general header records the digest d, of the kind with number n. */
  predicate Records(m: Entries, d: seq<byte>, n: nat) {
    && GetStrings(m, 5092).Ok? && GetStrings(m, 5092).value != [] && GetStrings(m, 5092).value[0] == d
    && GetUint32s(m, 5093).Ok? && GetUint32s(m, 5093).value != [] && GetUint32s(m, 5093).value[0] == n
  }

  /** With a recorded digest of a known kind, a payload is accepted exactly when it has this digest. */
  lemma {:induction false} RecordedDigestIsChecked(c: Crypto, sig: Entries, gen: Header, payload: seq<byte>,
                                                   d: seq<byte>, n: nat, alg: Algorithm)
    requires Records(gen.entries, d, n) && DigestNumber(n, alg)
    ensures CheckPayload(c, sig, gen, payload)
         == if !c.available(alg) then Err(UnknownPayloadDigest)
            else if Hex(c.sum(alg, payload)) == d then Ok(())
            else Err(PayloadDigestMismatch)
  {
    hide GetStrings, GetUint32s, Hex;
  }

  /**
    Without one, a payload is accepted exactly when the signature header has an MD5
    digest and it is that of general header and payload.
   */
  lemma {:induction false} LegacyDigestIsChecked(c: Crypto, sig: Entries, gen: Header, payload: seq<byte>)
    requires GetStrings(gen.entries, 5092) != Panic
    requires forall d, n, alg :: Records(gen.entries, d, n) ==> !DigestNumber(n, alg)
    ensures var md5 := 1004 in sig && sig[1004].dataType == 7 && sig[1004].contents != [];
            CheckPayload(c, sig, gen, payload)
            == if !md5 then Err(NoPayloadDigest)
               else if c.sum(MD5, gen.orig + payload) == sig[1004].contents then Ok(())
               else Err(PayloadDigestMismatch)
  {
    hide GetStrings, GetUint32s, Hex, PayloadDigest, Records, DigestNumber;
    PayloadDigestIsRecorded(gen.entries);
  }

  lemma {:induction false} PayloadDigestIsRecorded(m: Entries)
    ensures PayloadDigest(m) == Panic <==> GetStrings(m, 5092) == Panic
    ensures !PayloadDigest(m).Err?
    ensures PayloadDigest(m).Ok? && PayloadDigest(m).value.Some? ==>
      var (d, alg) := PayloadDigest(m).value.value;
      exists n :: Records(m, d, n) && DigestNumber(n, alg)
  {
    hide GetStrings, GetUint32s;
    IntsNeverPanic(m, 5093);
    if PayloadDigest(m).Ok? && PayloadDigest(m).value.Some? {
      var (d, alg) := PayloadDigest(m).value.value;
      assert Records(m, d, GetUint32s(m, 5093).value[0]);
    }
  }

  lemma {:induction false} IntsNeverPanic(m: Entries, tag: int)
    ensures GetUint32s(m, tag) != Panic
  {
    hide DecodeInts;
  }

  // ---- hashing -------------------------------------------------------------

  /** hash.Hash: the bytes absorbed so far determine every result. */
  class HashState {
    const alg: Algorithm
    var absorbed: seq<byte>

    constructor (alg: Algorithm)
      ensures this.alg == alg && absorbed == []
    {
      this.alg, absorbed := alg, [];
    }

    method Write(b: seq<byte>)
      modifies this
      ensures absorbed == old(absorbed) + b
    {
      absorbed := absorbed + b;
    }
  }

  ghost predicate Distinct(w: seq<HashState>) {
    forall i, j :: 0 <= i < j < |w| ==> w[i] != w[j]
  }

  const COPY_BUFFER := 32768

  /** io.MultiWriter: every writer gets the same bytes. */
  method WriteAll(writers: seq<HashState>, b: seq<byte>)
    requires Distinct(writers)
    modifies writers
    ensures forall i :: 0 <= i < |writers| ==> writers[i].absorbed == old(writers[i].absorbed) + b
  {
    var i := 0;
    while i < |writers|
      invariant 0 <= i <= |writers|
      invariant forall k :: 0 <= k < i ==> writers[k].absorbed == old(writers[k].absorbed) + b
      invariant forall k :: i <= k < |writers| ==> writers[k].absorbed == old(writers[k].absorbed)
    {
      writers[i].Write(b);
      i := i + 1;
    }
  }

  /** io.Copy into a MultiWriter: all writers absorb the whole rest of the stream, in any chunking. */
  method CopyAll(src: Source, writers: seq<HashState>)
    requires src.Valid() && Distinct(writers)
    modifies src, writers
    ensures src.Valid() && src.pos == |src.data|
    ensures forall i :: 0 <= i < |writers| ==>
      writers[i].absorbed == old(writers[i].absorbed) + src.data[old(src.pos)..]
  {
    var err: Option<Error> := None;
    while err.None?
      invariant src.Valid() && old(src.pos) <= src.pos
      invariant err.Some? ==> src.pos == |src.data|
      invariant forall i :: 0 <= i < |writers| ==>
        writers[i].absorbed == old(writers[i].absorbed) + src.data[old(src.pos)..src.pos]
      decreases |src.data| - src.pos, |src.limits|, err.None?
    {
      var b;
      label before:
      b, err := src.Read(COPY_BUFFER);
      assert src.data[old(src.pos)..src.pos] == src.data[old(src.pos)..old@before(src.pos)] + b;
      WriteAll(writers, b);
    }
    assert src.data[old(src.pos)..src.pos] == src.data[old(src.pos)..];
  }

  method DigestPayload(c: Crypto, sig: Entries, gen: Header, src: Source, payloadWriters: seq<HashState>)
    returns (r: Outcome<()>)
    requires src.Valid() && Distinct(payloadWriters)
    modifies src, payloadWriters
    ensures src.Valid() && r == CheckPayload(c, sig, gen, src.data[old(src.pos)..])
    ensures r.Ok? ==>
      && src.pos == |src.data|
      && forall i :: 0 <= i < |payloadWriters| ==>
           payloadWriters[i].absorbed == old(payloadWriters[i].absorbed) + src.data[old(src.pos)..]
  {
    hide PayloadDigest, LegacyMd5;
    var recorded := PayloadDigest(gen.entries);
    if recorded.IsFailure() {
      return recorded.PropagateFailure();
    }
    if recorded.value.Some? {
      var (value, alg) := recorded.value.value;
      if !c.available(alg) {
        return Err(UnknownPayloadDigest);
      }
      var payloadHasher := new HashState(alg);
      CopyAll(src, payloadWriters + [payloadHasher]);
      ghost var all := payloadWriters + [payloadHasher];
      assert all[|payloadWriters|] == payloadHasher;
      assert forall i :: 0 <= i < |payloadWriters| ==> all[i] == payloadWriters[i];
      assert payloadHasher.absorbed == src.data[old(src.pos)..];
      if Hex(c.sum(payloadHasher.alg, payloadHasher.absorbed)) != value {
        return Err(PayloadDigestMismatch);
      }
      return Ok(());
    }
    var sigmd5 := LegacyMd5(sig);
    if sigmd5 != [] {
      var payloadHasher := new HashState(MD5);
      payloadHasher.Write(gen.orig);
      CopyAll(src, payloadWriters + [payloadHasher]);
      ghost var all := payloadWriters + [payloadHasher];
      assert all[|payloadWriters|] == payloadHasher;
      assert forall i :: 0 <= i < |payloadWriters| ==> all[i] == payloadWriters[i];
      assert payloadHasher.absorbed == gen.orig + src.data[old(src.pos)..];
      if c.sum(payloadHasher.alg, payloadHasher.absorbed) != sigmd5 {
        return Err(PayloadDigestMismatch);
      }
      return Ok(());
    }
    return Err(NoPayloadDigest);
  }

  // ---- signing -------------------------------------------------------------

  method InsertSignature(sigHeader: HeaderArea, tag: int, value: seq<byte>)
    modifies sigHeader
    ensures sigHeader.entries == old(sigHeader.entries)[tag := SignatureEntry(value)]
  {
    sigHeader.entries := sigHeader.entries[tag := Entry(BIN_TYPE, Wrap32(|value|), value)];
  }

  method InsertSignatures(sigHeader: HeaderArea, sigPgp: seq<byte>, sigRsa: seq<byte>)
    modifies sigHeader
    ensures sigHeader.entries == WithSignatures(old(sigHeader.entries), sigPgp, sigRsa)
  {
    InsertSignature(sigHeader, SIG_PGP, sigPgp);
    InsertSignature(sigHeader, SIG_RSA, sigRsa);
    sigHeader.entries := sigHeader.entries - {SIG_GPG};
    sigHeader.entries := sigHeader.entries - {SIG_DSA};
  }

  /** genHash absorbs the general header, combinedHash the general header and the payload. */
  method DigestForSigning(c: Crypto, sig: Entries, gen: Header, src: Source, alg: Algorithm)
    returns (genHash: HashState, combinedHash: HashState, r: Outcome<()>)
    requires src.Valid()
    modifies src
    ensures src.Valid() && fresh(genHash) && fresh(combinedHash)
    ensures genHash.alg == alg && combinedHash.alg == alg
    ensures r == CheckPayload(c, sig, gen, src.data[old(src.pos)..])
    ensures r.Ok? ==>
      && src.pos == |src.data| && genHash.absorbed == gen.orig
      && combinedHash.absorbed == gen.orig + src.data[old(src.pos)..]
  {
    genHash := new HashState(alg);
    combinedHash := new HashState(alg);
    genHash.Write(gen.orig);
    combinedHash.Write(gen.orig);
    var writers := [combinedHash];
    r := DigestPayload(c, sig, gen, src, writers);
    assert writers[0] == combinedHash;
  }

  /** The value of an RPM header object. */
  ghost function ValueOf(h: RpmHeader): (r: Rpm)
    reads h.sigHeader, h.genHeader
  {
    Rpm(h.lead, Header(h.sigHeader.entries, h.sigHeader.isSource, h.sigHeader.orig),
        Header(h.genHeader.entries, h.genHeader.isSource, h.genHeader.orig))
  }

  method SignRpmStream(c: Crypto, src: Source, key: Key, opts: Option<Options>) returns (header: Outcome<RpmHeader>)
    requires src.Valid()
    modifies src
    ensures src.Valid()
    ensures var r := Signed(c, src.data[old(src.pos)..], key, opts);
            && (r.Ok? ==> header.Ok? && ValueOf(header.value) == r.value && fresh(header.value.sigHeader))
            && (r.IsFailure() ==> header == r.PropagateFailure())
  {
    hide ReadRpm, CheckPayload, WithSignatures;
    ghost var s := src.data[src.pos..];
    var both := ReadBothHeaders(c, src);
    if both.IsFailure() {
      return both.PropagateFailure();
    }
    var r := both.value;
    var alg := HashOf(opts);
    if !c.available(alg) {
      return Panic;
    }
    ghost var payload := Payload(s, r);
    assert payload == src.data[src.pos..];
    var genHash, combinedHash, digests := DigestForSigning(c, r.sig.entries, r.gen, src, alg);
    if digests.IsFailure() {
      return digests.PropagateFailure();
    }
    var sigPgp := c.sign(key, combinedHash.alg, combinedHash.absorbed);
    if sigPgp.IsFailure() {
      return sigPgp.PropagateFailure();
    }
    var sigRsa := c.sign(key, genHash.alg, genHash.absorbed);
    if sigRsa.IsFailure() {
      return sigRsa.PropagateFailure();
    }
    var sigArea := new HeaderArea(r.sig);
    var genArea := new HeaderArea(r.gen);
    InsertSignatures(sigArea, sigPgp.value, sigRsa.value);
    var h := new RpmHeader(r.lead, sigArea, genArea);
    return Ok(h);
  }

  // ---- rewriting a file ----------------------------------------------------

  /** What is left behind position n; nothing behind the end. */
  function From(file: seq<byte>, n: nat): (t: seq<byte>) { if n <= |file| then file[n..] else [] }

  /** The file after writing the padded dump over its beginning. */
  function OverwrittenFile(file: seq<byte>, lead: seq<byte>, m: Entries, available: nat): (t: seq<byte>) {
    lead + DumpedHeader(m, available, true) + From(file, LEAD_LENGTH + available)
  }

  /** The file writeRpm produces: the old lead, the new header, the rest of the old file. */
  function RewrittenFile(file: seq<byte>, m: Entries, available: nat): (t: seq<byte>)
    requires LEAD_LENGTH <= |file|
  {
    file[..LEAD_LENGTH] + Serialized(m, HEADER_SIGNATURES) + From(file, LEAD_LENGTH + available)
  }

  /** writeInPlace, on the contents of the file; the result is false when the size has changed. */
  method WriteInPlace(file: seq<byte>, header: RpmHeader) returns (ok: Outcome<bool>, out: seq<byte>)
    modifies header.sigHeader
    ensures var m, n := old(header.sigHeader.entries), |header.sigHeader.orig|;
            if |header.lead| != LEAD_LENGTH then ok == Err(BadLead) && header.sigHeader.entries == m && out == file
            else
              && ok == Ok(|DumpedHeader(m, n, true)| == n)
              && header.sigHeader.entries == DumpEntries(m, n, true)
              && out == if ok.value then OverwrittenFile(file, header.lead, m, n) else file
  {
    hide DumpedHeader, DumpEntries;
    var blob := header.DumpSignatureHeader(true);
    if blob.IsFailure() {
      return blob.PropagateFailure(), file;
    }
    var orig := header.OriginalSignatureHeaderSize();
    if orig != |blob.value| {
      return Ok(false), file;
    }
    return Ok(true), blob.value + From(file, |blob.value|);
  }

  /** writeRpm */
  method WriteRpm(file: seq<byte>, sigHeader: HeaderArea) returns (out: Outcome<seq<byte>>)
    ensures out == if |file| < LEAD_LENGTH then Err(if file == [] then EOF else UnexpectedEOF)
                   else Ok(RewrittenFile(file, sigHeader.entries, |sigHeader.orig|))
  {
    hide Serialized;
    var lead := FullAt(file, 0, LEAD_LENGTH).out;
    if lead.IsFailure() {
      return lead.PropagateFailure();
    }
    var outstream := new Sink(true);
    outstream.Write(lead.value);
    assert outstream.written == lead.value;
    var w := sigHeader.WriteTo(outstream, HEADER_SIGNATURES);
    assert w.Ok?;
    outstream.Write(From(file, |lead.value| + |sigHeader.orig|));
    out := Ok(outstream.kept);
  }

  /** The entries rewriteRpm leaves in a header. */
  function EntriesAfterRewrite(canOverwrite: bool, lead: seq<byte>, m: Entries, n: nat): (r: Entries) {
    DumpEntries(m, n, canOverwrite && |lead| == LEAD_LENGTH)
  }

  /** What rewriteRpm leaves as the output file, if it succeeds: in place when it may and the size is kept. */
  function FileAfterRewrite(file: seq<byte>, canOverwrite: bool, lead: seq<byte>, m: Entries, n: nat)
    : (t: Outcome<seq<byte>>)
  {
    if canOverwrite && |lead| != LEAD_LENGTH then Err(BadLead)
    else if canOverwrite && |DumpedHeader(m, n, true)| == n then Ok(OverwrittenFile(file, lead, m, n))
    else if |file| < LEAD_LENGTH then Err(if file == [] then EOF else UnexpectedEOF)
    else Ok(RewrittenFile(file, EntriesAfterRewrite(canOverwrite, lead, m, n), n))
  }

  /**
    rewriteRpm on the contents of the input file: in place when the output is the
    same file and the padded dump has the old size, otherwise as a new file.
   */
  method RewriteRpm(file: seq<byte>, canOverwrite: bool, header: RpmHeader) returns (out: Outcome<seq<byte>>)
    modifies header.sigHeader
    ensures var m, n := old(header.sigHeader.entries), |header.sigHeader.orig|;
            && out == FileAfterRewrite(file, canOverwrite, header.lead, m, n)
            && header.sigHeader.entries == EntriesAfterRewrite(canOverwrite, header.lead, m, n)
  {
    hide Serialized, DumpedHeader, OverwrittenFile, RewrittenFile, DumpEntries;
    ghost var m, n := header.sigHeader.entries, |header.sigHeader.orig|;
    header.sigHeader.entries := header.sigHeader.entries - {RESERVED_SPACE};
    DeleteFirst(m, n);
    SmallDump(m, n);
    assert header.sigHeader.entries == WithoutReserved(m);
    if canOverwrite {
      var ok, written := WriteInPlace(file, header);
      if ok.IsFailure() {
        return ok.PropagateFailure();
      }
      if ok.value {
        return Ok(written);
      }
    }
    out := WriteRpm(file, header.sigHeader);
  }

  /** Exactly when rewriting fails, and how; for a file and a header that were read it does not. */
  lemma {:induction false} RewriteFailsIff(file: seq<byte>, canOverwrite: bool, lead: seq<byte>, m: Entries, n: nat)
    ensures var t, inPlace := FileAfterRewrite(file, canOverwrite, lead, m, n), |DumpedHeader(m, n, true)| == n;
            && (t == Err(BadLead) <==> canOverwrite && |lead| != 96)
            && (t == Err(EOF) <==> file == [] && !(canOverwrite && (|lead| != 96 || inPlace)))
            && (t == Err(UnexpectedEOF) <==> 0 < |file| < 96 && !(canOverwrite && (|lead| != 96 || inPlace)))
            && (t.Ok? <==> t !in {Err(BadLead), Err(EOF), Err(UnexpectedEOF)})
            && (|lead| == 96 <= |file| ==> t.Ok?)
    ensures |lead| != 96 || !canOverwrite ==> 1008 !in EntriesAfterRewrite(canOverwrite, lead, m, n)
  {
    hide DumpedHeader, Serialized;
  }

  /** Over a header that was read, a new file has no reserved space, whatever was tried before. */
  lemma {:induction false} NewFileHasNoReservedSpace(file: seq<byte>, canOverwrite: bool, lead: seq<byte>, m: Entries,
                                                     n: nat)
    requires n % 8 == 0 && |lead| == LEAD_LENGTH <= |file| && !(canOverwrite && |DumpedHeader(m, n, true)| == n)
    ensures FileAfterRewrite(file, canOverwrite, lead, m, n) == Ok(RewrittenFile(file, WithoutReserved(m), n))
  {
    hide DumpedHeader, RewrittenFile, DumpEntries;
    SmallDump(m, n);
    if canOverwrite {
      FallbackHasNoReservedSpace(m, n);
    }
  }

  /** Deleting the reserved space beforehand makes no difference to a dump. */
  lemma {:induction false} DeleteFirst(m: Entries, n: nat)
    ensures DumpEntries(WithoutReserved(m), n, true) == DumpEntries(m, n, true)
    ensures DumpedHeader(WithoutReserved(m), n, true) == DumpedHeader(m, n, true)
    ensures forall f, l :: OverwrittenFile(f, l, WithoutReserved(m), n) == OverwrittenFile(f, l, m, n)
  {
    hide Serialized;
    assert WithoutReserved(WithoutReserved(m)) == WithoutReserved(m);
  }

  lemma {:induction false} SmallDump(m: Entries, n: nat)
    ensures DumpEntries(m, n, false) == WithoutReserved(m)
  {
    hide Serialized;
  }
}
