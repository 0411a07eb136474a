/**
  What signing, dumping, splicing and verifying promise together
  (signatures.go, writeheader.go, verify.go).
 */
module SignedFiles {
  import opened Bytes
  import opened Outcomes
  import opened Digests
  import opened Header
  import opened WriteHeader
  import opened HeaderCodec
  import opened HeaderGetters
  import opened SignatureHeader
  import opened RpmFile
  import opened Signatures
  import opened Verify

  /** Signatures of the key with this hash parse, name the hash, and are accepted under the ring. */
  ghost predicate Trusts(c: Crypto, key: Key, alg: Algorithm, ring: KeyRing) {
    forall m :: c.sign(key, alg, m).Ok? ==>
      var p := c.parse(c.sign(key, alg, m).value);
      p.Ok? && p.value.hash == alg && c.validate(p.value, ring, m)
  }

  // ---- dumped entries are well-formed --------------------------------------

  /** In a header that fits, every blob is shorter than 2 GiB. */
  lemma {:induction false} BlobFits(m: Entries, tag: int)
    requires Fits(m) && tag in m && tag >= HEADER_REGIONS
    ensures |m[tag].contents| < TWO_TO_31
  {
    hide AddTags, Tags, OffsetOf;
    var keys := Tags(m);
    assert tag in keys;
    var i :| 0 <= i < |keys| && keys[i] == tag;
    LayoutAt(keys, m, i);
  }

  lemma {:induction false} BinaryEntryIsWellFormed(n: nat, e: Entry)
    requires e == Entry(BIN_TYPE, Wrap32(n), e.contents) && |e.contents| == n < TWO_TO_31
    ensures WellFormedEntry(e)
  {
  }

  lemma {:induction false} DumpedIsWellFormed(read: Entries, m: Entries, n: nat, sameSize: bool, sigPgp: seq<byte>,
                                              sigRsa: seq<byte>)
    requires WellFormed(read) && m == WithSignatures(read, sigPgp, sigRsa) && Fits(DumpEntries(m, n, sameSize))
    ensures WellFormed(Kept(DumpEntries(m, n, sameSize)))
  {
    hide Fits, WellFormedEntry, Serialized, Needed, Wrap32, Zeros;
    var d := DumpEntries(m, n, sameSize);
    forall k | k in Kept(d)
      ensures -TWO_TO_31 <= k < TWO_TO_31 && WellFormedEntry(Kept(d)[k])
    {
      BlobFits(d, k);
      if k == SIG_PGP || k == SIG_RSA || k == RESERVED_SPACE {
        BinaryEntryIsWellFormed(|d[k].contents|, d[k]);
      } else {
        assert k in read && read[k] == d[k];
      }
    }
  }

  lemma {:induction false} DumpedIsSameAt(read: Entries, n: nat, sameSize: bool, sigPgp: seq<byte>, sigRsa: seq<byte>,
                                          tag: int)
    requires tag !in {SIG_PGP, SIG_RSA, SIG_GPG, SIG_DSA, RESERVED_SPACE}
    ensures SameAt(DumpEntries(WithSignatures(read, sigPgp, sigRsa), n, sameSize), read, tag)
  {
    hide Needed, ReservedEntry, SignatureEntry;
  }

  lemma {:induction false} DumpedSignatures(read: Entries, n: nat, sameSize: bool, sigPgp: seq<byte>, sigRsa: seq<byte>)
    ensures var r := Reread(DumpEntries(WithSignatures(read, sigPgp, sigRsa), n, sameSize), HEADER_SIGNATURES);
            && GetBytes(r, SIG_RSA) == Ok(sigRsa) && GetBytes(r, SIG_PGP) == Ok(sigPgp)
            && SIG_DSA !in r && SIG_GPG !in r
  {
    hide Needed, ReservedEntry, RegionEntry, Tags;
  }

  // ---- the signed file -----------------------------------------------------

  /** The bytes the documentation tells to put in place of the first OriginalSignatureHeaderSize() bytes. */
  function SignedFile(s: seq<byte>, h: Rpm, sameSize: bool): (t: seq<byte>)
    requires LEAD_LENGTH + |h.sig.orig| <= |s|
  {
    h.lead + DumpedHeader(h.sig.entries, |h.sig.orig|, sameSize) + s[LEAD_LENGTH + |h.sig.orig|..]
  }

  lemma {:induction false} SamePayloadCheck(c: Crypto, m: Entries, w: Entries, gen: Header, payload: seq<byte>)
    requires SameAt(m, w, SIG_MD5)
    ensures CheckPayload(c, m, gen, payload) == CheckPayload(c, w, gen, payload)
  {
    hide PayloadDigest;
  }

  /** The signatures a verifier finds in the signed file. */
  lemma {:induction false} FoundSignatures(c: Crypto, r: Entries, key: Key, alg: Algorithm, ring: KeyRing,
                                           gen: seq<byte>, all: seq<byte>)
    requires Trusts(c, key, alg, ring) && c.available(alg)
    requires c.sign(key, alg, all).Ok? && c.sign(key, alg, gen).Ok?
    requires GetBytes(r, SIG_RSA) == Ok(c.sign(key, alg, gen).value) && SIG_DSA !in r
    requires GetBytes(r, SIG_PGP) == Ok(c.sign(key, alg, all).value) && SIG_GPG !in r
    ensures var rsa, pgp := c.parse(c.sign(key, alg, gen).value), c.parse(c.sign(key, alg, all).value);
            && rsa.Ok? && pgp.Ok?
            && FindSignatures(c, r) == Ok([Signature(rsa.value, true), Signature(pgp.value, false)])
            && c.validate(rsa.value, ring, gen) && c.validate(pgp.value, ring, all)
  {
    var rsa, pgp := c.parse(c.sign(key, alg, gen).value), c.parse(c.sign(key, alg, all).value);
    assert [] + [Signature(rsa.value, true)] == [Signature(rsa.value, true)];
    assert [Signature(rsa.value, true)] + [Signature(pgp.value, false)]
        == [Signature(rsa.value, true), Signature(pgp.value, false)];
  }

  /** The entries the dump of a signed header holds. */
  function SignedEntries(h: Rpm, sameSize: bool): (d: Entries) {
    DumpEntries(h.sig.entries, |h.sig.orig|, sameSize)
  }

  /** Reading the signed file, when the new signature header fits its 32-bit fields. */
  lemma {:induction false} SignedFileIsRead(c: Crypto, s: seq<byte>, key: Key, opts: Option<Options>, sameSize: bool,
                                            h: Rpm, r: Rpm)
    requires Signed(c, s, key, opts) == Ok(h) && ReadRpm(c, s) == Ok(r)
    requires Fits(SignedEntries(h, sameSize))
    ensures h.sig.orig == r.sig.orig && LEAD_LENGTH + |h.sig.orig| <= |s|
    ensures var t, z := SignedFile(s, h, sameSize), SplicedRpm(r, SignedEntries(h, sameSize));
            && ReadRpm(c, t) == Ok(z)
            && PayloadStart(z) <= |t| && Payload(t, z) == Payload(s, r)
  {
    hide ReadRpm, CheckPayload, DumpEntries, WithSignatures, Serialized, Fits, WellFormed, HashAndType,
      SplicedRpm, Kept;
    var payload := Payload(s, r);
    var pgp, rsa := c.sign(key, HashOf(opts), r.gen.orig + payload).value, c.sign(key, HashOf(opts), r.gen.orig).value;
    var d := SignedEntries(h, sameSize);
    ReadEntriesAreWellFormed(c, s);
    DumpedIsWellFormed(r.sig.entries, h.sig.entries, |h.sig.orig|, sameSize, pgp, rsa);
    DumpedIsSameAt(r.sig.entries, |h.sig.orig|, sameSize, pgp, rsa, SIG_SHA256);
    DumpedIsSameAt(r.sig.entries, |h.sig.orig|, sameSize, pgp, rsa, SIG_SHA1);
    SameHashAndType(d, r.sig.entries);
    SpliceIsRead(c, s, d);
  }

  lemma {:induction false} ReadEntriesAreWellFormed(c: Crypto, s: seq<byte>)
    requires ReadRpm(c, s).Ok?
    ensures WellFormed(ReadRpm(c, s).value.sig.entries) && |ReadRpm(c, s).value.sig.orig| % 8 == 0
  {
    hide ParseHeader, HashAndType, WellFormed;
    ReadHeaderInvariant(c, s[LEAD_LENGTH..], [], NoHash, IsSourceLead(s[..LEAD_LENGTH]), true);
  }

  /**
    Sign, dump, splice, verify. For every stream that can be signed, putting the
    dumped lead and signature header in place of the original ones gives a file
    that Verify accepts: the signature header takes exactly the dumped bytes, the
    general header and the payload are unchanged, the header and payload digests
    still match, and the two signatures found are the RSA one over the general
    header and the PGP one over general header and payload.
   */
  lemma {:induction false} SignedFileVerifies(c: Crypto, s: seq<byte>, key: Key, opts: Option<Options>, ring: KeyRing,
                                              sameSize: bool, h: Rpm, r: Rpm)
    requires Signed(c, s, key, opts) == Ok(h) && ReadRpm(c, s) == Ok(r) && Trusts(c, key, HashOf(opts), ring)
    requires Fits(SignedEntries(h, sameSize))
    ensures h.sig.orig == r.sig.orig && LEAD_LENGTH + |h.sig.orig| <= |s|
    ensures var t, z := SignedFile(s, h, sameSize), SplicedRpm(r, SignedEntries(h, sameSize));
            var gen, all := r.gen.orig, r.gen.orig + Payload(s, r);
            var rsa, pgp := c.sign(key, HashOf(opts), gen), c.sign(key, HashOf(opts), all);
            && rsa.Ok? && pgp.Ok? && c.parse(rsa.value).Ok? && c.parse(pgp.value).Ok?
            && PayloadStart(z) <= |t| && Payload(t, z) == Payload(s, r)
            && Verified(c, t, ring)
               == Ok((z, [Signature(c.parse(rsa.value).value, true), Signature(c.parse(pgp.value).value, false)]))
  {
    hide ReadRpm, CheckPayload, DumpEntries, WithSignatures, Serialized, Fits, FindSignatures, SplicedRpm, Reread,
      SignedFile, Trusts;
    var n, d := |h.sig.orig|, SignedEntries(h, sameSize);
    SignedFileIsRead(c, s, key, opts, sameSize, h, r);
    var gen, all := r.gen.orig, r.gen.orig + Payload(s, r);
    var pgp, rsa := c.sign(key, HashOf(opts), all).value, c.sign(key, HashOf(opts), gen).value;
    var back := Reread(d, HEADER_SIGNATURES);
    DumpedSignatures(r.sig.entries, n, sameSize, pgp, rsa);
    FoundSignatures(c, back, key, HashOf(opts), ring, gen, all);
    DumpedIsSameAt(r.sig.entries, n, sameSize, pgp, rsa, SIG_MD5);
    RereadIsSameAt(d, HEADER_SIGNATURES, SIG_MD5);
    SamePayloadCheck(c, back, r.sig.entries, r.gen, Payload(s, r));
    SplicedParts(r, d);
  }

  /** The condition is necessary: a signed file that verifies with these headers fits the 32-bit fields. */
  lemma {:induction false} SignedFileVerifiesIff(c: Crypto, s: seq<byte>, key: Key, opts: Option<Options>,
                                                 ring: KeyRing,
                                                 sameSize: bool, h: Rpm, r: Rpm)
    requires Signed(c, s, key, opts) == Ok(h) && ReadRpm(c, s) == Ok(r) && Trusts(c, key, HashOf(opts), ring)
    requires LEAD_LENGTH + |h.sig.orig| <= |s|
    ensures var v := Verified(c, SignedFile(s, h, sameSize), ring);
            Fits(SignedEntries(h, sameSize)) <==> v.Ok? && v.value.0 == SplicedRpm(r, SignedEntries(h, sameSize))
  {
    hide ReadRpm, CheckPayload, DumpEntries, WithSignatures, Serialized, Fits, FindSignatures, SplicedRpm, Trusts;
    var d := SignedEntries(h, sameSize);
    if Fits(d) {
      SignedFileVerifies(c, s, key, opts, ring, sameSize, h, r);
    }
    var v := Verified(c, SignedFile(s, h, sameSize), ring);
    if v.Ok? && v.value.0 == SplicedRpm(r, d) {
      SpliceReadMeansFits(c, s, d);
    }
  }

  lemma {:induction false} SplicedParts(r: Rpm, d: Entries)
    ensures SplicedRpm(r, d).sig.entries == Reread(d, HEADER_SIGNATURES) && SplicedRpm(r, d).gen == r.gen
  {
  }

  /**
    Which files can be signed: one assembled from headers that fit, with a
    matching header digest and a matching digest of the payload, is signed
    whenever the key can sign.
   */
  lemma {:induction false} AssembledFileIsSigned(c: Crypto, lead: seq<byte>, sig: Entries, gen: Entries,
                                                 payload: seq<byte>,
                                                 digest: seq<byte>, headerAlg: Algorithm, key: Key,
                                                 opts: Option<Options>)
    requires |lead| == LEAD_LENGTH && GetU32(lead[0..4]) == LEAD_MAGIC
    requires Fits(sig) && WellFormed(Kept(sig)) && Fits(gen) && WellFormed(Kept(gen))
    requires HashAndType(sig) == Ok((digest, headerAlg))
    requires CheckDigest(c, digest, headerAlg, Serialized(gen, HEADER_IMMUTABLE)) == Ok(())
    requires CheckPayload(c, sig, AssembledRpm(lead, sig, gen).gen, payload) == Ok(())
    requires c.available(HashOf(opts)) && forall m :: c.sign(key, HashOf(opts), m).Ok?
    ensures var s, r := AssembledFile(lead, sig, gen, payload), AssembledRpm(lead, sig, gen);
            && Signed(c, s, key, opts).Ok? && PayloadStart(r) <= |s| && Payload(s, r) == payload
  {
    hide ReadRpm, CheckPayload, Serialized, Fits, WellFormed, HashAndType, Reread, CheckDigest;
    AssembledFileIsRead(c, lead, sig, gen, payload, digest, headerAlg);
    RereadIsSameAt(sig, HEADER_SIGNATURES, SIG_MD5);
    SamePayloadCheck(c, Reread(sig, HEADER_SIGNATURES), sig, AssembledRpm(lead, sig, gen).gen, payload);
  }

  // ---- in place or as a new file -------------------------------------------

  lemma {:induction false} FitsWithoutReserved(m: Entries, n: nat)
    requires n % 8 == 0 && Fits(DumpEntries(m, n, true))
    ensures Fits(WithoutReserved(m))
  {
    hide Layout, Tags, Serialized, Padding, ReservedEntry;
    var m0 := WithoutReserved(m);
    if Needed(m) + 16 <= n {
      SerializedLength(m0, HEADER_SIGNATURES);
      LayoutWithReserved(m0, n - Needed(m) - 16);
    }
  }

  /**
    Writing in place and writing a new file agree: both files have the lead, the
    general header and the payload of the original, and the same signature
    entries except the reserved space, which only the first one may hold.
   */
  lemma {:induction false} RewritesAgree(c: Crypto, s: seq<byte>, m: Entries)
    requires ReadRpm(c, s).Ok? && HashAndType(m) == HashAndType(ReadRpm(c, s).value.sig.entries)
    requires var n := |ReadRpm(c, s).value.sig.orig|;
             Fits(DumpEntries(m, n, true)) && WellFormed(Kept(DumpEntries(m, n, true)))
    ensures var r := ReadRpm(c, s).value;
            var n := |r.sig.orig|;
            var over, full := OverwrittenFile(s, r.lead, m, n), RewrittenFile(s, WithoutReserved(m), n);
            var a, b := ReadRpm(c, over), ReadRpm(c, full);
            && a.Ok? && b.Ok?
            && a.value.lead == b.value.lead == r.lead && a.value.gen == b.value.gen == r.gen
            && Payload(over, a.value) == Payload(full, b.value) == Payload(s, r)
            && RESERVED_SPACE !in b.value.sig.entries
            && forall t :: t >= HEADER_REGIONS && t != RESERVED_SPACE ==>
                 SameAt(a.value.sig.entries, m, t) && SameAt(b.value.sig.entries, m, t)
  {
    hide ReadRpm, Serialized, Fits, WellFormed, HashAndType, SameAt;
    var r := ReadRpm(c, s).value;
    var n := |r.sig.orig|;
    var d, w := DumpEntries(m, n, true), WithoutReserved(m);
    ReadEntriesAreWellFormed(c, s);
    FitsWithoutReserved(m, n);
    KeptWithoutReserved(m, n);
    forall t | t >= HEADER_REGIONS && t != RESERVED_SPACE
      ensures SameAt(d, m, t) && SameAt(w, m, t)
      ensures SameAt(Reread(d, HEADER_SIGNATURES), m, t) && SameAt(Reread(w, HEADER_SIGNATURES), m, t)
    {
      DumpIsSameAt(m, n, t);
      SameAtTransitive(d, m, t);
      SameAtTransitive(w, m, t);
    }
    SameHashAndType(d, m);
    SameHashAndType(w, m);
    SpliceIsRead(c, s, d);
    SpliceIsRead(c, s, w);
    NoReservedSpace(m);
  }

  /** Whether rewriteRpm writes in place. */
  predicate InPlace(canOverwrite: bool, h: Rpm) {
    canOverwrite && |DumpedHeader(h.sig.entries, |h.sig.orig|, true)| == |h.sig.orig|
  }

  /** What rewriteRpm writes for a signed header is the signed file, with or without reserved space. */
  lemma {:induction false} RewriteIsSignedFile(c: Crypto, s: seq<byte>, key: Key, opts: Option<Options>,
                                               canOverwrite: bool, h: Rpm)
    requires Signed(c, s, key, opts) == Ok(h)
    ensures LEAD_LENGTH + |h.sig.orig| <= |s|
    ensures FileAfterRewrite(s, canOverwrite, h.lead, h.sig.entries, |h.sig.orig|)
         == Ok(SignedFile(s, h, InPlace(canOverwrite, h)))
  {
    hide ReadRpm, CheckPayload, WithSignatures, Serialized;
    ReadEntriesAreWellFormed(c, s);
    SmallDump(h.sig.entries, |h.sig.orig|);
    if !InPlace(canOverwrite, h) {
      NewFileHasNoReservedSpace(s, canOverwrite, h.lead, h.sig.entries, |h.sig.orig|);
    }
  }

  /**
    Signing a file: whatever rewriteRpm leaves as the output, in place or as a new
    file, is accepted by Verify with the two signatures just made, provided the new
    signature header fits its 32-bit fields.
   */
  lemma {:induction false} SignedRewriteVerifies(c: Crypto, s: seq<byte>, key: Key, opts: Option<Options>,
                                                 ring: KeyRing, canOverwrite: bool, h: Rpm, r: Rpm)
    requires Signed(c, s, key, opts) == Ok(h) && ReadRpm(c, s) == Ok(r) && Trusts(c, key, HashOf(opts), ring)
    requires Fits(SignedEntries(h, InPlace(canOverwrite, h)))
    ensures var out := FileAfterRewrite(s, canOverwrite, h.lead, h.sig.entries, |h.sig.orig|);
            && out.Ok?
            && var v := Verified(c, out.value, ring);
            var gen, all := r.gen.orig, r.gen.orig + Payload(s, r);
            var rsa, pgp := c.sign(key, HashOf(opts), gen), c.sign(key, HashOf(opts), all);
            && rsa.Ok? && pgp.Ok? && c.parse(rsa.value).Ok? && c.parse(pgp.value).Ok?
            && v.Ok? && v.value.0.lead == r.lead && v.value.0.gen == r.gen
            && v.value.1 == [Signature(c.parse(rsa.value).value, true), Signature(c.parse(pgp.value).value, false)]
            && PayloadStart(v.value.0) <= |out.value| && Payload(out.value, v.value.0) == Payload(s, r)
  {
    hide ReadRpm, CheckPayload, WithSignatures, Serialized, FileAfterRewrite, SignedFile, Verified, DumpedHeader, Fits,
      Signed;
    RewriteIsSignedFile(c, s, key, opts, canOverwrite, h);
    SignedFileVerifies(c, s, key, opts, ring, InPlace(canOverwrite, h), h, r);
  }

  lemma {:induction false} DumpIsSameAt(m: Entries, n: nat, t: int)
    requires t != RESERVED_SPACE
    ensures SameAt(DumpEntries(m, n, true), m, t) && SameAt(WithoutReserved(m), m, t)
  {
    hide Needed, ReservedEntry;
  }

  lemma {:induction false} SameAtTransitive(d: Entries, m: Entries, t: int)
    requires SameAt(d, m, t) && t >= HEADER_REGIONS
    ensures SameAt(Reread(d, HEADER_SIGNATURES), m, t)
  {
    hide Reread;
    RereadIsSameAt(d, HEADER_SIGNATURES, t);
  }

  lemma {:induction false} NoReservedSpace(m: Entries)
    ensures RESERVED_SPACE !in Reread(WithoutReserved(m), HEADER_SIGNATURES)
  {
    hide RegionEntry;
  }

  lemma {:induction false} KeptWithoutReserved(m: Entries, n: nat)
    requires WellFormed(Kept(DumpEntries(m, n, true)))
    ensures WellFormed(Kept(WithoutReserved(m)))
  {
    hide Needed, ReservedEntry, WellFormedEntry;
    var d, w := Kept(DumpEntries(m, n, true)), Kept(WithoutReserved(m));
    assert forall k :: k in w ==> k in d && d[k] == w[k];
  }
}
