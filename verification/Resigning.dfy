/** Signing a file that has been signed before (signatures.go, writeheader.go). */
module Resigning {
  import opened Bytes
  import opened Outcomes
  import opened Digests
  import opened Header
  import opened WriteHeader
  import opened HeaderCodec
  import opened SignatureHeader
  import opened RpmFile
  import opened Signatures
  import opened SignedFiles

  // ---- dumps depend on the other entries only ------------------------------

  /** The same entries from tag 64 on, apart from reserved space. */
  predicate SameButReserved(m: Entries, w: Entries) {
    Kept(WithoutReserved(m)) == Kept(WithoutReserved(w))
  }

  lemma {:induction false} KeptWithReserved(m: Entries, e: Entry)
    ensures Kept(m[RESERVED_SPACE := e]) == Kept(m)[RESERVED_SPACE := e]
  {
  }

  lemma {:induction false} DumpOfSame(m: Entries, w: Entries, n: nat, sameSize: bool)
    requires SameButReserved(m, w)
    ensures Needed(m) == Needed(w) && DumpedHeader(m, n, sameSize) == DumpedHeader(w, n, sameSize)
  {
    hide Serialized, ReservedEntry, Kept, WithoutReserved;
    SerializedOfKept(WithoutReserved(m), WithoutReserved(w), HEADER_SIGNATURES);
    if sameSize && Needed(m) + 16 <= n {
      var e := ReservedEntry(n - Needed(m) - 16);
      KeptWithReserved(WithoutReserved(m), e);
      KeptWithReserved(WithoutReserved(w), e);
    }
    SerializedOfKept(DumpEntries(m, n, sameSize), DumpEntries(w, n, sameSize), HEADER_SIGNATURES);
  }

  /** New signatures hide everything an earlier signing has left in the header. */
  lemma {:induction false} SignaturesReplace(e: Entries, pgp: seq<byte>, rsa: seq<byte>, n: nat, sameSize: bool,
                                             pgp': seq<byte>, rsa': seq<byte>)
    ensures var back := Reread(DumpEntries(WithSignatures(e, pgp, rsa), n, sameSize), HEADER_SIGNATURES);
            SameButReserved(WithSignatures(back, pgp', rsa'), WithSignatures(e, pgp', rsa'))
  {
    hide Needed, ReservedEntry, RegionEntry, Tags, SignatureEntry;
  }

  /** Dumping at the size of an earlier dump of the same entries gives that dump again. */
  lemma {:induction false} DumpAtDumpedSize(m: Entries, n: nat, sameSize: bool)
    requires n % 8 == 0
    ensures DumpedHeader(m, |DumpedHeader(m, n, sameSize)|, sameSize) == DumpedHeader(m, n, sameSize)
  {
    hide Serialized;
    DumpedLength(m, n);
  }

  // ---- signing again -------------------------------------------------------

  /** The parts of a signed header. */
  lemma {:induction false} SignedParts(c: Crypto, s: seq<byte>, key: Key, opts: Option<Options>, h: Rpm)
    requires Signed(c, s, key, opts) == Ok(h)
    ensures ReadRpm(c, s).Ok?
    ensures var r := ReadRpm(c, s).value;
            var rsa := c.sign(key, HashOf(opts), r.gen.orig);
            var pgp := c.sign(key, HashOf(opts), r.gen.orig + Payload(s, r));
            && rsa.Ok? && pgp.Ok? && h.sig.entries == WithSignatures(r.sig.entries, pgp.value, rsa.value)
            && h.lead == r.lead && h.gen == r.gen && h.sig.orig == r.sig.orig
  {
    hide ReadRpm, CheckPayload, WithSignatures;
  }

  /** What signing makes of a file depends on the general header, the payload and their digests. */
  lemma {:induction false} SignedOfSame(c: Crypto, s: seq<byte>, t: seq<byte>, key: Key, opts: Option<Options>)
    requires ReadRpm(c, s).Ok? && ReadRpm(c, t).Ok?
    requires var r, z := ReadRpm(c, s).value, ReadRpm(c, t).value;
             && z.gen == r.gen && Payload(t, z) == Payload(s, r)
             && CheckPayload(c, z.sig.entries, z.gen, Payload(t, z))
                == CheckPayload(c, r.sig.entries, r.gen, Payload(s, r))
    ensures var a, b := Signed(c, s, key, opts), Signed(c, t, key, opts);
            (a.IsFailure() ==> b == a) && (a.Ok? ==> b.Ok?)
  {
    hide ReadRpm, CheckPayload, WithSignatures;
  }

  /** Reading the signed file, and checking its payload, is reading and checking the original one. */
  lemma {:induction false} SignedFileIsLikeOriginal(c: Crypto, s: seq<byte>, key: Key, opts: Option<Options>,
                                                    sameSize: bool, h: Rpm)
    requires Signed(c, s, key, opts) == Ok(h) && Fits(SignedEntries(h, sameSize))
    ensures ReadRpm(c, s).Ok? && h.sig.orig == ReadRpm(c, s).value.sig.orig && LEAD_LENGTH + |h.sig.orig| <= |s|
    ensures var r, t := ReadRpm(c, s).value, SignedFile(s, h, sameSize);
            var z := SplicedRpm(r, SignedEntries(h, sameSize));
            && ReadRpm(c, t) == Ok(z) && z.gen == r.gen && z.lead == r.lead
            && z.sig.entries == Reread(SignedEntries(h, sameSize), HEADER_SIGNATURES)
            && z.sig.orig == DumpedHeader(h.sig.entries, |h.sig.orig|, sameSize)
            && PayloadStart(z) <= |t| && Payload(t, z) == Payload(s, r)
            && CheckPayload(c, z.sig.entries, z.gen, Payload(t, z))
               == CheckPayload(c, r.sig.entries, r.gen, Payload(s, r))
  {
    hide ReadRpm, CheckPayload, Serialized, Fits, Signed, WithSignatures, DumpEntries, Reread;
    SignedParts(c, s, key, opts, h);
    var r := ReadRpm(c, s).value;
    SignedFileIsRead(c, s, key, opts, sameSize, h, r);
    var pgp := c.sign(key, HashOf(opts), r.gen.orig + Payload(s, r)).value;
    var rsa := c.sign(key, HashOf(opts), r.gen.orig).value;
    var d := SignedEntries(h, sameSize);
    DumpedIsSameAt(r.sig.entries, |h.sig.orig|, sameSize, pgp, rsa, SIG_MD5);
    RereadIsSameAt(d, HEADER_SIGNATURES, SIG_MD5);
    SamePayloadCheck(c, Reread(d, HEADER_SIGNATURES), r.sig.entries, r.gen, Payload(s, r));
  }

  /** Two files with the same rest, and headers that dump to the same bytes, become the same signed file. */
  lemma {:induction false} SameSignedFile(s: seq<byte>, h: Rpm, sameSize: bool, a: Rpm, b: Rpm, g: bool)
    requires LEAD_LENGTH + |h.sig.orig| <= |s| && |h.lead| == LEAD_LENGTH
    requires a.sig.orig == h.sig.orig && a.lead == b.lead == h.lead
    requires b.sig.orig == DumpedHeader(h.sig.entries, |h.sig.orig|, sameSize)
    requires DumpedHeader(b.sig.entries, |b.sig.orig|, g) == DumpedHeader(a.sig.entries, |a.sig.orig|, g)
    ensures var t := SignedFile(s, h, sameSize);
            LEAD_LENGTH + |b.sig.orig| <= |t| && SignedFile(t, b, g) == SignedFile(s, a, g)
  {
    hide DumpedHeader;
    var t, rest := SignedFile(s, h, sameSize), s[LEAD_LENGTH + |h.sig.orig|..];
    assert t[LEAD_LENGTH + |b.sig.orig|..] == rest;
  }

  /** A plain dump does not depend on the size it replaces. */
  lemma {:induction false} SmallDumpIsSmall(m: Entries, n: nat, n': nat, g: bool)
    requires !g || n == n'
    ensures DumpedHeader(m, n, g) == DumpedHeader(m, n', g)
  {
    hide Serialized;
  }

  lemma {:induction false} SignedAgainParts(c: Crypto, s: seq<byte>, key: Key, opts: Option<Options>, sameSize: bool,
                                            h: Rpm, key': Key, opts': Option<Options>, a: Rpm, b: Rpm)
    requires Signed(c, s, key, opts) == Ok(h) && Fits(SignedEntries(h, sameSize))
    requires LEAD_LENGTH + |h.sig.orig| <= |s|
    requires Signed(c, s, key', opts') == Ok(a) && Signed(c, SignedFile(s, h, sameSize), key', opts') == Ok(b)
    ensures b.gen == a.gen && a.lead == b.lead == h.lead && |h.lead| == LEAD_LENGTH && a.sig.orig == h.sig.orig
    ensures b.sig.orig == DumpedHeader(h.sig.entries, |h.sig.orig|, sameSize)
    ensures SameButReserved(b.sig.entries, a.sig.entries)
  {
    hide ReadRpm, CheckPayload, Serialized, Fits, Signed, WithSignatures, DumpEntries, Reread, SignedFile, SplicedRpm,
      DumpedHeader, SameButReserved;
    SignedFileIsLikeOriginal(c, s, key, opts, sameSize, h);
    SignedParts(c, s, key, opts, h);
    SignedParts(c, s, key', opts', a);
    SignedParts(c, SignedFile(s, h, sameSize), key', opts', b);
    var r := ReadRpm(c, s).value;
    var pgp := c.sign(key, HashOf(opts), r.gen.orig + Payload(s, r)).value;
    var rsa := c.sign(key, HashOf(opts), r.gen.orig).value;
    var pgp' := c.sign(key', HashOf(opts'), r.gen.orig + Payload(s, r)).value;
    var rsa' := c.sign(key', HashOf(opts'), r.gen.orig).value;
    SignaturesReplace(r.sig.entries, pgp, rsa, |h.sig.orig|, sameSize, pgp', rsa');
  }

  /**
    Signing the signed file, with the result b, is like signing the original one,
    with the result a: it fails in the same way, or the entries are the same apart
    from reserved space. The dump then gives the same file, unless it is to have
    the size of an earlier dump that has changed the size.
   */
  ghost predicate SameSigning(s: seq<byte>, h: Rpm, sameSize: bool, a: Outcome<Rpm>, b: Outcome<Rpm>)
    requires LEAD_LENGTH + |h.sig.orig| <= |s|
  {
    var t := SignedFile(s, h, sameSize);
    && (a.IsFailure() ==> b == a)
    && (a.Ok? ==>
         && b.Ok? && b.value.gen == a.value.gen && b.value.lead == a.value.lead
         && SameButReserved(b.value.sig.entries, a.value.sig.entries)
         && a.value.sig.orig == h.sig.orig && LEAD_LENGTH + |b.value.sig.orig| <= |t|
         && forall g :: !g || |b.value.sig.orig| == |h.sig.orig| ==>
              SignedFile(t, b.value, g) == SignedFile(s, a.value, g))
  }

  /** Signing again, with any key and options: the earlier signatures leave no trace. */
  lemma {:induction false} SigningReplaces(c: Crypto, s: seq<byte>, key: Key, opts: Option<Options>, sameSize: bool,
                                           h: Rpm, key': Key, opts': Option<Options>)
    requires Signed(c, s, key, opts) == Ok(h) && Fits(SignedEntries(h, sameSize))
    ensures LEAD_LENGTH + |h.sig.orig| <= |s|
    ensures SameSigning(s, h, sameSize, Signed(c, s, key', opts'), Signed(c, SignedFile(s, h, sameSize), key', opts'))
  {
    hide ReadRpm, CheckPayload, Serialized, Fits, Signed, WithSignatures, DumpEntries, Reread, SignedFile, SplicedRpm,
      DumpedHeader, SameButReserved;
    SignedFileIsLikeOriginal(c, s, key, opts, sameSize, h);
    var t := SignedFile(s, h, sameSize);
    SignedOfSame(c, s, t, key', opts');
    var a, b := Signed(c, s, key', opts'), Signed(c, t, key', opts');
    if a.Ok? {
      SignedAgainParts(c, s, key, opts, sameSize, h, key', opts', a.value, b.value);
      SignedFileIsLongEnough(s, h, sameSize);
      forall g: bool | !g || |b.value.sig.orig| == |h.sig.orig|
        ensures SignedFile(t, b.value, g) == SignedFile(s, a.value, g)
      {
        DumpOfSame(b.value.sig.entries, a.value.sig.entries, |h.sig.orig|, g);
        SmallDumpIsSmall(b.value.sig.entries, |b.value.sig.orig|, |h.sig.orig|, g);
        SameSignedFile(s, h, sameSize, a.value, b.value, g);
      }
    }
  }

  lemma {:induction false} SignedFileIsLongEnough(s: seq<byte>, h: Rpm, sameSize: bool)
    requires LEAD_LENGTH + |h.sig.orig| <= |s| && |h.lead| == LEAD_LENGTH
    ensures LEAD_LENGTH + |DumpedHeader(h.sig.entries, |h.sig.orig|, sameSize)| <= |SignedFile(s, h, sameSize)|
  {
    hide DumpedHeader;
  }

  /** Signing is idempotent: signing a signed file in the same way gives the same file. */
  lemma {:induction false} SigningIsIdempotent(c: Crypto, s: seq<byte>, key: Key, opts: Option<Options>,
                                               sameSize: bool, h: Rpm)
    requires Signed(c, s, key, opts) == Ok(h) && Fits(SignedEntries(h, sameSize))
    ensures LEAD_LENGTH + |h.sig.orig| <= |s|
    ensures var t := SignedFile(s, h, sameSize);
            var again := Signed(c, t, key, opts);
            && again.Ok? && LEAD_LENGTH + |again.value.sig.orig| <= |t|
            && SignedFile(t, again.value, sameSize) == t
  {
    hide ReadRpm, CheckPayload, Serialized, Fits, Signed, WithSignatures, DumpEntries, Reread, SignedFile, SplicedRpm,
      DumpedHeader, SameButReserved;
    SigningReplaces(c, s, key, opts, sameSize, h, key, opts);
    SignedParts(c, s, key, opts, h);
    ReadEntriesAreWellFormed(c, s);
    var t := SignedFile(s, h, sameSize);
    var again := Signed(c, t, key, opts).value;
    SignedAgainParts(c, s, key, opts, sameSize, h, key, opts, h, again);
    DumpOfSame(again.sig.entries, h.sig.entries, |again.sig.orig|, sameSize);
    DumpAtDumpedSize(h.sig.entries, |h.sig.orig|, sameSize);
    SameSignedFile(s, h, sameSize, h, again, sameSize);
  }
}
