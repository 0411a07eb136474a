/** Verifying the signatures of an RPM (verify.go, verify_digests.go). */
module Verify {
  import opened Bytes
  import opened Outcomes
  import opened Streams
  import opened Digests
  import opened Header
  import opened HeaderGetters
  import opened RpmFile
  import opened Signatures

  const HEADER_SIG_TAGS: seq<int> := [SIG_RSA, SIG_DSA]
  const PAYLOAD_SIG_TAGS: seq<int> := [SIG_PGP, SIG_GPG]

  /** A signature found in the header; headerOnly ones do not cover the payload. */
  datatype Signature = Signature(packet: Packet, headerOnly: bool)

  // ---- specification -------------------------------------------------------

  /** setupDigester: an absent tag is skipped, anything else must parse. */
  function SetupDigester(c: Crypto, sig: Entries, tag: int): (r: Outcome<Option<Packet>>) {
    match GetBytes(sig, tag)
    case Err(NoSuchTag(_)) => Ok(None)
    case Err(e) => Err(e)
    case Panic => Panic
    case Ok(blob) =>
      var p :- c.parse(blob);
      Ok(Some(p))
  }

  /** One round of the collecting loops. */
  function AddSignature(c: Crypto, sig: Entries, tag: int, headerOnly: bool, sigs: seq<Signature>)
    : (r: Outcome<seq<Signature>>)
  {
    var p :- SetupDigester(c, sig, tag);
    match p
    case None => Ok(sigs)
    case Some(packet) => if c.available(packet.hash) then Ok(sigs + [Signature(packet, headerOnly)]) else Panic
  }

  /** The signatures of the header: RSA and DSA cover the general header, PGP and GPG the payload too. */
  function FindSignatures(c: Crypto, sig: Entries): (r: Outcome<seq<Signature>>) {
    var s1 :- AddSignature(c, sig, SIG_RSA, true, []);
    var s2 :- AddSignature(c, sig, SIG_DSA, true, s1);
    var s3 :- AddSignature(c, sig, SIG_PGP, false, s2);
    AddSignature(c, sig, SIG_GPG, false, s3)
  }

  /** The bytes the hash of a signature has absorbed. */
  function Covered(s: Signature, gen: Header, payload: seq<byte>): (b: seq<byte>) {
    if s.headerOnly then gen.orig else gen.orig + payload
  }

  predicate AllValid(c: Crypto, ring: KeyRing, sigs: seq<Signature>, gen: Header, payload: seq<byte>) {
    forall i :: 0 <= i < |sigs| ==> c.validate(sigs[i].packet, ring, Covered(sigs[i], gen, payload))
  }

  /** Verify on a stream holding s. */
  function Verified(c: Crypto, s: seq<byte>, ring: KeyRing): (r: Outcome<(Rpm, seq<Signature>)>) {
    var r :- ReadRpm(c, s);
    var sigs :- FindSignatures(c, r.sig.entries);
    var payload := Payload(s, r);
    var _ :- CheckPayload(c, r.sig.entries, r.gen, payload);
    if AllValid(c, ring, sigs, r.gen, payload) then Ok((r, sigs)) else Err(BadSignature)
  }

  // ---- digestAndVerify and Verify ------------------------------------------

  /** Signatures and their hashes run in parallel. */
  ghost predicate Paired(sigs: seq<Signature>, hashes: seq<HashState>, gen: Header, payload: seq<byte>)
    reads hashes
  {
    && |hashes| == |sigs| && Distinct(hashes)
    && forall i :: 0 <= i < |sigs| ==>
         hashes[i].alg == sigs[i].packet.hash && hashes[i].absorbed == Covered(sigs[i], gen, payload)
  }

  /** The hashes that still wait for the payload. */
  ghost predicate WritersOf(sigs: seq<Signature>, hashes: seq<HashState>, writers: seq<HashState>) {
    && |hashes| == |sigs| && Distinct(writers)
    && (forall i :: 0 <= i < |sigs| ==> (sigs[i].headerOnly <==> hashes[i] !in writers))
    && forall w :: w in writers ==> w in hashes
  }

  method CollectSignature(c: Crypto, sig: Entries, gen: Header, tag: int, headerOnly: bool, sigs: seq<Signature>,
                          hashes: seq<HashState>, writers: seq<HashState>)
    returns (r: Outcome<seq<Signature>>, hashes': seq<HashState>, writers': seq<HashState>)
    requires Paired(sigs, hashes, gen, []) && WritersOf(sigs, hashes, writers)
    ensures r == AddSignature(c, sig, tag, headerOnly, sigs)
    ensures hashes <= hashes' && forall i :: |hashes| <= i < |hashes'| ==> fresh(hashes'[i])
    ensures r.Ok? ==> Paired(r.value, hashes', gen, []) && WritersOf(r.value, hashes', writers')
  {
    hashes', writers' := hashes, writers;
    var p := SetupDigester(c, sig, tag);
    if p.IsFailure() {
      r := p.PropagateFailure();
      return;
    }
    if p.value.None? {
      r := Ok(sigs);
      return;
    }
    var packet := p.value.value;
    if !c.available(packet.hash) {
      r := Panic;
      return;
    }
    var h := new HashState(packet.hash);
    h.Write(gen.orig);
    r := Ok(sigs + [Signature(packet, headerOnly)]);
    hashes' := hashes + [h];
    if !headerOnly {
      writers' := writers + [h];
    }
    assert gen.orig + [] == gen.orig;
  }

  /** The loops over the tags of header-only signatures and of those over header and payload. */
  method CollectSignatures(c: Crypto, sig: Entries, gen: Header)
    returns (sigs: Outcome<seq<Signature>>, hashes: seq<HashState>, writers: seq<HashState>)
    ensures sigs == FindSignatures(c, sig) && forall i :: 0 <= i < |hashes| ==> fresh(hashes[i])
    ensures sigs.Ok? ==> Paired(sigs.value, hashes, gen, []) && WritersOf(sigs.value, hashes, writers)
  {
    hide AddSignature;
    hashes, writers := [], [];
    sigs, hashes, writers := CollectSignature(c, sig, gen, HEADER_SIG_TAGS[0], true, [], hashes, writers);
    if sigs.IsFailure() {
      return;
    }
    sigs, hashes, writers := CollectSignature(c, sig, gen, HEADER_SIG_TAGS[1], true, sigs.value, hashes, writers);
    if sigs.IsFailure() {
      return;
    }
    sigs, hashes, writers := CollectSignature(c, sig, gen, PAYLOAD_SIG_TAGS[0], false, sigs.value, hashes, writers);
    if sigs.IsFailure() {
      return;
    }
    sigs, hashes, writers := CollectSignature(c, sig, gen, PAYLOAD_SIG_TAGS[1], false, sigs.value, hashes, writers);
  }

  method DigestAndVerify(c: Crypto, sig: Entries, gen: Header, src: Source)
    returns (sigs: Outcome<seq<Signature>>, hashes: seq<HashState>)
    requires src.Valid()
    modifies src
    ensures src.Valid()
    ensures sigs
         == (var f :- FindSignatures(c, sig); var _ :- CheckPayload(c, sig, gen, src.data[old(src.pos)..]); Ok(f))
    ensures sigs.Ok? ==>
      src.pos == |src.data| && fresh(hashes) && Paired(sigs.value, hashes, gen, src.data[old(src.pos)..])
  {
    hide FindSignatures, CheckPayload;
    var payloadWriters;
    sigs, hashes, payloadWriters := CollectSignatures(c, sig, gen);
    if sigs.IsFailure() {
      return;
    }
    ghost var payload := src.data[src.pos..];
    forall k | 0 <= k < |payloadWriters|
      ensures fresh(payloadWriters[k])
    {
      assert payloadWriters[k] in hashes;
      var i :| 0 <= i < |hashes| && hashes[i] == payloadWriters[k];
    }
    label before:
    var d := DigestPayload(c, sig, gen, src, payloadWriters);
    if d.IsFailure() {
      sigs := d.PropagateFailure();
      return;
    }
    forall i | 0 <= i < |sigs.value|
      ensures hashes[i].absorbed == Covered(sigs.value[i], gen, payload)
    {
      assert old@before(hashes[i].absorbed) == gen.orig + [] == gen.orig;
      if hashes[i] in payloadWriters {
        var k :| 0 <= k < |payloadWriters| && payloadWriters[k] == hashes[i];
      }
    }
  }

  method Verify(c: Crypto, src: Source, ring: KeyRing) returns (r: Outcome<(Rpm, seq<Signature>)>)
    requires src.Valid()
    modifies src
    ensures src.Valid() && r == Verified(c, src.data[old(src.pos)..], ring)
  {
    hide ReadRpm, FindSignatures, CheckPayload;
    ghost var s := src.data[src.pos..];
    var both := ReadBothHeaders(c, src);
    if both.IsFailure() {
      return both.PropagateFailure();
    }
    var hdr := both.value;
    ghost var payload := Payload(s, hdr);
    assert payload == src.data[src.pos..];
    var found, hashes := DigestAndVerify(c, hdr.sig.entries, hdr.gen, src);
    if found.IsFailure() {
      return found.PropagateFailure();
    }
    var sigs := found.value;
    var i := 0;
    while i < |sigs|
      invariant 0 <= i <= |sigs|
      invariant forall k :: 0 <= k < i ==> c.validate(sigs[k].packet, ring, Covered(sigs[k], hdr.gen, payload))
    {
      if !c.validate(sigs[i].packet, ring, hashes[i].absorbed) {
        return Err(BadSignature);
      }
      i := i + 1;
    }
    return Ok((hdr, sigs));
  }

  // ---- what an accepted file has -------------------------------------------

  /** There is a signature under a tag, and it can be parsed and its hash taken. */
  predicate HasSignature(c: Crypto, m: Entries, tag: int) {
    tag in m && m[tag].dataType == 7 && c.parse(m[tag].contents).Ok?
    && c.available(c.parse(m[tag].contents).value.hash)
  }

  /** The signature under a tag, if there is one, is accepted for a message. */
  predicate Holds(c: Crypto, m: Entries, tag: int, ring: KeyRing, message: seq<byte>) {
    tag in m ==> HasSignature(c, m, tag) && c.validate(c.parse(m[tag].contents).value, ring, message)
  }

  /** Every signature of a header can be checked. */
  predicate Checkable(c: Crypto, m: Entries) {
    forall tag | tag in {267, 268, 1002, 1005} && tag in m :: HasSignature(c, m, tag)
  }

  /** RSA (268) and DSA (267) hold over the general header, PGP (1002) and GPG (1005) over the payload too. */
  predicate AllHold(c: Crypto, m: Entries, ring: KeyRing, gen: seq<byte>, payload: seq<byte>) {
    && Holds(c, m, 268, ring, gen) && Holds(c, m, 267, ring, gen)
    && Holds(c, m, 1002, ring, gen + payload) && Holds(c, m, 1005, ring, gen + payload)
  }

  /** The signatures reported for a tag. */
  function Reported(c: Crypto, m: Entries, tag: int, headerOnly: bool): (sigs: seq<Signature>)
    requires tag in m ==> HasSignature(c, m, tag)
  {
    if tag in m then [Signature(c.parse(m[tag].contents).value, headerOnly)] else []
  }

  lemma {:induction false} AddSignatureIs(c: Crypto, m: Entries, tag: int, headerOnly: bool, sigs: seq<Signature>)
    ensures AddSignature(c, m, tag, headerOnly, sigs).Ok? <==> (tag in m ==> HasSignature(c, m, tag))
    ensures (tag in m ==> HasSignature(c, m, tag)) ==>
      AddSignature(c, m, tag, headerOnly, sigs) == Ok(sigs + Reported(c, m, tag, headerOnly))
    ensures tag in m && !HasSignature(c, m, tag) ==>
      AddSignature(c, m, tag, headerOnly, sigs)
      == if m[tag].dataType != 7 then Err(WrongType)
         else if c.parse(m[tag].contents).IsFailure() then c.parse(m[tag].contents).PropagateFailure()
         else Panic
  {
    assert sigs + [] == sigs;
  }

  lemma {:induction false} FindSignaturesIs(c: Crypto, m: Entries)
    ensures FindSignatures(c, m).Ok? <==> Checkable(c, m)
    ensures Checkable(c, m) ==>
      FindSignatures(c, m) == Ok(Reported(c, m, 268, true) + Reported(c, m, 267, true)
                                 + Reported(c, m, 1002, false) + Reported(c, m, 1005, false))
  {
    hide AddSignature, HasSignature, Reported;
    forall tag, headerOnly, sigs
      ensures AddSignature(c, m, tag, headerOnly, sigs).Ok? <==> (tag in m ==> HasSignature(c, m, tag))
      ensures (tag in m ==> HasSignature(c, m, tag)) ==>
        AddSignature(c, m, tag, headerOnly, sigs) == Ok(sigs + Reported(c, m, tag, headerOnly))
    {
      AddSignatureIs(c, m, tag, headerOnly, sigs);
    }
    if Checkable(c, m) {
      assert [] + Reported(c, m, 268, true) == Reported(c, m, 268, true);
    }
  }

  lemma {:induction false} AllValidOfConcat(c: Crypto, ring: KeyRing, x: seq<Signature>, y: seq<Signature>, gen: Header,
                                            payload: seq<byte>)
    ensures AllValid(c, ring, x + y, gen, payload)
       <==> AllValid(c, ring, x, gen, payload) && AllValid(c, ring, y, gen, payload)
  {
    var z := x + y;
    forall i | 0 <= i < |z| ensures z[i] == if i < |x| then x[i] else y[i - |x|] {}
    if AllValid(c, ring, z, gen, payload) {
      forall i | 0 <= i < |y|
        ensures c.validate(y[i].packet, ring, Covered(y[i], gen, payload))
      {
        assert y[i] == z[|x| + i];
      }
    }
  }

  lemma {:induction false} ReportedIsValid(c: Crypto, ring: KeyRing, m: Entries, tag: int, headerOnly: bool,
                                           gen: Header, payload: seq<byte>)
    requires tag in m ==> HasSignature(c, m, tag)
    ensures AllValid(c, ring, Reported(c, m, tag, headerOnly), gen, payload)
       <==> Holds(c, m, tag, ring, if headerOnly then gen.orig else gen.orig + payload)
  {
    if tag in m {
      assert Reported(c, m, tag, headerOnly)[0] == Signature(c.parse(m[tag].contents).value, headerOnly);
    }
  }

  lemma {:induction false} AllValidIs(c: Crypto, ring: KeyRing, m: Entries, gen: Header, payload: seq<byte>)
    requires Checkable(c, m)
    ensures var sigs := Reported(c, m, 268, true) + Reported(c, m, 267, true)
                        + Reported(c, m, 1002, false) + Reported(c, m, 1005, false);
            AllValid(c, ring, sigs, gen, payload) <==> AllHold(c, m, ring, gen.orig, payload)
  {
    hide AllValid, Reported, Holds, HasSignature;
    var rsa, dsa := Reported(c, m, 268, true), Reported(c, m, 267, true);
    var pgp, gpg := Reported(c, m, 1002, false), Reported(c, m, 1005, false);
    AllValidOfConcat(c, ring, rsa, dsa, gen, payload);
    AllValidOfConcat(c, ring, rsa + dsa, pgp, gen, payload);
    AllValidOfConcat(c, ring, rsa + dsa + pgp, gpg, gen, payload);
    ReportedIsValid(c, ring, m, 268, true, gen, payload);
    ReportedIsValid(c, ring, m, 267, true, gen, payload);
    ReportedIsValid(c, ring, m, 1002, false, gen, payload);
    ReportedIsValid(c, ring, m, 1005, false, gen, payload);
  }

  /**
    Verify accepts a file exactly when it can be read, its payload has the
    recorded digest, and every one of the four signatures it holds can be parsed
    and is accepted over its message. It then reports exactly these signatures.
    With everything in order but a signature, the error is that of the signature.
   */
  lemma {:induction false} VerifiedIff(c: Crypto, s: seq<byte>, ring: KeyRing)
    ensures Verified(c, s, ring).Ok? ==> ReadRpm(c, s).Ok?
    ensures ReadRpm(c, s).Ok? ==>
      var r := ReadRpm(c, s).value;
      var m, v := r.sig.entries, Verified(c, s, ring);
      var sound := CheckPayload(c, m, r.gen, Payload(s, r)).Ok?;
      && (v.Ok? <==> sound && AllHold(c, m, ring, r.gen.orig, Payload(s, r)))
      && (sound && Checkable(c, m) && !AllHold(c, m, ring, r.gen.orig, Payload(s, r)) ==> v == Err(BadSignature))
      && (v.Ok? ==> Checkable(c, m)
                    && v.value == (r, Reported(c, m, 268, true) + Reported(c, m, 267, true)
                                      + Reported(c, m, 1002, false) + Reported(c, m, 1005, false)))
  {
    hide ReadRpm, CheckPayload, FindSignatures, AllValid, Reported;
    if ReadRpm(c, s).Ok? {
      var r := ReadRpm(c, s).value;
      FindSignaturesIs(c, r.sig.entries);
      if Checkable(c, r.sig.entries) {
        AllValidIs(c, ring, r.sig.entries, r.gen, Payload(s, r));
      }
    }
  }

  /** One signature that is not accepted is enough to refuse a file. */
  lemma {:induction false} BadSignatureIsRefused(c: Crypto, s: seq<byte>, ring: KeyRing, tag: int)
    requires ReadRpm(c, s).Ok? && tag in {267, 268, 1002, 1005}
    requires var r := ReadRpm(c, s).value;
             var b := GetBytes(r.sig.entries, tag);
             var message := if tag < 1000 then r.gen.orig else r.gen.orig + Payload(s, r);
             b.Ok? && c.parse(b.value).Ok? && !c.validate(c.parse(b.value).value, ring, message)
    ensures !Verified(c, s, ring).Ok?
    ensures var r := ReadRpm(c, s).value;
            CheckPayload(c, r.sig.entries, r.gen, Payload(s, r)).Ok? && Checkable(c, r.sig.entries) ==>
              Verified(c, s, ring) == Err(BadSignature)
  {
    hide ReadRpm, CheckPayload, Verified;
    VerifiedIff(c, s, ring);
  }
}
