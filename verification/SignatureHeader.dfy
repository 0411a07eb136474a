/**
  Dumping of the signature header at its original size (writeheader.go). A
  RESERVEDSPACE entry in the middle of the sorted tags takes up the free bytes.
 */
module SignatureHeader {
  import opened Bytes
  import opened Outcomes
  import opened Digests
  import opened Header
  import opened WriteHeader
  import opened HeaderCodec

  const RESERVED_SPACE := 1008
  const LEAD_LENGTH := 96

  // ---- specification -------------------------------------------------------

  function ReservedEntry(n: nat): (e: Entry) { Entry(BIN_TYPE, Wrap32(n), Zeros(n)) }

  function WithoutReserved(m: Entries): (r: Entries) { m - {RESERVED_SPACE} }

  /** The size of the signature header without reserved space. */
  function Needed(m: Entries): (n: nat) { |Serialized(WithoutReserved(m), HEADER_SIGNATURES)| }

  /** The entries DumpSignatureHeader leaves in the header. */
  function DumpEntries(m: Entries, available: nat, sameSize: bool): (r: Entries) {
    if sameSize && Needed(m) + 16 <= available
    then WithoutReserved(m)[RESERVED_SPACE := ReservedEntry(available - Needed(m) - 16)]
    else WithoutReserved(m)
  }

  /** The signature header DumpSignatureHeader writes behind the lead. */
  function DumpedHeader(m: Entries, available: nat, sameSize: bool): (s: seq<byte>) {
    Serialized(DumpEntries(m, available, sameSize), HEADER_SIGNATURES)
  }

  // ---- imperative form -----------------------------------------------------

  class RpmHeader {
    const lead: seq<byte>
    const sigHeader: HeaderArea
    const genHeader: HeaderArea

    constructor (lead: seq<byte>, sig: HeaderArea, gen: HeaderArea)
      ensures this.lead == lead && sigHeader == sig && genHeader == gen
    {
      this.lead, sigHeader, genHeader := lead, sig, gen;
    }

    function OriginalSignatureHeaderSize(): (n: nat) {
      |sigHeader.orig| + LEAD_LENGTH
    }

    method DumpSignatureHeader(sameSize: bool) returns (blob: Outcome<seq<byte>>)
      modifies sigHeader
      ensures |lead| != LEAD_LENGTH ==> blob == Err(BadLead) && sigHeader.entries == old(sigHeader.entries)
      ensures |lead| == LEAD_LENGTH ==>
        && sigHeader.entries == DumpEntries(old(sigHeader.entries), |sigHeader.orig|, sameSize)
        && blob == Ok(lead + DumpedHeader(old(sigHeader.entries), |sigHeader.orig|, sameSize))
    {
      hide Serialized, Zeros, Wrap32;
      if |lead| != LEAD_LENGTH {
        return Err(BadLead);
      }
      sigHeader.entries := sigHeader.entries - {RESERVED_SPACE};
      if sameSize {
        var needed := sigHeader.Size(HEADER_SIGNATURES);
        assert needed.Ok?;
        var available := |sigHeader.orig|;
        if needed.value + 16 <= available {
          var padding := Zeros(available - needed.value - 16);
          sigHeader.entries := sigHeader.entries[RESERVED_SPACE := Entry(BIN_TYPE, Wrap32(|padding|), padding)];
        }
      }
      var buf := new Sink(true);
      buf.Write(lead);
      assert buf.written == lead;
      var w := sigHeader.WriteTo(buf, HEADER_SIGNATURES);
      assert w.Ok?;
      return Ok(buf.kept);
    }
  }

  // ---- what is written depends on the kept entries only --------------------

  lemma {:induction false} AddTagsCongruence(keys: seq<int>, m: Entries, w: Entries)
    requires Covers(keys, m) && Covers(keys, w)
    requires forall i :: 0 <= i < |keys| ==> m[keys[i]] == w[keys[i]]
    ensures AddTags(keys, m) == AddTags(keys, w)
  {
    hide AddTag;
    if keys != [] {
      AddTagsCongruence(keys[..|keys| - 1], m, w);
    }
  }

  lemma {:induction false} SerializedOfKept(m: Entries, w: Entries, regionTag: int)
    requires Kept(m) == Kept(w)
    ensures Tags(m) == Tags(w) && Layout(m) == Layout(w)
    ensures Serialized(m, regionTag) == Serialized(w, regionTag)
  {
    hide Assembled, AddTags, Sorted;
    assert forall k :: k in TagSet(m) <==> k in Kept(m);
    assert forall k :: k in TagSet(w) <==> k in Kept(w);
    assert TagSet(m) == TagSet(w);
    var keys := Tags(m);
    forall i | 0 <= i < |keys| ensures m[keys[i]] == w[keys[i]] {
      assert Kept(m)[keys[i]] == Kept(w)[keys[i]];
    }
    AddTagsCongruence(keys, m, w);
  }

  /** Writing what was read back from a written header gives the same bytes. */
  lemma {:induction false} CanonicalForm(c: Crypto, m: Entries, regionTag: int, alg: Algorithm, isSource: bool)
    requires Fits(m) && WellFormed(Kept(m)) && -TWO_TO_31 <= regionTag < HEADER_REGIONS
    ensures var h := ParseHeader(c, Serialized(m, regionTag), [], alg, isSource, SignatureRegion(regionTag));
            h.Ok? && Serialized(h.value.entries, regionTag) == Serialized(m, regionTag)
  {
    hide Serialized, ParseHeader, Fits, WellFormed, RegionEntry;
    assert Serialized(m, regionTag) + [] == Serialized(m, regionTag);
    RoundTrip(c, m, regionTag, alg, isSource, []);
    assert Kept(Reread(m, regionTag)) == Kept(m);
    SerializedOfKept(Reread(m, regionTag), m, regionTag);
  }

  /** Dumping again gives the same bytes, and an earlier padded dump does not show in a later one. */
  lemma {:induction false} DumpAgain(m: Entries, available: nat, before: bool, sameSize: bool)
    ensures var later := DumpEntries(m, available, before);
            && DumpEntries(later, available, sameSize) == DumpEntries(m, available, sameSize)
            && DumpedHeader(later, available, sameSize) == DumpedHeader(m, available, sameSize)
  {
    hide Serialized;
    assert WithoutReserved(DumpEntries(m, available, before)) == WithoutReserved(m);
  }

  // ---- padding to the original size ----------------------------------------

  /** The position of x in an increasing list. */
  function SplitPoint(keys: seq<int>, x: int): (j: nat)
    requires Increasing(keys) && x !in keys
    ensures j <= |keys|
    ensures forall i :: 0 <= i < j ==> keys[i] < x
    ensures forall i :: j <= i < |keys| ==> x < keys[i]
  {
    if keys == [] || x < keys[0] then 0
    else
      assert forall i :: 0 <= i < |keys| - 1 ==> keys[1..][i] == keys[i + 1];
      assert x !in keys[1..];
      1 + SplitPoint(keys[1..], x)
  }

  lemma {:induction false} TagsWithOneMore(m: Entries, x: int, e: Entry)
    requires x !in m && x >= HEADER_REGIONS
    ensures x !in Tags(m)
    ensures var j := SplitPoint(Tags(m), x);
            Tags(m[x := e]) == Tags(m)[..j] + [x] + Tags(m)[j..]
  {
    hide Tags, SplitPoint;
    var keys, more := Tags(m), Tags(m[x := e]);
    var j := SplitPoint(keys, x);
    var r := keys[..j] + [x] + keys[j..];
    assert Increasing(r);
    assert keys == keys[..j] + keys[j..];
    assert forall k :: k in r <==> k == x || k in keys;
    assert forall k :: k in more <==> k == x || k in keys;
    SortedIsUnique(more, r);
  }

  lemma {:induction false} SameModulo2(n: nat, q: nat)
    ensures (n + 2 * q) % 2 == n % 2
  {
  }

  lemma {:induction false} GapOfShift(n: nat, p: nat, t: int)
    requires p % 8 == 0
    ensures Gap(n + p, t) == Gap(n, t)
  {
    SameModulo8(n, p / 8);
    SameModulo4(n, 2 * (p / 8));
    SameModulo2(n, 4 * (p / 8));
  }

  lemma {:induction false} GapOfBin(n: nat)
    ensures Gap(n, BIN_TYPE) == 0
  {
  }

  /** The tags in front of, at and behind an inserted one. */
  lemma {:induction false} InsertedAt(keys: seq<int>, more: seq<int>, j: nat, i: nat, x: int)
    requires j <= i <= |keys| && more == keys[..j] + [x] + keys[j..]
    ensures more[..i + 1][..i] == more[..i] && more[..i + 1][i] == (if i == j then x else keys[i - 1])
    ensures if i == j then more[..i] == keys[..i]
            else keys[..i][..i - 1] == keys[..i - 1] && keys[..i][i - 1] == keys[i - 1]
  {
  }

  /** The reserved space moves every later blob by a multiple of 8, so no gap changes. */
  lemma {:induction false} StoreShift(keys: seq<int>, more: seq<int>, j: nat, i: nat, x: int, m: Entries, w: Entries,
                                      p: nat)
    requires Covers(keys, m) && j <= i <= |keys| && more == keys[..j] + [x] + keys[j..] && Covers(more, w)
    requires forall k :: 0 <= k < |keys| ==> keys[k] in w && w[keys[k]] == m[keys[k]]
    requires x in w && w[x].dataType == BIN_TYPE && |w[x].contents| == p && p % 8 == 0
    ensures |AddTags(more[..i + 1], w).store| == |AddTags(keys[..i], m).store| + p
    decreases i
  {
    hide AddTags, AddTag, Gap;
    InsertedAt(keys, more, j, i, x);
    StoreAfter(more[..i + 1], w);
    if i == j {
      GapOfBin(|AddTags(keys[..i], w).store|);
      AddTagsCongruence(keys[..i], m, w);
    } else {
      StoreShift(keys, more, j, i - 1, x, m, w, p);
      StoreAfter(keys[..i], m);
      GapOfShift(|AddTags(keys[..i - 1], m).store|, p, m[keys[i - 1]].dataType);
    }
  }

  /** The last tag adds its gap and its blob to the store. */
  lemma {:induction false} StoreAfter(keys: seq<int>, m: Entries)
    requires Covers(keys, m) && keys != []
    ensures var n := |AddTags(keys[..|keys| - 1], m).store|;
            var e := m[keys[|keys| - 1]];
            |AddTags(keys, m).store| == n + Gap(n, e.dataType) + |e.contents|
  {
    hide PutRecord, Wrap32, Gap;
  }

  /** The same, blob by blob: the offset of every tag behind the new one grows by exactly the size of its blob. */
  lemma {:induction false} OffsetShift(keys: seq<int>, more: seq<int>, j: nat, i: nat, x: int, m: Entries, w: Entries,
                                       p: nat)
    requires Covers(keys, m) && j <= i < |keys| && more == keys[..j] + [x] + keys[j..] && Covers(more, w)
    requires forall k :: 0 <= k < |keys| ==> keys[k] in w && w[keys[k]] == m[keys[k]]
    requires x in w && w[x].dataType == BIN_TYPE && |w[x].contents| == p && p % 8 == 0
    ensures more[i + 1] == keys[i] && OffsetOf(more, w, i + 1) == OffsetOf(keys, m, i) + p
  {
    hide AddTags, Gap;
    StoreShift(keys, more, j, i, x, m, w, p);
    GapOfShift(|AddTags(keys[..i], m).store|, p, m[keys[i]].dataType);
  }

  lemma {:induction false} ReservedShape(n: nat)
    ensures ReservedEntry(n).dataType == BIN_TYPE && |ReservedEntry(n).contents| == n
  {
  }

  lemma {:induction false} LayoutWithReserved(m: Entries, p: nat)
    requires RESERVED_SPACE !in m && p % 8 == 0
    ensures var w := m[RESERVED_SPACE := ReservedEntry(p)];
            |Layout(w).store| == |Layout(m).store| + p && |Tags(w)| == |Tags(m)| + 1
  {
    hide AddTags, Tags, SplitPoint, ReservedEntry;
    var keys, w := Tags(m), m[RESERVED_SPACE := ReservedEntry(p)];
    var j, more := SplitPoint(keys, RESERVED_SPACE), Tags(w);
    ReservedShape(p);
    TagsWithOneMore(m, RESERVED_SPACE, ReservedEntry(p));
    assert forall k :: 0 <= k < |keys| ==> keys[k] in m && keys[k] != RESERVED_SPACE;
    StoreShift(keys, more, j, |keys|, RESERVED_SPACE, m, w, p);
    assert more[..|keys| + 1] == more;
    assert keys[..|keys|] == keys;
  }

  /** The length of the dumped header for every map and every original length that is a multiple of 8. */
  lemma {:induction false} DumpedLength(m: Entries, available: nat)
    requires available % 8 == 0
    ensures |DumpedHeader(m, available, true)| == if Needed(m) + 16 <= available then available else Needed(m)
    ensures |DumpedHeader(m, available, false)| == Needed(m)
  {
    hide Serialized, Layout, Tags, Padding;
    var m0 := WithoutReserved(m);
    SerializedLength(m0, HEADER_SIGNATURES);
    if Needed(m) + 16 <= available {
      var p := available - Needed(m) - 16;
      assert p % 8 == 0;
      LayoutWithReserved(m0, p);
      SerializedLength(DumpEntries(m, available, true), HEADER_SIGNATURES);
      PaddingOfShift(|Layout(m0).store| + 16, p);
    }
  }

  lemma {:induction false} PaddingOfShift(n: nat, p: nat)
    requires p % 8 == 0
    ensures Padding(HEADER_SIGNATURES, n + p) == Padding(HEADER_SIGNATURES, n)
  {
    SameModulo8(n, p / 8);
    assert n + p == n + 8 * (p / 8);
  }

  /**
    Same-size dumping: over a signature header that was read, the padded dump has
    the original size if and only if the entries need exactly that size or leave
    room for the 16 bytes of another record.
   */
  lemma {:induction false} SameSizeIff(c: Crypto, s: seq<byte>, alg: Algorithm, isSource: bool, lead: seq<byte>,
                                       m: Entries)
    requires ParseHeader(c, s, [], alg, isSource, true).Ok? && |lead| == LEAD_LENGTH
    ensures var available := |ParseHeader(c, s, [], alg, isSource, true).value.orig|;
            |lead + DumpedHeader(m, available, true)| == available + LEAD_LENGTH
            <==> Needed(m) == available || Needed(m) + 16 <= available
  {
    hide ParseHeader, DumpedHeader, Needed;
    ReadHeaderInvariant(c, s, [], alg, isSource, true);
    DumpedLength(m, |ParseHeader(c, s, [], alg, isSource, true).value.orig|);
  }

  /** When the padded dump has another size, no reserved space is left in the map. */
  lemma {:induction false} FallbackHasNoReservedSpace(m: Entries, available: nat)
    requires available % 8 == 0 && |DumpedHeader(m, available, true)| != available
    ensures RESERVED_SPACE !in DumpEntries(m, available, true)
    ensures DumpEntries(m, available, true) == DumpEntries(m, available, false)
  {
    hide DumpedHeader, Serialized;
    DumpedLength(m, available);
  }

  /** Reserved space is an entry 1008 of zero bytes; nothing else is added, and nothing but it is dropped. */
  lemma {:induction false} ReservedSpaceIsZero(m: Entries, available: nat, sameSize: bool)
    ensures var d := DumpEntries(m, available, sameSize);
            && DumpedHeader(m, available, sameSize) == Serialized(d, 62)
            && (1008 in d <==> sameSize && Needed(m) + 16 <= available)
            && (1008 in d ==>
                 && d[1008].dataType == 7 && |d[1008].contents| == available - Needed(m) - 16
                 && forall i :: 0 <= i < |d[1008].contents| ==> d[1008].contents[i] == 0)
            && (forall k :: k != 1008 ==> (k in d <==> k in m))
            && (forall k :: k != 1008 && k in d ==> d[k] == m[k])
  {
    hide Needed, Wrap32, Serialized;
  }
}
