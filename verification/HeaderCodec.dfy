/**
  What the header writer and reader promise together: the layout of a written
  store, and the round trip of every header that fits the 32-bit fields.
 */
module HeaderCodec {
  import opened Bytes
  import opened Outcomes
  import opened Digests
  import opened Header
  import opened WriteHeader

  // ---- store layout --------------------------------------------------------

  /** Where the blob of the i-th tag starts. */
  ghost function OffsetOf(keys: seq<int>, m: Entries, i: nat): (o: nat)
    requires Covers(keys, m) && i < |keys|
  {
    var n := |AddTags(keys[..i], m).store|;
    n + Gap(n, m[keys[i]].dataType)
  }

  /** Index and store after some of the tags are prefixes of the final ones. */
  lemma {:induction false} LayoutGrows(keys: seq<int>, m: Entries, i: nat)
    requires Covers(keys, m) && i <= |keys|
    ensures Covers(keys[..i], m)
    ensures AddTags(keys[..i], m).index <= AddTags(keys, m).index
    ensures AddTags(keys[..i], m).store <= AddTags(keys, m).store
    ensures |AddTags(keys, m).index| == 16 * |keys|
    decreases |keys|
  {
    hide Gap, PutRecord, Wrap32, Zeros;
    var n := |keys|;
    if i == n {
      assert keys[..i] == keys;
      if n > 0 {
        LayoutGrows(keys[..n - 1], m, n - 1);
      }
    } else {
      LayoutGrows(keys[..n - 1], m, i);
      assert keys[..n - 1][..i] == keys[..i];
    }
  }

  /** Record i describes the entry e of a tag, and the blob of e lies aligned at offset o. */
  ghost predicate Placed(b: Buffers, i: nat, tag: int, e: Entry, o: nat) {
    && |b.index| >= 16 * i + 16
    && b.index[16 * i..16 * i + 16] == PutRecord(Record(Wrap32(tag), e.dataType, Wrap32(o), e.count))
    && Aligned(o, e.dataType)
    && o + |e.contents| <= |b.store| && b.store[o..o + |e.contents|] == e.contents
  }

  lemma {:induction false} LastPlaced(a: Buffers, i: nat, tag: int, e: Entry)
    requires |a.index| == 16 * i
    ensures Placed(AddTag(a, tag, e), i, tag, e, |a.store| + Gap(|a.store|, e.dataType))
  {
    hide Gap, PutRecord, Wrap32, Zeros;
    var o := |a.store| + Gap(|a.store|, e.dataType);
    var b := AddTag(a, tag, e);
    assert b.index[16 * i..] == PutRecord(Record(Wrap32(tag), e.dataType, Wrap32(o), e.count));
    assert b.store[o..] == e.contents;
  }

  lemma {:induction false} PlacedInExtension(a: Buffers, b: Buffers, i: nat, tag: int, e: Entry, o: nat)
    requires Placed(a, i, tag, e, o)
    requires a.index <= b.index && a.store <= b.store
    ensures Placed(b, i, tag, e, o)
  {
    assert b.index[16 * i..16 * i + 16] == a.index[16 * i..16 * i + 16];
    assert b.store[o..o + |e.contents|] == a.store[o..o + |e.contents|];
  }

  lemma {:induction false} LayoutAt(keys: seq<int>, m: Entries, i: nat)
    requires Covers(keys, m) && i < |keys|
    ensures Placed(AddTags(keys, m), i, keys[i], m[keys[i]], OffsetOf(keys, m, i))
  {
    hide Placed, AddTag;
    var p, q := keys[..i + 1], keys[..i];
    assert p[..i] == q;
    LayoutGrows(q, m, i);
    LastPlaced(AddTags(q, m), i, keys[i], m[keys[i]]);
    assert AddTags(p, m) == AddTag(AddTags(q, m), keys[i], m[keys[i]]);
    LayoutGrows(keys, m, i + 1);
    PlacedInExtension(AddTags(p, m), AddTags(keys, m), i, keys[i], m[keys[i]], OffsetOf(keys, m, i));
  }

  /**
    Store layout of every header that is written: every record and blob is in
    place and aligned, the records are in increasing tag order, and the blobs
    follow each other in that order without overlap.
   */
  lemma {:induction false} StoreLayout(m: Entries, i: nat, j: nat)
    requires i < j < |Tags(m)|
    ensures var keys, b := Tags(m), Layout(m);
            && Placed(b, i, keys[i], m[keys[i]], OffsetOf(keys, m, i))
            && Placed(b, j, keys[j], m[keys[j]], OffsetOf(keys, m, j))
            && HEADER_REGIONS <= keys[i] < keys[j]
            && OffsetOf(keys, m, i) + |m[keys[i]].contents| <= OffsetOf(keys, m, j)
  {
    hide AddTags, Tags, Gap;
    var keys := Tags(m);
    LayoutAt(keys, m, i);
    LayoutAt(keys, m, j);
    LayoutAt(keys[..j], m, i);
    assert keys[..j][..i] == keys[..i];
  }

  // ---- round trip ----------------------------------------------------------

  /** The entries WriteTo keeps. */
  function Kept(m: Entries): (r: Entries) { map k | k in m && k >= HEADER_REGIONS :: m[k] }

  /** All offsets and counts fit the 32-bit fields of index and intro. */
  ghost predicate Fits(m: Entries) {
    |Layout(m).store| < TWO_TO_31 && |Tags(m)| + 1 < 0x1000_0000
  }

  /** What a reader makes of a written header. */
  ghost function Reread(m: Entries, regionTag: int): (r: Entries) {
    Kept(m)[regionTag := RegionEntry(regionTag, |Tags(m)|)]
  }

  /** The index with the region record in front, and the store with the region trailer and padding behind. */
  ghost function Table(m: Entries, regionTag: int): (s: seq<byte>) {
    PutRecord(Record(Wrap32(regionTag), BIN_TYPE, Wrap32(|Layout(m).store|), 16)) + Layout(m).index
  }

  ghost function PaddedStore(m: Entries, regionTag: int): (s: seq<byte>) {
    var b := Layout(m);
    b.store + RegionEntry(regionTag, |Tags(m)|).contents + Zeros(Padding(regionTag, |b.store| + 16))
  }

  lemma {:induction false} LayoutIndexLength(m: Entries)
    ensures |Layout(m).index| == 16 * |Tags(m)|
  {
    LayoutGrows(Tags(m), m, |Tags(m)|);
  }

  lemma {:induction false} SameModulo8(n: nat, k: nat)
    ensures (n + 8 * k) % 8 == n % 8
  {
  }

  lemma {:induction false} PaddingModulo(regionTag: int, n: nat, k: nat)
    ensures Padding(regionTag, 96 + n + 16 * k) == Padding(regionTag, n)
  {
    SameModulo8(n, 12 + 2 * k);
    assert 96 + n + 16 * k == n + 8 * (12 + 2 * k);
  }

  /** A written header is intro, index and store in a row. */
  lemma {:induction false} SerializedParts(m: Entries, regionTag: int)
    ensures Serialized(m, regionTag)
         == Intro(|Tags(m)|, |Layout(m).store|) + Table(m, regionTag) + PaddedStore(m, regionTag)
    ensures |Table(m, regionTag)| == 16 * (|Tags(m)| + 1)
  {
    LayoutIndexLength(m);
    AssembledParts(Layout(m), regionTag, |Tags(m)|);
  }

  lemma {:induction false} AssembledParts(b: Buffers, regionTag: int, n: nat)
    requires |b.index| == 16 * n
    ensures Assembled(b, regionTag, n)
         == Intro(n, |b.store|)
          + (PutRecord(Record(Wrap32(regionTag), BIN_TYPE, Wrap32(|b.store|), 16)) + b.index)
          + (b.store + RegionEntry(regionTag, n).contents + Zeros(Padding(regionTag, |b.store| + 16)))
  {
    hide PutRecord, Intro, Padding, Zeros;
    var e := RegionEntry(regionTag, n);
    var r := AddTag(Buffers([], b.store), regionTag, e);
    assert b.store + Zeros(0) == b.store;
    assert r.store == b.store + e.contents;
    PaddingModulo(regionTag, |r.store|, n);
    var x, z := Intro(n, |b.store|), Zeros(Padding(regionTag, |r.store|));
    Regroup([], x, r.index, b.index, r.store, z);
    assert r.index == PutRecord(Record(Wrap32(regionTag), BIN_TYPE, Wrap32(|b.store|), 16));
  }

  lemma {:induction false} PaddedStoreLength(m: Entries, regionTag: int)
    ensures var l := |Layout(m).store|;
            |PaddedStore(m, regionTag)| == l + 16 + Padding(regionTag, l + 16)
  {
  }

  lemma {:induction false} SerializedLength(m: Entries, regionTag: int)
    ensures var n, l := |Tags(m)|, |Layout(m).store|;
            |Serialized(m, regionTag)| == 48 + 16 * n + l + Padding(regionTag, l + 16)
    ensures regionTag == HEADER_SIGNATURES ==> |Serialized(m, regionTag)| % 8 == 0
  {
    hide Serialized, Table, PaddedStore, Tags, Layout, Intro, Padding;
    SerializedParts(m, regionTag);
    PaddedStoreLength(m, regionTag);
    var n, l := |Tags(m)|, |Layout(m).store|;
    SameModulo8(l + 16 + Padding(regionTag, l + 16), 4 + 2 * n);
  }

  lemma {:induction false} IntroFields(n: nat, l: nat)
    ensures var s := Intro(n, l);
            GetU32(s[0..4]) == INTRO_MAGIC && GetU32(s[8..12]) == U32(n + 1) && GetU32(s[12..16]) == U32(l + 16)
  {
    hide Put32, GetU32;
    var s := Intro(n, l);
    assert s[0..4] == Put32(INTRO_MAGIC) && s[8..12] == Put32(n + 1) && s[12..16] == Put32(l + 16);
    Get32OfPut32(INTRO_MAGIC);
    Get32OfPut32(n + 1);
    Get32OfPut32(l + 16);
  }

  /** The region tag that makes a header a signature block, whose store is rounded up. */
  predicate SignatureRegion(regionTag: int) { regionTag == HEADER_SIGNATURES }

  lemma {:induction false} PaddedLength(regionTag: int, l: nat)
    requires l < TWO_TO_31
    ensures StoreLength(U32(l + 16), SignatureRegion(regionTag)) == l + 16 + Padding(regionTag, l + 16)
  {
  }

  lemma {:induction false} WrittenExtents(m: Entries, regionTag: int)
    requires Fits(m)
    ensures var n, s := |Tags(m)|, Serialized(m, regionTag);
            Extents(s, SignatureRegion(regionTag)) == Ok(Extent(n + 1, 16 + 16 * (n + 1), |s|))
            && s[16..16 + 16 * (n + 1)] == Table(m, regionTag)
            && s[16 + 16 * (n + 1)..] == PaddedStore(m, regionTag)
  {
    hide Intro, Serialized, StoreLength, Padding, GetU32, Layout, Tags, Table, PaddedStore, SignatureRegion;
    var n, l, s := |Tags(m)|, |Layout(m).store|, Serialized(m, regionTag);
    SerializedParts(m, regionTag);
    IntroFields(n, l);
    var i := Intro(n, l);
    assert s[0..4] == i[0..4] && s[8..12] == i[8..12] && s[12..16] == i[12..16];
    PaddedLength(regionTag, l);
    PaddedStoreLength(m, regionTag);
  }

  /** The first i tags of a list with their entries. */
  ghost function FirstEntries(keys: seq<int>, m: Entries, i: nat): (r: Entries)
    requires Covers(keys, m) && i <= |keys|
  {
    map k | k in keys[..i] && k in m :: m[k]
  }

  /** Reading a record in front of its blob gives back the entry. */
  lemma {:induction false} PlacedIsRead(table: seq<byte>, data: seq<byte>, i: nat, tag: int, e: Entry, o: nat,
                                        acc: Entries)
    requires WellFormedEntry(e) && -TWO_TO_31 <= tag < TWO_TO_31 && o < TWO_TO_31
    requires |table| >= 16 * i + 16
    requires table[16 * i..16 * i + 16] == PutRecord(Record(Wrap32(tag), e.dataType, Wrap32(o), e.count))
    requires o + |e.contents| <= |data| && data[o..o + |e.contents|] == e.contents
    ensures AddRecord(acc, table, data, i) == Ok(acc[tag := e])
  {
    hide PutRecord, GetRecord, EntryAt, WellFormedEntry;
    var r := Record(Wrap32(tag), e.dataType, Wrap32(o), e.count);
    GetOfPutRecord(r);
    EntryAtComplete(data, r, e);
  }

  lemma {:induction false} RegionIsRead(m: Entries, regionTag: int)
    requires Fits(m) && -TWO_TO_31 <= regionTag < HEADER_REGIONS
    ensures EntriesUpTo(Table(m, regionTag), PaddedStore(m, regionTag), 1)
         == Ok(map[regionTag := RegionEntry(regionTag, |Tags(m)|)])
  {
    hide PutRecord, RegionEntry, AddRecord, Padding, Zeros, Layout;
    var t, d, o := Table(m, regionTag), PaddedStore(m, regionTag), |Layout(m).store|;
    var e := RegionEntry(regionTag, |Tags(m)|);
    assert t[16 * 0..16] == PutRecord(Record(Wrap32(regionTag), BIN_TYPE, Wrap32(o), 16));
    assert d[o..o + 16] == e.contents;
    RegionEntryShape(regionTag, |Tags(m)|);
    PlacedIsRead(t, d, 0, regionTag, e, o, map[]);
    assert EntriesUpTo(t, d, 0) == Ok(map[]);
  }

  lemma {:induction false} RegionEntryShape(regionTag: int, n: nat)
    ensures var e := RegionEntry(regionTag, n);
            e.dataType == BIN_TYPE && e.count == 16 && WellFormedEntry(e)
  {
  }

  lemma {:induction false} TagIsRead(m: Entries, regionTag: int, i: nat, acc: Entries)
    requires Fits(m) && WellFormed(Kept(m)) && i < |Tags(m)|
    ensures var k := Tags(m)[i];
            AddRecord(acc, Table(m, regionTag), PaddedStore(m, regionTag), i + 1) == Ok(acc[k := m[k]])
  {
    hide PutRecord, RegionEntry, AddRecord, Padding, Zeros, AddTags, WellFormedEntry;
    var keys, b := Tags(m), Layout(m);
    var t, d, k, o := Table(m, regionTag), PaddedStore(m, regionTag), keys[i], OffsetOf(keys, m, i);
    var e := m[k];
    LayoutAt(keys, m, i);
    assert Kept(m)[k] == e;
    assert t[16 * (i + 1)..16 * (i + 1) + 16] == b.index[16 * i..16 * i + 16];
    assert d[o..o + |e.contents|] == b.store[o..o + |e.contents|];
    PlacedIsRead(t, d, i + 1, k, e, o, acc);
  }

  lemma {:induction false} FirstEntriesStep(keys: seq<int>, m: Entries, i: nat, r: Entries)
    requires Covers(keys, m) && 0 < i <= |keys|
    ensures r + FirstEntries(keys, m, i) == (r + FirstEntries(keys, m, i - 1))[keys[i - 1] := m[keys[i - 1]]]
  {
    assert keys[..i] == keys[..i - 1] + [keys[i - 1]];
  }

  lemma {:induction false} RecordsAreRead(m: Entries, regionTag: int, i: nat, r: Entries)
    requires Fits(m) && WellFormed(Kept(m)) && i <= |Tags(m)|
    requires -TWO_TO_31 <= regionTag < HEADER_REGIONS
    requires r == map[regionTag := RegionEntry(regionTag, |Tags(m)|)]
    ensures EntriesUpTo(Table(m, regionTag), PaddedStore(m, regionTag), i + 1)
         == Ok(r + FirstEntries(Tags(m), m, i))
  {
    hide Table, PaddedStore, RegionEntry, AddRecord, Fits, WellFormed, FirstEntries, Tags, Kept;
    if i == 0 {
      RegionIsRead(m, regionTag);
      NoEntries(Tags(m), m, r);
    } else {
      RecordsAreRead(m, regionTag, i - 1, r);
      TagIsRead(m, regionTag, i - 1, r + FirstEntries(Tags(m), m, i - 1));
      FirstEntriesStep(Tags(m), m, i, r);
    }
  }

  lemma {:induction false} NoEntries(keys: seq<int>, m: Entries, r: Entries)
    requires Covers(keys, m)
    ensures r + FirstEntries(keys, m, 0) == r
  {
  }

  lemma {:induction false} AllFirstEntries(m: Entries)
    ensures FirstEntries(Tags(m), m, |Tags(m)|) == Kept(m)
  {
    hide Tags;
    var keys := Tags(m);
    assert keys[..|keys|] == keys;
    assert forall k :: k in FirstEntries(keys, m, |keys|) <==> k in Kept(m);
  }

  lemma {:induction false} RegionInFront(r: Entries, kept: Entries, tag: int, e: Entry)
    requires tag !in kept && r == map[tag := e]
    ensures r + kept == kept[tag := e]
  {
  }

  lemma {:induction false} AllEntries(m: Entries, regionTag: int)
    requires regionTag < HEADER_REGIONS
    ensures map[regionTag := RegionEntry(regionTag, |Tags(m)|)] + FirstEntries(Tags(m), m, |Tags(m)|)
         == Reread(m, regionTag)
  {
    hide RegionEntry, FirstEntries, Tags;
    AllFirstEntries(m);
    var e := RegionEntry(regionTag, |Tags(m)|);
    RegionInFront(map[regionTag := e], Kept(m), regionTag, e);
  }

  /**
    Codec round trip: a written header, whatever follows it, is read back as the
    kept entries plus the region entry, and consumes exactly what was written.
   */
  lemma {:induction false} RoundTrip(c: Crypto, m: Entries, regionTag: int, alg: Algorithm, isSource: bool,
                                     rest: seq<byte>)
    requires Fits(m) && WellFormed(Kept(m)) && -TWO_TO_31 <= regionTag < HEADER_REGIONS
    ensures var s := Serialized(m, regionTag);
            ParseHeader(c, s + rest, [], alg, isSource, SignatureRegion(regionTag))
            == Ok(Header(Reread(m, regionTag), isSource, s))
  {
    hide Serialized, Table, PaddedStore, RegionEntry, Fits, WellFormed, Extents, SignatureRegion, FirstEntries,
      Reread, Tags, EntriesUpTo, Kept;
    var s, n := Serialized(m, regionTag), |Tags(m)|;
    WrittenExtents(m, regionTag);
    RecordsAreRead(m, regionTag, n, map[regionTag := RegionEntry(regionTag, n)]);
    AllEntries(m, regionTag);
    assert s[16 + 16 * (n + 1)..|s|] == s[16 + 16 * (n + 1)..] && s[..|s|] == s;
    ParseHeaderIsLocal(c, s, rest, [], alg, isSource, SignatureRegion(regionTag));
  }

  // ---- the round trip needs its conditions ---------------------------------

  /** A header that is consumed to its last byte has lost nothing to 32-bit arithmetic. */
  lemma {:induction false} ConsumedMeansNoWrap(m: Entries, regionTag: int)
    requires var s, x := Serialized(m, regionTag), Extents(Serialized(m, regionTag), SignatureRegion(regionTag));
             x.Ok? && x.value.table == 16 + 16 * x.value.count && x.value.end == |s|
    ensures |Tags(m)| + 1 < 0x1000_0000 && |Layout(m).store| + 16 < TWO_TO_32
    ensures Extents(Serialized(m, regionTag), SignatureRegion(regionTag)).value.count == |Tags(m)| + 1
  {
    hide Intro, Serialized, GetU32, Layout, Table, PaddedStore, Tags, StoreLength, Padding, TableLength;
    var s, n, l := Serialized(m, regionTag), |Tags(m)|, |Layout(m).store|;
    SerializedParts(m, regionTag);
    SerializedLength(m, regionTag);
    IntroFields(n, l);
    var i := Intro(n, l);
    assert s[0..4] == i[0..4] && s[8..12] == i[8..12] && s[12..16] == i[12..16];
    var x := Extents(s, SignatureRegion(regionTag)).value;
    assert x.count == U32(n + 1) && x.end - x.table == StoreLength(U32(l + 16), SignatureRegion(regionTag));
    NoWrap(n + 1, l + 16, x.count, x.end - x.table);
  }

  lemma {:induction false} NoWrap(n: nat, l: nat, count: nat, stored: nat)
    requires count == U32(n) && stored < U32(l) + 8 && count < 0x1000_0000
    requires 16 * count + stored >= 16 * n + l
    ensures n < 0x1000_0000 && l < TWO_TO_32
  {
    assert n >= TWO_TO_32 ==> count <= n - TWO_TO_32;
    assert l >= TWO_TO_32 ==> U32(l) <= l - TWO_TO_32;
  }

  lemma {:induction false} TableStartsWithRegion(m: Entries, regionTag: int)
    ensures |Table(m, regionTag)| >= 16
    ensures Table(m, regionTag)[0..16] == PutRecord(Record(Wrap32(regionTag), BIN_TYPE, Wrap32(|Layout(m).store|), 16))
  {
    hide PutRecord, Layout;
  }

  /** The region record is the first one to be read; its offset must not turn negative. */
  lemma {:induction false} RegionOffsetFits(m: Entries, regionTag: int, count: nat)
    requires var s := Serialized(m, regionTag);
             && 32 <= 16 + 16 * count <= |s| && |Layout(m).store| < TWO_TO_32
             && EntriesUpTo(s[16..16 + 16 * count], s[16 + 16 * count..], count).Ok?
    ensures |Layout(m).store| < TWO_TO_31
  {
    hide Intro, Serialized, GetU32, Layout, PaddedStore, Tags, PutRecord, GetRecord, Table;
    var s, l := Serialized(m, regionTag), |Layout(m).store|;
    SerializedParts(m, regionTag);
    var t, d := s[16..16 + 16 * count], s[16 + 16 * count..];
    var r := Record(Wrap32(regionTag), BIN_TYPE, Wrap32(l), 16);
    TableStartsWithRegion(m, regionTag);
    assert t[16 * 0..16] == Table(m, regionTag)[0..16];
    GetOfPutRecord(r);
    if EntriesUpTo(t, d, 1).IsFailure() {
      FailureStays(t, d, 1, count);
    }
    assert EntriesUpTo(t, d, 0) == Ok(map[]);
  }

  lemma {:induction false} RereadMeansWellFormed(c: Crypto, m: Entries, regionTag: int, alg: Algorithm, isSource: bool)
    requires regionTag < HEADER_REGIONS
    requires ParseHeader(c, Serialized(m, regionTag), [], alg, isSource, SignatureRegion(regionTag))
          == Ok(Header(Reread(m, regionTag), isSource, Serialized(m, regionTag)))
    ensures WellFormed(Kept(m))
  {
    hide Serialized, ParseHeader, SignatureRegion, RegionEntry, Tags, WellFormedEntry;
    ReadHeaderInvariant(c, Serialized(m, regionTag), [], alg, isSource, SignatureRegion(regionTag));
    forall k | k in Kept(m)
      ensures -TWO_TO_31 <= k < TWO_TO_31 && WellFormedEntry(Kept(m)[k])
    {
      assert k in Reread(m, regionTag) && Reread(m, regionTag)[k] == Kept(m)[k];
    }
  }

  lemma {:induction false} RereadMeansFits(c: Crypto, m: Entries, regionTag: int, alg: Algorithm, isSource: bool)
    requires var h := ParseHeader(c, Serialized(m, regionTag), [], alg, isSource, SignatureRegion(regionTag));
             h.Ok? && h.value.orig == Serialized(m, regionTag)
    ensures Fits(m)
  {
    hide Serialized, Extents, SignatureRegion, EntriesUpTo, Layout, Tags, WellFormed;
    var s, sb := Serialized(m, regionTag), SignatureRegion(regionTag);
    ReadHeaderInvariant(c, s, [], alg, isSource, sb);
    var x := Extents(s, sb).value;
    ConsumedMeansNoWrap(m, regionTag);
    assert s[x.table..x.end] == s[x.table..];
    RegionOffsetFits(m, regionTag, x.count);
  }

  /**
    The round trip holds if and only if the entries are ones a reader can produce
    and all offsets and counts fit their 32-bit fields.
   */
  lemma {:induction false} RoundTripIff(c: Crypto, m: Entries, regionTag: int, alg: Algorithm, isSource: bool)
    requires -TWO_TO_31 <= regionTag < HEADER_REGIONS
    ensures var s := Serialized(m, regionTag);
            ParseHeader(c, s, [], alg, isSource, SignatureRegion(regionTag))
            == Ok(Header(Reread(m, regionTag), isSource, s))
            <==> Fits(m) && WellFormed(Kept(m))
  {
    hide Serialized, ParseHeader, SignatureRegion, Reread, Fits, WellFormed, Kept;
    var s := Serialized(m, regionTag);
    assert s + [] == s;
    if Fits(m) && WellFormed(Kept(m)) {
      RoundTrip(c, m, regionTag, alg, isSource, []);
    }
    var h := ParseHeader(c, s, [], alg, isSource, SignatureRegion(regionTag));
    if h == Ok(Header(Reread(m, regionTag), isSource, s)) {
      RereadMeansWellFormed(c, m, regionTag, alg, isSource);
      RereadMeansFits(c, m, regionTag, alg, isSource);
    }
  }

  /**
    The region trailer directly behind the blobs points back over exactly the
    index, provided that 16 times the number of records is at most 2^31.
   */
  lemma {:induction false} RegionPointsBack(m: Entries, regionTag: int)
    ensures Layout(m).store + RegionEntry(regionTag, |Tags(m)|).contents <= PaddedStore(m, regionTag)
    ensures var r := GetRecord(RegionEntry(regionTag, |Tags(m)|).contents);
            && r.tag == Wrap32(regionTag) && r.dataType == BIN_TYPE && r.count == 16
            && (r.offset == -|Table(m, regionTag)| <==> |Tags(m)| + 1 <= 0x800_0000)
  {
    hide Layout, Tags, PutRecord, GetRecord, Padding, Zeros, Serialized, Table;
    SerializedParts(m, regionTag);
    GetOfPutRecord(Record(Wrap32(regionTag), BIN_TYPE, Wrap32(-16 * (1 + |Tags(m)|)), 16));
  }
}
