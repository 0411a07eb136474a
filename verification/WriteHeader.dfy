/**
  Writing of RPM header structures (writeheader.go): the tags in increasing
  order, each blob aligned for its type, a region record that covers the whole
  index, and padding to 8 bytes for the signature header.
 */
module WriteHeader {
  import opened Bytes
  import opened Outcomes
  import opened Header

  const HEADER_SIGNATURES := 62
  const HEADER_IMMUTABLE := 63
  const HEADER_REGIONS := 64

  // ---- sorted tags ---------------------------------------------------------

  ghost predicate Increasing(s: seq<int>) {
    forall i, j :: 0 <= i < j < |s| ==> s[i] < s[j]
  }

  lemma NonEmpty(s: set<int>)
    requires s != {}
    ensures exists x :: x in s
  {
    if !exists x :: x in s {
      assert false;
    }
  }

  function Smallest(s: set<int>): (x: int)
    requires s != {}
    ensures x in s && forall y :: y in s ==> x <= y
  {
    SmallestExists(s);
    var x :| x in s && forall y :: y in s ==> x <= y;
    x
  }

  lemma {:induction false} SmallestExists(s: set<int>)
    requires s != {}
    ensures exists x :: x in s && forall y :: y in s ==> x <= y
    decreases |s|
  {
    NonEmpty(s);
    var x: int :| x in s;
    var t := s - {x};
    if t == {} {
      assert s == {x};
      assert forall y :: y in s ==> x <= y;
    } else {
      SmallestExists(t);
      var z :| z in t && forall y :: y in t ==> z <= y;
      var w := if x < z then x else z;
      forall y | y in s ensures w <= y {
        assert y == x || y in t;
      }
      assert w in s;
    }
  }

  /** sort.Ints on the elements of a set. */
  function Sorted(s: set<int>): (r: seq<int>)
    ensures Increasing(r) && |r| == |s|
    ensures forall k :: k in r <==> k in s
    decreases |s|
  {
    if s == {} then []
    else
      var x := Smallest(s);
      var r := Sorted(s - {x});
      assert forall i :: 0 <= i < |r| ==> r[i] in s - {x};
      [x] + r
  }

  /** A sorted list is determined by its elements. */
  lemma {:induction false} SortedIsUnique(a: seq<int>, b: seq<int>)
    requires Increasing(a) && Increasing(b)
    requires forall k :: k in a <==> k in b
    ensures a == b
  {
    if a == [] {
      assert forall i :: 0 <= i < |b| ==> b[i] in a;
    } else {
      assert a[0] in a && a[0] in b;
      assert b != [] && b[0] in b && b[0] in a;
      assert a[0] == b[0];
      forall k ensures k in a[1..] <==> k in b[1..] {
        TailMember(a, k);
        TailMember(b, k);
      }
      SortedIsUnique(a[1..], b[1..]);
      assert a == [a[0]] + a[1..] && b == [b[0]] + b[1..];
    }
  }

  lemma {:induction false} TailMember(a: seq<int>, k: int)
    requires a != [] && Increasing(a)
    ensures k in a[1..] <==> k in a && k != a[0]
  {
    if k in a && k != a[0] {
      var i :| 0 <= i < |a| && a[i] == k;
      assert a[1..][i - 1] == k;
    }
  }

  /** The tags that are written: regions are dropped. */
  function TagSet(m: Entries): (s: set<int>)
    ensures forall k :: k in s <==> k in m && k >= HEADER_REGIONS
  {
    set k | k in m && k >= HEADER_REGIONS
  }

  function Tags(m: Entries): (s: seq<int>)
    ensures Increasing(s) && Covers(s, m)
    ensures forall k :: k in s <==> k in m && k >= HEADER_REGIONS
    ensures forall i :: 0 <= i < |s| ==> s[i] >= HEADER_REGIONS
  {
    var s := Sorted(TagSet(m));
    assert forall i :: 0 <= i < |s| ==> s[i] in s;
    s
  }

  /** All tags of the list have an entry. */
  predicate Covers(keys: seq<int>, m: Entries) { forall i :: 0 <= i < |keys| ==> keys[i] in m }

  // ---- layout --------------------------------------------------------------

  function Align(t: int): (n: nat)
    ensures n == 1 || n == 2 || n == 4 || n == 8
  {
    if t == INT16_TYPE then 2 else if t == INT32_TYPE then 4 else if t == INT64_TYPE then 8 else 1
  }

  /** Zero bytes needed in front of a blob of type t when the store has length n. */
  function Gap(n: nat, t: int): (g: nat)
    ensures Aligned(n + g, t) && g < Align(t)
  {
    RoundsUp(n);
    if t == INT16_TYPE then (if n % 2 == 0 then 0 else 2 - n % 2)
    else if t == INT32_TYPE then (if n % 4 == 0 then 0 else 4 - n % 4)
    else if t == INT64_TYPE then (if n % 8 == 0 then 0 else 8 - n % 8)
    else 0
  }

  predicate Aligned(n: nat, t: int) {
    && (t == INT16_TYPE ==> n % 2 == 0)
    && (t == INT32_TYPE ==> n % 4 == 0)
    && (t == INT64_TYPE ==> n % 8 == 0)
  }

  /** Index and store under construction. */
  datatype Buffers = Buffers(index: seq<byte>, store: seq<byte>)

  function AddTag(b: Buffers, tag: int, e: Entry): (r: Buffers) {
    var store := b.store + Zeros(Gap(|b.store|, e.dataType));
    Buffers(b.index + PutRecord(Record(Wrap32(tag), e.dataType, Wrap32(|store|), e.count)), store + e.contents)
  }

  function AddTags(keys: seq<int>, m: Entries): (r: Buffers)
    requires Covers(keys, m)
  {
    if keys == [] then Buffers([], [])
    else
      var n := |keys| - 1;
      AddTag(AddTags(keys[..n], m), keys[n], m[keys[n]])
  }

  function Layout(m: Entries): (r: Buffers) { AddTags(Tags(m), m) }

  /** The record inside of the region entry points back over the whole index. */
  function RegionEntry(regionTag: int, tagCount: nat): (e: Entry)
    ensures |e.contents| == 16
  {
    Entry(BIN_TYPE, 16, PutRecord(Record(Wrap32(regionTag), BIN_TYPE, Wrap32(-16 * (1 + tagCount)), 16)))
  }

  function Intro(tagCount: nat, storeLength: nat): (s: seq<byte>)
    ensures |s| == 16
  {
    Put32(INTRO_MAGIC) + Put32(0) + Put32(tagCount + 1) + Put32(storeLength + 16)
  }

  function Padding(regionTag: int, n: nat): (p: nat)
    ensures regionTag == HEADER_SIGNATURES ==> (n + p) % 8 == 0 && p < 8
    ensures regionTag != HEADER_SIGNATURES ==> p == 0
  {
    RoundsUp(n);
    if regionTag == HEADER_SIGNATURES && n % 8 != 0 then 8 - n % 8 else 0
  }

  /** Everything behind the sorted tags, once index and store are complete. */
  function Assembled(b: Buffers, regionTag: int, n: nat): (s: seq<byte>) {
    var r := AddTag(Buffers([], b.store), regionTag, RegionEntry(regionTag, n));
    Intro(n, |b.store|) + r.index + b.index + r.store + Zeros(Padding(regionTag, 96 + |r.store| + |b.index|))
  }

  /** The bytes WriteTo writes. */
  function Serialized(m: Entries, regionTag: int): (s: seq<byte>) {
    Assembled(Layout(m), regionTag, |Tags(m)|)
  }

  // ---- the rules in numbers ------------------------------------------------

  /** The tags from 64 on are written. */
  lemma {:induction false} WrittenTags(m: Entries, k: int)
    ensures k in Tags(m) <==> k in m && k >= 64
  {
  }

  /** Blobs of INT16, INT32 and INT64 start at the next multiples of 2, 4 and 8, all others without a gap. */
  lemma {:induction false} AlignmentOfTypes(n: nat, t: int)
    ensures t == 3 ==> (n + Gap(n, t)) % 2 == 0 && Gap(n, t) < 2
    ensures t == 4 ==> (n + Gap(n, t)) % 4 == 0 && Gap(n, t) < 4
    ensures t == 5 ==> (n + Gap(n, t)) % 8 == 0 && Gap(n, t) < 8
    ensures t !in {3, 4, 5} ==> Gap(n, t) == 0
  {
  }

  /** Signature headers, with region tag 62, are padded to a multiple of 8, and others not at all. */
  lemma {:induction false} PaddingOfRegions(n: nat, regionTag: int)
    ensures (n + Padding(62, n)) % 8 == 0 && Padding(62, n) < 8
    ensures regionTag != 62 ==> Padding(regionTag, n) == 0
  {
  }

  // ---- imperative form -----------------------------------------------------

  /**
    A destination of bytes. A bytes.Buffer keeps what is written; byteCountSink
    only counts it.
   */
  class Sink {
    const keeps: bool
    var kept: seq<byte>
    var count: nat
    ghost var written: seq<byte>

    ghost predicate Valid()
      reads this
    {
      count == |written| && kept == if keeps then written else []
    }

    constructor (keeps: bool)
      ensures Valid() && written == [] && this.keeps == keeps
    {
      this.keeps := keeps;
      kept, count, written := [], 0, [];
    }

    method Write(data: seq<byte>)
      requires Valid()
      modifies this
      ensures Valid() && written == old(written) + data
    {
      if keeps {
        kept := kept + data;
      }
      count := count + |data|;
      written := written + data;
    }
  }

  method WriteTag(entries: Sink, blobs: Sink, tag: int, e: Entry)
    requires entries != blobs && entries.Valid() && blobs.Valid()
    modifies entries, blobs
    ensures entries.Valid() && blobs.Valid()
    ensures Buffers(entries.written, blobs.written) == AddTag(Buffers(old(entries.written), old(blobs.written)), tag, e)
  {
    if Align(e.dataType) != 1 {
      var n := blobs.count % Align(e.dataType);
      if n != 0 {
        blobs.Write(Zeros(Align(e.dataType) - n));
      }
    }
    assert blobs.written == old(blobs.written) + Zeros(Gap(|old(blobs.written)|, e.dataType));
    entries.Write(PutRecord(Record(Wrap32(tag), e.dataType, Wrap32(blobs.count), e.count)));
    blobs.Write(e.contents);
  }

  method WriteRegion(entries: Sink, blobs: Sink, regionTag: int, tagCount: nat)
    requires entries != blobs && entries.Valid() && blobs.Valid()
    modifies entries, blobs
    ensures entries.Valid() && blobs.Valid()
    ensures Buffers(entries.written, blobs.written)
         == AddTag(Buffers(old(entries.written), old(blobs.written)), regionTag, RegionEntry(regionTag, tagCount))
  {
    var regionValue := Record(Wrap32(regionTag), BIN_TYPE, Wrap32(-16 * (1 + tagCount)), 16);
    WriteTag(entries, blobs, regionTag, Entry(BIN_TYPE, 16, PutRecord(regionValue)));
  }

  /** A tag is added the same way behind any index. */
  lemma {:induction false} AddTagBehind(index: seq<byte>, store: seq<byte>, tag: int, e: Entry)
    ensures var a, b := AddTag(Buffers(index, store), tag, e), AddTag(Buffers([], store), tag, e);
            a.index == index + b.index && a.store == b.store
  {
    hide PutRecord, Gap, Zeros, Wrap32;
  }

  method FinishHeader(out: Sink, index: Sink, blobs: Sink, regionTag: int, n: nat)
    requires out.Valid() && index.Valid() && blobs.Valid() && index.keeps && blobs.keeps
    requires out != index && out != blobs && index != blobs
    modifies out, blobs
    ensures out.Valid()
    ensures out.written
         == old(out.written) + Assembled(Buffers(old(index.written), old(blobs.written)), regionTag, n)
  {
    hide AddTag, RegionEntry, Intro, Zeros;
    var intro := Intro(n, blobs.count);
    ghost var o, store := out.written, blobs.written;
    ghost var region := AddTag(Buffers([], store), regionTag, RegionEntry(regionTag, n));
    out.Write(intro);
    WriteRegion(out, blobs, regionTag, n);
    AddTagBehind(o + intro, store, regionTag, RegionEntry(regionTag, n));
    assert out.written == o + intro + region.index && blobs.written == region.store;
    var totalSize := 96 + blobs.count + index.count;
    out.Write(index.kept);
    out.Write(blobs.kept);
    var padding: seq<byte> := [];
    if regionTag == HEADER_SIGNATURES {
      var alignment := totalSize % 8;
      if alignment != 0 {
        padding := Zeros(8 - alignment);
      }
    }
    out.Write(padding);
    assert padding == Zeros(Padding(regionTag, totalSize));
    Regroup(o, intro, region.index, index.written, region.store, padding);
  }

  /** rpmHeader: the entries change, the bytes it was read from do not. */
  class HeaderArea {
    var entries: Entries
    const isSource: bool
    const orig: seq<byte>

    constructor (h: Header)
      ensures entries == h.entries && isSource == h.isSource && orig == h.orig
    {
      entries, isSource, orig := h.entries, h.isSource, h.orig;
    }

    /** Collects the tags in whatever order the map yields them, then sorts. */
    method CollectTags() returns (keys: seq<int>)
      ensures keys == Tags(entries)
    {
      var found: seq<int> := [];
      var todo := entries.Keys;
      while todo != {}
        invariant todo <= entries.Keys
        invariant forall k :: k in found <==> k in entries && k !in todo && k >= HEADER_REGIONS
        decreases |todo|
      {
        NonEmpty(todo);
        var k: int :| k in todo;
        todo := todo - {k};
        if k < HEADER_REGIONS {
          continue;
        }
        found := found + [k];
      }
      var all := set k | k in found;
      assert all == TagSet(entries) by {
        assert forall k :: k in all <==> k in TagSet(entries);
      }
      keys := Sorted(all);
    }

    method WriteTo(out: Sink, regionTag: int) returns (r: Outcome<()>)
      requires out.Valid()
      modifies out
      ensures out.Valid()
      ensures regionTag != 0 && regionTag >= HEADER_REGIONS ==>
        r == Err(InvalidRegionTag) && out.written == old(out.written)
      ensures regionTag == 0 || regionTag < HEADER_REGIONS ==>
        r == Ok(()) && out.written == old(out.written) + Serialized(entries, regionTag)
    {
      if regionTag != 0 && regionTag >= HEADER_REGIONS {
        return Err(InvalidRegionTag);
      }
      var keys := CollectTags();
      var index, blobs := WriteTags(keys);
      FinishHeader(out, index, blobs, regionTag, |keys|);
      return Ok(());
    }

    method WriteTags(keys: seq<int>) returns (index: Sink, blobs: Sink)
      requires Covers(keys, entries)
      ensures fresh(index) && fresh(blobs) && index != blobs && index.Valid() && blobs.Valid()
      ensures index.keeps && blobs.keeps && Buffers(index.written, blobs.written) == AddTags(keys, entries)
    {
      hide AddTag;
      index := new Sink(true);
      blobs := new Sink(true);
      var i := 0;
      while i < |keys|
        invariant 0 <= i <= |keys| && index.Valid() && blobs.Valid()
        invariant Buffers(index.written, blobs.written) == AddTags(keys[..i], entries)
        modifies index, blobs
      {
        WriteTag(index, blobs, keys[i], entries[keys[i]]);
        assert keys[..i + 1][..i] == keys[..i];
        i := i + 1;
      }
      assert keys[..|keys|] == keys;
    }

    method Size(regionTag: int) returns (r: Outcome<nat>)
      ensures r == if regionTag != 0 && regionTag >= HEADER_REGIONS then Err(InvalidRegionTag)
                   else Ok(|Serialized(entries, regionTag)|)
    {
      var sink := new Sink(false);
      var w := WriteTo(sink, regionTag);
      if w.IsFailure() {
        return w.PropagateFailure();
      }
      return Ok(sink.count);
    }
  }
}
