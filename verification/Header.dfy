/**
  Reading of RPM header structures (header.go): a 16-byte intro, an index of
  16-byte records and a data store.
 */
module Header {
  import opened Bytes
  import opened Outcomes
  import opened Streams
  import opened Digests

  const INTRO_MAGIC := 0x8eade801

  const NULL_TYPE := 0
  const CHAR_TYPE := 1
  const INT8_TYPE := 2
  const INT16_TYPE := 3
  const INT32_TYPE := 4
  const INT64_TYPE := 5
  const STRING_TYPE := 6
  const BIN_TYPE := 7
  const STRING_ARRAY_TYPE := 8
  const I18NSTRING_TYPE := 9

  datatype Entry = Entry(dataType: int32, count: int32, contents: seq<byte>)

  type Entries = map<int, Entry>

  /** `orig` holds the bytes the header was read from. */
  datatype Header = Header(entries: Entries, isSource: bool, orig: seq<byte>)

  /** One record of the index. */
  datatype Record = Record(tag: int32, dataType: int32, offset: int32, count: int32)

  /** Types whose elements have a fixed size; all others hold NUL-terminated strings. */
  predicate Sized(t: int) { 0 <= t <= 5 || t == BIN_TYPE }

  function TypeSize(t: int): (n: nat)
    requires Sized(t)
  {
    if t == NULL_TYPE then 0
    else if t == INT16_TYPE then 2
    else if t == INT32_TYPE then 4
    else if t == INT64_TYPE then 8
    else 1
  }

  function PutRecord(r: Record): (s: seq<byte>)
    ensures |s| == 16
  {
    Put32(r.tag) + Put32(r.dataType) + Put32(r.offset) + Put32(r.count)
  }

  function GetRecord(s: seq<byte>): (r: Record)
    requires |s| == 16
  {
    Record(Get32(s[0..4]), Get32(s[4..8]), Get32(s[8..12]), Get32(s[12..16]))
  }

  lemma {:induction false} GetOfPutRecord(r: Record)
    ensures GetRecord(PutRecord(r)) == r
  {
    hide Put32, Get32;
    var s := PutRecord(r);
    assert s[0..4] == Put32(r.tag);
    assert s[4..8] == Put32(r.dataType);
    assert s[8..12] == Put32(r.offset);
    assert s[12..16] == Put32(r.count);
    Get32OfPut32(r.tag);
    Get32OfPut32(r.dataType);
    Get32OfPut32(r.offset);
    Get32OfPut32(r.count);
  }

  // ---- specification of readHeader -----------------------------------------

  /** The end of k NUL-terminated strings that start at `end`. */
  function StringsEnd(data: seq<byte>, end: int, k: int, tag: int): (r: Outcome<int>)
    decreases if k > 0 then k else 0
  {
    if k <= 0 then Ok(end)
    else if !(0 <= end <= |data|) then Panic
    else
      var next := IndexNul(data[end..]);
      if next < 0 then Err(TagTruncated(tag)) else StringsEnd(data, end + next + 1, k - 1, tag)
  }

  function EndOf(data: seq<byte>, r: Record): (e: Outcome<int>) {
    if Sized(r.dataType) then Ok(r.offset + TypeSize(r.dataType) * r.count)
    else StringsEnd(data, r.offset, r.count, r.tag)
  }

  /** The entry a record describes; slicing outside of the store panics. */
  function EntryAt(data: seq<byte>, r: Record): (e: Outcome<Entry>) {
    var end :- EndOf(data, r);
    if 0 <= r.offset <= end <= |data| then Ok(Entry(r.dataType, r.count, data[r.offset..end])) else Panic
  }

  /** Adds record i of the index; a later record replaces an earlier one with the same tag. */
  function AddRecord(m: Entries, table: seq<byte>, data: seq<byte>, i: nat): (r: Outcome<Entries>) {
    if |table| < 16 * i + 16 then Err(TableExhausted)
    else
      var r := GetRecord(table[16 * i..16 * i + 16]);
      var e :- EntryAt(data, r);
      Ok(m[r.tag as int := e])
  }

  /** The map after the first i records. */
  function EntriesUpTo(table: seq<byte>, data: seq<byte>, i: nat): (m: Outcome<Entries>) {
    if i == 0 then Ok(map[])
    else
      var m :- EntriesUpTo(table, data, i - 1);
      AddRecord(m, table, data, i - 1)
  }

  /** Length of the index in bytes: a 32-bit product. */
  function TableLength(count: nat): (n: nat)
    ensures n < TWO_TO_32
    ensures n == 16 * count <==> count < 0x1000_0000
    ensures n <= 16 * count
  {
    U32(count * 16)
  }

  /** Length of the store in bytes: rounded up to 8 in a signature block, in 32 bits. */
  function StoreLength(size: nat, sigBlock: bool): (n: nat)
    ensures sigBlock ==> n % 8 == 0
    ensures !sigBlock ==> n == size
    ensures sigBlock && size + 7 < TWO_TO_32 ==> size <= n < size + 8
    ensures n < size + 8
  {
    if sigBlock then U32(size + 7) / 8 * 8 else size
  }

  /** A digest of at most one character is not checked. */
  function CheckDigest(c: Crypto, expected: seq<byte>, alg: Algorithm, data: seq<byte>): (r: Outcome<()>) {
    if |expected| <= 1 then Ok(())
    else if !c.available(alg) then Panic
    else if Hex(c.sum(alg, data)) != expected then Err(DigestMismatch)
    else Ok(())
  }

  /** Where the parts of a header lie: the index is s[16..table], the store s[table..end]. */
  datatype Extent = Extent(count: nat, table: nat, end: nat)

  function Extents(s: seq<byte>, sigBlock: bool): (r: Outcome<Extent>)
    ensures r.Ok? ==> 16 <= r.value.table <= r.value.end <= |s| && r.value.table == 16 + TableLength(r.value.count)
    ensures r.Ok? && sigBlock ==> (r.value.end - r.value.table) % 8 == 0
  {
    if |s| < 16 then Err(HeaderTruncated)
    else if GetU32(s[0..4]) != INTRO_MAGIC then Err(BadMagic)
    else
      var count, size := GetU32(s[8..12]), GetU32(s[12..16]);
      var t := 16 + TableLength(count);
      var d := t + StoreLength(size, sigBlock);
      if |s| < t then Err(TableTruncated)
      else if |s| < d then Err(DataTruncated)
      else Ok(Extent(count, t, d))
  }

  /** readHeader on a stream holding s. */
  function ParseHeader(c: Crypto, s: seq<byte>, expected: seq<byte>, alg: Algorithm, isSource: bool, sigBlock: bool)
    : (h: Outcome<Header>)
    ensures h.Ok? ==> h.value.orig <= s
  {
    var x :- Extents(s, sigBlock);
    var _ :- CheckDigest(c, expected, alg, s[..x.end]);
    var m :- EntriesUpTo(s[16..x.table], s[x.table..x.end], x.count);
    Ok(Header(m, isSource, s[..x.end]))
  }

  /** The i-th record of an index. */
  function RecordAt(table: seq<byte>, i: nat): (r: Record)
    requires 16 * i + 16 <= |table|
  {
    GetRecord(table[16 * i..16 * i + 16])
  }

  /** The map holds exactly the tags of the records, and the entry of the last record with a tag. */
  lemma {:induction false} LastRecordWins(table: seq<byte>, data: seq<byte>, n: nat, i: nat)
    requires EntriesUpTo(table, data, n).Ok? && i < n && 16 * n <= |table|
    requires forall j :: i < j < n ==> RecordAt(table, j).tag != RecordAt(table, i).tag
    ensures var m, r := EntriesUpTo(table, data, n).value, RecordAt(table, i);
            r.tag as int in m && EntryAt(data, r) == Ok(m[r.tag as int])
    decreases n
  {
    hide GetRecord, EntryAt;
    if i < n - 1 {
      LastRecordWins(table, data, n - 1, i);
      assert RecordAt(table, n - 1).tag != RecordAt(table, i).tag;
    }
  }

  lemma {:induction false} OnlyRecordedTags(table: seq<byte>, data: seq<byte>, n: nat, k: int)
    requires EntriesUpTo(table, data, n).Ok? && k in EntriesUpTo(table, data, n).value && 16 * n <= |table|
    ensures exists i :: 0 <= i < n && RecordAt(table, i).tag as int == k
    decreases n
  {
    hide GetRecord, EntryAt;
    if n > 0 && RecordAt(table, n - 1).tag as int != k {
      OnlyRecordedTags(table, data, n - 1, k);
    }
  }

  // ---- readHeader ----------------------------------------------------------

  method ParseEntry(data: seq<byte>, tag: Record) returns (e: Outcome<Entry>)
    ensures e == EntryAt(data, tag)
  {
    var end: int;
    if Sized(tag.dataType) {
      end := tag.offset + TypeSize(tag.dataType) * tag.count;
    } else {
      end := tag.offset;
      var i := 0;
      while i < tag.count
        invariant 0 <= i && (tag.count >= 0 ==> i <= tag.count)
        invariant StringsEnd(data, end, tag.count - i, tag.tag) == StringsEnd(data, tag.offset, tag.count, tag.tag)
      {
        if !(0 <= end <= |data|) {
          return Panic;
        }
        var next := IndexNul(data[end..]);
        if next < 0 {
          return Err(TagTruncated(tag.tag));
        }
        end := end + next + 1;
        i := i + 1;
      }
    }
    if !(0 <= tag.offset <= end <= |data|) {
      return Panic;
    }
    return Ok(Entry(tag.dataType, tag.count, data[tag.offset..end]));
  }

  /** A failed record fails the whole table. */
  lemma {:induction false} FailureStays(table: seq<byte>, data: seq<byte>, i: nat, n: nat)
    requires i <= n && EntriesUpTo(table, data, i).IsFailure()
    ensures EntriesUpTo(table, data, n) == EntriesUpTo(table, data, i)
    decreases n
  {
    if i < n {
      FailureStays(table, data, i, n - 1);
    }
  }

  method ParseRecord(ents: Entries, table: seq<byte>, data: seq<byte>, i: nat) returns (m: Outcome<Entries>)
    ensures m == AddRecord(ents, table, data, i)
  {
    if |table| < 16 * i + 16 {
      return Err(TableExhausted);
    }
    var tag := GetRecord(table[16 * i..16 * i + 16]);
    var e := ParseEntry(data, tag);
    if e.IsFailure() {
      return e.PropagateFailure();
    }
    return Ok(ents[tag.tag as int := e.value]);
  }

  method ParseEntries(table: seq<byte>, data: seq<byte>, count: nat) returns (m: Outcome<Entries>)
    ensures m == EntriesUpTo(table, data, count)
  {
    m := Ok(map[]);
    var i := 0;
    while i < count
      invariant i <= count && m.Ok? && EntriesUpTo(table, data, i) == m
    {
      m := ParseRecord(m.value, table, data, i);
      if m.IsFailure() {
        FailureStays(table, data, i + 1, count);
        return;
      }
      i := i + 1;
    }
  }

  /** The reads of the intro, the index and the store. */
  method ReadParts(src: Source, sigBlock: bool)
    returns (r: Outcome<Extent>, table: seq<byte>, data: seq<byte>, orig: seq<byte>)
    requires src.Valid()
    modifies src
    ensures src.Valid() && old(src.pos) <= src.pos
    ensures r == Extents(src.data[old(src.pos)..], sigBlock)
    ensures r.Ok? ==>
      && src.pos == old(src.pos) + r.value.end
      && var s := src.data[old(src.pos)..];
      && table == s[16..r.value.table] && data == s[r.value.table..r.value.end] && orig == s[..r.value.end]
  {
    hide GetU32, TableLength, StoreLength;
    ghost var p, s := src.pos, src.data[src.pos..];
    table, data, orig := [], [], [];
    var b := src.ReadFull(16);
    assert b.Ok? <==> |s| >= 16;
    if b.IsFailure() {
      return Err(HeaderTruncated), table, data, orig;
    }
    orig := b.value;
    SliceOfSuffix(src.data, p, 0, 16);
    assert orig == s[0..16];
    assert orig[0..4] == s[0..4] && orig[8..12] == s[8..12] && orig[12..16] == s[12..16];
    if GetU32(orig[0..4]) != INTRO_MAGIC {
      return Err(BadMagic), table, data, orig;
    }
    var count, size := GetU32(orig[8..12]), GetU32(orig[12..16]);
    var n, m := TableLength(count), StoreLength(size, sigBlock);
    b := src.ReadFull(n);
    if b.IsFailure() {
      return Err(TableTruncated), table, data, orig;
    }
    table := b.value;
    orig := orig + table;
    SliceOfSuffix(src.data, p, 16, 16 + n);
    JoinSlices(s, 0, 16, 16 + n);
    b := src.ReadFull(m);
    if b.IsFailure() {
      return Err(DataTruncated), table, data, orig;
    }
    data := b.value;
    orig := orig + data;
    SliceOfSuffix(src.data, p, 16 + n, 16 + n + m);
    JoinSlices(s, 0, 16 + n, 16 + n + m);
    assert s[..16 + n + m] == s[0..16 + n + m];
    r := Ok(Extent(count, 16 + n, 16 + n + m));
  }

  method ReadHeader(c: Crypto, src: Source, expected: seq<byte>, alg: Algorithm, isSource: bool, sigBlock: bool)
    returns (h: Outcome<Header>)
    requires src.Valid()
    modifies src
    ensures src.Valid() && old(src.pos) <= src.pos
    ensures h == ParseHeader(c, src.data[old(src.pos)..], expected, alg, isSource, sigBlock)
    ensures h.Ok? ==> src.pos == old(src.pos) + |h.value.orig|
  {
    var x, table, data, orig := ReadParts(src, sigBlock);
    if x.IsFailure() {
      return x.PropagateFailure();
    }
    if |expected| > 1 {
      if !c.available(alg) {
        return Panic;
      }
      if Hex(c.sum(alg, orig)) != expected {
        return Err(DigestMismatch);
      }
    }
    var ents := ParseEntries(table, data, x.value.count);
    if ents.IsFailure() {
      return ents.PropagateFailure();
    }
    return Ok(Header(ents.value, isSource, orig));
  }

  // ---- what every successful read guarantees -------------------------------

  /** Count and contents fit together: count elements, or count NUL-terminated strings. */
  predicate WellFormedEntry(e: Entry) {
    if Sized(e.dataType) then
      |e.contents| == TypeSize(e.dataType) * e.count && (e.dataType != NULL_TYPE ==> e.count >= 0)
    else if e.count < 0 then e.contents == []
    else CountNul(e.contents) == e.count && (e.contents == [] || e.contents[|e.contents| - 1] == 0)
  }

  /** Every entry is one a reader can produce. */
  ghost predicate WellFormed(m: Entries) {
    forall k :: k in m ==> -TWO_TO_31 <= k < TWO_TO_31 && WellFormedEntry(m[k])
  }

  /** k strings end where the k-th NUL is. */
  lemma {:induction false} StringsEndSound(data: seq<byte>, end: int, k: nat, tag: int)
    requires 0 <= end <= |data| && StringsEnd(data, end, k, tag).Ok?
    ensures var e := StringsEnd(data, end, k, tag).value;
            && end <= e <= |data| && CountNul(data[end..e]) == k && (e == end <==> k == 0)
            && (k > 0 ==> data[e - 1] == 0)
    decreases k
  {
    if k > 0 {
      var next := IndexNul(data[end..]);
      var mid := end + next + 1;
      StringsEndSound(data, mid, k - 1, tag);
      var e := StringsEnd(data, end, k, tag).value;
      var c := data[end..e];
      assert forall j :: 0 <= j < |c| ==> c[j] == data[end..][j];
      assert IndexNul(c) == next;
      CountNulSplit(c, next);
      assert c[next + 1..] == data[mid..e];
    }
  }

  /** Conversely, contents made of k terminated strings are found wherever they lie in the store. */
  lemma {:induction false} StringsEndComplete(data: seq<byte>, end: nat, c: seq<byte>, tag: int)
    requires end + |c| <= |data| && data[end..end + |c|] == c
    requires c == [] || c[|c| - 1] == 0
    ensures StringsEnd(data, end, CountNul(c), tag) == Ok(end + |c|)
    decreases |c|
  {
    hide IndexNul, CountNul;
    CountNulZero([]);
    if c != [] {
      var i := IndexNul(c);
      CountNulSplit(c, i);
      var rest := data[end..];
      assert forall j :: 0 <= j < |c| ==> c[j] == rest[j];
      assert IndexNul(rest) == i;
      var e, d := end + i + 1, c[i + 1..];
      assert data[e..e + |d|] == d;
      StringsEndComplete(data, e, d, tag);
    }
  }

  lemma {:induction false} CountNulSplit(c: seq<byte>, i: nat)
    requires i < |c| && i == IndexNul(c)
    ensures CountNul(c) == 1 + CountNul(c[i + 1..])
  {
    CountNulZero(c[..i]);
    CountNulOfConcat(c[..i], c[i..]);
    assert c == c[..i] + c[i..] && c[i..][1..] == c[i + 1..];
  }

  lemma {:induction false} EntryAtSound(data: seq<byte>, r: Record)
    requires EntryAt(data, r).Ok?
    ensures WellFormedEntry(EntryAt(data, r).value)
  {
    if !Sized(r.dataType) && r.count >= 0 {
      if r.count > 0 {
        assert 0 <= r.offset <= |data|;
      }
      StringsEndSound(data, r.offset, r.count, r.tag);
    }
  }

  lemma {:induction false} EntryAtComplete(data: seq<byte>, r: Record, e: Entry)
    requires WellFormedEntry(e) && r.dataType == e.dataType && r.count == e.count
    requires 0 <= r.offset <= r.offset + |e.contents| <= |data|
    requires data[r.offset..r.offset + |e.contents|] == e.contents
    ensures EntryAt(data, r) == Ok(e)
  {
    if !Sized(r.dataType) && r.count >= 0 {
      StringsEndComplete(data, r.offset, e.contents, r.tag);
    }
  }

  /** The types of fixed-size elements with their sizes: NULL, CHAR, INT8, INT16, INT32, INT64 and BIN. */
  predicate HasWidth(t: int, w: nat) {
    (t, w) in {(0, 0), (1, 1), (2, 1), (3, 2), (4, 4), (5, 8), (7, 1)}
  }

  /** A record of a fixed-size type cuts out count times the size of its type, or panics. */
  lemma {:induction false} SizedEntryIs(data: seq<byte>, r: Record, w: nat)
    requires HasWidth(r.dataType, w)
    ensures var end := r.offset + w * r.count;
            EntryAt(data, r)
            == if 0 <= r.offset <= end <= |data| then Ok(Entry(r.dataType, r.count, data[r.offset..end])) else Panic
  {
  }

  /** Looking for strings fails exactly when there are fewer NULs than strings, or outside of the store. */
  lemma {:induction false} StringsEndFails(data: seq<byte>, end: int, k: nat, tag: int)
    requires k > 0
    ensures StringsEnd(data, end, k, tag) == Panic <==> !(0 <= end <= |data|)
    ensures 0 <= end <= |data| ==>
      (StringsEnd(data, end, k, tag) == Err(TagTruncated(tag)) <==> CountNul(data[end..]) < k)
    ensures StringsEnd(data, end, k, tag).Err? ==> StringsEnd(data, end, k, tag) == Err(TagTruncated(tag))
    decreases k
  {
    if 0 <= end <= |data| {
      var next := IndexNul(data[end..]);
      CountNulZero(data[end..]);
      if next >= 0 {
        CountNulSplit(data[end..], next);
        assert data[end..][next + 1..] == data[end + next + 1..];
        if k > 1 {
          StringsEndFails(data, end + next + 1, k - 1, tag);
        }
      }
    }
  }

  /** A record of any other type holds strings: exactly when it fails, and how. */
  lemma {:induction false} StringEntryFailsIff(data: seq<byte>, r: Record)
    requires !exists w :: HasWidth(r.dataType, w)
    ensures EntryAt(data, r) == Panic <==> !(0 <= r.offset <= |data|)
    ensures 0 <= r.offset <= |data| ==>
      (EntryAt(data, r) == Err(TagTruncated(r.tag)) <==> r.count > 0 && CountNul(data[r.offset..]) < r.count)
    ensures EntryAt(data, r).Err? ==> EntryAt(data, r) == Err(TagTruncated(r.tag))
  {
    assert Sized(r.dataType) ==> HasWidth(r.dataType, TypeSize(r.dataType));
    if r.count > 0 {
      StringsEndFails(data, r.offset, r.count, r.tag);
      if StringsEnd(data, r.offset, r.count, r.tag).Ok? {
        StringsEndSound(data, r.offset, r.count, r.tag);
      }
    }
  }

  /** Where the fields of an index record lie: tag, type, offset and count. */
  lemma {:induction false} RecordFields(s: seq<byte>)
    requires |s| == 16
    ensures U32(GetRecord(s).tag) == GetU32(s[0..4]) && U32(GetRecord(s).dataType) == GetU32(s[4..8])
    ensures U32(GetRecord(s).offset) == GetU32(s[8..12]) && U32(GetRecord(s).count) == GetU32(s[12..16])
  {
    hide GetBE;
  }

  lemma {:induction false} EntriesAreWellFormed(table: seq<byte>, data: seq<byte>, i: nat)
    requires EntriesUpTo(table, data, i).Ok?
    ensures WellFormed(EntriesUpTo(table, data, i).value)
    ensures |table| >= 16 * i
  {
    if i > 0 {
      EntriesAreWellFormed(table, data, i - 1);
      EntryAtSound(data, GetRecord(table[16 * (i - 1)..16 * (i - 1) + 16]));
    }
  }

  /**
    Every header that was read holds well-formed entries only, its index is
    exactly 16 bytes per record although the length is a 32-bit product, and a
    signature block occupies a multiple of 8 bytes.
   */
  lemma {:induction false} ReadHeaderInvariant(c: Crypto, s: seq<byte>, expected: seq<byte>, alg: Algorithm,
                                               isSource: bool, sigBlock: bool)
    requires ParseHeader(c, s, expected, alg, isSource, sigBlock).Ok?
    ensures var h := ParseHeader(c, s, expected, alg, isSource, sigBlock).value;
            && WellFormed(h.entries) && h.isSource == isSource
            && Extents(s, sigBlock).Ok?
            && var x := Extents(s, sigBlock).value;
            && x.table == 16 + 16 * x.count && x.end == |h.orig|
            && (sigBlock ==> |h.orig| % 8 == 0)
  {
    hide WellFormed, Extents, TableLength;
    var x := Extents(s, sigBlock).value;
    EntriesAreWellFormed(s[16..x.table], s[x.table..x.end], x.count);
    assert x.table == 16 + 16 * x.count;
    if sigBlock {
      EndIsMultipleOf8(x.end, x.table, x.count);
    }
  }

  lemma {:induction false} EndIsMultipleOf8(end: nat, table: nat, count: nat)
    requires table == 16 + 16 * count && (end - table) % 8 == 0
    ensures end % 8 == 0
  {
  }

  /** A record count whose index length wraps around in 32 bits is never accepted. */
  lemma {:induction false} WrappedCountFails(c: Crypto, s: seq<byte>, expected: seq<byte>, alg: Algorithm,
                                             isSource: bool,
                                             sigBlock: bool)
    requires |s| >= 16 && GetU32(s[8..12]) >= 0x1000_0000
    ensures !ParseHeader(c, s, expected, alg, isSource, sigBlock).Ok?
  {
    if ParseHeader(c, s, expected, alg, isSource, sigBlock).Ok? {
      ReadHeaderInvariant(c, s, expected, alg, isSource, sigBlock);
    }
  }

  /** The bytes of the index, and of the store, which is rounded up to 8 in a signature block. */
  function TableBytes(s: seq<byte>): (n: nat)
    requires |s| >= 16
  {
    16 * GetU32(s[8..12])
  }

  function StoreBytes(s: seq<byte>, sigBlock: bool): (n: nat)
    requires |s| >= 16
  {
    var n := GetU32(s[12..16]);
    if sigBlock && n % 8 != 0 then n + 8 - n % 8 else n
  }

  /** What is reported for a header that is cut off, or is none. */
  lemma {:induction false} CutHeaderFails(c: Crypto, s: seq<byte>, expected: seq<byte>, alg: Algorithm, isSource: bool,
                                          sigBlock: bool)
    ensures |s| < 16 ==> ParseHeader(c, s, expected, alg, isSource, sigBlock) == Err(HeaderTruncated)
    ensures |s| >= 16 && s[..4] != [0x8e, 0xad, 0xe8, 0x01] ==>
      ParseHeader(c, s, expected, alg, isSource, sigBlock) == Err(BadMagic)
    ensures |s| >= 16 && s[..4] == [0x8e, 0xad, 0xe8, 0x01] && GetU32(s[8..12]) < 0x1000_0000
            && GetU32(s[12..16]) < 0xFFFF_FFF8 ==>
      var h := ParseHeader(c, s, expected, alg, isSource, sigBlock);
      var n, m := 16 + TableBytes(s), StoreBytes(s, sigBlock);
      && (|s| < n ==> h == Err(TableTruncated))
      && (n <= |s| < n + m ==> h == Err(DataTruncated))
      && (h.Ok? ==> h.value.orig == s[..n + m])
  {
    hide GetU32, EntriesUpTo, CheckDigest;
    if |s| >= 16 {
      assert s[0..4] == s[..4];
      FourBytes(s[..4], 0x8e, 0xad, 0xe8, 0x01);
    }
  }

  lemma {:induction false} ExtentsAreLocal(s: seq<byte>, rest: seq<byte>, sigBlock: bool)
    requires Extents(s, sigBlock).Ok?
    ensures Extents(s + rest, sigBlock) == Extents(s, sigBlock)
  {
    var u := s + rest;
    assert u[0..4] == s[0..4] && u[8..12] == s[8..12] && u[12..16] == s[12..16];
  }

  /** Reading looks at the consumed bytes only: what follows the header does not matter. */
  lemma {:induction false} ParseHeaderIsLocal(c: Crypto, s: seq<byte>, rest: seq<byte>, expected: seq<byte>,
                                              alg: Algorithm, isSource: bool, sigBlock: bool)
    requires Extents(s, sigBlock).Ok?
    ensures ParseHeader(c, s + rest, expected, alg, isSource, sigBlock)
         == ParseHeader(c, s, expected, alg, isSource, sigBlock)
  {
    ExtentsAreLocal(s, rest, sigBlock);
    var u, x := s + rest, Extents(s, sigBlock).value;
    assert u[16..x.table] == s[16..x.table] && u[x.table..x.end] == s[x.table..x.end] && u[..x.end] == s[..x.end];
  }
}
