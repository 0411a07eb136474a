/** Archives: their encoding, and what any run over an encoded archive returns. */
module CpioArchive {
  import opened Bytes
  import opened Outcomes
  import opened Streams
  import opened CpioFormat
  import opened CpioMachine

  // ---- encoding ------------------------------------------------------------

  type uint32 = n: nat | n < TWO_TO_32

  /** A member of an archive; filesize and namesize follow from contents and name. */
  datatype Member =
    | Newc(ino: uint32, mode: uint32, uid: uint32, gid: uint32, nlink: uint32, mtime: uint32, devmajor: uint32,
           devminor: uint32, rdevmajor: uint32, rdevminor: uint32, check: uint32, name: seq<byte>, contents: seq<byte>)
    | Stripped(index: uint32, contents: seq<byte>)

  /** %08x */
  function PutHex(k: nat, n: nat): (s: seq<byte>)
    ensures |s| == k
  {
    if k == 0 then [] else PutHex(k - 1, n / 16) + [HexDigit(n % 16)]
  }

  function PutNumbers(f: seq<nat>): (s: seq<byte>)
    ensures |s| == 8 * |f|
  {
    if f == [] then [] else PutNumbers(f[..|f| - 1]) + PutHex(8, f[|f| - 1])
  }

  function NumbersOf(m: Member): (f: seq<nat>)
    requires m.Newc?
    ensures |f| == 13
  {
    [m.ino, m.mode, m.uid, m.gid, m.nlink, m.mtime, |m.contents|, m.devmajor, m.devminor, m.rdevmajor, m.rdevminor,
     |m.name| + 1, m.check]
  }

  /** Zero bytes up to the next multiple of 4. */
  function Fill(n: nat): (s: seq<byte>)
    ensures (n + |s|) % 4 == 0 && |s| < 4
  {
    Zeros(Pad(n) - n)
  }

  /** Everything in front of the contents. */
  function Front(m: Member): (s: seq<byte>) {
    if m.Newc? then
      NEWC_MAGIC + PutNumbers(NumbersOf(m)) + (m.name + [NUL]) + Fill(NEWC_HEADER_LENGTH + |m.name| + 1)
    else STRIPPED_MAGIC + PutHex(8, m.index)
  }

  function Encode(m: Member): (s: seq<byte>)
    ensures |s| % 4 == 0
  {
    var s := Front(m) + m.contents + Fill(|Front(m)| + |m.contents|);
    assert |s| == |Front(m)| + |m.contents| + |Fill(|Front(m)| + |m.contents|)|;
    s
  }

  function EncodeAll(ms: seq<Member>): (s: seq<byte>) {
    if ms == [] then [] else EncodeAll(ms[..|ms| - 1]) + Encode(ms[|ms| - 1])
  }

  /** The header a reader returns for a member. */
  function HeaderOf(m: Member): (h: CpioHeader) {
    match m
    case Newc(ino, mode, uid, gid, nlink, mtime, devmajor, devminor, rdevmajor, rdevminor, check, name, contents) =>
      CpioHeader(magic := NEWC_MAGIC, ino := ino, mode := mode, uid := uid, gid := gid, nlink := nlink, mtime := mtime,
                 filesize := |contents|, devmajor := devmajor, devminor := devminor, rdevmajor := rdevmajor,
                 rdevminor := rdevminor, namesize := |name| + 1, check := check,
                 stripped := false, filename := name, index := 0, size64 := |contents|)
    case Stripped(index, _) => StrippedHeader(index)
  }

  /** Sizes fit their fields, and a stripped member has the size recorded for its index. */
  predicate Encodable(m: Member, sizes: Sizes) {
    match m
    case Newc(_, _, _, _, _, _, _, _, _, _, _, _, _) => |m.contents| < TWO_TO_32 && |m.name| + 1 < TWO_TO_32
    case Stripped(index, contents) =>
      sizes.Some? && index < |sizes.value| && sizes.value[index] == |contents|
  }

  // ---- numbers are read back -----------------------------------------------

  function Pow16(k: nat): (p: nat)
    ensures p > 0
  {
    if k == 0 then 1 else 16 * Pow16(k - 1)
  }

  lemma {:induction false} HexOfPutHex(k: nat, n: nat)
    requires n < Pow16(k)
    ensures AllHex(PutHex(k, n)) && HexNumber(PutHex(k, n)) == n
  {
    if k > 0 {
      HexOfPutHex(k - 1, n / 16);
      assert PutHex(k, n)[..k - 1] == PutHex(k - 1, n / 16);
    }
  }

  lemma {:induction false} ParseOfPutHex(n: nat)
    requires n < TWO_TO_32
    ensures ParseHex(PutHex(8, n)) == Ok(n)
  {
    hide PutHex, HexNumber;
    assert Pow16(8) == TWO_TO_32 by { Pow16Of8(); }
    HexOfPutHex(8, n);
    var s := PutHex(8, n);
    assert IsHexDigit(s[0]);
  }

  lemma {:induction false} Pow16Of8()
    ensures Pow16(8) == TWO_TO_32
  {
    assert Pow16(2) == 256;
    assert Pow16(4) == 65536;
    assert Pow16(6) == 16777216;
  }

  lemma {:induction false} NumberIsRead(data: seq<byte>, pos: nat, n: nat)
    requires n < TWO_TO_32 && pos + 8 <= |data| && data[pos..pos + 8] == PutHex(8, n)
    ensures Read16At(data, pos) == At(Ok(n), pos + 8)
  {
    hide PutHex, ParseHex;
    ParseOfPutHex(n);
  }

  lemma {:induction false} LastNumberLies(data: seq<byte>, pos: nat, f: seq<nat>)
    requires f != [] && pos + 8 * |f| <= |data| && data[pos..pos + 8 * |f|] == PutNumbers(f)
    ensures var k := |f| - 1;
            && data[pos..pos + 8 * k] == PutNumbers(f[..k])
            && data[pos + 8 * k..pos + 8 * k + 8] == PutHex(8, f[k])
  {
    hide PutHex;
    var k, s := |f| - 1, data[pos..pos + 8 * |f|];
    assert data[pos..pos + 8 * k] == s[..8 * k];
    assert s[..8 * k] == PutNumbers(f[..k]);
    assert data[pos + 8 * k..pos + 8 * k + 8] == s[8 * k..];
    assert s[8 * k..] == PutHex(8, f[k]);
  }

  lemma {:induction false} NumbersAreRead(data: seq<byte>, pos: nat, f: seq<nat>)
    requires forall i :: 0 <= i < |f| ==> f[i] < TWO_TO_32
    requires pos + 8 * |f| <= |data| && data[pos..pos + 8 * |f|] == PutNumbers(f)
    ensures NumbersAt(data, pos, |f|) == At(Ok(f), pos + 8 * |f|)
  {
    hide PutHex, Read16At, PutNumbers;
    if f != [] {
      var k := |f| - 1;
      LastNumberLies(data, pos, f);
      NumbersAreRead(data, pos, f[..k]);
      NumberIsRead(data, pos + 8 * k, f[k]);
      assert f[..k] + [f[k]] == f;
    }
  }

  // ---- members are read back -----------------------------------------------

  lemma {:induction false} NewcHeaderIsRead(data: seq<byte>, pos: nat, m: Member)
    requires m.Newc? && Encodable(m, None)
    requires pos + NEWC_HEADER_LENGTH <= |data|
    requires data[pos..pos + NEWC_HEADER_LENGTH] == NEWC_MAGIC + PutNumbers(NumbersOf(m))
    ensures HeaderAt(data, pos) == At(Ok(NewcHeader(NumbersOf(m))), pos + NEWC_HEADER_LENGTH)
  {
    hide NumbersAt, PutNumbers;
    var h := data[pos..pos + NEWC_HEADER_LENGTH];
    assert data[pos..pos + 6] == h[..6] == NEWC_MAGIC;
    assert data[pos + 6..pos + NEWC_HEADER_LENGTH] == h[6..] == PutNumbers(NumbersOf(m));
    NumbersAreRead(data, pos + 6, NumbersOf(m));
  }

  lemma {:induction false} StrippedHeaderIsRead(data: seq<byte>, pos: nat, index: uint32)
    requires pos + STRIPPED_HEADER_LENGTH <= |data|
    requires data[pos..pos + STRIPPED_HEADER_LENGTH] == STRIPPED_MAGIC + PutHex(8, index)
    ensures HeaderAt(data, pos) == At(Ok(StrippedHeader(index)), pos + STRIPPED_HEADER_LENGTH)
  {
    hide NumbersAt, PutHex, Read16At;
    var h := data[pos..pos + STRIPPED_HEADER_LENGTH];
    assert data[pos..pos + 6] == h[..6] == STRIPPED_MAGIC;
    assert data[pos + 6..pos + STRIPPED_HEADER_LENGTH] == h[6..] == PutHex(8, index);
    NumberIsRead(data, pos + 6, index);
  }

  /** s lies in data at position pos. */
  predicate LiesAt(data: seq<byte>, pos: nat, s: seq<byte>) {
    pos + |s| <= |data| && data[pos..pos + |s|] == s
  }

  lemma {:induction false} LiesAtParts(data: seq<byte>, pos: nat, a: seq<byte>, b: seq<byte>)
    requires LiesAt(data, pos, a + b)
    ensures LiesAt(data, pos, a) && LiesAt(data, pos + |a|, b)
  {
    assert data[pos..pos + |a|] == data[pos..pos + |a + b|][..|a|];
    assert data[pos + |a|..pos + |a| + |b|] == data[pos..pos + |a + b|][|a|..];
  }

  /** The entry a reader returns for a member whose encoding lies at pos. */
  function EntryOf(m: Member, pos: nat): (e: Entry) {
    Entry(HeaderOf(m), pos + |Front(m)|, |m.contents|)
  }

  lemma {:induction false} SamePadding(o: nat, n: nat)
    requires o % 4 == 0
    ensures Pad(o + n) == o + Pad(n)
  {
    var q := o / 4;
    assert o == 4 * q;
    SameModulo4(n + 3, q);
  }

  lemma {:induction false} NewcMemberIsRead(data: seq<byte>, sizes: Sizes, pos: nat, m: Member, next: int)
    requires m.Newc? && Encodable(m, sizes) && LiesAt(data, pos, Front(m))
    ensures EntryAtHeader(data, sizes, pos, next)
         == Step(Ok(EntryOf(m, pos)), Cursor(pos + |Front(m)|, Pad(pos + |Front(m)| + |m.contents|)))
  {
    hide HeaderAt, PutNumbers, Pad;
    var h := NEWC_MAGIC + PutNumbers(NumbersOf(m));
    var name, fill := m.name + [NUL], Fill(NEWC_HEADER_LENGTH + |m.name| + 1);
    assert Front(m) == h + (name + fill);
    LiesAtParts(data, pos, h, name + fill);
    LiesAtParts(data, pos + NEWC_HEADER_LENGTH, name, fill);
    NewcHeaderIsRead(data, pos, m);
    assert name[..|name| - 1] == m.name;
    NameIsRead(data, sizes, pos, m, next);
  }

  lemma {:induction false} NameIsRead(data: seq<byte>, sizes: Sizes, pos: nat, m: Member, next: int)
    requires m.Newc?
    requires var p := pos + NEWC_HEADER_LENGTH;
             && LiesAt(data, p, m.name + [NUL])
             && LiesAt(data, p + |m.name| + 1, Fill(NEWC_HEADER_LENGTH + |m.name| + 1))
    ensures NewcEntry(data, NewcHeader(NumbersOf(m)), pos + NEWC_HEADER_LENGTH, next)
         == Step(Ok(EntryOf(m, pos)), Cursor(pos + |Front(m)|, Pad(pos + |Front(m)| + |m.contents|)))
  {
    hide Pad, PutNumbers;
    var name, n := m.name + [NUL], |m.name| + 1;
    var p := pos + NEWC_HEADER_LENGTH;
    assert data[p..p + n] == name && name[..n - 1] == m.name;
    assert |Front(m)| == Pad(NEWC_HEADER_LENGTH + n);
  }

  lemma {:induction false} StrippedMemberIsRead(data: seq<byte>, sizes: Sizes, pos: nat, m: Member, next: int)
    requires m.Stripped? && Encodable(m, sizes) && LiesAt(data, pos, Front(m))
    ensures EntryAtHeader(data, sizes, pos, next)
         == Step(Ok(EntryOf(m, pos)), Cursor(pos + |Front(m)|, Pad(pos + |Front(m)| + |m.contents|)))
  {
    hide HeaderAt, PutHex, Pad;
    StrippedHeaderIsRead(data, pos, m.index);
  }

  /** The next header lies right behind the encoding of a member that starts at a multiple of 4. */
  lemma {:induction false} NextIsBehind(pos: nat, m: Member)
    requires pos % 4 == 0
    ensures Pad(pos + |Front(m)| + |m.contents|) == pos + |Encode(m)|
  {
    hide Front;
    SamePadding(pos, |Front(m)| + |m.contents|);
  }

  /** A header is read, and the next one located, even if the contents are cut off. */
  lemma {:induction false} FrontIsRead(data: seq<byte>, sizes: Sizes, cur: Cursor, m: Member)
    requires cur.pos <= cur.next && cur.next % 4 == 0
    requires Encodable(m, sizes) && LiesAt(data, cur.next, Front(m))
    ensures cur.pos <= |data|
    ensures var e := EntryOf(m, cur.next);
            NextEntry(data, sizes, cur) == Step(Ok(e), Cursor(e.start, cur.next + |Encode(m)|))
  {
    hide EntryAtHeader, Front, Pad, EntryOf;
    var o := cur.next;
    if m.Newc? {
      NewcMemberIsRead(data, sizes, o, m, o);
    } else {
      StrippedMemberIsRead(data, sizes, o, m, o);
    }
    NextIsBehind(o, m);
    StartOfEntry(m, o);
  }

  lemma {:induction false} MemberIsRead(data: seq<byte>, sizes: Sizes, cur: Cursor, m: Member)
    requires cur.pos <= cur.next && cur.next % 4 == 0
    requires Encodable(m, sizes) && LiesAt(data, cur.next, Encode(m))
    ensures cur.pos <= |data|
    ensures var e := EntryOf(m, cur.next);
            && NextEntry(data, sizes, cur) == Step(Ok(e), Cursor(e.start, cur.next + |Encode(m)|))
            && LiesAt(data, e.start, m.contents)
  {
    hide NextEntry, Front, Pad, EntryOf;
    var o, f := cur.next, Front(m);
    var tail := Fill(|f| + |m.contents|);
    EncodeParts(m);
    LiesAtParts(data, o, f, m.contents + tail);
    LiesAtParts(data, o + |f|, m.contents, tail);
    FrontIsRead(data, sizes, cur, m);
    StartOfEntry(m, o);
  }

  /** A stripped entry with one byte of contents, read with its size set: Filesize64 is 0. */
  lemma {:induction false} StrippedSize64IsZero()
    ensures var r := NextEntry(Encode(Stripped(0, [65])), Some([1]), Cursor(0, 0));
            r.out.Ok? && r.out.value.size == 1 && r.out.value.header.size64 == 0
  {
    hide NextEntry, Encode;
    var m := Stripped(0, [65]);
    MemberIsRead(Encode(m), Some([1]), Cursor(0, 0), m);
  }

  lemma {:induction false} StartOfEntry(m: Member, pos: nat)
    ensures EntryOf(m, pos).start == pos + |Front(m)| && EntryOf(m, pos).size == |m.contents|
  {
    hide Front;
  }

  // ---- whole archives ------------------------------------------------------

  ghost predicate AllEncodable(ms: seq<Member>, sizes: Sizes) {
    forall i :: 0 <= i < |ms| ==> Encodable(ms[i], sizes)
  }

  lemma {:induction false} EncodeAllSplits(ms: seq<Member>, j: nat)
    requires j < |ms|
    ensures |EncodeAll(ms[..j])| % 4 == 0
    ensures LiesAt(EncodeAll(ms), |EncodeAll(ms[..j])|, Encode(ms[j]))
    ensures |EncodeAll(ms[..j + 1])| == |EncodeAll(ms[..j])| + |Encode(ms[j])|
    ensures |EncodeAll(ms[..j + 1])| <= |EncodeAll(ms)|
    decreases |ms|
  {
    hide Encode;
    EncodeAllAligned(ms[..j]);
    assert ms[..j + 1][..j] == ms[..j];
    if j == |ms| - 1 {
      assert ms[..j + 1] == ms;
    } else {
      var init := ms[..|ms| - 1];
      EncodeAllSplits(init, j);
      assert init[..j] == ms[..j] && init[..j + 1] == ms[..j + 1];
    }
  }

  lemma {:induction false} EncodeAllAligned(ms: seq<Member>)
    ensures |EncodeAll(ms)| % 4 == 0
  {
    hide Encode;
    if ms != [] {
      EncodeAllAligned(ms[..|ms| - 1]);
    }
  }

  /** The entry returned for the j-th member. */
  function EntryAt(ms: seq<Member>, j: nat): (e: Entry)
    requires j < |ms|
  {
    EntryOf(ms[j], |EncodeAll(ms[..j])|)
  }

  /** The results of the first k calls of Next on an archive. */
  ghost predicate IsListing(log: seq<Outcome<Entry>>, ms: seq<Member>) {
    |log| <= |ms| && forall j :: 0 <= j < |log| ==> log[j] == Ok(EntryAt(ms, j))
  }

  lemma {:induction false} MemberLiesAt(ms: seq<Member>, tail: seq<byte>, j: nat)
    requires j < |ms|
    ensures |EncodeAll(ms[..j])| % 4 == 0
    ensures |EncodeAll(ms[..j + 1])| == |EncodeAll(ms[..j])| + |Encode(ms[j])| <= |EncodeAll(ms)|
    ensures LiesAt(EncodeAll(ms) + tail, |EncodeAll(ms[..j])|, Encode(ms[j]))
  {
    hide Encode, EncodeAll;
    EncodeAllSplits(ms, j);
    var o, e := |EncodeAll(ms[..j])|, Encode(ms[j]);
    assert (EncodeAll(ms) + tail)[o..o + |e|] == EncodeAll(ms)[o..o + |e|];
  }

  lemma {:induction false} ArchiveIsScanned(ms: seq<Member>, tail: seq<byte>, sizes: Sizes, k: nat)
    requires AllEncodable(ms, sizes) && k <= |ms|
    ensures var data := EncodeAll(ms) + tail;
            var y := Scan(data, sizes, k);
            && |y.log| == k && IsListing(y.log, ms)
            && y.cur.pos <= y.cur.next == |EncodeAll(ms[..k])| <= |EncodeAll(ms)|
  {
    hide Encode, EncodeAll, NextEntry, EntryOf, Encodable, LiesAt, Do;
    var data := EncodeAll(ms) + tail;
    if k == 0 {
      NothingEncoded(ms);
    } else {
      ArchiveIsScanned(ms, tail, sizes, k - 1);
      var o, m, z := |EncodeAll(ms[..k - 1])|, ms[k - 1], Scan(data, sizes, k - 1);
      MemberLiesAt(ms, tail, k - 1);
      MemberIsRead(data, sizes, z.cur, m);
      StartOfEntry(m, o);
      FrontIsShorter(m);
      DoNext(data, sizes, z);
    }
  }

  lemma {:induction false} NothingEncoded(ms: seq<Member>)
    ensures EncodeAll(ms[..0]) == []
  {
    assert ms[..0] == [];
  }

  lemma {:induction false} FrontIsShorter(m: Member)
    ensures |Front(m)| <= |Encode(m)|
  {
    hide Front;
  }

  /** Where the contents of a member lie in an archive, with the entry that is returned for it. */
  lemma {:induction false} ContentsLieAt(ms: seq<Member>, tail: seq<byte>, j: nat)
    requires j < |ms|
    ensures LiesAt(EncodeAll(ms) + tail, EntryAt(ms, j).start, ms[j].contents)
    decreases |ms|
  {
    hide Encode, EntryOf, Front;
    EncodeAllSplits(ms, j);
    var n := |ms| - 1;
    if j < n {
      ContentsLieAt(ms[..n], Encode(ms[n]) + tail, j);
      assert ms[..n][..j] == ms[..j];
      assert EncodeAll(ms[..n]) + (Encode(ms[n]) + tail) == EncodeAll(ms) + tail;
    } else {
      assert ms[..n + 1] == ms;
      ContentsOfLast(ms, tail);
    }
  }

  lemma {:induction false} ContentsOfLast(ms: seq<Member>, tail: seq<byte>)
    requires ms != []
    ensures var n := |ms| - 1;
            LiesAt(EncodeAll(ms) + tail, EntryOf(ms[n], |EncodeAll(ms[..n])|).start, ms[n].contents)
  {
    hide Front, Encode, Fill;
    var n := |ms| - 1;
    var m, a := ms[n], EncodeAll(ms[..n]);
    assert EncodeAll(ms) + tail == a + (Encode(m) + tail);
    LiesBehind(a, Encode(m), tail);
    EncodeParts(m);
    var fill := Fill(|Front(m)| + |m.contents|);
    LiesAtParts(EncodeAll(ms) + tail, |a|, Front(m), m.contents + fill);
    LiesAtParts(EncodeAll(ms) + tail, |a| + |Front(m)|, m.contents, fill);
  }

  lemma {:induction false} LiesBehind(a: seq<byte>, b: seq<byte>, c: seq<byte>)
    ensures LiesAt(a + (b + c), |a|, b)
  {
  }

  lemma {:induction false} EncodeParts(m: Member)
    ensures Encode(m) == Front(m) + (m.contents + Fill(|Front(m)| + |m.contents|))
  {
    hide Front, Fill;
  }

  /** The member that ends an archive. */
  predicate IsTrailer(m: Member) { m.Newc? && m.name == TRAILER }

  lemma {:induction false} ArchiveIsComplete(ms: seq<Member>, tail: seq<byte>, sizes: Sizes)
    requires AllEncodable(ms, sizes)
    ensures Complete(EncodeAll(ms) + tail, sizes, |ms|)
  {
    hide Scan, EncodeAll;
    forall j | 0 <= j < |ms|
      ensures Scan(EncodeAll(ms) + tail, sizes, j).cur.next <= |EncodeAll(ms) + tail|
    {
      ArchiveIsScanned(ms, tail, sizes, j);
    }
  }

  ghost predicate StreamsMatch(streams: seq<Strm>, log: seq<Outcome<Entry>>) {
    |streams| == |log| && forall j :: 0 <= j < |log| ==>
      log[j].Ok? && streams[j].start == log[j].value.start && streams[j].size == log[j].value.size
  }

  ghost predicate AllOk(log: seq<Outcome<Entry>>) { forall j :: 0 <= j < |log| ==> log[j].Ok? }

  lemma {:induction false} DoKeepsStreams(data: seq<byte>, sizes: Sizes, y: Sys, op: Op)
    requires y.cur.pos <= |data| && AllOk(Do(data, sizes, y, op).log)
    ensures AllOk(y.log)
    ensures StreamsMatch(y.streams, y.log) ==>
      StreamsMatch(Do(data, sizes, y, op).streams, Do(data, sizes, y, op).log)
  {
    hide NextEntry, Delivers;
    var z := Do(data, sizes, y, op);
    assert forall j :: 0 <= j < |y.log| ==> z.log[j] == y.log[j];
    if op.NextOp? {
      assert z.log[|y.log|].Ok?;
    }
  }

  lemma {:induction false} StreamsMatchLog(data: seq<byte>, sizes: Sizes, ops: seq<Op>)
    requires AllOk(Run(data, sizes, ops).log)
    ensures StreamsMatch(Run(data, sizes, ops).streams, Run(data, sizes, ops).log)
  {
    hide Do, StreamsMatch, AllOk;
    if ops != [] {
      var n := |ops| - 1;
      DoKeepsStreams(data, sizes, Run(data, sizes, ops[..n]), ops[n]);
      StreamsMatchLog(data, sizes, ops[..n]);
    } else {
      NothingMatches();
    }
  }

  lemma {:induction false} NothingMatches()
    ensures StreamsMatch([], [])
  {
  }

  /** A stream over contents delivers prefixes of them, and all of them in the end. */
  lemma {:induction false} DeliveredContents(data: seq<byte>, s: Strm, contents: seq<byte>)
    requires StreamInv(data, s) && LiesAt(data, s.start, contents) && s.size == |contents|
    ensures s.delivered <= contents
    ensures s.curr >= s.size ==> s.delivered == contents
  {
    assert s.delivered == data[s.start..s.start + s.curr];
    assert contents[..s.curr] == data[s.start..s.start + |contents|][..s.curr];
  }

  /**
    Any run over an encoded archive, in whatever order and portions contents are
    read in between, gets from its calls of Next exactly the headers of the members
    in order; what the stream of a member has delivered is a prefix of its
    contents, and the whole when it is exhausted.
   */
  lemma {:induction false} ArchiveIsListed(ms: seq<Member>, tail: seq<byte>, sizes: Sizes, ops: seq<Op>)
    requires AllEncodable(ms, sizes) && CountNext(ops) <= |ms|
    ensures var y := Run(EncodeAll(ms) + tail, sizes, ops);
            && |y.log| == CountNext(ops) && IsListing(y.log, ms) && |y.streams| == |y.log|
            && forall j :: 0 <= j < |y.log| ==>
                 && y.log[j].Ok? && y.log[j].value.header == HeaderOf(ms[j])
                 && y.streams[j].delivered <= ms[j].contents
                 && y.streams[j].size == |ms[j].contents|
                 && y.streams[j].start + y.streams[j].size <= |EncodeAll(ms) + tail|
                 && (y.streams[j].curr >= y.streams[j].size ==> y.streams[j].delivered == ms[j].contents)
  {
    hide Run, Scan, EncodeAll, Encodable, EntryAt, HeaderOf;
    var data, k := EncodeAll(ms) + tail, CountNext(ops);
    var y := Run(data, sizes, ops);
    RunFollowsScan(data, sizes, ops);
    ArchiveIsScanned(ms, tail, sizes, k);
    ArchiveIsComplete(ms, tail, sizes);
    StreamsMatchLog(data, sizes, ops);
    RunKeepsInv(data, sizes, ops);
    forall j | 0 <= j < k
      ensures y.log[j].Ok? && y.log[j].value.header == HeaderOf(ms[j])
      ensures y.streams[j].delivered <= ms[j].contents
      ensures y.streams[j].size == |ms[j].contents| && y.streams[j].start + y.streams[j].size <= |data|
      ensures y.streams[j].curr >= y.streams[j].size ==> y.streams[j].delivered == ms[j].contents
    {
      ContentsLieAt(ms, tail, j);
      EntryAtParts(ms, j);
      DeliveredContents(data, y.streams[j], ms[j].contents);
    }
  }

  lemma {:induction false} EntryAtParts(ms: seq<Member>, j: nat)
    requires j < |ms|
    ensures EntryAt(ms, j).header == HeaderOf(ms[j]) && EntryAt(ms, j).size == |ms[j].contents|
  {
    hide EncodeAll, Front, HeaderOf;
  }

  // ---- the archive reader --------------------------------------------------

  /** What Reader.Next makes of a result: the trailer is the end. */
  function ReaderResult(out: Outcome<Entry>): (r: Outcome<CpioHeader>) {
    match out
    case Ok(e) => if e.header.filename == TRAILER then Err(EOF) else Ok(e.header)
    case Err(e) => Err(e)
    case Panic => Panic
  }

  /** The trailer is known by its name. */
  lemma {:induction false} TrailerIsTheEnd(e: Entry)
    ensures ReaderResult(Ok(e)) == if Is(e.header.filename, "TRAILER!!!") then Err(EOF) else Ok(e.header)
  {
    FormatStrings();
    SameText(e.header.filename, TRAILER, "TRAILER!!!");
  }

  lemma {:induction false} FilenameOf(m: Member)
    ensures HeaderOf(m).filename == if m.Newc? then m.name else []
  {
  }
}
