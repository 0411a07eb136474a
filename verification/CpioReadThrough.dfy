/** Reading an archive through with the reader objects, as a client of cpio.Reader does. */
module CpioReadThrough {
  import opened Bytes
  import opened Outcomes
  import opened Streams
  import opened CpioFormat
  import opened CpioMachine
  import opened CpioArchive
  import opened CpioReader

  /** io.Copy from the current entry of a Reader, with a buffer of n bytes. */
  method ReadContents(r: Reader, n: nat) returns (contents: seq<byte>)
    requires r.Valid() && r.cur != null && n > 0
    requires var s := r.cur.payload.Value();
             && s.curr == 0 && s.size >= 0 && s.start == r.stream.stream.curPos
             && s.start + s.size <= |r.stream.stream.stream.data|
    modifies r.stream.stream, r.stream.stream.stream, r.cur.payload
    ensures r.Valid() && r.stream.nextPos == old(r.stream.nextPos)
    ensures var s := r.cur.payload;
            && r.stream.stream.curPos == s.startPos + s.size
            && contents == r.stream.stream.stream.data[s.startPos..s.startPos + s.size]
  {
    hide AfterRead;
    contents := [];
    var s := r.cur.payload;
    ghost var data := r.stream.stream.stream.data;
    var err: Option<Error> := None;
    while err.None?
      invariant r.Valid() && r.stream.nextPos == old(r.stream.nextPos)
      invariant s.currPos <= s.size && r.stream.stream.curPos == s.startPos + s.currPos
      invariant contents == data[s.startPos..s.startPos + s.currPos]
      invariant err.Some? ==> s.currPos == s.size
      decreases s.size - s.currPos, |r.stream.stream.stream.limits|, err.None?
    {
      ghost var before := s.Value();
      ghost var limits := r.stream.stream.stream.limits;
      var b := r.Read(n);
      ReadsNext(data, before, n, Willing(limits, n));
      assert b.value.0 == s.delivered[|before.delivered|..];
      contents := contents + b.value.0;
      err := b.value.1;
    }
  }

  /** A read in step delivers the next bytes of the entry, at least one if the reader is willing. */
  lemma {:induction false} ReadsNext(data: seq<byte>, s: Strm, n: nat, k: nat)
    requires s.curr <= s.size && s.start + s.size <= |data| && n > 0
    ensures var t := AfterRead(data, s, s.start + s.curr, n, k);
            && t.start == s.start && t.size == s.size && s.curr <= t.curr <= s.size
            && t.delivered == s.delivered + data[s.start + s.curr..s.start + t.curr]
            && data[s.start..s.start + s.curr] + data[s.start + s.curr..s.start + t.curr]
               == data[s.start..s.start + t.curr]
            && (k > 0 && s.curr < s.size ==> t.curr > s.curr)
  {
  }

  /** The reader is about to read the j-th member of an archive. */
  ghost predicate AtMember(r: Reader, all: seq<Member>, tail: seq<byte>, j: nat)
    requires j <= |all|
    reads r, r.stream, r.stream.stream, r.stream.stream.stream, r.cur, if r.cur != null then {r.cur.payload} else {}
  {
    && r.Valid() && r.stream.stream.stream.data == EncodeAll(all) + tail && AllEncodable(all, r.stream.sizes)
    && r.stream.stream.curPos <= r.stream.nextPos == |EncodeAll(all[..j])|
  }

  /** Next and, unless it reports the trailer, the contents. */
  method ReadMember(r: Reader, n: nat, ghost all: seq<Member>, ghost tail: seq<byte>, ghost j: nat)
    returns (h: Outcome<CpioHeader>, contents: seq<byte>)
    requires j < |all| && AtMember(r, all, tail, j) && n > 0
    modifies r, r.stream, r.stream.stream, r.stream.stream.stream
    ensures if IsTrailer(all[j]) then h == Err(EOF)
            else h == Ok(HeaderOf(all[j])) && contents == all[j].contents && AtMember(r, all, tail, j + 1)
  {
    hide NextEntry, Encode, EncodeAll, Encodable, HeaderOf, EntryOf, IsTrailer;
    NextMember(r.stream.stream.stream.data, r.stream.sizes, r.stream.Position(), all, tail, j);
    h := r.Next();
    if h.IsFailure() {
      return h, [];
    }
    contents := ReadContents(r, n);
  }

  /** What a call of Next returns in front of the j-th member. */
  lemma {:induction false} NextMember(data: seq<byte>, sizes: Sizes, cur: Cursor, all: seq<Member>, tail: seq<byte>,
                                      j: nat)
    requires j < |all| && data == EncodeAll(all) + tail && AllEncodable(all, sizes)
    requires cur.pos <= cur.next == |EncodeAll(all[..j])|
    ensures cur.pos <= |data|
    ensures var r := NextEntry(data, sizes, cur);
            && r.out == Ok(EntryAt(all, j)) && r.cur == Cursor(EntryAt(all, j).start, |EncodeAll(all[..j + 1])|)
            && LiesAt(data, EntryAt(all, j).start, all[j].contents)
            && EntryAt(all, j).size == |all[j].contents|
            && EntryAt(all, j).start + |all[j].contents| <= |EncodeAll(all[..j + 1])|
    ensures ReaderResult(Ok(EntryAt(all, j))) == if IsTrailer(all[j]) then Err(EOF) else Ok(HeaderOf(all[j]))
  {
    hide NextEntry, Encode, EncodeAll, Encodable, HeaderOf, EntryOf, Front, Fill;
    MemberLiesAt(all, tail, j);
    MemberIsRead(data, sizes, cur, all[j]);
    StartOfEntry(all[j], cur.next);
    EncodeParts(all[j]);
    EntryAtParts(all, j);
    FilenameOf(all[j]);
  }

  /**
    Reading an archive through with the real objects, whatever the underlying
    reader delivers at a time: every header with exactly the member's contents, in
    order, and EOF at the trailer.
   */
  method ReadArchive(r: Reader, n: nat, ghost ms: seq<Member>, ghost trailer: Member, ghost tail: seq<byte>)
    returns (files: seq<(CpioHeader, seq<byte>)>, end: Outcome<CpioHeader>)
    requires r.Valid() && r.stream.Position() == Cursor(0, 0) && n > 0
    requires r.stream.stream.stream.data == EncodeAll(ms + [trailer]) + tail
    requires AllEncodable(ms + [trailer], r.stream.sizes) && IsTrailer(trailer)
    requires forall j :: 0 <= j < |ms| ==> !IsTrailer(ms[j])
    modifies r, r.stream, r.stream.stream, r.stream.stream.stream
    ensures end == Err(EOF) && |files| == |ms|
    ensures forall j :: 0 <= j < |ms| ==> files[j] == (HeaderOf(ms[j]), ms[j].contents)
  {
    hide Encodable, EncodeAll, HeaderOf, IsTrailer;
    ghost var all := ms + [trailer];
    NothingEncoded(all);
    files := [];
    var contents;
    end, contents := ReadMember(r, n, all, tail, 0);
    while end.Ok?
      invariant |files| <= |ms|
      invariant forall j :: 0 <= j < |files| ==> files[j] == (HeaderOf(ms[j]), ms[j].contents)
      invariant if |files| == |ms| then end == Err(EOF)
                else end == Ok(HeaderOf(ms[|files|])) && contents == ms[|files|].contents
                     && AtMember(r, all, tail, |files| + 1)
      decreases |ms| - |files|
    {
      files := files + [(end.value, contents)];
      end, contents := ReadMember(r, n, all, tail, |files|);
    }
  }
}
