/**
  The cpio reader objects (cpio/cpio.go, cpio/stream.go, cpio/header.go,
  cpio/reader.go), proved against the state machine.
 */
module CpioReader {
  import opened Bytes
  import opened Outcomes
  import opened Streams
  import opened CpioFormat
  import opened CpioMachine
  import opened CpioArchive

  /** countingReader */
  class CountingReader {
    const stream: Source
    var curPos: nat

    ghost predicate Valid()
      reads this, stream
    {
      stream.Valid() && curPos == stream.pos
    }

    constructor (stream: Source)
      requires stream.Valid() && stream.pos == 0
      ensures Valid() && this.stream == stream && curPos == 0
    {
      this.stream, curPos := stream, 0;
    }

    method Read(n: nat) returns (b: seq<byte>, err: Option<Error>)
      requires Valid()
      modifies this, stream
      ensures Valid()
      ensures |b| <= n && curPos == old(curPos) + |b| && b == stream.data[old(curPos)..curPos]
      ensures |b| == Least(Least(n, |stream.data| - old(curPos)), Willing(old(stream.limits), n))
      ensures err == if (old(curPos) == |stream.data| && n > 0) || (stream.eager && curPos == |stream.data|)
                     then Some(EOF) else None
      ensures stream.limits == if old(stream.limits) == [] then [] else old(stream.limits)[1..]
    {
      b, err := stream.Read(n);
      curPos := curPos + |b|;
    }

    /** io.ReadFull through the counter, which sees every byte once. */
    method ReadFull(n: nat) returns (b: Outcome<seq<byte>>)
      requires Valid()
      modifies this, stream
      ensures Valid() && At(b, curPos) == FullAt(stream.data, old(curPos), n)
    {
      b := stream.ReadFull(n);
      curPos := stream.pos;
    }

    /** Seek relative to the current position, by reading. */
    method Seek(offset: int) returns (r: Outcome<()>)
      requires Valid()
      modifies this, stream
      ensures Valid() && At(r, curPos) == SeekAt(stream.data, old(curPos), offset)
    {
      if offset == 0 {
        return Ok(());
      }
      if offset < 0 {
        return Panic;
      }
      var b := ReadFull(offset);
      if b.IsFailure() && b != Err(EOF) {
        return b.PropagateFailure();
      }
      return Ok(());
    }
  }

  /** binaryReader.Read16 */
  method Read16(r: CountingReader) returns (n: Outcome<int>)
    requires r.Valid()
    modifies r, r.stream
    ensures r.Valid() && At(n, r.curPos) == Read16At(r.stream.data, old(r.curPos))
  {
    var bb := r.ReadFull(8);
    if bb.IsFailure() {
      return bb.PropagateFailure();
    }
    return ParseHex(bb.value);
  }

  /** Reads number k of a header at position p, unless an earlier one has failed. */
  method ReadNumber(r: CountingReader, ghost p: nat, ghost k: nat, f: Outcome<seq<int>>) returns (g: Outcome<seq<int>>)
    requires r.Valid() && p <= |r.stream.data|
    requires NumbersAt(r.stream.data, p, k) == At(f, r.curPos)
    modifies r, r.stream
    ensures r.Valid() && At(g, r.curPos) == NumbersAt(r.stream.data, p, k + 1)
  {
    hide Read16At;
    if f.IsFailure() {
      return f;
    }
    var n := Read16(r);
    if n.IsFailure() {
      return n.PropagateFailure();
    }
    return Ok(f.value + [n.value]);
  }

  /** The 13 numbers from the inode to the checksum. */
  method ReadNumbers(r: CountingReader) returns (f: Outcome<seq<int>>)
    requires r.Valid()
    modifies r, r.stream
    ensures r.Valid() && At(f, r.curPos) == NumbersAt(r.stream.data, old(r.curPos), 13)
  {
    hide NumbersAt;
    ghost var p := r.curPos;
    NoNumbers(r.stream.data, p);
    f := ReadNumber(r, p, 0, Ok([]));
    f := ReadNumber(r, p, 1, f);
    f := ReadNumber(r, p, 2, f);
    f := ReadNumber(r, p, 3, f);
    f := ReadNumber(r, p, 4, f);
    f := ReadNumber(r, p, 5, f);
    f := ReadNumber(r, p, 6, f);
    f := ReadNumber(r, p, 7, f);
    f := ReadNumber(r, p, 8, f);
    f := ReadNumber(r, p, 9, f);
    f := ReadNumber(r, p, 10, f);
    f := ReadNumber(r, p, 11, f);
    f := ReadNumber(r, p, 12, f);
  }

  lemma {:induction false} NoNumbers(data: seq<byte>, pos: nat)
    requires pos <= |data|
    ensures NumbersAt(data, pos, 0) == At(Ok([]), pos)
  {
  }

  /** readHeader */
  method ReadHeader(r: CountingReader) returns (h: Outcome<CpioHeader>)
    requires r.Valid()
    modifies r, r.stream
    ensures r.Valid() && At(h, r.curPos) == HeaderAt(r.stream.data, old(r.curPos))
  {
    hide NumbersAt, Read16At;
    var magic := r.ReadFull(6);
    if magic.IsFailure() {
      return magic.PropagateFailure();
    }
    if magic.value == STRIPPED_MAGIC {
      var index := Read16(r);
      if index.IsFailure() {
        return index.PropagateFailure();
      }
      return Ok(StrippedHeader(index.value));
    } else if magic.value != NEWC_MAGIC {
      return Err(BadMagic);
    }
    var f := ReadNumbers(r);
    if f.IsFailure() {
      return f.PropagateFailure();
    }
    return Ok(NewcHeader(f.value));
  }

  /** file_stream, bounded to the contents of one entry. */
  class FileStream {
    const stream: CountingReader
    const startPos: nat
    var currPos: nat
    const size: int
    /** Everything delivered so far. */
    ghost var delivered: seq<byte>

    ghost function Value(): (s: Strm)
      reads this
    {
      Strm(startPos, currPos, size, delivered)
    }

    constructor (stream: CountingReader, size: int)
      ensures this.stream == stream && Value() == Strm(stream.curPos, 0, size, [])
    {
      this.stream := stream;
      startPos := stream.curPos;
      currPos := 0;
      this.size := size;
      delivered := [];
    }

    method Read(n: nat) returns (b: seq<byte>, err: Option<Error>)
      requires stream.Valid()
      modifies this, stream, stream.stream
      ensures stream.Valid()
      ensures Value()
           == AfterRead(stream.stream.data, old(Value()), old(stream.curPos), n, Willing(old(stream.stream.limits), n))
      ensures stream.curPos == old(stream.curPos) + |b| && delivered == old(delivered) + b
      ensures old(currPos) >= size ==> b == [] && err == Some(EOF)
      ensures old(currPos) < size && startPos + old(currPos) != old(stream.curPos) ==>
        b == [] && err == Some(ReadOutOfOrder)
      ensures old(currPos) < size && startPos + old(currPos) == old(stream.curPos) ==>
        err == if (old(stream.curPos) == |stream.stream.data| && n > 0)
                  || (stream.stream.eager && stream.curPos == |stream.stream.data|) then Some(EOF) else None
      ensures stream.stream.limits
           == if Readable(old(Value()), old(stream.curPos)) && old(stream.stream.limits) != []
              then old(stream.stream.limits)[1..] else old(stream.stream.limits)
    {
      if currPos >= size {
        return [], Some(EOF);
      }
      if startPos + currPos != stream.curPos {
        return [], Some(ReadOutOfOrder);
      }
      var m := n;
      if m > size - currPos {
        m := size - currPos;
      }
      b, err := stream.Read(m);
      currPos := currPos + |b|;
      delivered := delivered + b;
    }
  }

  /** CpioEntry */
  class CpioEntry {
    const header: CpioHeader
    const payload: FileStream

    constructor (header: CpioHeader, payload: FileStream)
      ensures this.header == header && this.payload == payload
    {
      this.header, this.payload := header, payload;
    }
  }

  /** CpioStream */
  class CpioStream {
    const stream: CountingReader
    var nextPos: int
    const sizes: Sizes

    ghost predicate Valid()
      reads this, stream, stream.stream
    {
      stream.Valid()
    }

    ghost function Position(): (c: Cursor)
      reads this, stream
    {
      Cursor(stream.curPos, nextPos)
    }

    /** NewCpioStream followed by SetFileSizes */
    constructor (source: Source, sizes: Sizes)
      requires source.Valid() && source.pos == 0
      ensures Valid() && fresh(stream) && stream.stream == source && this.sizes == sizes
      ensures Position() == Cursor(0, 0)
    {
      stream := new CountingReader(source);
      nextPos := 0;
      this.sizes := sizes;
    }

    method ReadNextEntry() returns (e: Outcome<CpioEntry>)
      requires Valid()
      modifies this, stream, stream.stream
      ensures Valid()
      ensures var r := NextEntry(stream.stream.data, sizes, old(Position()));
              && Position() == r.cur
              && (r.out.IsFailure() ==> e == r.out.PropagateFailure())
              && (r.out.Ok? ==>
                   && e.Ok? && e.value.header == r.out.value.header
                   && fresh(e.value) && fresh(e.value.payload) && e.value.payload.stream == stream
                   && e.value.payload.Value() == Strm(r.out.value.start, 0, r.out.value.size, []))
    {
      hide HeaderAt, Pad;
      if nextPos != stream.curPos {
        var s := stream.Seek(nextPos - stream.curPos);
        if s.IsFailure() {
          return s.PropagateFailure();
        }
      }
      var h := ReadHeader(stream);
      if h.IsFailure() {
        return h.PropagateFailure();
      }
      if h.value.stripped {
        e := ReadStrippedEntry(h.value);
      } else {
        e := ReadNewcEntry(h.value);
      }
    }

    /** The rest of ReadNextEntry behind a newc header. */
    method ReadNewcEntry(hdr: CpioHeader) returns (e: Outcome<CpioEntry>)
      requires Valid()
      modifies this, stream, stream.stream
      ensures Valid()
      ensures var r := NewcEntry(stream.stream.data, hdr, old(stream.curPos), old(nextPos));
              && Position() == r.cur
              && (r.out.IsFailure() ==> e == r.out.PropagateFailure())
              && (r.out.Ok? ==>
                   && e.Ok? && e.value.header == r.out.value.header
                   && fresh(e.value) && fresh(e.value.payload) && e.value.payload.stream == stream
                   && e.value.payload.Value() == Strm(r.out.value.start, 0, r.out.value.size, []))
    {
      hide Pad;
      if hdr.namesize < 0 {
        return Panic;
      }
      var buf := stream.ReadFull(hdr.namesize);
      if buf.IsFailure() {
        return buf.PropagateFailure();
      }
      if hdr.namesize == 0 {
        return Panic;
      }
      var filename := buf.value[..|buf.value| - 1];
      var offset := Pad(NEWC_HEADER_LENGTH + hdr.namesize) - NEWC_HEADER_LENGTH - hdr.namesize;
      if offset > 0 {
        var s := stream.Seek(offset);
        if s.IsFailure() {
          return s.PropagateFailure();
        }
      }
      nextPos := Pad(stream.curPos + hdr.filesize);
      var payload := new FileStream(stream, hdr.filesize);
      var entry := new CpioEntry(hdr.(filename := filename), payload);
      return Ok(entry);
    }

    method ReadStrippedEntry(hdr: CpioHeader) returns (e: Outcome<CpioEntry>)
      requires Valid()
      modifies this, stream, stream.stream
      ensures Valid()
      ensures var r := StrippedEntry(sizes, hdr, old(stream.curPos), old(nextPos));
              && Position() == r.cur
              && (r.out.IsFailure() ==> e == r.out.PropagateFailure())
              && (r.out.Ok? ==>
                   && e.Ok? && e.value.header == r.out.value.header
                   && fresh(e.value) && fresh(e.value.payload) && e.value.payload.stream == stream
                   && e.value.payload.Value() == Strm(r.out.value.start, 0, r.out.value.size, []))
    {
      hide Pad;
      if sizes.None? {
        return Err(StrippedWithoutSizes);
      } else if hdr.index >= |sizes.value| {
        return Err(BadFileIndex);
      }
      if hdr.index < 0 {
        return Panic;
      }
      var size := sizes.value[hdr.index];
      nextPos := Pad(stream.curPos + size);
      var payload := new FileStream(stream, size);
      var entry := new CpioEntry(hdr, payload);
      return Ok(entry);
    }
  }

  /** Reader */
  class Reader {
    const stream: CpioStream
    var cur: CpioEntry?

    ghost predicate Valid()
      reads this, stream, stream.stream, stream.stream.stream, cur, if cur != null then {cur.payload} else {}
    {
      && stream.Valid()
      && (cur != null ==> cur.payload.stream == stream.stream)
    }

    constructor (source: Source, sizes: Sizes)
      requires source.Valid() && source.pos == 0
      ensures Valid() && fresh(stream) && fresh(stream.stream) && stream.stream.stream == source
      ensures stream.sizes == sizes && cur == null && stream.Position() == Cursor(0, 0)
    {
      stream := new CpioStream(source, sizes);
      cur := null;
    }

    method Next() returns (h: Outcome<CpioHeader>)
      requires Valid()
      modifies this, stream, stream.stream, stream.stream.stream
      ensures Valid()
      ensures var r := NextEntry(stream.stream.stream.data, stream.sizes, old(stream.Position()));
              && stream.Position() == r.cur && h == ReaderResult(r.out)
              && (h.IsFailure() ==> cur == old(cur))
              && (h.Ok? ==>
                   && cur != null && fresh(cur) && fresh(cur.payload) && cur.header == h.value
                   && cur.payload.Value() == Strm(r.out.value.start, 0, r.out.value.size, []))
    {
      hide NextEntry;
      var ent := stream.ReadNextEntry();
      if ent.IsFailure() {
        return ent.PropagateFailure();
      }
      if ent.value.header.filename == TRAILER {
        return Err(EOF);
      }
      cur := ent.value;
      return Ok(cur.header);
    }

    /** Read before the first successful Next panics. */
    method Read(n: nat) returns (r: Outcome<(seq<byte>, Option<Error>)>)
      requires Valid()
      modifies stream.stream, stream.stream.stream, if cur != null then {cur.payload} else {}
      ensures Valid() && (r == Panic <==> cur == null) && !r.Err?
      ensures stream.nextPos == old(stream.nextPos)
      ensures cur != null ==>
        && cur.payload.Value()
           == AfterRead(stream.stream.stream.data, old(cur.payload.Value()), old(stream.stream.curPos), n,
                        Willing(old(stream.stream.stream.limits), n))
        && cur.payload.delivered == old(cur.payload.delivered) + r.value.0
        && stream.stream.curPos == old(stream.stream.curPos) + |r.value.0|
        && (old(cur.payload.currPos) >= cur.payload.size ==> r.value == ([], Some(EOF)))
        && (old(cur.payload.currPos) < cur.payload.size
            && cur.payload.startPos + old(cur.payload.currPos) != old(stream.stream.curPos) ==>
             r.value == ([], Some(ReadOutOfOrder)))
        && (old(cur.payload.currPos) < cur.payload.size
            && cur.payload.startPos + old(cur.payload.currPos) == old(stream.stream.curPos) ==>
             r.value.1 == if (old(stream.stream.curPos) == |stream.stream.stream.data| && n > 0)
                             || (stream.stream.stream.eager && stream.stream.curPos == |stream.stream.stream.data|)
                          then Some(EOF) else None)
        && stream.stream.stream.limits
           == if Readable(old(cur.payload.Value()), old(stream.stream.curPos)) && old(stream.stream.stream.limits) != []
              then old(stream.stream.stream.limits)[1..] else old(stream.stream.stream.limits)
    {
      if cur == null {
        return Panic;
      }
      var b, err := cur.payload.Read(n);
      return Ok((b, err));
    }
  }
}
