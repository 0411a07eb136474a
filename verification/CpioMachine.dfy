/**
  The reading of a cpio archive as a state machine (cpio/cpio.go, cpio/stream.go):
  one shared position, the position of the next header, and a bounded stream for
  every entry returned so far.
 */
module CpioMachine {
  import opened Bytes
  import opened Outcomes
  import opened Streams
  import opened CpioFormat

  // ---- reading the next entry ----------------------------------------------

  /** What ReadNextEntry returns: the header and the extent of the contents. */
  datatype Entry = Entry(header: CpioHeader, start: nat, size: int)

  datatype Cursor = Cursor(pos: nat, next: int)

  datatype Step = Step(out: Outcome<Entry>, cur: Cursor)

  /** countingReader.Seek: a negative offset panics, and reaching the end without reading anything is no error. */
  function SeekAt(data: seq<byte>, pos: nat, offset: int): (r: At<()>)
    requires pos <= |data|
    ensures pos <= r.pos <= |data|
  {
    if offset == 0 then At(Ok(()), pos)
    else if offset < 0 then At(Panic, pos)
    else
      var b := FullAt(data, pos, offset);
      match b.out
      case Ok(_) => At(Ok(()), b.pos)
      case Err(EOF) => At(Ok(()), b.pos)
      case Err(e) => At(Err(e), b.pos)
      case Panic => At(Panic, b.pos)
  }

  /** The sizes of SetFileSizes, if it was called. */
  type Sizes = Option<seq<int>>

  /** readStrippedEntry */
  function StrippedEntry(sizes: Sizes, hdr: CpioHeader, pos: nat, next: int): (r: Step) {
    match sizes
    case None => Step(Err(StrippedWithoutSizes), Cursor(pos, next))
    case Some(s) =>
      if hdr.index >= |s| then Step(Err(BadFileIndex), Cursor(pos, next))
      else if hdr.index < 0 then Step(Panic, Cursor(pos, next))
      else Step(Ok(Entry(hdr, pos, s[hdr.index])), Cursor(pos, Pad(pos + s[hdr.index])))
  }

  /** The part of ReadNextEntry behind a newc header: file name, padding, extent of the contents. */
  function NewcEntry(data: seq<byte>, hdr: CpioHeader, pos: nat, next: int): (r: Step)
    requires pos <= |data|
    ensures pos <= r.cur.pos <= |data|
  {
    if hdr.namesize < 0 then Step(Panic, Cursor(pos, next))
    else
      var buf := FullAt(data, pos, hdr.namesize);
      if buf.out.IsFailure() then Step(buf.out.PropagateFailure(), Cursor(buf.pos, next))
      else if hdr.namesize == 0 then Step(Panic, Cursor(buf.pos, next))
      else
        var filename := buf.out.value[..hdr.namesize - 1];
        var offset := Pad(NEWC_HEADER_LENGTH + hdr.namesize) - NEWC_HEADER_LENGTH - hdr.namesize;
        var p := SeekAt(data, buf.pos, offset);
        if p.out.IsFailure() then Step(p.out.PropagateFailure(), Cursor(p.pos, next))
        else
          Step(Ok(Entry(hdr.(filename := filename), p.pos, hdr.filesize)), Cursor(p.pos, Pad(p.pos + hdr.filesize)))
  }

  /** ReadNextEntry with the stream already at the next header. */
  function EntryAtHeader(data: seq<byte>, sizes: Sizes, pos: nat, next: int): (r: Step)
    requires pos <= |data|
    ensures pos <= r.cur.pos <= |data|
    ensures r.out.Ok? ==> pos < r.out.value.start == r.cur.pos
    ensures r.out.Ok? ==> r.cur.next == Pad(r.out.value.start + r.out.value.size)
    ensures !r.out.Ok? ==> r.cur.next == next
  {
    var h := HeaderAt(data, pos);
    if h.out.IsFailure() then Step(h.out.PropagateFailure(), Cursor(h.pos, next))
    else if h.out.value.stripped then StrippedEntry(sizes, h.out.value, h.pos, next)
    else NewcEntry(data, h.out.value, h.pos, next)
  }

  /** ReadNextEntry */
  function NextEntry(data: seq<byte>, sizes: Sizes, cur: Cursor): (r: Step)
    requires cur.pos <= |data|
    ensures cur.pos <= r.cur.pos <= |data|
    ensures r.out.Ok? ==> r.cur.pos == r.out.value.start && r.cur.next == Pad(r.out.value.start + r.out.value.size)
    ensures !r.out.Ok? ==> r.cur.next == cur.next
  {
    var s := SeekAt(data, cur.pos, cur.next - cur.pos);
    if s.out.IsFailure() then Step(s.out.PropagateFailure(), Cursor(s.pos, cur.next))
    else EntryAtHeader(data, sizes, s.pos, cur.next)
  }

  // ---- entry streams -------------------------------------------------------

  /** file_stream, with everything it has delivered. */
  datatype Strm = Strm(start: nat, curr: nat, size: int, delivered: seq<byte>)

  /** Whether a read would get to the underlying stream. */
  predicate Readable(s: Strm, pos: nat) { s.curr < s.size && s.start + s.curr == pos }

  /** file_stream.Read with a buffer of n bytes when the underlying reader is willing to deliver k. */
  function Delivers(data: seq<byte>, s: Strm, pos: nat, n: nat, k: nat): (d: nat)
    requires Readable(s, pos) && pos <= |data|
    ensures d <= n && d <= s.size - s.curr && d <= k && pos + d <= |data|
  {
    var m := if n > s.size - s.curr then s.size - s.curr else n;
    var a := if m > |data| - pos then |data| - pos else m;
    if a > k then k else a
  }

  function AfterRead(data: seq<byte>, s: Strm, pos: nat, n: nat, k: nat): (t: Strm)
    requires pos <= |data|
  {
    if !Readable(s, pos) then s
    else
      var d := Delivers(data, s, pos, n, k);
      s.(curr := s.curr + d, delivered := s.delivered + data[pos..pos + d])
  }

  // ---- runs ----------------------------------------------------------------

  /** A call of Next, or of Read on the i-th entry returned so far. */
  datatype Op = NextOp | ReadOp(i: nat, n: nat, k: nat)

  /** `log` holds the results of the calls of Next, `streams` one stream per successful call. */
  datatype Sys = Sys(cur: Cursor, streams: seq<Strm>, log: seq<Outcome<Entry>>)

  const INITIAL := Sys(Cursor(0, 0), [], [])

  function Do(data: seq<byte>, sizes: Sizes, y: Sys, op: Op): (z: Sys)
    requires y.cur.pos <= |data|
    ensures y.cur.pos <= z.cur.pos <= |data|
  {
    match op
    case NextOp =>
      var r := NextEntry(data, sizes, y.cur);
      Sys(r.cur,
          if r.out.Ok? then y.streams + [Strm(r.out.value.start, 0, r.out.value.size, [])] else y.streams,
          y.log + [r.out])
    case ReadOp(i, n, k) =>
      if i >= |y.streams| then y
      else
        var t := AfterRead(data, y.streams[i], y.cur.pos, n, k);
        y.(streams := y.streams[i := t], cur := Cursor(y.cur.pos + (t.curr - y.streams[i].curr), y.cur.next))
  }

  /** Any interleaving of calls. */
  function Run(data: seq<byte>, sizes: Sizes, ops: seq<Op>): (y: Sys)
    ensures y.cur.pos <= |data|
  {
    if ops == [] then INITIAL
    else Do(data, sizes, Run(data, sizes, ops[..|ops| - 1]), ops[|ops| - 1])
  }

  function CountNext(ops: seq<Op>): (n: nat) {
    if ops == [] then 0 else CountNext(ops[..|ops| - 1]) + if ops[|ops| - 1].NextOp? then 1 else 0
  }

  /** The run of k calls of Next that reads no contents. */
  function Scan(data: seq<byte>, sizes: Sizes, k: nat): (y: Sys)
    ensures y.cur.pos <= |data|
  {
    if k == 0 then INITIAL else Do(data, sizes, Scan(data, sizes, k - 1), NextOp)
  }

  // ---- entry isolation -----------------------------------------------------

  /** What a stream has delivered is the part of the archive in front of its read position. */
  ghost predicate StreamInv(data: seq<byte>, s: Strm) {
    && s.start + s.curr <= |data| && s.delivered == data[s.start..s.start + s.curr]
    && (s.curr > 0 ==> s.curr <= s.size)
  }

  /** The stream ends before the next header or lies behind the read position. */
  predicate EndsBefore(s: Strm, cur: Cursor) {
    s.size > 0 ==> s.start + s.size <= cur.next || s.start + s.size <= cur.pos
  }

  predicate Passed(s: Strm, pos: nat) { s.size > 0 ==> s.start + s.size <= pos }

  ghost predicate Inv(data: seq<byte>, y: Sys) {
    && y.cur.pos <= |data|
    && (forall i :: 0 <= i < |y.streams| ==> StreamInv(data, y.streams[i]) && EndsBefore(y.streams[i], y.cur))
    && (forall i :: 0 <= i < |y.streams| - 1 ==> Passed(y.streams[i], y.cur.pos))
  }

  /** Nothing short of the end of the archive stops a successful call before the next header. */
  lemma {:induction false} SeekReaches(data: seq<byte>, sizes: Sizes, cur: Cursor)
    requires cur.pos <= |data|
    ensures var r := NextEntry(data, sizes, cur);
            r.out.Ok? ==> cur.pos <= cur.next <= |data| && cur.next < r.cur.pos
  {
    hide EntryAtHeader;
    var s := SeekAt(data, cur.pos, cur.next - cur.pos);
    if s.out.Ok? && s.pos == |data| {
      NoEntryAtEnd(data, sizes, cur.next);
    }
  }

  lemma {:induction false} NoEntryAtEnd(data: seq<byte>, sizes: Sizes, next: int)
    ensures EntryAtHeader(data, sizes, |data|, next) == Step(Err(EOF), Cursor(|data|, next))
  {
  }

  /** Pad never goes back behind a position it is given. */
  lemma {:induction false} NextCovers(start: nat, size: int)
    requires size > 0
    ensures start + size <= Pad(start + size)
  {
  }

  lemma {:induction false} NextKeepsInv(data: seq<byte>, sizes: Sizes, y: Sys)
    requires Inv(data, y)
    ensures Inv(data, Do(data, sizes, y, NextOp))
  {
    hide NextEntry;
    var r, z := NextEntry(data, sizes, y.cur), Do(data, sizes, y, NextOp);
    SeekReaches(data, sizes, y.cur);
    if r.out.Ok? && r.out.value.size > 0 {
      NextCovers(r.out.value.start, r.out.value.size);
    }
    forall i | 0 <= i < |z.streams|
      ensures StreamInv(data, z.streams[i]) && EndsBefore(z.streams[i], z.cur)
      ensures i < |z.streams| - 1 ==> Passed(z.streams[i], z.cur.pos)
    {
      if i < |y.streams| {
        assert z.streams[i] == y.streams[i];
      } else {
        assert z.streams[i].delivered == data[z.streams[i].start..z.streams[i].start];
      }
    }
  }

  lemma {:induction false} ReadKeepsInv(data: seq<byte>, sizes: Sizes, y: Sys, i: nat, n: nat, k: nat)
    requires Inv(data, y)
    ensures var z := Do(data, sizes, y, ReadOp(i, n, k));
            && Inv(data, z) && z.log == y.log && z.cur.next == y.cur.next
            && (z.cur.pos != y.cur.pos ==> z.cur.pos <= y.cur.next)
  {
    hide NextEntry, Pad;
    if i < |y.streams| && Readable(y.streams[i], y.cur.pos) {
      var s, z := y.streams[i], Do(data, sizes, y, ReadOp(i, n, k));
      var d := Delivers(data, s, y.cur.pos, n, k);
      JoinSlices(data, s.start, y.cur.pos, y.cur.pos + d);
      assert StreamInv(data, z.streams[i]);
      assert forall j :: 0 <= j < |z.streams| && j != i ==> z.streams[j] == y.streams[j];
    }
  }

  lemma {:induction false} RunKeepsInv(data: seq<byte>, sizes: Sizes, ops: seq<Op>)
    ensures Inv(data, Run(data, sizes, ops))
  {
    hide Do, Inv;
    if ops == [] {
      InitialInv(data);
    } else {
      var n := |ops| - 1;
      RunKeepsInv(data, sizes, ops[..n]);
      match ops[n]
      case NextOp => NextKeepsInv(data, sizes, Run(data, sizes, ops[..n]));
      case ReadOp(i, m, k) => ReadKeepsInv(data, sizes, Run(data, sizes, ops[..n]), i, m, k);
    }
  }

  lemma {:induction false} InitialInv(data: seq<byte>)
    ensures Inv(data, INITIAL)
  {
  }

  /**
    Entry isolation: after any interleaving of calls on any archive, what the
    stream of an entry has delivered is a prefix of that entry's own range of the
    archive, and a read on a stream that is not the latest delivers nothing.
   */
  lemma {:induction false} EntryIsolation(data: seq<byte>, sizes: Sizes, ops: seq<Op>, i: nat)
    requires i < |Run(data, sizes, ops).streams|
    ensures var y := Run(data, sizes, ops);
            var s := y.streams[i];
            && s.start + |s.delivered| <= |data| && s.delivered == data[s.start..s.start + |s.delivered|]
            && (|s.delivered| > 0 ==> |s.delivered| <= s.size)
            && (i < |y.streams| - 1 ==> forall n, k :: Do(data, sizes, y, ReadOp(i, n, k)) == y)
  {
    hide Run, NextEntry;
    RunKeepsInv(data, sizes, ops);
    var y := Run(data, sizes, ops);
    if i < |y.streams| - 1 {
      assert !Readable(y.streams[i], y.cur.pos);
      assert y.streams[i := y.streams[i]] == y.streams;
    }
  }

  // ---- the latest stream ---------------------------------------------------

  function Last<T>(s: seq<T>): (x: T)
    requires s != []
  {
    s[|s| - 1]
  }

  /**
    The latest stream belongs to the latest result and reads where the archive
    stands; behind a failed call nothing is left to read.
   */
  ghost predicate TailInv(data: seq<byte>, y: Sys) {
    if y.log == [] then y.streams == []
    else if Last(y.log).Ok? then
      && y.streams != [] && Last(y.streams).start == Last(y.log).value.start
      && Last(y.streams).size == Last(y.log).value.size
      && Last(y.streams).start + Last(y.streams).curr == y.cur.pos
    else y.cur.pos >= y.cur.next || y.cur.pos == |data|
  }

  lemma {:induction false} FailedNextIsPast(data: seq<byte>, sizes: Sizes, cur: Cursor)
    requires cur.pos <= |data|
    ensures var r := NextEntry(data, sizes, cur);
            r.out.Ok? || r.cur.pos >= r.cur.next || r.cur.pos == |data|
  {
    hide EntryAtHeader;
    NoEntryAtEnd(data, sizes, cur.next);
  }

  lemma {:induction false} NextKeepsTail(data: seq<byte>, sizes: Sizes, y: Sys)
    requires y.cur.pos <= |data|
    ensures TailInv(data, Do(data, sizes, y, NextOp))
  {
    hide NextEntry;
    FailedNextIsPast(data, sizes, y.cur);
  }

  /** A read that moves the position is one of the latest stream, and stays within its entry. */
  lemma {:induction false} ReadKeepsTail(data: seq<byte>, sizes: Sizes, y: Sys, i: nat, n: nat, k: nat)
    requires Inv(data, y) && TailInv(data, y)
    ensures var z := Do(data, sizes, y, ReadOp(i, n, k));
            && TailInv(data, z) && z.log == y.log && z.cur.next == y.cur.next
            && (z.cur.pos != y.cur.pos ==>
                 && y.log != [] && Last(y.log).Ok?
                 && z.cur.pos <= Last(y.log).value.start + Last(y.log).value.size)
  {
    var z := Do(data, sizes, y, ReadOp(i, n, k));
    if i < |y.streams| && Readable(y.streams[i], y.cur.pos) {
      assert i == |y.streams| - 1;
    }
  }

  lemma {:induction false} RunKeepsTail(data: seq<byte>, sizes: Sizes, ops: seq<Op>)
    ensures TailInv(data, Run(data, sizes, ops))
  {
    hide Do, Inv, TailInv;
    if ops == [] {
      InitialTail(data);
    } else {
      var n := |ops| - 1;
      RunKeepsTail(data, sizes, ops[..n]);
      match ops[n]
      case NextOp =>
        NextKeepsTail(data, sizes, Run(data, sizes, ops[..n]));
      case ReadOp(i, m, k) =>
        RunKeepsInv(data, sizes, ops[..n]);
        ReadKeepsTail(data, sizes, Run(data, sizes, ops[..n]), i, m, k);
    }
  }

  lemma {:induction false} InitialTail(data: seq<byte>)
    ensures TailInv(data, INITIAL)
  {
  }

  /** The least of three numbers. */
  function Least3(a: nat, b: nat, c: nat): (m: nat) { Least(Least(a, b), c) }

  /** What a stream still has to deliver, within its entry and within the archive. */
  function Rest(data: seq<byte>, s: Strm): (n: nat)
    requires s.start + s.curr <= |data|
  {
    if s.curr < s.size then Least(s.size - s.curr, |data| - s.start - s.curr) else 0
  }

  /**
    Progress: after any run whose latest call of Next has succeeded, a read on the
    latest stream advances by as many bytes as are asked for, the reader is willing
    to give, and the entry still has.
   */
  lemma {:induction false} ReadAdvances(data: seq<byte>, sizes: Sizes, ops: seq<Op>, n: nat, k: nat)
    requires var y := Run(data, sizes, ops); y.log != [] && Last(y.log).Ok?
    ensures var y := Run(data, sizes, ops);
            && y.streams != []
            && var i, s := |y.streams| - 1, Last(y.streams);
            && s.start + s.curr <= |data|
            && var z := Do(data, sizes, y, ReadOp(i, n, k));
            && z.streams == y.streams[i := z.streams[i]]
            && z.streams[i].curr == s.curr + Least3(n, k, Rest(data, s))
            && (n > 0 && k > 0 && Rest(data, s) > 0 ==> z.streams[i].curr > s.curr)
            && (s.start + s.size <= |data| && n >= s.size - s.curr && k >= s.size - s.curr ==>
                 z.streams[i].curr >= s.size)
  {
    hide Run, NextEntry;
    RunKeepsTail(data, sizes, ops);
    RunKeepsInv(data, sizes, ops);
    var y := Run(data, sizes, ops);
    assert y.streams[|y.streams| - 1 := Last(y.streams)] == y.streams;
  }

  // ---- schedule independence -----------------------------------------------

  /** The same result, except that a truncated archive may be reported in either of two ways. */
  predicate Similar(a: Outcome<Entry>, b: Outcome<Entry>) {
    a == b || (a in {Err(EOF), Err(UnexpectedEOF)} && b in {Err(EOF), Err(UnexpectedEOF)})
  }

  /** Reading contents moves the position only, and not beyond the next header. */
  predicate AheadOf(y: Sys, z: Sys) {
    && y.cur.next == z.cur.next && z.cur.pos <= y.cur.pos
    && (y.cur.pos != z.cur.pos ==> y.cur.pos <= y.cur.next)
  }

  lemma {:induction false} NextFromAhead(data: seq<byte>, sizes: Sizes, y: Sys, z: Sys)
    requires y.cur.pos <= |data| && AheadOf(y, z)
    ensures var a, b := NextEntry(data, sizes, y.cur), NextEntry(data, sizes, z.cur);
            && a.cur == b.cur && Similar(a.out, b.out)
            && (y.cur.next <= |data| ==> a.out == b.out)
  {
    hide EntryAtHeader;
    NoEntryAtEnd(data, sizes, y.cur.next);
  }

  ghost predicate SameResults(a: seq<Outcome<Entry>>, b: seq<Outcome<Entry>>) {
    |a| == |b| && forall i :: 0 <= i < |a| ==> Similar(a[i], b[i])
  }

  /** No header lies beyond the end of the archive during the first k calls. */
  ghost predicate Complete(data: seq<byte>, sizes: Sizes, k: nat) {
    forall j :: 0 <= j < k ==> Scan(data, sizes, j).cur.next <= |data|
  }

  lemma {:induction false} DoNext(data: seq<byte>, sizes: Sizes, y: Sys)
    requires y.cur.pos <= |data|
    ensures var r, z := NextEntry(data, sizes, y.cur), Do(data, sizes, y, NextOp);
            z.cur == r.cur && z.log == y.log + [r.out]
  {
    hide NextEntry;
  }

  lemma {:induction false} LogGrows(data: seq<byte>, sizes: Sizes, y: Sys, z: Sys)
    requires y.cur.pos <= |data| && AheadOf(y, z) && SameResults(y.log, z.log)
    ensures var a, b := Do(data, sizes, y, NextOp), Do(data, sizes, z, NextOp);
            && AheadOf(a, b) && SameResults(a.log, b.log)
            && (y.cur.next <= |data| && y.log == z.log ==> a.log == b.log)
  {
    hide Do, NextEntry, Similar;
    DoNext(data, sizes, y);
    DoNext(data, sizes, z);
    NextFromAhead(data, sizes, y, z);
  }

  lemma {:induction false} RunFollowsScan(data: seq<byte>, sizes: Sizes, ops: seq<Op>)
    ensures var y, z := Run(data, sizes, ops), Scan(data, sizes, CountNext(ops));
            && AheadOf(y, z) && SameResults(y.log, z.log)
            && (Complete(data, sizes, CountNext(ops)) ==> y.log == z.log)
  {
    hide Do, Inv, SameResults, Similar;
    if ops == [] {
      NoResults();
    } else {
      var n := |ops| - 1;
      RunFollowsScan(data, sizes, ops[..n]);
      var y, z := Run(data, sizes, ops[..n]), Scan(data, sizes, CountNext(ops[..n]));
      match ops[n]
      case NextOp =>
        LogGrows(data, sizes, y, z);
      case ReadOp(i, m, k) =>
        RunKeepsInv(data, sizes, ops[..n]);
        ReadKeepsInv(data, sizes, y, i, m, k);
    }
  }

  lemma {:induction false} NoResults()
    ensures SameResults([], [])
  {
  }

  /**
    Schedule independence: on any archive, two runs with the same number of calls
    of Next get the same results from them, whatever is read in between and in
    whatever portions; only the way a truncated archive is reported may differ.
    On a complete archive the results are equal.
   */
  lemma {:induction false} ScheduleIndependence(data: seq<byte>, sizes: Sizes, ops: seq<Op>, ops': seq<Op>)
    requires CountNext(ops) == CountNext(ops')
    ensures var a, b := Run(data, sizes, ops).log, Run(data, sizes, ops').log;
            && SameResults(a, b) && |a| == CountNext(ops)
            && (Complete(data, sizes, CountNext(ops)) ==> a == b)
  {
    hide Run, Scan, Complete;
    RunFollowsScan(data, sizes, ops);
    RunFollowsScan(data, sizes, ops');
    ScanLength(data, sizes, CountNext(ops));
  }

  lemma {:induction false} ScanLength(data: seq<byte>, sizes: Sizes, k: nat)
    ensures |Scan(data, sizes, k).log| == k
  {
    hide NextEntry;
    if k > 0 {
      ScanLength(data, sizes, k - 1);
    }
  }

  /**
    The exception is real: when the next header lies beyond the end, the result is
    EOF if everything before the end has been read, and UnexpectedEOF if not.
   */
  lemma {:induction false} TruncationDependsOnReading(data: seq<byte>, sizes: Sizes, cur: Cursor)
    requires cur.pos <= |data| < cur.next
    ensures NextEntry(data, sizes, cur).out == Err(if cur.pos == |data| then EOF else UnexpectedEOF)
  {
    hide EntryAtHeader;
    NoEntryAtEnd(data, sizes, cur.next);
  }

  ghost predicate AllSized(log: seq<Outcome<Entry>>) {
    forall i :: 0 <= i < |log| ==> log[i].Ok? && log[i].value.size >= 0
  }

  /** While all calls of Next succeed with sizes that are not negative, the position never passes the next header. */
  lemma {:induction false} CursorStaysBehind(data: seq<byte>, sizes: Sizes, ops: seq<Op>)
    requires AllSized(Run(data, sizes, ops).log)
    ensures var y := Run(data, sizes, ops);
            y.cur.pos <= y.cur.next
  {
    hide Do, Inv;
    if ops != [] {
      var n := |ops| - 1;
      var y, z := Run(data, sizes, ops[..n]), Run(data, sizes, ops);
      match ops[n]
      case NextOp =>
        DoNext(data, sizes, y);
        assert z.log[|y.log|].Ok?;
      case ReadOp(i, m, k) =>
        RunKeepsInv(data, sizes, ops[..n]);
        ReadKeepsInv(data, sizes, y, i, m, k);
        CursorStaysBehind(data, sizes, ops[..n]);
    }
  }

  /** Where there is a byte to read, an attempt at a header takes it. */
  lemma {:induction false} HeaderTakesBytes(data: seq<byte>, sizes: Sizes, pos: nat, next: int)
    requires pos < |data|
    ensures EntryAtHeader(data, sizes, pos, next).cur.pos > pos
  {
    hide NumbersAt, Read16At, Pad;
  }

  /**
    A call of Next that failed can be repeated safely exactly when the header lies
    at or beyond the end of the archive; otherwise the position has passed the
    header, and the second call panics.
   */
  lemma {:induction false} RetryPanicsIff(data: seq<byte>, sizes: Sizes, cur: Cursor)
    requires cur.pos <= |data| && NextEntry(data, sizes, cur).out.Err?
    ensures var retry := NextEntry(data, sizes, NextEntry(data, sizes, cur).cur).out;
            && (retry == Panic <==> cur.next < |data|)
            && (retry != Panic ==> retry == Err(EOF))
  {
    hide EntryAtHeader;
    NoEntryAtEnd(data, sizes, cur.next);
    if cur.next < |data| {
      var s := SeekAt(data, cur.pos, cur.next - cur.pos);
      HeaderTakesBytes(data, sizes, s.pos, cur.next);
    }
  }

  lemma {:induction false} ZerosAreNoMagic()
    ensures HeaderAt(Zeros(6), 0) == At(Err(BadMagic), 6)
  {
    hide NumbersAt, Read16At;
    var magic := Zeros(6)[0..6];
    assert magic[5] == 0;
    assert STRIPPED_MAGIC[5] == 88 && NEWC_MAGIC[5] == 49;
  }

  /** Six zero bytes: the first call of Next reports a bad magic, the second panics. */
  lemma {:induction false} RetryPanicsOnZeros()
    ensures Scan(Zeros(6), None, 2).log == [Err(BadMagic), Panic]
  {
    hide HeaderAt, NewcEntry, Zeros, NextEntry, Do;
    var data := Zeros(6);
    FirstCallOnZeros();
    RetryPanicsIff(data, None, INITIAL.cur);
    DoNext(data, None, Scan(data, None, 0));
    DoNext(data, None, Scan(data, None, 1));
  }

  lemma {:induction false} FirstCallOnZeros()
    ensures NextEntry(Zeros(6), None, INITIAL.cur) == Step(Err(BadMagic), Cursor(6, 0))
  {
    hide HeaderAt, NewcEntry, Zeros;
    ZerosAreNoMagic();
  }

  lemma {:induction false} Size64OfHeader(data: seq<byte>, pos: nat)
    requires pos <= |data| && HeaderAt(data, pos).out.Ok?
    ensures var h := HeaderAt(data, pos).out.value;
            h.size64 == if h.stripped then 0 else h.filesize
  {
    hide NumbersAt, Read16At;
  }

  lemma {:induction false} Size64OfEntry(data: seq<byte>, sizes: Sizes, pos: nat, next: int)
    requires pos <= |data| && EntryAtHeader(data, sizes, pos, next).out.Ok?
    ensures var e := EntryAtHeader(data, sizes, pos, next).out.value;
            e.header.size64 == if e.header.stripped then 0 else e.size
  {
    hide HeaderAt, Pad;
    Size64OfHeader(data, pos);
  }

  /** Filesize64 is the size of the contents exactly for newc entries and empty stripped ones. */
  lemma {:induction false} Filesize64Iff(data: seq<byte>, sizes: Sizes, cur: Cursor)
    requires cur.pos <= |data| && NextEntry(data, sizes, cur).out.Ok?
    ensures var e := NextEntry(data, sizes, cur).out.value;
            e.header.size64 == e.size <==> !e.header.stripped || e.size == 0
  {
    hide EntryAtHeader;
    var s := SeekAt(data, cur.pos, cur.next - cur.pos);
    Size64OfEntry(data, sizes, s.pos, cur.next);
  }

  // ---- which entries are refused -------------------------------------------

  /** The size of a stripped entry comes from the list of sizes, by the index in its header. */
  lemma {:induction false} StrippedEntryIs(data: seq<byte>, sizes: Sizes, pos: nat, next: int)
    requires pos <= |data| && HeaderAt(data, pos).out.Ok? && HeaderAt(data, pos).out.value.stripped
    ensures var h := HeaderAt(data, pos).out.value;
            var out := EntryAtHeader(data, sizes, pos, next).out;
            && (out == Err(StrippedWithoutSizes) <==> sizes.None?)
            && (out == Err(BadFileIndex) <==> sizes.Some? && h.index >= |sizes.value|)
            && (out == Panic <==> sizes.Some? && h.index < 0)
            && (sizes.Some? && 0 <= h.index < |sizes.value| ==> out == Ok(Entry(h, pos + 14, sizes.value[h.index])))
  {
    hide NumbersAt, Read16At, Pad;
  }

  /**
    A newc entry has its name without the terminator, and contents that start behind
    the padded name; padding that is missing altogether at the end is no error.
   */
  lemma {:induction false} NewcEntryIs(data: seq<byte>, sizes: Sizes, pos: nat, next: int)
    requires pos <= |data| && HeaderAt(data, pos).out.Ok? && !HeaderAt(data, pos).out.value.stripped
    ensures var h := HeaderAt(data, pos).out.value;
            var out, end := EntryAtHeader(data, sizes, pos, next).out, pos + 110 + h.namesize;
            && (h.namesize <= 0 ==> out == Panic)
            && (h.namesize > 0 && end > |data| ==> out == Err(if pos + 110 == |data| then EOF else UnexpectedEOF))
            && (h.namesize > 0 && end == |data| ==>
                 out == Ok(Entry(h.(filename := data[pos + 110..end - 1]), end, h.filesize)))
            && (h.namesize > 0 && end < |data| < pos + Pad(110 + h.namesize) ==> out == Err(UnexpectedEOF))
            && (h.namesize > 0 && pos + Pad(110 + h.namesize) <= |data| ==>
                 out == Ok(Entry(h.(filename := data[pos + 110..end - 1]), pos + Pad(110 + h.namesize), h.filesize)))
  {
    hide NumbersAt, Read16At, Pad;
    var h := HeaderAt(data, pos);
    if h.out.value.namesize > 0 && pos + 110 + h.out.value.namesize <= |data| {
      var p, n := pos + 110, h.out.value.namesize;
      assert data[p..p + n][..n - 1] == data[p..p + n - 1];
    }
  }
}
