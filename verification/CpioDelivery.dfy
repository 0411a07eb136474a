/** The round trip of archives: what any run over an encoded archive returns and delivers. */
module CpioDelivery {
  import opened Bytes
  import opened Outcomes
  import opened Streams
  import opened CpioFormat
  import opened CpioMachine
  import opened CpioSchedules
  import opened CpioArchive

  // ---- how much is read ----------------------------------------------------

  /** How many bytes the reads of stream j could take while its entry is the latest one. */
  function Asked(ops: seq<Op>, j: nat): (n: nat) {
    if ops == [] then 0
    else
      var init, op := ops[..|ops| - 1], ops[|ops| - 1];
      Asked(init, j) + if op.ReadOp? && op.i == j && CountNext(init) == j + 1 then Least(op.n, op.k) else 0
  }

  lemma {:induction false} NothingAsked(ops: seq<Op>, j: nat)
    requires CountNext(ops) <= j
    ensures Asked(ops, j) == 0
  {
    if ops != [] {
      NothingAsked(ops[..|ops| - 1], j);
    }
  }

  // ---- what is delivered ---------------------------------------------------

  /** Whether a stream has delivered the first n bytes of contents, or all of them if there are fewer. */
  predicate Delivered(s: Strm, contents: seq<byte>, n: nat) { s.delivered == contents[..Least(n, |contents|)] }

  /** A read of the latest stream delivers the next bytes of the member's contents. */
  lemma {:induction false} LatestDelivers(ms: seq<Member>, tail: seq<byte>, sizes: Sizes, ops: seq<Op>, n: nat,
                                          k: nat, a: nat)
    requires AllEncodable(ms, sizes) && 0 < CountNext(ops) <= |ms|
    requires var y := Run(EncodeAll(ms) + tail, sizes, ops);
             |y.streams| == CountNext(ops) && Delivered(Last(y.streams), ms[|y.streams| - 1].contents, a)
    ensures var data := EncodeAll(ms) + tail;
            var y := Run(data, sizes, ops);
            var j := |y.streams| - 1;
            var z := Do(data, sizes, y, ReadOp(j, n, k));
            && z.streams == y.streams[j := z.streams[j]]
            && Delivered(z.streams[j], ms[j].contents, a + Least(n, k))
  {
    hide Run, Do, EncodeAll, Encodable, CountNext, HeaderOf, IsListing;
    var data := EncodeAll(ms) + tail;
    var y := Run(data, sizes, ops);
    var op := ReadOp(|y.streams| - 1, n, k);
    ArchiveIsListed(ms, tail, sizes, ops);
    RunKeepsInv(data, sizes, ops);
    ReadAdvances(data, sizes, ops, n, k);
    RunOfSnoc(data, sizes, ops, op);
    ArchiveIsListed(ms, tail, sizes, ops + [op]);
    RunKeepsInv(data, sizes, ops + [op]);
  }

  /** A call that is not a read of the latest stream leaves what the streams have delivered. */
  lemma {:induction false} OthersKeep(data: seq<byte>, sizes: Sizes, ops: seq<Op>, op: Op, j: nat)
    requires j < |Run(data, sizes, ops).streams|
    requires op.ReadOp? && op.i == j ==> j < |Run(data, sizes, ops).streams| - 1
    ensures var y := Run(data, sizes, ops);
            var z := Do(data, sizes, y, op);
            j < |z.streams| && z.streams[j] == y.streams[j]
  {
    hide Run, NextEntry, AfterRead;
    if op.ReadOp? && op.i == j {
      EntryIsolation(data, sizes, ops, j);
      assert Do(data, sizes, Run(data, sizes, ops), ReadOp(j, op.n, op.k)) == Run(data, sizes, ops);
    }
  }

  lemma {:induction false} NextOpens(ms: seq<Member>, tail: seq<byte>, sizes: Sizes, ops: seq<Op>)
    requires AllEncodable(ms, sizes) && CountNext(ops + [NextOp]) <= |ms|
    ensures var y := Run(EncodeAll(ms) + tail, sizes, ops + [NextOp]);
            |y.streams| == CountNext(ops) + 1 && Last(y.streams).delivered == []
  {
    hide Run, EncodeAll, Encodable, NextEntry, HeaderOf, IsListing, CountNext;
    var data := EncodeAll(ms) + tail;
    RunOfSnoc(data, sizes, ops, NextOp);
    ArchiveIsListed(ms, tail, sizes, ops);
    ArchiveIsListed(ms, tail, sizes, ops + [NextOp]);
  }

  lemma {:induction false} DeliversAsked(ms: seq<Member>, tail: seq<byte>, sizes: Sizes, ops: seq<Op>, j: nat)
    requires AllEncodable(ms, sizes) && j < CountNext(ops) <= |ms|
    ensures var y := Run(EncodeAll(ms) + tail, sizes, ops);
            |y.streams| == CountNext(ops) && Delivered(y.streams[j], ms[j].contents, Asked(ops, j))
    decreases |ops|
  {
    hide Do, EncodeAll, Encodable, Delivered, HeaderOf, IsListing;
    var data, n := EncodeAll(ms) + tail, |ops| - 1;
    var init, op := ops[..n], ops[n];
    assert init + [op] == ops;
    ArchiveIsListed(ms, tail, sizes, ops);
    if j == CountNext(init) {
      NothingAsked(init, j);
      NextOpens(ms, tail, sizes, init);
      NothingDelivered(Run(data, sizes, ops).streams[j], ms[j].contents);
    } else {
      DeliversAsked(ms, tail, sizes, init, j);
      if op.ReadOp? && op.i == j && CountNext(init) == j + 1 {
        LatestDelivers(ms, tail, sizes, init, op.n, op.k, Asked(init, j));
      } else {
        OthersKeep(data, sizes, init, op, j);
      }
    }
  }

  lemma {:induction false} NothingDelivered(s: Strm, contents: seq<byte>)
    requires s.delivered == []
    ensures Delivered(s, contents, 0)
  {
  }

  /**
    Archive round trip: any run over an encoded archive, in whatever order and
    portions contents are read in between, gets from its calls of Next exactly
    the headers of the members in order; what the stream of a member has delivered
    is exactly as many bytes of the member's contents as its reads have asked for.
   */
  lemma {:induction false} ArchiveRoundTrip(ms: seq<Member>, tail: seq<byte>, sizes: Sizes, ops: seq<Op>)
    requires AllEncodable(ms, sizes) && CountNext(ops) <= |ms|
    ensures var y := Run(EncodeAll(ms) + tail, sizes, ops);
            && |y.log| == CountNext(ops) && IsListing(y.log, ms) && |y.streams| == |y.log|
            && forall j :: 0 <= j < |y.log| ==>
                 && y.log[j].Ok? && y.log[j].value.header == HeaderOf(ms[j])
                 && Delivered(y.streams[j], ms[j].contents, Asked(ops, j))
                 && (y.streams[j].curr >= y.streams[j].size ==> y.streams[j].delivered == ms[j].contents)
  {
    hide Run, EncodeAll, Encodable, IsListing, HeaderOf, Delivered;
    ArchiveIsListed(ms, tail, sizes, ops);
    forall j | 0 <= j < CountNext(ops)
      ensures Delivered(Run(EncodeAll(ms) + tail, sizes, ops).streams[j], ms[j].contents, Asked(ops, j))
    {
      DeliversAsked(ms, tail, sizes, ops, j);
    }
  }

  /**
    Over the members followed by a trailer, in whatever way contents are read in
    between, Reader.Next returns the header of every member and then EOF.
   */
  lemma {:induction false} ReaderListsArchive(ms: seq<Member>, trailer: Member, tail: seq<byte>, sizes: Sizes,
                                              ops: seq<Op>)
    requires AllEncodable(ms + [trailer], sizes) && IsTrailer(trailer)
    requires forall j :: 0 <= j < |ms| ==> !IsTrailer(ms[j])
    requires CountNext(ops) <= |ms| + 1
    ensures var log := Run(EncodeAll(ms + [trailer]) + tail, sizes, ops).log;
            && |log| == CountNext(ops)
            && forall j :: 0 <= j < |log| ==>
                 ReaderResult(log[j]) == if j < |ms| then Ok(HeaderOf(ms[j])) else Err(EOF)
  {
    hide Run, EncodeAll, Encodable, EntryAt;
    var all := ms + [trailer];
    ArchiveRoundTrip(all, tail, sizes, ops);
    forall j | 0 <= j < CountNext(ops)
      ensures HeaderOf(all[j]).filename == TRAILER <==> j == |ms|
    {
      assert j < |ms| ==> all[j] == ms[j];
      FilenameOf(all[j]);
    }
  }

  // ---- reading everything --------------------------------------------------

  /** A read with a buffer of n bytes of which the reader is willing to fill k. */
  datatype Portion = Portion(n: nat, k: nat)

  function Total(ps: seq<Portion>): (n: nat) {
    if ps == [] then 0 else Total(ps[..|ps| - 1]) + Least(ps[|ps| - 1].n, ps[|ps| - 1].k)
  }

  function Reads(j: nat, ps: seq<Portion>): (ops: seq<Op>) {
    if ps == [] then [] else Reads(j, ps[..|ps| - 1]) + [ReadOp(j, ps[|ps| - 1].n, ps[|ps| - 1].k)]
  }

  /** Entry after entry is read in the portions planned for it. */
  function ReadThrough(plan: seq<seq<Portion>>): (ops: seq<Op>) {
    if plan == [] then []
    else ReadThrough(plan[..|plan| - 1]) + [NextOp] + Reads(|plan| - 1, plan[|plan| - 1])
  }

  lemma {:induction false} AskedOfSnoc(ops: seq<Op>, op: Op, j: nat)
    ensures Asked(ops + [op], j)
         == Asked(ops, j) + if op.ReadOp? && op.i == j && CountNext(ops) == j + 1 then Least(op.n, op.k) else 0
    ensures CountNext(ops + [op]) == CountNext(ops) + if op.NextOp? then 1 else 0
  {
    assert (ops + [op])[..|ops|] == ops;
  }

  lemma {:induction false} AskedOfReads(ops: seq<Op>, i: nat, ps: seq<Portion>, j: nat)
    requires CountNext(ops) == i + 1
    ensures Asked(ops + Reads(i, ps), j) == Asked(ops, j) + if i == j then Total(ps) else 0
    ensures CountNext(ops + Reads(i, ps)) == i + 1
  {
    hide Asked, CountNext;
    if ps == [] {
      assert ops + [] == ops;
    } else {
      var n := |ps| - 1;
      AskedOfReads(ops, i, ps[..n], j);
      var op := ReadOp(i, ps[n].n, ps[n].k);
      AskedOfSnoc(ops + Reads(i, ps[..n]), op, j);
      assert ops + Reads(i, ps) == ops + Reads(i, ps[..n]) + [op];
    }
  }

  lemma {:induction false} CountOfPlan(plan: seq<seq<Portion>>)
    ensures CountNext(ReadThrough(plan)) == |plan|
  {
    hide CountNext, Reads, Asked;
    if plan == [] {
      assert CountNext([]) == 0 by { CountOfNone(); }
    } else {
      var n := |plan| - 1;
      CountOfPlan(plan[..n]);
      AskedOfSnoc(ReadThrough(plan[..n]), NextOp, 0);
      AskedOfReads(ReadThrough(plan[..n]) + [NextOp], n, plan[n], 0);
    }
  }

  lemma {:induction false} CountOfNone()
    ensures CountNext([]) == 0
  {
  }

  lemma {:induction false} AskedOfPlan(plan: seq<seq<Portion>>, j: nat)
    requires j < |plan|
    ensures Asked(ReadThrough(plan), j) == Total(plan[j])
    decreases |plan|
  {
    hide CountNext, Reads, Asked, Total;
    var n := |plan| - 1;
    CountOfPlan(plan[..n]);
    AskedOfSnoc(ReadThrough(plan[..n]), NextOp, j);
    AskedOfReads(ReadThrough(plan[..n]) + [NextOp], n, plan[n], j);
    if j == n {
      NothingAsked(ReadThrough(plan[..n]), j);
    } else {
      AskedOfPlan(plan[..n], j);
    }
  }

  /**
    Reading an archive through: Next and reads of every entry to its end, in any
    portions, give back every header with exactly the member's contents, and EOF
    at the trailer.
   */
  lemma {:induction false} ArchiveIsReadBack(ms: seq<Member>, trailer: Member, tail: seq<byte>, sizes: Sizes,
                                             plan: seq<seq<Portion>>)
    requires AllEncodable(ms + [trailer], sizes) && IsTrailer(trailer)
    requires forall j :: 0 <= j < |ms| ==> !IsTrailer(ms[j])
    requires |plan| == |ms| && forall j :: 0 <= j < |ms| ==> Total(plan[j]) >= |ms[j].contents|
    ensures var y := Run(EncodeAll(ms + [trailer]) + tail, sizes, ReadThrough(plan) + [NextOp]);
            && |y.log| == |y.streams| == |ms| + 1 && ReaderResult(y.log[|ms|]) == Err(EOF)
            && forall j :: 0 <= j < |ms| ==>
                 ReaderResult(y.log[j]) == Ok(HeaderOf(ms[j])) && y.streams[j].delivered == ms[j].contents
  {
    hide Run, EncodeAll, Encodable, IsListing, HeaderOf, IsTrailer, Total, ReadThrough, CountNext, Asked, ReaderResult;
    var all, ops := ms + [trailer], ReadThrough(plan) + [NextOp];
    CountOfPlan(plan);
    AskedOfSnoc(ReadThrough(plan), NextOp, 0);
    ReaderListsArchive(ms, trailer, tail, sizes, ops);
    ArchiveRoundTrip(all, tail, sizes, ops);
    forall j | 0 <= j < |ms|
      ensures Run(EncodeAll(all) + tail, sizes, ops).streams[j].delivered == ms[j].contents
    {
      assert all[j] == ms[j];
      AskedOfSnoc(ReadThrough(plan), NextOp, j);
      AskedOfPlan(plan, j);
    }
  }

  // ---- archives that are cut off -------------------------------------------

  /**
    An archive that is cut off inside the contents of a member, before the header
    behind it, is ambiguous at that member: from the next call on the results
    depend on what has been read.
   */
  lemma {:induction false} CutIsAmbiguous(ms: seq<Member>, sizes: Sizes, j: nat, c: nat)
    requires AllEncodable(ms, sizes) && j < |ms|
    requires EntryAt(ms, j).start < c <= EntryAt(ms, j).start + |ms[j].contents|
    requires c < |EncodeAll(ms[..j + 1])|
    ensures c <= |EncodeAll(ms)|
    ensures var data := EncodeAll(ms)[..c];
            Ambiguous(data, Scan(data, sizes, j + 1)) && forall k :: k > j + 1 ==> !Independent(data, sizes, k)
  {
    hide EncodeAll, Encode, Encodable, Front, Scan, NextEntry, EntryOf, Independent, Do;
    EncodeAllSplits(ms, j);
    var data, m, o := EncodeAll(ms)[..c], ms[j], |EncodeAll(ms[..j])|;
    StartOfEntry(m, o);
    FrontLies(ms, j, c);
    CutIsScanned(ms, sizes, j, c);
    var z := Scan(data, sizes, j);
    FrontIsRead(data, sizes, z.cur, m);
    DoNext(data, sizes, z);
    ScanUnfolds(data, sizes, j);
    forall k | k > j + 1
      ensures !Independent(data, sizes, k)
    {
      IndependentIff(data, sizes, k);
    }
  }

  lemma {:induction false} FrontLies(ms: seq<Member>, j: nat, c: nat)
    requires j < |ms| && |EncodeAll(ms[..j])| + |Front(ms[j])| <= c <= |EncodeAll(ms)|
    ensures LiesAt(EncodeAll(ms)[..c], |EncodeAll(ms[..j])|, Front(ms[j]))
  {
    hide EncodeAll, Encode, Front;
    EncodeAllSplits(ms, j);
    var o, f, rest := |EncodeAll(ms[..j])|, Front(ms[j]), ms[j].contents + Fill(|Front(ms[j])| + |ms[j].contents|);
    EncodeParts(ms[j]);
    LiesAtParts(EncodeAll(ms), o, f, rest);
    assert EncodeAll(ms)[..c][o..o + |f|] == EncodeAll(ms)[o..o + |f|];
  }

  lemma {:induction false} EncodeAllPrefix(ms: seq<Member>, j: nat)
    requires j <= |ms|
    ensures EncodeAll(ms[..j]) <= EncodeAll(ms)
    decreases |ms|
  {
    hide Encode;
    if j < |ms| {
      var init := ms[..|ms| - 1];
      EncodeAllPrefix(init, j);
      assert init[..j] == ms[..j];
    } else {
      assert ms[..j] == ms;
    }
  }

  lemma {:induction false} CutIsScanned(ms: seq<Member>, sizes: Sizes, j: nat, c: nat)
    requires AllEncodable(ms, sizes) && j < |ms| && |EncodeAll(ms[..j])| <= c <= |EncodeAll(ms)|
    ensures var y := Scan(EncodeAll(ms)[..c], sizes, j);
            y.cur.pos <= y.cur.next == |EncodeAll(ms[..j])| && y.cur.next % 4 == 0
  {
    hide EncodeAll, Encodable, Scan;
    var some, cut := ms[..j], EncodeAll(ms)[..c];
    EncodeAllPrefix(ms, j);
    EncodeAllAligned(some);
    var tail := cut[|EncodeAll(some)|..];
    assert EncodeAll(some) + tail == cut;
    ArchiveIsScanned(some, tail, sizes, j);
    assert some[..j] == some;
  }
}
