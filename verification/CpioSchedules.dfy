/** Exactly which archives make the results of Next independent of what is read in between. */
module CpioSchedules {
  import opened Bytes
  import opened Outcomes
  import opened CpioMachine

  // ---- when schedules can tell the difference ------------------------------

  /** The contents of the current entry, and not just their padding, are cut off. */
  predicate Ambiguous(data: seq<byte>, y: Sys) {
    && y.log != [] && Last(y.log).Ok? && |data| < y.cur.next
    && var e := Last(y.log).value; e.start < |data| <= e.start + e.size
  }

  /** No entry met during the first k calls has its contents cut off. */
  ghost predicate Unambiguous(data: seq<byte>, sizes: Sizes, k: nat) {
    forall j :: 0 <= j < k ==> !Ambiguous(data, Scan(data, sizes, j))
  }

  /** Reading contents has moved y ahead of the scan z, within the current entry. */
  predicate Within(y: Sys, z: Sys) {
    && y.log == z.log && y.cur.next == z.cur.next && z.cur.pos <= y.cur.pos
    && (y.cur.pos != z.cur.pos ==>
         && y.cur.pos <= y.cur.next && y.log != [] && Last(y.log).Ok?
         && z.cur.pos == Last(y.log).value.start && y.cur.pos <= z.cur.pos + Last(y.log).value.size)
  }

  lemma {:induction false} NextFromWithin(data: seq<byte>, sizes: Sizes, y: Sys, z: Sys)
    requires y.cur.pos <= |data| && Within(y, z) && !Ambiguous(data, z)
    ensures var a, b := Do(data, sizes, y, NextOp), Do(data, sizes, z, NextOp);
            a.cur == b.cur && a.log == b.log
  {
    hide NextEntry;
    DoNext(data, sizes, y);
    DoNext(data, sizes, z);
    NextFromAhead(data, sizes, y, z);
    if y.cur.pos != z.cur.pos && y.cur.next > |data| {
      TruncationDependsOnReading(data, sizes, y.cur);
      TruncationDependsOnReading(data, sizes, z.cur);
    }
  }

  lemma {:induction false} ScanPosition(data: seq<byte>, sizes: Sizes, k: nat)
    ensures var z := Scan(data, sizes, k);
            && |z.log| == k
            && (k > 0 && Last(z.log).Ok? ==>
                 && z.cur.pos == Last(z.log).value.start && z.streams != []
                 && Last(z.streams) == Strm(z.cur.pos, 0, Last(z.log).value.size, []))
  {
    hide NextEntry;
    if k > 0 {
      ScanPosition(data, sizes, k - 1);
    }
  }

  lemma {:induction false} UnambiguousRun(data: seq<byte>, sizes: Sizes, ops: seq<Op>)
    requires Unambiguous(data, sizes, CountNext(ops))
    ensures Within(Run(data, sizes, ops), Scan(data, sizes, CountNext(ops)))
    ensures TailInv(data, Run(data, sizes, ops))
  {
    hide Do, Inv, TailInv, Ambiguous, Scan;
    if ops == [] {
      InitialRun(data, sizes);
    } else {
      var n := |ops| - 1;
      var k := CountNext(ops[..n]);
      UnambiguousRun(data, sizes, ops[..n]);
      RunKeepsInv(data, sizes, ops[..n]);
      var y := Run(data, sizes, ops[..n]);
      match ops[n]
      case NextOp =>
        NextFromWithin(data, sizes, y, Scan(data, sizes, k));
        NextKeepsTail(data, sizes, y);
        ScanUnfolds(data, sizes, k);
      case ReadOp(i, m, d) =>
        ReadKeepsTail(data, sizes, y, i, m, d);
        ReadKeepsInv(data, sizes, y, i, m, d);
        ScanPosition(data, sizes, k);
    }
  }

  lemma {:induction false} InitialRun(data: seq<byte>, sizes: Sizes)
    ensures Scan(data, sizes, 0) == INITIAL && TailInv(data, INITIAL)
  {
  }

  lemma {:induction false} ScanUnfolds(data: seq<byte>, sizes: Sizes, k: nat)
    ensures Scan(data, sizes, k + 1) == Do(data, sizes, Scan(data, sizes, k), NextOp)
  {
  }

  // ---- a pair of schedules that differ -------------------------------------

  function Nexts(k: nat): (ops: seq<Op>)
    ensures |ops| == k
  {
    seq(k, _ => NextOp)
  }

  lemma {:induction false} RunOfNexts(data: seq<byte>, sizes: Sizes, k: nat)
    ensures Run(data, sizes, Nexts(k)) == Scan(data, sizes, k) && CountNext(Nexts(k)) == k
  {
    hide Do;
    if k > 0 {
      RunOfNexts(data, sizes, k - 1);
      assert Nexts(k)[..k - 1] == Nexts(k - 1);
    }
  }

  /** Later calls only add to the results. */
  lemma {:induction false} LogIsPrefix(data: seq<byte>, sizes: Sizes, a: seq<Op>, b: seq<Op>)
    ensures Run(data, sizes, a).log <= Run(data, sizes, a + b).log
    ensures CountNext(a + b) == CountNext(a) + CountNext(b)
    decreases |b|
  {
    hide NextEntry, AfterRead;
    if b == [] {
      assert a + b == a;
    } else {
      var n := |b| - 1;
      LogIsPrefix(data, sizes, a, b[..n]);
      assert (a + b)[..|a + b| - 1] == a + b[..n];
    }
  }

  lemma {:induction false} RunOfSnoc(data: seq<byte>, sizes: Sizes, a: seq<Op>, op: Op)
    ensures Run(data, sizes, a + [op]) == Do(data, sizes, Run(data, sizes, a), op)
    ensures CountNext(a + [op]) == CountNext(a) + if op.NextOp? then 1 else 0
  {
    hide Do;
    assert (a + [op])[..|a|] == a;
  }

  /** Reading the truncated contents to their end before the next call. */
  function ReadToEnd(data: seq<byte>, sizes: Sizes, j: nat): (ops: seq<Op>) {
    var s := Scan(data, sizes, j).streams;
    Nexts(j) + [ReadOp(if s == [] then 0 else |s| - 1, |data|, |data|)]
  }

  lemma {:induction false} ReadToEndReachesEnd(data: seq<byte>, sizes: Sizes, j: nat)
    requires Ambiguous(data, Scan(data, sizes, j))
    ensures var y := Run(data, sizes, ReadToEnd(data, sizes, j));
            && y.cur == Cursor(|data|, Scan(data, sizes, j).cur.next)
            && y.log == Scan(data, sizes, j).log
    ensures CountNext(ReadToEnd(data, sizes, j)) == j
  {
    hide Run, Scan;
    RunOfNexts(data, sizes, j);
    ScanPosition(data, sizes, j);
    var z := Scan(data, sizes, j);
    RunOfSnoc(data, sizes, Nexts(j), ReadOp(|z.streams| - 1, |data|, |data|));
  }

  /** With truncated contents at call j, that call reports EOF after reading to the end and UnexpectedEOF without. */
  lemma {:induction false} SchedulesDiffer(data: seq<byte>, sizes: Sizes, j: nat, k: nat) returns (ops: seq<Op>)
    requires j < k && Ambiguous(data, Scan(data, sizes, j))
    ensures CountNext(ops) == k && |Run(data, sizes, ops).log| == |Scan(data, sizes, k).log| == k
    ensures Run(data, sizes, ops).log[j] == Err(EOF) && Scan(data, sizes, k).log[j] == Err(UnexpectedEOF)
  {
    hide Run, Scan, NextEntry, Do, CountNext;
    var a := ReadToEnd(data, sizes, j);
    var z := Scan(data, sizes, j);
    ReadToEndReachesEnd(data, sizes, j);
    RunOfSnoc(data, sizes, a, NextOp);
    DoNext(data, sizes, Run(data, sizes, a));
    TruncationDependsOnReading(data, sizes, Cursor(|data|, z.cur.next));
    RunOfNexts(data, sizes, k - j - 1);
    ops := a + [NextOp] + Nexts(k - j - 1);
    LogIsPrefix(data, sizes, a + [NextOp], Nexts(k - j - 1));
    DoNext(data, sizes, z);
    ScanPosition(data, sizes, j);
    ScanUnfolds(data, sizes, j);
    TruncationDependsOnReading(data, sizes, z.cur);
    RunOfNexts(data, sizes, j + 1);
    RunOfNexts(data, sizes, k);
    JoinNexts(j + 1, k - j - 1);
    LogIsPrefix(data, sizes, Nexts(j + 1), Nexts(k - j - 1));
    RunFollowsScan(data, sizes, ops);
    ScanPosition(data, sizes, k);
  }

  lemma {:induction false} JoinNexts(a: nat, b: nat)
    ensures Nexts(a) + Nexts(b) == Nexts(a + b)
  {
  }

  /** All runs with k calls of Next get the same results from them. */
  ghost predicate Independent(data: seq<byte>, sizes: Sizes, k: nat) {
    forall ops: seq<Op> :: CountNext(ops) == k ==> Run(data, sizes, ops).log == Scan(data, sizes, k).log
  }

  /**
    The results of the first k calls of Next, errors included, are independent of
    the schedule if and only if no entry before them has its contents cut off by
    the end of the archive.
   */
  lemma {:induction false} IndependentIff(data: seq<byte>, sizes: Sizes, k: nat)
    ensures Independent(data, sizes, k) <==> Unambiguous(data, sizes, k)
  {
    hide Run, Scan, CountNext, Ambiguous;
    if Unambiguous(data, sizes, k) {
      forall ops: seq<Op> | CountNext(ops) == k
        ensures Run(data, sizes, ops).log == Scan(data, sizes, k).log
      {
        UnambiguousRun(data, sizes, ops);
      }
    } else {
      var j :| 0 <= j < k && Ambiguous(data, Scan(data, sizes, j));
      var ops := SchedulesDiffer(data, sizes, j, k);
    }
  }
}
