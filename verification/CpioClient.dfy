/** A client of the reader objects: any list of calls on a stream and its entries is a run of the state machine. */
module CpioClient {
  import opened Outcomes
  import opened Streams
  import opened CpioMachine
  import opened CpioReader

  /** A call of ReadNextEntry, or of Read on the i-th entry returned so far. */
  datatype Call = CallNext | CallRead(i: nat, n: nat)

  /** The same call, with the number of bytes the reader is willing to deliver left open. */
  predicate Performs(op: Op, call: Call) {
    match call
    case CallNext => op.NextOp?
    case CallRead(i, n) => op.ReadOp? && op.i == i && op.n == n
  }

  predicate Reports(e: Outcome<CpioEntry>, r: Outcome<Entry>) {
    if r.Ok? then e.Ok? && e.value.header == r.value.header else e == r.PropagateFailure()
  }

  ghost predicate AllReport(log: seq<Outcome<CpioEntry>>, results: seq<Outcome<Entry>>) {
    |log| == |results| && forall t :: 0 <= t < |log| ==> Reports(log[t], results[t])
  }

  /** The objects hold the state y: the position, and one stream of its own for every entry. */
  ghost predicate Simulates(c: CpioStream, files: seq<FileStream>, y: Sys)
    reads c, c.stream, c.stream.stream, files
  {
    && c.Valid() && c.Position() == y.cur && |files| == |y.streams|
    && (forall i :: 0 <= i < |files| ==> files[i].stream == c.stream && files[i].Value() == y.streams[i])
    && (forall i, j :: 0 <= i < j < |files| ==> files[i] != files[j])
  }

  /** The streams of the entries that were returned, in their order. */
  function Payloads(log: seq<Outcome<CpioEntry>>): (files: seq<FileStream>) {
    if log == [] then []
    else
      var init, e := Payloads(log[..|log| - 1]), log[|log| - 1];
      if e.Ok? then init + [e.value.payload] else init
  }

  method PerformNext(c: CpioStream, files: seq<FileStream>, ghost y: Sys)
    returns (e: Outcome<CpioEntry>, files': seq<FileStream>)
    requires y.cur.pos <= |c.stream.stream.data| && Simulates(c, files, y)
    modifies c, c.stream, c.stream.stream
    ensures files' == if e.Ok? then files + [e.value.payload] else files
    ensures e.Ok? ==> fresh(e.value.payload)
    ensures var z := Do(c.stream.stream.data, c.sizes, y, NextOp);
            Simulates(c, files', z) && |z.log| == |y.log| + 1 && y.log <= z.log && Reports(e, Last(z.log))
  {
    hide NextEntry;
    e := c.ReadNextEntry();
    files' := if e.Ok? then files + [e.value.payload] else files;
  }

  method PerformRead(c: CpioStream, i: nat, n: nat, files: seq<FileStream>, ghost y: Sys) returns (ghost op: Op)
    requires y.cur.pos <= |c.stream.stream.data| && Simulates(c, files, y)
    modifies c.stream, c.stream.stream, files
    ensures Performs(op, CallRead(i, n))
    ensures var z := Do(c.stream.stream.data, c.sizes, y, op); Simulates(c, files, z) && z.log == y.log
  {
    op := ReadOp(i, n, Willing(c.stream.stream.limits, n));
    if i < |files| {
      var b, err := files[i].Read(n);
    }
  }

  /**
    Any list of calls on a new stream and the entries it returns, whatever the
    underlying reader delivers at a time, leaves the objects in the state of a run
    that performs these calls.
   */
  method PerformAll(c: CpioStream, calls: seq<Call>)
    returns (files: seq<FileStream>, log: seq<Outcome<CpioEntry>>, ghost ops: seq<Op>)
    requires c.Valid() && c.Position() == Cursor(0, 0)
    modifies c, c.stream, c.stream.stream
    ensures |ops| == |calls| && forall t :: 0 <= t < |calls| ==> Performs(ops[t], calls[t])
    ensures files == Payloads(log)
    ensures var y := Run(c.stream.stream.data, c.sizes, ops); Simulates(c, files, y) && AllReport(log, y.log)
  {
    hide Do, Simulates, Performs, Reports, Payloads;
    files, log, ops := [], [], [];
    NothingPerformed(c);
    for t := 0 to |calls|
      invariant |ops| == t && forall u :: 0 <= u < t ==> Performs(ops[u], calls[u])
      invariant files == Payloads(log) && forall i :: 0 <= i < |files| ==> fresh(files[i])
      invariant var y := Run(c.stream.stream.data, c.sizes, ops); Simulates(c, files, y) && AllReport(log, y.log)
    {
      ghost var y, op := Run(c.stream.stream.data, c.sizes, ops), NextOp;
      match calls[t] {
        case CallNext =>
          var e;
          e, files := PerformNext(c, files, y);
          PayloadsOfSnoc(log, e);
          log := log + [e];
          NextPerforms();
        case CallRead(i, n) =>
          op := PerformRead(c, i, n, files, y);
      }
      assert (ops + [op])[..t] == ops;
      ops := ops + [op];
    }
  }

  lemma {:induction false} NothingPerformed(c: CpioStream)
    requires c.Valid() && c.Position() == Cursor(0, 0)
    ensures Simulates(c, [], Run(c.stream.stream.data, c.sizes, [])) && AllReport([], []) && Payloads([]) == []
  {
  }

  lemma {:induction false} PayloadsOfSnoc(log: seq<Outcome<CpioEntry>>, e: Outcome<CpioEntry>)
    ensures Payloads(log + [e]) == if e.Ok? then Payloads(log) + [e.value.payload] else Payloads(log)
  {
    assert (log + [e])[..|log|] == log;
  }

  lemma {:induction false} NextPerforms()
    ensures Performs(NextOp, CallNext)
  {
  }
}
