/**
  Byte streams as io.Reader sees them: a call delivers any number of the bytes
  asked for. How many is decided by a schedule the consumer does not control.
 */
module Streams {
  import opened Bytes
  import opened Outcomes

  /** The outcome of an operation on a stream together with the position it leaves behind. */
  datatype At<+T> = At(out: Outcome<T>, pos: nat)

  /** io.ReadFull for n bytes at position pos. */
  function FullAt(data: seq<byte>, pos: nat, n: nat): (r: At<seq<byte>>)
    requires pos <= |data|
    ensures pos <= r.pos <= |data|
    ensures r.out.Ok? ==> |r.out.value| == n && r.pos == pos + n
  {
    if pos + n <= |data| then At(Ok(data[pos..pos + n]), pos + n)
    else At(Err(if pos == |data| then EOF else UnexpectedEOF), |data|)
  }

  /** How many bytes the next call may deliver, of n asked for. */
  function Willing(limits: seq<nat>, n: nat): (k: nat) {
    if limits == [] then n else limits[0]
  }

  function Least(a: nat, b: nat): (m: nat)
    ensures m <= a && m <= b && (m == a || m == b)
  {
    if a <= b then a else b
  }

  class Source {
    const data: seq<byte>
    var pos: nat
    /** Upper bounds for the next calls of Read; 0 is a call that delivers nothing. */
    var limits: seq<nat>
    /** Whether the end is reported together with the last bytes. */
    const eager: bool

    ghost predicate Valid()
      reads this
    {
      pos <= |data|
    }

    constructor (data: seq<byte>, limits: seq<nat>, eager: bool)
      ensures Valid() && this.data == data && pos == 0 && this.limits == limits && this.eager == eager
    {
      this.data := data;
      this.pos := 0;
      this.limits := limits;
      this.eager := eager;
    }

    method Read(n: nat) returns (b: seq<byte>, err: Option<Error>)
      requires Valid()
      modifies this
      ensures Valid()
      ensures |b| <= n && pos == old(pos) + |b| && b == data[old(pos)..pos]
      ensures |b| == Least(Least(n, |data| - old(pos)), Willing(old(limits), n))
      ensures err == if (old(pos) == |data| && n > 0) || (eager && pos == |data|) then Some(EOF) else None
      ensures limits == if old(limits) == [] then [] else old(limits)[1..]
    {
      var k := if n <= |data| - pos then n else |data| - pos;
      var atEnd := pos == |data| && n > 0;
      if limits != [] {
        k := if limits[0] < k then limits[0] else k;
        limits := limits[1..];
      }
      b := data[pos..pos + k];
      pos := pos + k;
      err := if atEnd || (eager && pos == |data|) then Some(EOF) else None;
    }

    /** io.ReadFull: the schedule of short reads does not show. */
    method ReadFull(n: nat) returns (b: Outcome<seq<byte>>)
      requires Valid()
      modifies this
      ensures Valid() && At(b, pos) == FullAt(data, old(pos), n)
    {
      var got: seq<byte> := [];
      var err: Option<Error> := None;
      while |got| < n && err.None?
        invariant Valid() && |got| <= n && pos == old(pos) + |got| && got == data[old(pos)..pos]
        invariant err.Some? ==> pos == |data|
        decreases n - |got|, |limits|, err.None?
      {
        var chunk;
        chunk, err := Read(n - |got|);
        got := got + chunk;
      }
      if |got| >= n {
        b := Ok(got);
      } else if |got| > 0 {
        b := Err(UnexpectedEOF);
      } else {
        b := Err(EOF);
      }
    }
  }
}
