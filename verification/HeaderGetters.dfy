/** Access to header entries by type (header.go). */
module HeaderGetters {
  import opened Bytes
  import opened Outcomes
  import opened Header

  // ---- strings -------------------------------------------------------------

  /** strings.Split(s, "\x00") */
  function Split(s: seq<byte>): (r: seq<seq<byte>>)
    ensures |r| == CountNul(s) + 1
    decreases |s|
  {
    var i := IndexNul(s);
    if i < 0 then
      CountNulZero(s);
      [s]
    else
      CountNulSplit(s, i);
      [s[..i]] + Split(s[i + 1..])
  }

  /** The strings, each followed by a NUL. */
  function Terminated(r: seq<seq<byte>>): (s: seq<byte>) {
    if r == [] then [] else r[0] + [NUL] + Terminated(r[1..])
  }

  predicate NulFree(s: seq<byte>) { forall i :: 0 <= i < |s| ==> s[i] != 0 }

  predicate StringType(t: int) { t == STRING_TYPE || t == STRING_ARRAY_TYPE || t == I18NSTRING_TYPE }

  /**
    GetStrings for a tag that is present or has no special handling; a slice
    bound outside of the split panics.
   */
  function GetStrings(m: Entries, tag: int): (r: Outcome<seq<seq<byte>>>) {
    if tag !in m then Err(NoSuchTag(tag))
    else
      var e := m[tag];
      if !StringType(e.dataType) then Err(WrongType)
      else
        var strs := Split(e.contents);
        if 0 <= e.count <= |strs| then Ok(strs[..e.count]) else Panic
  }

  /** All but the last part of a split, terminated again, are the text up to its last NUL. */
  lemma {:induction false} SplitInverse(s: seq<byte>)
    requires s == [] || s[|s| - 1] == 0
    ensures Terminated(Split(s)[..|Split(s)| - 1]) == s
    decreases |s|
  {
    hide IndexNul, Terminated, CountNul, Split;
    var i := IndexNul(s);
    if i >= 0 {
      SplitUnfolds(s);
      SplitInverse(s[i + 1..]);
      SplitStep(s[..i], Split(s[i + 1..]));
      CutAtNul(s, i);
    } else {
      assert s == [];
      SplitUnfolds(s);
      TerminatedNone();
    }
  }

  lemma {:induction false} CutAtNul(s: seq<byte>, i: nat)
    requires i < |s| && s[i] == 0
    ensures s == s[..i] + [NUL] + s[i + 1..]
  {
  }

  lemma {:induction false} SplitUnfolds(s: seq<byte>)
    ensures var i := IndexNul(s);
            Split(s) == if i < 0 then [s] else [s[..i]] + Split(s[i + 1..])
  {
  }

  lemma {:induction false} PartsAreNulFree(s: seq<byte>)
    ensures forall k :: 0 <= k < |Split(s)| ==> NulFree(Split(s)[k])
    decreases |s|
  {
    hide IndexNul, CountNul;
    var i := IndexNul(s);
    if i >= 0 {
      PartsAreNulFree(s[i + 1..]);
    }
  }

  lemma {:induction false} TerminatedNone()
    ensures Terminated([[]][..0]) == []
  {
  }

  lemma {:induction false} SplitStep(x: seq<byte>, q: seq<seq<byte>>)
    requires q != []
    ensures Terminated(([x] + q)[..|q|]) == x + [NUL] + Terminated(q[..|q| - 1])
  {
    var r := ([x] + q)[..|q|];
    assert r == [x] + q[..|q| - 1];
    assert r[1..] == q[..|q| - 1];
  }

  /**
    For every entry a reader can produce with a count that is not negative,
    GetStrings returns exactly `count` NUL-free strings, and terminating them
    gives back the contents; a negative count panics.
   */
  lemma {:induction false} GetStringsOfRead(m: Entries, tag: int)
    requires tag in m && WellFormedEntry(m[tag]) && StringType(m[tag].dataType)
    ensures m[tag].count < 0 ==> GetStrings(m, tag) == Panic
    ensures m[tag].count >= 0 ==>
      var r := GetStrings(m, tag);
      && r.Ok? && |r.value| == m[tag].count && Terminated(r.value) == m[tag].contents
      && forall k :: 0 <= k < |r.value| ==> NulFree(r.value[k])
  {
    if m[tag].count >= 0 {
      SplitInverse(m[tag].contents);
      PartsAreNulFree(m[tag].contents);
    }
  }

  // ---- bytes ---------------------------------------------------------------

  function GetBytes(m: Entries, tag: int): (r: Outcome<seq<byte>>) {
    if tag !in m then Err(NoSuchTag(tag))
    else if m[tag].dataType != BIN_TYPE then Err(WrongType)
    else Ok(m[tag].contents)
  }

  // ---- integers ------------------------------------------------------------

  predicate IntType(t: int) { 1 <= t <= 5 }

  /** The values of an integer array: elements of w big-endian bytes; a remainder is dropped. */
  function DecodeInts(s: seq<byte>, w: nat): (r: seq<nat>)
    requires w > 0
    ensures forall i :: 0 <= i < |r| ==> r[i] < Pow256(w)
  {
    if |s| < w then []
    else
      PutOfGet(s[..w]);
      [GetBE(s[..w])] + DecodeInts(s[w..], w)
  }

  function EncodeInts(v: seq<nat>, w: nat): (s: seq<byte>)
    ensures |s| == w * |v|
  {
    if v == [] then [] else PutBE(w, v[0]) + EncodeInts(v[1..], w)
  }

  datatype Ints = Ints(width: nat, values: seq<nat>)

  function GetRawInts(m: Entries, tag: int): (r: Outcome<Ints>)
    ensures r.Ok? ==> r.value.width in {1, 2, 4, 8}
  {
    if tag !in m then Err(NoSuchTag(tag))
    else if !IntType(m[tag].dataType) then Err(WrongType)
    else
      var w := TypeSize(m[tag].dataType);
      Ok(Ints(w, DecodeInts(m[tag].contents, w)))
  }

  /** GetInts: 32-bit values must be below 2^31, 64-bit arrays are refused. */
  method GetInts(m: Entries, tag: int) returns (r: Outcome<seq<nat>>)
    ensures GetRawInts(m, tag).IsFailure() ==> r == GetRawInts(m, tag).PropagateFailure()
    ensures GetRawInts(m, tag).Ok? ==>
      var v := GetRawInts(m, tag).value;
      var fits := v.width <= 2 || (v.width == 4 && forall i :: 0 <= i < |v.values| ==> v.values[i] < TWO_TO_31);
      r == if fits then Ok(v.values) else Err(WrongType)
  {
    var b := GetRawInts(m, tag);
    if b.IsFailure() {
      return b.PropagateFailure();
    }
    var bvals, out := b.value.values, [];
    if b.value.width == 8 {
      return Err(WrongType);
    }
    var i := 0;
    while i < |bvals|
      invariant 0 <= i <= |bvals| && out == bvals[..i]
      invariant b.value.width == 4 ==> forall k :: 0 <= k < i ==> bvals[k] < TWO_TO_31
    {
      if b.value.width == 4 && bvals[i] > TWO_TO_31 - 1 {
        return Err(WrongType);
      }
      out := out + [bvals[i]];
      i := i + 1;
    }
    assert bvals[..|bvals|] == bvals;
    return Ok(out);
  }

  /** GetUint32s: everything but 64-bit arrays. */
  function GetUint32s(m: Entries, tag: int): (r: Outcome<seq<nat>>) {
    var v :- GetRawInts(m, tag);
    if v.width == 8 then Err(WrongType) else Ok(v.values)
  }

  function GetUint64s(m: Entries, tag: int): (r: Outcome<seq<nat>>) {
    var v :- GetRawInts(m, tag);
    Ok(v.values)
  }

  lemma {:induction false} DecodeInverse(s: seq<byte>, w: nat, n: nat)
    requires w > 0 && |s| == w * n
    ensures |DecodeInts(s, w)| == n && EncodeInts(DecodeInts(s, w), w) == s
    decreases n
  {
    if n > 0 {
      assert w * n == w + w * (n - 1);
      DecodeInverse(s[w..], w, n - 1);
      PutOfGet(s[..w]);
      assert s == s[..w] + s[w..];
    } else {
      assert w * n == 0;
    }
  }

  /**
    Every integer entry a reader can produce decodes to exactly `count` values
    of its width, and these encode to the contents again.
   */
  lemma {:induction false} GetIntsOfRead(m: Entries, tag: int)
    requires tag in m && WellFormedEntry(m[tag]) && IntType(m[tag].dataType)
    ensures var r := GetRawInts(m, tag);
            && r.Ok? && |r.value.values| == m[tag].count
            && EncodeInts(r.value.values, r.value.width) == m[tag].contents
            && GetUint64s(m, tag) == Ok(r.value.values)
  {
    DecodeInverse(m[tag].contents, TypeSize(m[tag].dataType), m[tag].count);
  }

  lemma {:induction false} DecodeOfEncode(v: seq<nat>, w: nat)
    requires w > 0 && forall i :: 0 <= i < |v| ==> v[i] < Pow256(w)
    ensures DecodeInts(EncodeInts(v, w), w) == v
  {
    if v != [] {
      var s := EncodeInts(v, w);
      assert w * |v| == w + w * (|v| - 1);
      DecodeOfEncode(v[1..], w);
      GetOfPut(w, v[0]);
      assert s[..w] == PutBE(w, v[0]) && s[w..] == EncodeInts(v[1..], w);
    }
  }

  /**
    Integer entries hold big-endian elements of 1, 1, 2, 4 or 8 bytes for CHAR,
    INT8, INT16, INT32 and INT64: values that were encoded at this width are what
    the getters return.
   */
  lemma {:induction false} IntsAreDecoded(m: Entries, tag: int, v: seq<nat>, w: nat)
    requires tag in m && (m[tag].dataType as int, w) in {(1, 1), (2, 1), (3, 2), (4, 4), (5, 8)}
    requires m[tag].contents == EncodeInts(v, w) && forall i :: 0 <= i < |v| ==> v[i] < Pow256(w)
    ensures GetUint64s(m, tag) == Ok(v)
    ensures GetUint32s(m, tag) == if w <= 4 then Ok(v) else Err(WrongType)
  {
    hide DecodeInts, EncodeInts, Pow256;
    DecodeOfEncode(v, w);
  }

  /** Which getter accepts an entry: strings have type 6, 8 or 9, bytes 7 and integers 1 to 5. */
  lemma {:induction false} GettersByType(m: Entries, tag: int)
    ensures tag !in m ==>
      GetStrings(m, tag) == Err(NoSuchTag(tag)) && GetBytes(m, tag) == Err(NoSuchTag(tag))
      && GetUint64s(m, tag) == GetUint32s(m, tag) == Err(NoSuchTag(tag))
    ensures tag in m ==>
      var t := m[tag].dataType;
      && (GetStrings(m, tag) == Err(WrongType) <==> t !in {6, 8, 9})
      && (GetBytes(m, tag) == if t == 7 then Ok(m[tag].contents) else Err(WrongType))
      && (GetUint64s(m, tag) == Err(WrongType) <==> t !in {1, 2, 3, 4, 5})
      && (GetUint32s(m, tag) == Err(WrongType) <==> t !in {1, 2, 3, 4})
  {
    hide DecodeInts, Split;
  }
}
