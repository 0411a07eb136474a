/**
  The cpio header formats (cpio/header.go): "newc", the New ASCII Format of
  cpio(5), and the stripped variant whose entries name a file by its index.
 */
module CpioFormat {
  import opened Bytes
  import opened Outcomes
  import opened Streams

  const NEWC_HEADER_LENGTH := 110
  const STRIPPED_HEADER_LENGTH := 14
  /** "070701" */
  const NEWC_MAGIC: seq<byte> := [48, 55, 48, 55, 48, 49]
  /** "07070X" */
  const STRIPPED_MAGIC: seq<byte> := [48, 55, 48, 55, 48, 88]
  /** "TRAILER!!!" */
  const TRAILER: seq<byte> := [84, 82, 65, 73, 76, 69, 82, 33, 33, 33]

  /** Cpio_newc_header */
  datatype CpioHeader = CpioHeader(
    magic: seq<byte>, ino: int, mode: int, uid: int, gid: int, nlink: int, mtime: int, filesize: int, devmajor: int,
    devminor: int, rdevmajor: int, rdevminor: int, namesize: int, check: int,
    stripped: bool, filename: seq<byte>, index: int, size64: int)

  // ---- numbers -------------------------------------------------------------

  predicate IsHexDigit(b: byte) { 48 <= b <= 57 || 65 <= b <= 70 || 97 <= b <= 102 }

  function HexValue(b: byte): (d: nat)
    requires IsHexDigit(b)
    ensures d < 16
  {
    if b <= 57 then b - 48 else if b <= 70 then b - 55 else b - 87
  }

  predicate AllHex(s: seq<byte>) { forall i :: 0 <= i < |s| ==> IsHexDigit(s[i]) }

  function HexNumber(s: seq<byte>): (n: nat)
    requires AllHex(s)
  {
    if s == [] then 0 else HexNumber(s[..|s| - 1]) * 16 + HexValue(s[|s| - 1])
  }

  function ParseDigits(s: seq<byte>): (r: Outcome<int>) {
    if s != [] && AllHex(s) then Ok(HexNumber(s)) else Err(BadNumber)
  }

  /** strconv.ParseInt(s, 16, 0) for short strings: a sign is accepted. */
  function ParseHex(s: seq<byte>): (r: Outcome<int>) {
    if s != [] && s[0] == 43 then ParseDigits(s[1..])
    else if s != [] && s[0] == 45 then
      var n :- ParseDigits(s[1..]);
      Ok(-n)
    else ParseDigits(s)
  }

  // ---- headers -------------------------------------------------------------

  /** binaryReader.Read16 */
  function Read16At(data: seq<byte>, pos: nat): (r: At<int>)
    requires pos <= |data|
    ensures pos <= r.pos <= |data|
    ensures r.out.Ok? ==> r.pos == pos + 8
  {
    var b := FullAt(data, pos, 8);
    if b.out.IsFailure() then At(b.out.PropagateFailure(), b.pos) else At(ParseHex(b.out.value), b.pos)
  }

  /** k numbers in a row. */
  function NumbersAt(data: seq<byte>, pos: nat, k: nat): (r: At<seq<int>>)
    requires pos <= |data|
    ensures pos <= r.pos <= |data|
    ensures r.out.Ok? ==> |r.out.value| == k && r.pos == pos + 8 * k
  {
    if k == 0 then At(Ok([]), pos)
    else
      var p := NumbersAt(data, pos, k - 1);
      if p.out.IsFailure() then p
      else
        var n := Read16At(data, p.pos);
        At(if n.out.Ok? then Ok(p.out.value + [n.out.value]) else n.out.PropagateFailure(), n.pos)
  }

  /** The 13 numbers of a newc header in their order. */
  function NewcHeader(f: seq<int>): (h: CpioHeader)
    requires |f| == 13
  {
    CpioHeader(NEWC_MAGIC, f[0], f[1], f[2], f[3], f[4], f[5], f[6], f[7], f[8], f[9], f[10], f[11], f[12],
               false, [], 0, f[6])
  }

  /** The size of a stripped entry is not in its header; size64 stays 0. */
  function StrippedHeader(index: int): (h: CpioHeader) {
    CpioHeader(STRIPPED_MAGIC, 0, 0, 0, 0, 0, 0, 0, 0, 0, 0, 0, 0, 0, true, [], index, 0)
  }

  /** readHeader at position pos. */
  function HeaderAt(data: seq<byte>, pos: nat): (r: At<CpioHeader>)
    requires pos <= |data|
    ensures pos <= r.pos <= |data|
    ensures r.out.Ok? ==>
      r.pos == pos + if r.out.value.stripped then STRIPPED_HEADER_LENGTH else NEWC_HEADER_LENGTH
  {
    var m := FullAt(data, pos, 6);
    if m.out.IsFailure() then At(m.out.PropagateFailure(), m.pos)
    else if m.out.value == STRIPPED_MAGIC then
      var n := Read16At(data, m.pos);
      At(if n.out.Ok? then Ok(StrippedHeader(n.out.value)) else n.out.PropagateFailure(), n.pos)
    else if m.out.value != NEWC_MAGIC then At(Err(BadMagic), m.pos)
    else
      var f := NumbersAt(data, m.pos, 13);
      At(if f.out.Ok? then Ok(NewcHeader(f.out.value)) else f.out.PropagateFailure(), f.pos)
  }

  // ---- padding -------------------------------------------------------------

  /** The remainder of Go, which has the sign of the dividend. */
  function Rem(a: int, b: int): (r: int)
    requires b > 0
    ensures a >= 0 ==> r == a % b
  {
    if a >= 0 then a % b else -((-a) % b)
  }

  /** pad and pad64: the next multiple of 4; below -3 the remainder of Go is negative, and n + 3 is rounded up. */
  function Pad(n: int): (p: int)
    ensures p % 4 == 0 && if n >= -3 then n <= p < n + 4 else n + 3 <= p < n + 7
  {
    PadsUp(n);
    n + 3 - Rem(n + 3, 4)
  }

  lemma {:induction false} PadsUp(n: int)
    ensures (n + 3 - Rem(n + 3, 4)) % 4 == 0
  {
    if n + 3 >= 0 {
      MultipleOf4((n + 3) / 4);
      assert n + 3 - (n + 3) % 4 == 4 * ((n + 3) / 4);
    } else {
      MultipleOf4(-(-(n + 3) / 4));
      assert n + 3 + -(n + 3) % 4 == 4 * -(-(n + 3) / 4);
    }
  }

  // ---- the format in characters --------------------------------------------

  predicate Is(s: seq<byte>, text: string) { |s| == |text| && forall i :: 0 <= i < |s| ==> s[i] as char == text[i] }

  lemma {:induction false} FormatStrings()
    ensures Is(NEWC_MAGIC, "070701") && Is(STRIPPED_MAGIC, "07070X") && Is(TRAILER, "TRAILER!!!")
  {
  }

  /** Hexadecimal digits of either case. */
  lemma {:induction false} HexCharacters(b: byte, d: nat)
    requires d < 16
    ensures IsHexDigit(b) && HexValue(b) == d <==>
      b as char == "0123456789abcdef"[d] || b as char == "0123456789ABCDEF"[d]
  {
  }

  /** A number may have a sign; without digits there is none. */
  lemma {:induction false} SignedNumbers(s: seq<byte>)
    ensures s != [] && AllHex(s) ==>
      && ParseHex(s) == Ok(HexNumber(s)) == ParseHex([43] + s)
      && ParseHex([45] + s).Ok? && ParseHex([45] + s).value == -(HexNumber(s) as int)
    ensures s == [] || (!AllHex(s) && s[0] as char !in {'+', '-'}) ==>
      ParseHex(s) == ParseHex([43] + s) == ParseHex([45] + s) == Err(BadNumber)
  {
    hide HexNumber;
    assert ([43] + s)[1..] == s && ([45] + s)[1..] == s;
  }

  /** The i-th of the numbers that were read. */
  lemma {:induction false} NumberLies(data: seq<byte>, pos: nat, k: nat, i: nat)
    requires pos <= |data| && i < k && NumbersAt(data, pos, k).out.Ok?
    ensures pos + 8 * k <= |data|
    ensures ParseHex(data[pos + 8 * i..pos + 8 * i + 8]) == Ok(NumbersAt(data, pos, k).out.value[i])
    decreases k
  {
    hide ParseHex;
    if i < k - 1 {
      NumberLies(data, pos, k - 1, i);
    }
  }

  /** The number in the eight characters from o on. */
  predicate Field(data: seq<byte>, o: nat, n: int) {
    o + 8 <= |data| && ParseHex(data[o..o + 8]) == Ok(n)
  }

  /** The 13 fields of a newc header in the order of the format, eight characters each. */
  function FieldsInOrder(h: CpioHeader): (f: seq<int>)
    ensures |f| == 13
  {
    [h.ino, h.mode, h.uid, h.gid, h.nlink, h.mtime, h.filesize, h.devmajor, h.devminor, h.rdevmajor, h.rdevminor,
     h.namesize, h.check]
  }

  /** Where a newc header has its fields. */
  lemma {:induction false} NewcFields(data: seq<byte>, pos: nat)
    requires pos <= |data| && HeaderAt(data, pos).out.Ok? && !HeaderAt(data, pos).out.value.stripped
    ensures var h := HeaderAt(data, pos).out.value;
            && pos + 110 <= |data| && Is(data[pos..pos + 6], "070701")
            && (forall i :: 0 <= i < 13 ==> Field(data, pos + 6 + 8 * i, FieldsInOrder(h)[i]))
            && h.size64 == h.filesize
  {
    hide NumbersAt, Read16At, ParseHex, Is, Field;
    FormatStrings();
    var h, f := HeaderAt(data, pos).out.value, NumbersAt(data, pos + 6, 13).out.value;
    assert FieldsInOrder(h) == f;
    forall i | 0 <= i < 13
      ensures Field(data, pos + 6 + 8 * i, FieldsInOrder(h)[i])
    {
      NumberIsField(data, pos + 6, i);
    }
  }

  lemma {:induction false} NumberIsField(data: seq<byte>, pos: nat, i: nat)
    requires pos <= |data| && i < 13 && NumbersAt(data, pos, 13).out.Ok?
    ensures pos + 104 <= |data| && Field(data, pos + 8 * i, NumbersAt(data, pos, 13).out.value[i])
  {
    hide NumbersAt, ParseHex;
    NumberLies(data, pos, 13, i);
  }

  /** Where a stripped header has its index. */
  lemma {:induction false} StrippedFields(data: seq<byte>, pos: nat)
    requires pos <= |data| && HeaderAt(data, pos).out.Ok? && HeaderAt(data, pos).out.value.stripped
    ensures var h := HeaderAt(data, pos).out.value;
            pos + 14 <= |data| && Is(data[pos..pos + 6], "07070X") && Field(data, pos + 6, h.index)
  {
    hide NumbersAt, ParseHex, Is;
    FormatStrings();
  }

  /** Anything else in front of a header is a bad magic. */
  lemma {:induction false} BadMagicIff(data: seq<byte>, pos: nat)
    requires pos + 6 <= |data|
    ensures HeaderAt(data, pos) == At(Err(BadMagic), pos + 6) <==>
      !Is(data[pos..pos + 6], "070701") && !Is(data[pos..pos + 6], "07070X")
  {
    hide NumbersAt, ParseHex;
    SameText(data[pos..pos + 6], NEWC_MAGIC, "070701");
    SameText(data[pos..pos + 6], STRIPPED_MAGIC, "07070X");
    FormatStrings();
    NumbersFailOtherwise(data, pos + 6, 13);
  }

  lemma {:induction false} SameText(s: seq<byte>, t: seq<byte>, text: string)
    requires Is(t, text)
    ensures Is(s, text) <==> s == t
  {
    if Is(s, text) {
      forall i | 0 <= i < |s| ensures s[i] == t[i] {
        assert s[i] as char == t[i] as char;
      }
    }
  }

  lemma {:induction false} NumbersFailOtherwise(data: seq<byte>, pos: nat, k: nat)
    requires pos <= |data|
    ensures NumbersAt(data, pos, k).out != Err(BadMagic)
    ensures Read16At(data, pos).out != Err(BadMagic)
    decreases k
  {
    if k > 0 {
      NumbersFailOtherwise(data, pos, k - 1);
      var p := NumbersAt(data, pos, k - 1);
      if p.out.Ok? {
        NumbersFailOtherwise(data, p.pos, 0);
      }
    }
  }
}
