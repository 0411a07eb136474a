/** Bytes, big-endian numbers and the two's complement widths the file formats use. */
module Bytes {

  type byte = b: int | 0 <= b < 256
  type int32 = i: int | -0x8000_0000 <= i < 0x8000_0000

  const TWO_TO_31 := 0x8000_0000
  const TWO_TO_32 := 0x1_0000_0000
  const NUL: byte := 0

  function Zeros(n: nat): (s: seq<byte>)
    ensures |s| == n
  {
    seq(n, _ => NUL)
  }

  lemma SliceOfSuffix(s: seq<byte>, p: nat, i: nat, j: nat)
    requires p + j <= |s| && i <= j
    ensures s[p..][i..j] == s[p + i..p + j]
  {
  }

  /** Adjacent slices join. */
  lemma JoinSlices(s: seq<byte>, i: nat, j: nat, k: nat)
    requires i <= j <= k <= |s|
    ensures s[i..j] + s[j..k] == s[i..k]
  {
  }

  /** Regrouping of concatenations. */
  lemma Regroup(o: seq<byte>, a: seq<byte>, b: seq<byte>, c: seq<byte>, d: seq<byte>, e: seq<byte>)
    ensures o + a + b + c + d + e == o + (a + b + c + d + e)
    ensures a + b + c + d + e == a + (b + c) + (d + e)
  {
    assert o + a + b + c + d + e == o + (a + b + c + d + e);
    assert a + b + c + d + e == a + (b + c) + (d + e);
  }

  lemma {:induction false} MultipleOf2(q: int) ensures 2 * q % 2 == 0 {}

  lemma {:induction false} MultipleOf4(q: int) ensures 4 * q % 4 == 0 {}

  lemma {:induction false} MultipleOf8(q: int) ensures 8 * q % 8 == 0 {}

  /** Rounding up to the next multiple of 2, 4 or 8. */
  lemma RoundsUp(n: nat)
    ensures (n + (2 - n % 2)) % 2 == 0
    ensures (n + (4 - n % 4)) % 4 == 0
    ensures (n + (8 - n % 8)) % 8 == 0
  {
    MultipleOf2(n / 2 + 1);
    MultipleOf4(n / 4 + 1);
    MultipleOf8(n / 8 + 1);
    assert n + (2 - n % 2) == 2 * (n / 2 + 1);
    assert n + (4 - n % 4) == 4 * (n / 4 + 1);
    assert n + (8 - n % 8) == 8 * (n / 8 + 1);
  }

  lemma {:induction false} SameModulo4(n: nat, q: nat)
    ensures (n + 4 * q) % 4 == n % 4
  {
  }

  /** The lower-case hexadecimal digit. */
  function HexDigit(d: nat): (b: byte)
    requires d < 16
  {
    if d < 10 then 48 + d else 87 + d
  }

  /** 256 to the n-th power. */
  function Pow256(n: nat): (p: nat)
    ensures p > 0
  {
    if n == 0 then 1 else 256 * Pow256(n - 1)
  }

  /** The low n bytes of v, most significant first. */
  function PutBE(n: nat, v: nat): (s: seq<byte>)
    ensures |s| == n
  {
    if n == 0 then [] else PutBE(n - 1, v / 256) + [v % 256]
  }

  function GetBE(s: seq<byte>): (v: nat) {
    if s == [] then 0 else GetBE(s[..|s| - 1]) * 256 + s[|s| - 1]
  }

  lemma {:induction false} GetOfPut(n: nat, v: nat)
    requires v < Pow256(n)
    ensures GetBE(PutBE(n, v)) == v
  {
    if n > 0 {
      GetOfPut(n - 1, v / 256);
      assert PutBE(n, v)[..n - 1] == PutBE(n - 1, v / 256);
    }
  }

  lemma {:induction false} PutOfGet(s: seq<byte>)
    ensures GetBE(s) < Pow256(|s|)
    ensures PutBE(|s|, GetBE(s)) == s
  {
    if s != [] {
      PutOfGet(s[..|s| - 1]);
    }
  }

  /** The 32-bit pattern of x. */
  function U32(x: int): (u: nat)
    ensures u < TWO_TO_32
  {
    x % TWO_TO_32
  }

  /** A 32-bit pattern read as a signed number. */
  function Signed32(u: nat): (x: int32)
    requires u < TWO_TO_32
  {
    if u < TWO_TO_31 then u else u - TWO_TO_32
  }

  /** Conversion to int32, which drops the high bits. */
  function Wrap32(x: int): (r: int32)
    ensures -TWO_TO_31 <= x < TWO_TO_31 ==> r == x
  {
    Signed32(U32(x))
  }

  function Put32(x: int): (s: seq<byte>)
    ensures |s| == 4
  {
    PutBE(4, U32(x))
  }

  function GetU32(s: seq<byte>): (u: nat)
    requires |s| == 4
    ensures u < TWO_TO_32
  {
    PutOfGet(s);
    assert Pow256(4) == TWO_TO_32 by { Pow256Of4(); }
    GetBE(s)
  }

  function Get32(s: seq<byte>): (x: int32)
    requires |s| == 4
  {
    Signed32(GetU32(s))
  }

  lemma Pow256Of4()
    ensures Pow256(4) == TWO_TO_32
  {
    assert Pow256(2) == 65536;
  }

  lemma Get32OfPut32(x: int)
    ensures GetU32(Put32(x)) == U32(x)
    ensures Get32(Put32(x)) == Wrap32(x)
  {
    Pow256Of4();
    GetOfPut(4, U32(x));
  }

  lemma {:induction false} PutFour(u: nat)
    ensures PutBE(4, u) == [u / 256 / 256 / 256 % 256, u / 256 / 256 % 256, u / 256 % 256, u % 256]
  {
    assert PutBE(0, u / 256 / 256 / 256 / 256) == [];
    assert PutBE(1, u / 256 / 256 / 256) == [u / 256 / 256 / 256 % 256];
    assert PutBE(2, u / 256 / 256) == [u / 256 / 256 / 256 % 256, u / 256 / 256 % 256];
    assert PutBE(3, u / 256) == [u / 256 / 256 / 256 % 256, u / 256 / 256 % 256, u / 256 % 256];
  }

  lemma {:induction false} DivideTwice(u: nat)
    requires u < TWO_TO_32
    ensures u / 256 / 256 == u / 0x1_0000 && u / 256 / 256 / 256 == u / 0x100_0000 < 256
  {
  }

  /** The four bytes of a 32-bit number, most significant first. */
  lemma {:induction false} Put32Bytes(x: int)
    ensures Put32(x) == [U32(x) / 0x100_0000, U32(x) / 0x1_0000 % 256, U32(x) / 256 % 256, U32(x) % 256]
  {
    hide U32, PutBE;
    PutFour(U32(x));
    DivideTwice(U32(x));
  }

  /** Numbers are written modulo 2^32. */
  lemma {:induction false} U32IsModular(x: int, k: int)
    ensures U32(x + 0x1_0000_0000 * k) == U32(x)
    ensures 0 <= x < 0x1_0000_0000 ==> U32(x) == x
  {
  }

  lemma {:induction false} LowByte(p: nat, q: nat, x: byte, y: byte)
    ensures p * 256 + x == q * 256 + y <==> p == q && x == y
  {
  }

  lemma {:induction false} GetFourBytes(s: seq<byte>)
    requires |s| == 4
    ensures GetU32(s) == ((s[0] as int * 256 + s[1]) * 256 + s[2]) * 256 + s[3]
  {
    hide Pow256, PutBE;
    assert s[..3][..2] == s[..2] && s[..2][..1] == s[..1] && s[..1][..0] == [];
    assert GetBE(s[..1]) == s[0];
    assert GetBE(s[..2]) == GetBE(s[..1]) * 256 + s[1];
    assert GetBE(s[..3]) == GetBE(s[..2]) * 256 + s[2];
  }

  /** When four bytes are a given number. */
  lemma {:induction false} FourBytes(s: seq<byte>, a: byte, b: byte, c: byte, d: byte)
    requires |s| == 4
    ensures GetU32(s) == a * 0x100_0000 + b * 0x1_0000 + c * 256 + d <==> s == [a, b, c, d]
  {
    hide GetU32;
    GetFourBytes(s);
    var x: int, y: int, z: int := s[0], s[1], s[2];
    LowByte((x * 256 + y) * 256 + z, (a as int * 256 + b) * 256 + c, s[3], d);
    LowByte(x * 256 + y, a as int * 256 + b, s[2], c);
    LowByte(x, a, s[1], b);
    assert s == [s[0], s[1], s[2], s[3]];
  }

  lemma {:induction false} MultiplyTwice(x: nat, p: nat)
    ensures x * p * 256 == x * (256 * p)
  {
  }

  /** The first byte of a number is its most significant one. */
  lemma {:induction false} FirstByteIsHighest(s: seq<byte>)
    requires s != []
    ensures GetBE(s) == s[0] * Pow256(|s| - 1) + GetBE(s[1..])
  {
    var n := |s| - 1;
    if n == 0 {
      assert s[..0] == [] && s[1..] == [];
    } else {
      FirstByteIsHighest(s[..n]);
      assert s[..n][1..] == s[1..][..n - 1];
      MultiplyTwice(s[0], Pow256(n - 1));
    }
  }

  /** The index of the first NUL of s, or -1. */
  function IndexNul(s: seq<byte>): (i: int)
    ensures -1 <= i < |s|
    ensures i >= 0 ==> s[i] == 0 && forall j :: 0 <= j < i ==> s[j] != 0
    ensures i < 0 ==> forall j :: 0 <= j < |s| ==> s[j] != 0
  {
    NulFrom(s, 0)
  }

  function NulFrom(s: seq<byte>, k: nat): (i: int)
    requires k <= |s|
    ensures i == -1 || k <= i < |s|
    ensures i >= 0 ==> s[i] == 0 && forall j :: k <= j < i ==> s[j] != 0
    ensures i < 0 ==> forall j :: k <= j < |s| ==> s[j] != 0
    decreases |s| - k
  {
    if k == |s| then -1 else if s[k] == 0 then k else NulFrom(s, k + 1)
  }

  function CountNul(s: seq<byte>): (n: nat)
    ensures n <= |s|
  {
    if s == [] then 0 else (if s[0] == 0 then 1 else 0) + CountNul(s[1..])
  }

  lemma {:induction false} CountNulOfConcat(a: seq<byte>, b: seq<byte>)
    ensures CountNul(a + b) == CountNul(a) + CountNul(b)
  {
    if a == [] {
      assert a + b == b;
    } else {
      CountNulOfConcat(a[1..], b);
      assert (a + b)[1..] == a[1..] + b;
    }
  }

  lemma {:induction false} CountNulZero(s: seq<byte>)
    ensures CountNul(s) == 0 <==> forall j :: 0 <= j < |s| ==> s[j] != 0
  {
    if s != [] {
      CountNulZero(s[1..]);
      assert forall j :: 1 <= j < |s| ==> s[j] == s[1..][j - 1];
      assert forall j :: 0 <= j < |s| - 1 ==> s[1..][j] == s[j + 1];
    }
  }
}
