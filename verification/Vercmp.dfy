/**
  Version comparison (vercmp.go). A version is a byte string; its meaning is the
  list of its tokens, ordered lexicographically with Tilde < end < Alpha < Num.
 */
module Vercmp {
  import opened Bytes

  // ---- character classes and prefix scanners -------------------------------

  const NEWLINE: byte := 10
  const TILDE: byte := 126
  const ZERO: byte := 48

  datatype Class = Junk | Digit | Letter

  predicate IsDigit(b: byte) { 48 <= b <= 57 }

  predicate IsLetter(b: byte) { 65 <= b <= 90 || 97 <= b <= 122 }

  predicate In(b: byte, c: Class) {
    match c
    case Digit => IsDigit(b)
    case Letter => IsLetter(b)
    case Junk => !IsDigit(b) && !IsLetter(b) && b != TILDE
  }

  /** Length of the longest prefix of s made of bytes of class c. */
  function Span(s: seq<byte>, c: Class): (n: nat)
    ensures n <= |s|
    ensures forall i :: 0 <= i < n ==> In(s[i], c)
    ensures n < |s| ==> !In(s[n], c)
  {
    if s == [] || !In(s[0], c) then 0 else 1 + Span(s[1..], c)
  }

  datatype Match = NoMatch | Match(head: seq<byte>, rest: seq<byte>)

  /** `^([^a-zA-Z0-9~]*)(.*)$`: the dot does not match a newline. */
  function MatchJunk(s: seq<byte>): (m: Match)
    ensures m.Match? ==> m.head + m.rest == s
  {
    var n := Span(s, Junk);
    if NEWLINE in s[n..] then NoMatch else Match(s[..n], s[n..])
  }

  /** `^([\d]+)(.*)$` and `^([a-zA-Z]+)(.*)$`. */
  function MatchRun(s: seq<byte>, c: Class): (m: Match)
    ensures m.Match? ==> m.head + m.rest == s && m.head != []
  {
    var n := Span(s, c);
    if n == 0 || NEWLINE in s[n..] then NoMatch else Match(s[..n], s[n..])
  }

  /** Byte-wise order of strings. */
  function TextCmp(a: seq<byte>, b: seq<byte>): (r: int)
    ensures r == -1 || r == 0 || r == 1
  {
    if a == [] && b == [] then 0
    else if a == [] then -1
    else if b == [] then 1
    else if a[0] < b[0] then -1
    else if a[0] > b[0] then 1
    else TextCmp(a[1..], b[1..])
  }

  function TrimZeros(s: seq<byte>): (t: seq<byte>)
    ensures |t| <= |s|
    ensures t != [] ==> t[0] != ZERO
  {
    if s != [] && s[0] == ZERO then TrimZeros(s[1..]) else s
  }

  // ---- specification: tokens and their order -------------------------------

  datatype Token = Tilde | Alpha(text: seq<byte>) | Num(value: nat)

  predicate AllDigits(s: seq<byte>) { forall i :: 0 <= i < |s| ==> IsDigit(s[i]) }

  /** The number a digit string denotes. */
  function Value(s: seq<byte>): (v: nat)
    requires AllDigits(s)
  {
    if s == [] then 0 else Value(s[..|s| - 1]) * 10 + (s[|s| - 1] - ZERO)
  }

  function Tokens(s: seq<byte>): (ts: seq<Token>)
    decreases |s|
  {
    var t := s[Span(s, Junk)..];
    if t == [] then []
    else if t[0] == TILDE then [Tilde] + Tokens(t[1..])
    else if IsDigit(t[0]) then
      var n := Span(t, Digit);
      [Num(Value(t[..n]))] + Tokens(t[n..])
    else
      var n := Span(t, Letter);
      [Alpha(t[..n])] + Tokens(t[n..])
  }

  /** What the comparison sees at a position: a token or the end of the list. */
  datatype Symbol = End | Tok(token: Token)

  function First(ts: seq<Token>): (s: Symbol)
    ensures s.End? <==> ts == []
  {
    if ts == [] then End else Tok(ts[0])
  }

  /** Tilde < end < Alpha < Num. */
  function Rank(s: Symbol): (r: nat) {
    match s
    case Tok(Tilde) => 0
    case End => 1
    case Tok(Alpha(_)) => 2
    case Tok(Num(_)) => 3
  }

  function Sign(x: int): (r: int)
  {
    if x < 0 then -1 else if x == 0 then 0 else 1
  }

  function SymbolCmp(a: Symbol, b: Symbol): (r: int)
    ensures r == -1 || r == 0 || r == 1
  {
    if Rank(a) != Rank(b) then Sign(Rank(a) - Rank(b))
    else match (a, b)
      case (Tok(Alpha(x)), Tok(Alpha(y))) => TextCmp(x, y)
      case (Tok(Num(x)), Tok(Num(y))) => Sign(x - y)
      case _ => 0
  }

  /** Lexicographic order of token lists. */
  function TokensCmp(x: seq<Token>, y: seq<Token>): (r: int)
    ensures r == -1 || r == 0 || r == 1
    decreases |x|
  {
    var c := SymbolCmp(First(x), First(y));
    if c != 0 || x == [] then c else TokensCmp(x[1..], y[1..])
  }

  /** A newline behind the leading junk: the first regular expression rejects the string. */
  predicate Rejected(s: seq<byte>) { NEWLINE in s[Span(s, Junk)..] }

  /** What Vercmp returns, for every pair of strings. */
  function VersionCmp(a: seq<byte>, b: seq<byte>): (r: int)
    ensures r == -1 || r == 0 || r == 1
  {
    if Rejected(a) || Rejected(b) then 0 else TokensCmp(Tokens(a), Tokens(b))
  }

  // ---- numeric segments compare by value -----------------------------------

  function Pow10(n: nat): (p: nat)
    ensures p > 0
  {
    if n == 0 then 1 else 10 * Pow10(n - 1)
  }

  lemma {:induction false} ValueBound(s: seq<byte>)
    requires AllDigits(s)
    ensures Value(s) < Pow10(|s|)
    ensures s != [] && s[0] != ZERO ==> Value(s) >= Pow10(|s| - 1)
  {
    if |s| == 1 {
      assert s[..0] == [];
    } else if s != [] {
      ValueBound(s[..|s| - 1]);
    }
  }

  lemma {:induction false} LeadingZero(s: seq<byte>)
    requires s != [] && s[0] == ZERO && AllDigits(s)
    ensures Value(s[1..]) == Value(s)
  {
    var n := |s| - 1;
    if n == 0 {
      assert s[..0] == [] && s[1..] == [];
    } else {
      LeadingZero(s[..n]);
      assert s[..n][1..] == s[1..][..n - 1];
    }
  }

  lemma {:induction false} TrimKeepsValue(s: seq<byte>)
    requires AllDigits(s)
    ensures AllDigits(TrimZeros(s))
    ensures Value(TrimZeros(s)) == Value(s)
  {
    if s != [] && s[0] == ZERO {
      LeadingZero(s);
      TrimKeepsValue(s[1..]);
    }
  }

  lemma {:induction false} TextCmpOfSnoc(a: seq<byte>, b: seq<byte>)
    requires |a| == |b| > 0
    ensures var n := |a| - 1;
            TextCmp(a, b)
            == if TextCmp(a[..n], b[..n]) != 0 then TextCmp(a[..n], b[..n]) else Sign(a[n] as int - b[n] as int)
  {
    var n := |a| - 1;
    if n > 0 {
      TextCmpOfSnoc(a[1..], b[1..]);
      assert a[1..][..n - 1] == a[..n][1..];
      assert b[1..][..n - 1] == b[..n][1..];
    }
  }

  lemma {:induction false} SameLengthByText(a: seq<byte>, b: seq<byte>)
    requires |a| == |b| && AllDigits(a) && AllDigits(b)
    ensures TextCmp(a, b) == Sign(Value(a) - Value(b))
  {
    if a != [] {
      TextCmpOfSnoc(a, b);
      SameLengthByText(a[..|a| - 1], b[..|b| - 1]);
    }
  }

  /** Longer after trimming means larger; same length compares as text. */
  lemma {:induction false} TrimmedCmp(a: seq<byte>, b: seq<byte>)
    requires AllDigits(a) && AllDigits(b)
    ensures var x, y := TrimZeros(a), TrimZeros(b);
            Sign(Value(a) - Value(b)) ==
            if |x| < |y| then -1 else if |x| > |y| then 1 else TextCmp(x, y)
  {
    var x, y := TrimZeros(a), TrimZeros(b);
    TrimKeepsValue(a);
    TrimKeepsValue(b);
    ValueBound(x);
    ValueBound(y);
    if |x| < |y| {
      Pow10Monotone(|x|, |y| - 1);
    } else if |x| > |y| {
      Pow10Monotone(|y|, |x| - 1);
    } else {
      SameLengthByText(x, y);
    }
  }

  lemma {:induction false} Pow10Monotone(m: nat, n: nat)
    requires m <= n
    ensures Pow10(m) <= Pow10(n)
    decreases n
  {
    if m < n {
      Pow10Monotone(m, n - 1);
    }
  }

  // ---- the loop ------------------------------------------------------------

  /** A string that starts past its junk tokenizes in place. */
  lemma {:induction false} TokensPastJunk(s: seq<byte>)
    ensures var t := s[Span(s, Junk)..];
            Tokens(t) == Tokens(s) && Span(t, Junk) == 0
  {
    var t := s[Span(s, Junk)..];
    assert t[0..] == t;
  }

  /** Past a rejecting newline nothing is rejected any more. */
  lemma {:induction false} NoNewline(s: seq<byte>, n: nat)
    requires n <= |s| && NEWLINE !in s
    ensures NEWLINE !in s[n..] && !Rejected(s[n..])
  {
    var t := s[n..];
    var u := t[Span(t, Junk)..];
    assert forall i :: 0 <= i < |t| ==> t[i] == s[n + i];
    assert forall i :: 0 <= i < |u| ==> u[i] == t[Span(t, Junk) + i];
  }

  function RunToken(head: seq<byte>, c: Class): (t: Token)
    requires c == Digit ==> AllDigits(head)
  {
    if c == Digit then Num(Value(head)) else Alpha(head)
  }

  /** The regular expressions for a segment split off exactly the first token. */
  lemma {:induction false} MatchedToken(s: seq<byte>, c: Class)
    requires s != [] && NEWLINE !in s && s[0] != TILDE && !In(s[0], Junk) && c != Junk
    ensures MatchRun(s, c).Match? <==> In(s[0], c)
    ensures In(s[0], c) ==>
      var m := MatchRun(s, c);
      && (c == Digit ==> AllDigits(m.head))
      && Tokens(s) == [RunToken(m.head, c)] + Tokens(m.rest)
      && NEWLINE !in m.rest && !Rejected(m.rest)
    ensures !In(s[0], c) ==> In(s[0], if c == Digit then Letter else Digit)
  {
    NoNewline(s, Span(s, c));
    assert s[0..] == s;
  }

  lemma {:induction false} TokensCmpOfCons(a: Token, x: seq<Token>, b: Token, y: seq<Token>)
    ensures var c := SymbolCmp(Tok(a), Tok(b));
            TokensCmp([a] + x, [b] + y) == if c != 0 then c else TokensCmp(x, y)
  {
    assert ([a] + x)[1..] == x && ([b] + y)[1..] == y;
  }

  /** A string at the start of a segment. */
  predicate AtSegment(s: seq<byte>) {
    s != [] && NEWLINE !in s && (IsDigit(s[0]) || IsLetter(s[0]))
  }

  function SegmentClass(s: seq<byte>): (c: Class)
    requires AtSegment(s)
  {
    if IsDigit(s[0]) then Digit else Letter
  }

  /** Segments of different classes decide the comparison. */
  lemma {:induction false} MixedStep(f: seq<byte>, s: seq<byte>)
    requires AtSegment(f) && AtSegment(s) && SegmentClass(f) != SegmentClass(s)
    ensures TokensCmp(Tokens(f), Tokens(s)) == if IsDigit(f[0]) then 1 else -1
  {
    MatchedToken(f, SegmentClass(f));
    MatchedToken(s, SegmentClass(s));
    var m1, m2 := MatchRun(f, SegmentClass(f)), MatchRun(s, SegmentClass(s));
    TokensCmpOfCons(RunToken(m1.head, SegmentClass(f)), Tokens(m1.rest),
                    RunToken(m2.head, SegmentClass(s)), Tokens(m2.rest));
  }

  function SegmentCmp(x: seq<byte>, y: seq<byte>, c: Class): (r: int)
    requires c == Digit ==> AllDigits(x) && AllDigits(y)
    ensures r == -1 || r == 0 || r == 1
  {
    if c == Digit then Sign(Value(x) - Value(y)) else TextCmp(x, y)
  }

  /** Segments of the same class are compared, and the rest of the strings decides a tie. */
  lemma {:induction false} SameClassStep(f: seq<byte>, s: seq<byte>)
    requires AtSegment(f) && AtSegment(s) && SegmentClass(f) == SegmentClass(s)
    ensures var c := SegmentClass(f);
            var m1, m2 := MatchRun(f, c), MatchRun(s, c);
            && m1.Match? && m2.Match? && !Rejected(m1.rest) && !Rejected(m2.rest)
            && (c == Digit ==> AllDigits(m1.head) && AllDigits(m2.head))
            && var d := SegmentCmp(m1.head, m2.head, c);
               TokensCmp(Tokens(f), Tokens(s)) == if d != 0 then d else TokensCmp(Tokens(m1.rest), Tokens(m2.rest))
  {
    var c := SegmentClass(f);
    MatchedToken(f, c);
    MatchedToken(s, c);
    var m1, m2 := MatchRun(f, c), MatchRun(s, c);
    TokensCmpOfCons(RunToken(m1.head, c), Tokens(m1.rest), RunToken(m2.head, c), Tokens(m2.rest));
  }

  lemma {:induction false} TildeStep(f: seq<byte>, s: seq<byte>)
    requires NEWLINE !in f && NEWLINE !in s && Span(f, Junk) == 0 && Span(s, Junk) == 0
    ensures var x, y := f != [] && f[0] == TILDE, s != [] && s[0] == TILDE;
            var c := TokensCmp(Tokens(f), Tokens(s));
            && (x && !y ==> c == -1)
            && (!x && y ==> c == 1)
            && (x && y ==> c == TokensCmp(Tokens(f[1..]), Tokens(s[1..])) && !Rejected(f[1..]) && !Rejected(s[1..]))
            && (!x && !y && (f == [] || s == []) ==> c == if f != [] then 1 else if s != [] then -1 else 0)
  {
    assert f[0..] == f && s[0..] == s;
    if f != [] { NoNewline(f, 1); }
    if s != [] { NoNewline(s, 1); }
    if f != [] && s != [] && f[0] == TILDE && s[0] == TILDE {
      TokensCmpOfCons(Tilde, Tokens(f[1..]), Tilde, Tokens(s[1..]));
    }
  }

  /** Skipping the junk in front of a string changes neither its tokens nor its acceptance. */
  lemma {:induction false} JunkStep(s: seq<byte>)
    requires !Rejected(s)
    ensures var m := MatchJunk(s);
            && m.Match? && Tokens(m.rest) == Tokens(s) && !Rejected(m.rest)
            && NEWLINE !in m.rest && Span(m.rest, Junk) == 0
            && (m.head == [] ==> m.rest == s)
  {
    TokensPastJunk(s);
    var t := s[Span(s, Junk)..];
    NoNewline(t, 0);
    assert t[0..] == t;
  }

  /** Compares two segments of the same class. */
  method CompareHeads(head1: seq<byte>, head2: seq<byte>, isnum: bool) returns (r: int)
    requires isnum ==> AllDigits(head1) && AllDigits(head2)
    ensures r == SegmentCmp(head1, head2, if isnum then Digit else Letter)
  {
    var h1, h2 := head1, head2;
    if isnum {
      TrimmedCmp(h1, h2);
      h1, h2 := TrimZeros(h1), TrimZeros(h2);
      if |h1| < |h2| {
        return -1;
      }
      if |h1| > |h2| {
        return 1;
      }
    }
    var c := TextCmp(h1, h2);
    if c < 0 {
      return -1;
    } else if c > 0 {
      return 1;
    }
    return 0;
  }

  /** The second half of the loop body: compares the leading segments and drops them when equal. */
  method CompareSegments(first: seq<byte>, second: seq<byte>) returns (r: int, f: seq<byte>, s: seq<byte>)
    requires AtSegment(first) && AtSegment(second)
    ensures r == -1 || r == 0 || r == 1
    ensures r != 0 ==> r == TokensCmp(Tokens(first), Tokens(second))
    ensures r == 0 ==>
      && |f| < |first| && |s| < |second| && !Rejected(f) && !Rejected(s)
      && TokensCmp(Tokens(f), Tokens(s)) == TokensCmp(Tokens(first), Tokens(second))
  {
    hide Tokens, TokensCmp;
    MatchedToken(first, Digit);
    MatchedToken(second, Digit);
    MatchedToken(first, Letter);
    MatchedToken(second, Letter);
    if SegmentClass(first) == SegmentClass(second) {
      SameClassStep(first, second);
    } else {
      MixedStep(first, second);
    }
    f, s := first, second;
    var isnum := false;
    var m1, m2 := MatchRun(f, Digit), MatchRun(s, Digit);
    if m1.Match? {
      if m2.NoMatch? {
        r := 1;
        return;
      }
      isnum := true;
    } else {
      m1, m2 := MatchRun(f, Letter), MatchRun(s, Letter);
    }
    assert m1.Match?;
    if m2.NoMatch? {
      r := if isnum then 1 else -1;
      return;
    }
    f, s := m1.rest, m2.rest;
    r := CompareHeads(m1.head, m2.head, isnum);
  }

  method Vercmp(first: seq<byte>, second: seq<byte>) returns (r: int)
    ensures r == VersionCmp(first, second)
  {
    hide Tokens, TokensCmp, Span;
    var f, s := first, second;
    ghost var bad := Rejected(first) || Rejected(second);
    while f != [] || s != []
      invariant bad ==> f == first && s == second
      invariant !bad ==> !Rejected(f) && !Rejected(s)
      invariant !bad ==> TokensCmp(Tokens(f), Tokens(s)) == VersionCmp(first, second)
      decreases |f| + |s|
    {
      var m1, m2 := MatchJunk(f), MatchJunk(s);
      if m1.NoMatch? || m2.NoMatch? {
        return 0;
      }
      JunkStep(f);
      JunkStep(s);
      f, s := m1.rest, m2.rest;
      if m1.head != [] || m2.head != [] {
        continue;
      }
      TildeStep(f, s);
      if f != [] && f[0] == TILDE {
        if !(s != [] && s[0] == TILDE) {
          return -1;
        }
        f, s := f[1..], s[1..];
        continue;
      }
      if s != [] && s[0] == TILDE {
        return 1;
      }
      if f == [] || s == [] {
        break;
      }
      var c;
      c, f, s := CompareSegments(f, s);
      if c != 0 {
        return c;
      }
    }
    TildeStep([], []);
    if |f| == 0 && |s| == 0 {
      return 0;
    }
    if |f| != 0 {
      return 1;
    }
    return -1;
  }
}
