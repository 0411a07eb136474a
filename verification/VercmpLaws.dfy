/**
  The rules of version comparison (vercmp.go) in terms of the bytes of the two
  strings, and some of the pairs its tests list.
 */
module VercmpLaws {
  import opened Bytes
  import opened Vercmp

  // ---- characters ----------------------------------------------------------

  /** Digits, letters and the tilde as ASCII characters; everything else is junk. */
  lemma {:induction false} CharacterClasses(b: byte)
    ensures In(b, Digit) <==> '0' <= b as char <= '9'
    ensures In(b, Letter) <==> 'a' <= b as char <= 'z' || 'A' <= b as char <= 'Z'
    ensures In(b, Junk) <==> !In(b, Digit) && !In(b, Letter) && b as char != '~'
    ensures NEWLINE as char == '\n' && TILDE as char == '~' && ZERO as char == '0'
  {
  }

  // ---- text ----------------------------------------------------------------

  /** a is a proper prefix of b, or smaller in the first byte in which they differ. */
  ghost predicate TextBefore(a: seq<byte>, b: seq<byte>, k: nat) {
    && k <= |a| && k <= |b| && a[..k] == b[..k]
    && ((k == |a| && k < |b|) || (k < |a| && k < |b| && a[k] < b[k]))
  }

  lemma {:induction false} TextBeforeShifts(a: seq<byte>, b: seq<byte>, k: nat)
    requires a != [] && b != [] && a[0] == b[0]
    ensures TextBefore(a[1..], b[1..], k) <==> TextBefore(a, b, k + 1)
  {
    if k < |a| && k < |b| {
      assert a[..k + 1] == [a[0]] + a[1..][..k] && b[..k + 1] == [b[0]] + b[1..][..k];
      assert a[..k + 1] == b[..k + 1] ==> a[1..][..k] == a[..k + 1][1..] == b[..k + 1][1..] == b[1..][..k];
    }
  }

  lemma {:induction false} SameFirst(a: seq<byte>, b: seq<byte>, k: nat)
    requires TextBefore(a, b, k) && k > 0
    ensures a != [] && b != [] && a[0] == b[0]
  {
    assert a[0] == a[..k][0] == b[..k][0] == b[0];
  }

  /** The order of strings is lexicographic, a proper prefix coming first. */
  lemma {:induction false} TextCmpIff(a: seq<byte>, b: seq<byte>)
    ensures TextCmp(a, b) == -1 <==> exists k: nat :: TextBefore(a, b, k)
  {
    forall k: nat | TextBefore(a, b, k) && k > 0
      ensures a != [] && b != [] && a[0] == b[0] && TextBefore(a[1..], b[1..], k - 1)
    {
      SameFirst(a, b, k);
      TextBeforeShifts(a, b, k - 1);
    }
    if a != [] && b != [] && a[0] == b[0] {
      TextCmpIff(a[1..], b[1..]);
      if TextCmp(a, b) == -1 {
        var k: nat :| TextBefore(a[1..], b[1..], k);
        TextBeforeShifts(a, b, k);
      }
    } else if TextCmp(a, b) == -1 {
      assert TextBefore(a, b, 0);
    }
  }

  // ---- tokens --------------------------------------------------------------

  lemma {:induction false} SpanOfRun(x: seq<byte>, t: seq<byte>, c: Class)
    requires forall i :: 0 <= i < |x| ==> In(x[i], c)
    requires t == [] || !In(t[0], c)
    ensures Span(x + t, c) == |x|
  {
    if x == [] {
      assert x + t == t;
    } else {
      assert (x + t)[1..] == x[1..] + t;
      SpanOfRun(x[1..], t, c);
    }
  }

  lemma {:induction false} SpanOfJunk(j: seq<byte>, t: seq<byte>)
    requires forall i :: 0 <= i < |j| ==> In(j[i], Junk)
    ensures Span(j + t, Junk) == |j| + Span(t, Junk)
  {
    if j == [] {
      assert j + t == t;
    } else {
      assert (j + t)[1..] == j[1..] + t;
      SpanOfJunk(j[1..], t);
    }
  }

  /** A piece of a version string. */
  datatype Piece = Number(digits: seq<byte>) | Word(letters: seq<byte>) | TildePiece | Separator(junk: seq<byte>)

  function Text(p: Piece): (s: seq<byte>) {
    match p
    case Number(d) => d
    case Word(w) => w
    case TildePiece => [126]
    case Separator(j) => j
  }

  ghost predicate ValidPiece(p: Piece) {
    match p
    case Number(d) => d != [] && forall i :: 0 <= i < |d| ==> '0' <= d[i] as char <= '9'
    case Word(w) =>
      w != [] && forall i :: 0 <= i < |w| ==> 'a' <= w[i] as char <= 'z' || 'A' <= w[i] as char <= 'Z'
    case TildePiece => true
    case Separator(j) => j != [] && forall i :: 0 <= i < |j| ==> In(j[i], Junk) && j[i] != 10
  }

  /** Two numbers, or two words, do not touch each other. */
  ghost predicate ValidPieces(ps: seq<Piece>) {
    && (forall i :: 0 <= i < |ps| ==> ValidPiece(ps[i]))
    && (forall i :: 0 <= i < |ps| - 1 ==>
          !(ps[i].Number? && ps[i + 1].Number?) && !(ps[i].Word? && ps[i + 1].Word?))
  }

  function Render(ps: seq<Piece>): (s: seq<byte>) {
    if ps == [] then [] else Text(ps[0]) + Render(ps[1..])
  }

  /** Separators mean nothing, a number its value, a word its letters. */
  ghost function MeaningOf(p: Piece): (ts: seq<Token>)
    requires ValidPiece(p)
  {
    match p
    case Number(d) => [Num(Value(d))]
    case Word(w) => [Alpha(w)]
    case TildePiece => [Tilde]
    case Separator(_) => []
  }

  ghost function Meaning(ps: seq<Piece>): (ts: seq<Token>)
    requires ValidPieces(ps)
  {
    if ps == [] then [] else MeaningOf(ps[0]) + Meaning(ps[1..])
  }

  lemma {:induction false} RenderStarts(ps: seq<Piece>)
    requires ValidPieces(ps) && ps != []
    ensures Render(ps) != [] && (In(Render(ps)[0], Digit) <==> ps[0].Number?)
    ensures In(Render(ps)[0], Letter) <==> ps[0].Word?
  {
  }

  lemma {:induction false} TokensOfRun(x: seq<byte>, t: seq<byte>, c: Class)
    requires c != Junk && x != [] && (forall i :: 0 <= i < |x| ==> In(x[i], c)) && (t == [] || !In(t[0], c))
    ensures c == Digit ==> AllDigits(x)
    ensures Tokens(x + t) == [RunToken(x, c)] + Tokens(t)
  {
    SpanOfRun(x, t, c);
    var s := x + t;
    assert s[0] == x[0];
    assert s[0..] == s && s[..|x|] == x && s[|x|..] == t;
  }

  lemma {:induction false} TokensBehindJunk(j: seq<byte>, t: seq<byte>)
    requires forall i :: 0 <= i < |j| ==> In(j[i], Junk)
    ensures Tokens(j + t) == Tokens(t)
  {
    SpanOfJunk(j, t);
    assert (j + t)[Span(j + t, Junk)..] == t[Span(t, Junk)..];
    TokensPastJunk(j + t);
    TokensPastJunk(t);
  }

  lemma {:induction false} TokensBehindTilde(t: seq<byte>)
    ensures Tokens([126] + t) == [Tilde] + Tokens(t)
  {
    var s := [126] + t;
    assert s[0..] == s && s[1..] == t;
  }

  lemma {:induction false} TokensOfPiece(p: Piece, t: seq<byte>)
    requires ValidPiece(p)
    requires p.Number? ==> t == [] || !In(t[0], Digit)
    requires p.Word? ==> t == [] || !In(t[0], Letter)
    ensures Tokens(Text(p) + t) == MeaningOf(p) + Tokens(t)
  {
    hide Tokens;
    match p
    case Number(d) => TokensOfRun(d, t, Digit);
    case Word(w) => TokensOfRun(w, t, Letter);
    case TildePiece => TokensBehindTilde(t);
    case Separator(j) => TokensBehindJunk(j, t);
  }

  /** A string made of numbers, words, tildes and separators has exactly their meanings as its tokens. */
  lemma {:induction false} TokensOfRendered(ps: seq<Piece>)
    requires ValidPieces(ps)
    ensures Tokens(Render(ps)) == Meaning(ps)
  {
    if ps != [] {
      TokensOfRendered(ps[1..]);
      if |ps| > 1 {
        RenderStarts(ps[1..]);
      }
      TokensOfPiece(ps[0], Render(ps[1..]));
    }
  }

  lemma {:induction false} RenderedHasNoNewline(ps: seq<Piece>)
    requires ValidPieces(ps)
    ensures NEWLINE !in Render(ps) && !Rejected(Render(ps))
  {
    if ps != [] {
      RenderedHasNoNewline(ps[1..]);
    }
    NoNewline(Render(ps), 0);
    assert Render(ps)[0..] == Render(ps);
  }

  /** Versions made of pieces compare as the lists of their meanings. */
  lemma {:induction false} RenderedCompare(ps: seq<Piece>, qs: seq<Piece>)
    requires ValidPieces(ps) && ValidPieces(qs)
    ensures VersionCmp(Render(ps), Render(qs)) == TokensCmp(Meaning(ps), Meaning(qs))
  {
    hide Tokens, TokensCmp, Rejected, Render;
    TokensOfRendered(ps);
    TokensOfRendered(qs);
    RenderedHasNoNewline(ps);
    RenderedHasNoNewline(qs);
  }

  // ---- the rules -----------------------------------------------------------

  /** What may follow a run of a class. */
  predicate Ends(t: seq<byte>, c: Class) { NEWLINE !in t && (t == [] || !In(t[0], c)) }

  /** Leading numbers compare by value, and the rest of the strings decides a tie. */
  lemma {:induction false} NumbersDecide(d: seq<byte>, x: seq<byte>, e: seq<byte>, y: seq<byte>)
    requires d != [] && AllDigits(d) && Ends(x, Digit) && e != [] && AllDigits(e) && Ends(y, Digit)
    ensures VersionCmp(d + x, e + y)
         == if Value(d) < Value(e) then -1 else if Value(d) > Value(e) then 1 else VersionCmp(x, y)
  {
    hide Tokens, Value, TokensCmp, Rejected;
    TokensOfPiece(Number(d), x);
    TokensOfPiece(Number(e), y);
    TokensCmpOfCons(Num(Value(d)), Tokens(x), Num(Value(e)), Tokens(y));
    Accepted(d, x);
    Accepted(e, y);
  }

  /** Leading words compare as text, and the rest of the strings decides a tie. */
  lemma {:induction false} WordsDecide(v: seq<byte>, x: seq<byte>, w: seq<byte>, y: seq<byte>)
    requires v != [] && (forall i :: 0 <= i < |v| ==> In(v[i], Letter)) && Ends(x, Letter)
    requires w != [] && (forall i :: 0 <= i < |w| ==> In(w[i], Letter)) && Ends(y, Letter)
    ensures VersionCmp(v + x, w + y) == if v != w then TextCmp(v, w) else VersionCmp(x, y)
    ensures v != w ==> TextCmp(v, w) != 0
  {
    hide Tokens, TokensCmp, TextCmp, Rejected;
    TokensOfPiece(Word(v), x);
    TokensOfPiece(Word(w), y);
    TokensCmpOfCons(Alpha(v), Tokens(x), Alpha(w), Tokens(y));
    EqualText(v, w);
    Accepted(v, x);
    Accepted(w, y);
  }

  lemma {:induction false} EqualText(a: seq<byte>, b: seq<byte>)
    ensures TextCmp(a, b) == 0 <==> a == b
  {
    if a != [] && b != [] && a[0] == b[0] {
      EqualText(a[1..], b[1..]);
      assert a == [a[0]] + a[1..] && b == [b[0]] + b[1..];
    }
  }

  lemma {:induction false} Accepted(run: seq<byte>, t: seq<byte>)
    requires NEWLINE !in t && forall i :: 0 <= i < |run| ==> In(run[i], Digit) || In(run[i], Letter)
    ensures !Rejected(run + t) && !Rejected(t)
  {
    NoNewline(run + t, 0);
    NoNewline(t, 0);
    assert (run + t)[0..] == run + t && t[0..] == t;
  }

  /** A number is newer than a word, and both are newer than nothing. */
  lemma {:induction false} NumberBeatsWord(d: seq<byte>, x: seq<byte>, w: seq<byte>, y: seq<byte>)
    requires d != [] && AllDigits(d) && Ends(x, Digit)
    requires w != [] && (forall i :: 0 <= i < |w| ==> In(w[i], Letter)) && Ends(y, Letter)
    ensures VersionCmp(d + x, w + y) == 1 && VersionCmp(w + y, d + x) == -1
    ensures VersionCmp(d + x, []) == 1 == VersionCmp(w + y, [])
    ensures VersionCmp([], d + x) == -1 == VersionCmp([], w + y)
  {
    hide Tokens, Value, TextCmp, Rejected;
    TokensOfPiece(Number(d), x);
    TokensOfPiece(Word(w), y);
    TokensCmpOfCons(Num(Value(d)), Tokens(x), Alpha(w), Tokens(y));
    TokensCmpOfCons(Alpha(w), Tokens(y), Num(Value(d)), Tokens(x));
    Accepted(d, x);
    Accepted(w, y);
    NothingIsAccepted();
  }

  lemma {:induction false} NothingIsAccepted()
    ensures Tokens([]) == [] && !Rejected([])
  {
  }

  /** A tilde sorts before everything else, the end included; two tildes cancel. */
  lemma {:induction false} TildeFirst(x: seq<byte>, y: seq<byte>)
    requires NEWLINE !in x && NEWLINE !in y
    ensures VersionCmp([126] + x, [126] + y) == VersionCmp(x, y)
    ensures y == [] || In(y[0], Digit) || In(y[0], Letter) ==>
      VersionCmp([126] + x, y) == -1 && VersionCmp(y, [126] + x) == 1
  {
    hide Tokens, TokensCmp, Rejected;
    var t, u := [126] + x, [126] + y;
    assert t[1..] == x && u[1..] == y;
    TildeStep(t, u);
    TildeIsAccepted(x);
    TildeIsAccepted(y);
    if y == [] || In(y[0], Digit) || In(y[0], Letter) {
      TildeStep(t, y);
      TildeStep(y, t);
    }
  }

  lemma {:induction false} TildeIsAccepted(x: seq<byte>)
    requires NEWLINE !in x
    ensures !Rejected([126] + x) && !Rejected(x) && Span([126] + x, Junk) == 0
  {
    NoNewline([126] + x, 0);
    NoNewline(x, 0);
    assert ([126] + x)[0..] == [126] + x && x[0..] == x;
  }

  /** Separators do not matter: neither in front of a string nor, by the other rules, behind a segment. */
  lemma {:induction false} JunkIsIgnored(j: seq<byte>, x: seq<byte>, y: seq<byte>)
    requires forall i :: 0 <= i < |j| ==> In(j[i], Junk)
    ensures VersionCmp(j + x, y) == VersionCmp(x, y) && VersionCmp(y, j + x) == VersionCmp(y, x)
  {
    SpanOfJunk(j, x);
    assert (j + x)[Span(j + x, Junk)..] == x[Span(x, Junk)..];
    TokensPastJunk(j + x);
    TokensPastJunk(x);
  }

  // ---- some of the listed pairs --------------------------------------------

  /** The bytes of an ASCII string. */
  function Ascii(s: string): (b: seq<byte>)
    requires forall i :: 0 <= i < |s| ==> s[i] < 128 as char
    ensures |b| == |s| && forall i :: 0 <= i < |s| ==> b[i] == s[i] as int
  {
    seq(|s|, i requires 0 <= i < |s| => s[i] as int)
  }

  /** A string that starts with one digit. */
  lemma {:induction false} OneDigit(d: byte, e: byte, x: seq<byte>, y: seq<byte>)
    requires IsDigit(d) && IsDigit(e) && Ends(x, Digit) && Ends(y, Digit)
    ensures VersionCmp([d] + x, [e] + y) == if d < e then -1 else if d > e then 1 else VersionCmp(x, y)
  {
    assert [d][..0] == [] && [e][..0] == [];
    NumbersDecide([d], x, [e], y);
  }

  /** "1.0a" is less than "1.0aa". */
  lemma {:induction false} LongerWordIsNewer()
    ensures VersionCmp(Ascii("1.0a"), Ascii("1.0aa")) == -1
  {
    hide VersionCmp, TextCmp;
    var a, b: seq<byte> := [97], [97, 97];
    assert Ascii("1.0a") == [49] + ([46] + ([48] + (a + [])));
    assert Ascii("1.0aa") == [49] + ([46] + ([48] + (b + [])));
    WordsDecide(a, [], b, []);
    OneDigit(48, 48, a + [], b + []);
    JunkIsIgnored([46], [48] + (a + []), [46] + ([48] + (b + [])));
    JunkIsIgnored([46], [48] + (b + []), [48] + (a + []));
    OneDigit(49, 49, [46] + ([48] + (a + [])), [46] + ([48] + (b + [])));
    TextCmpIff(a, b);
    assert TextBefore(a, b, 1);
  }

  /** "1.0~rc1" is less than "1.0". */
  lemma {:induction false} CandidateIsOlder()
    ensures VersionCmp(Ascii("1.0~rc1"), Ascii("1.0")) == -1
  {
    hide VersionCmp;
    var rc: seq<byte> := [114, 99, 49];
    assert Ascii("1.0~rc1") == [49] + ([46] + ([48] + ([126] + rc)));
    assert Ascii("1.0") == [49] + ([46] + ([48] + []));
    TildeFirst(rc, []);
    OneDigit(48, 48, [126] + rc, []);
    JunkIsIgnored([46], [48] + ([126] + rc), [46] + ([48] + []));
    JunkIsIgnored([46], [48] + [], [48] + ([126] + rc));
    OneDigit(49, 49, [46] + ([48] + ([126] + rc)), [46] + ([48] + []));
  }

  /** "xyz.4" is less than "8". */
  lemma {:induction false} WordIsOlder()
    ensures VersionCmp(Ascii("xyz.4"), Ascii("8")) == -1
  {
    hide VersionCmp;
    assert Ascii("xyz.4") == [120, 121, 122] + [46, 52] && Ascii("8") == [56] + [];
    NumberBeatsWord([56], [], [120, 121, 122], [46, 52]);
  }

  /** "p1" is less than "p10": numbers, not text, are compared. */
  lemma {:induction false} LargerNumberIsNewer()
    ensures VersionCmp(Ascii("p1"), Ascii("p10")) == -1
  {
    hide VersionCmp;
    var p, one, ten: seq<byte> := [112], [49], [49, 48];
    assert Ascii("p1") == p + (one + []) && Ascii("p10") == p + (ten + []);
    assert one[..0] == [] && ten[..1] == one;
    assert Value(one) == 1 && Value(ten) == 10;
    NumbersDecide(one, [], ten, []);
    WordsDecide(p, one + [], p, ten + []);
  }
}
