/** Order laws of Vercmp and NEVRAcmp (vercmp.go, nevra.go), on top of the token specification. */
module VersionOrder {
  import opened Bytes
  import opened Outcomes
  import opened Vercmp
  import Header
  import HeaderGetters

  // ---- TextCmp and TokensCmp are total orders ------------------------------

  lemma {:induction false} TextCmpAntisymmetric(a: seq<byte>, b: seq<byte>)
    ensures TextCmp(a, b) == -TextCmp(b, a)
    ensures TextCmp(a, b) == 0 <==> a == b
  {
    if a != [] && b != [] {
      TextCmpAntisymmetric(a[1..], b[1..]);
      if a[0] == b[0] {
        assert a == [a[0]] + a[1..] && b == [b[0]] + b[1..];
      }
    }
  }

  lemma {:induction false} TextCmpTransitive(a: seq<byte>, b: seq<byte>, c: seq<byte>)
    requires TextCmp(a, b) <= 0 && TextCmp(b, c) <= 0
    ensures TextCmp(a, c) <= 0
  {
    if a != [] && b != [] && c != [] && a[0] == b[0] == c[0] {
      TextCmpTransitive(a[1..], b[1..], c[1..]);
    }
  }

  lemma {:induction false} SymbolCmpLaws(a: Symbol, b: Symbol, c: Symbol)
    ensures SymbolCmp(a, b) == -SymbolCmp(b, a)
    ensures SymbolCmp(a, b) == 0 <==> a == b
    ensures SymbolCmp(a, b) <= 0 && SymbolCmp(b, c) <= 0 ==> SymbolCmp(a, c) <= 0
  {
    if a.Tok? && b.Tok? && a.token.Alpha? && b.token.Alpha? {
      TextCmpAntisymmetric(a.token.text, b.token.text);
      if c.Tok? && c.token.Alpha? && SymbolCmp(a, b) <= 0 && SymbolCmp(b, c) <= 0 {
        TextCmpTransitive(a.token.text, b.token.text, c.token.text);
      }
    }
  }

  lemma {:induction false} TokensCmpAntisymmetric(x: seq<Token>, y: seq<Token>)
    ensures TokensCmp(x, y) == -TokensCmp(y, x)
    ensures TokensCmp(x, y) == 0 <==> x == y
  {
    SymbolCmpLaws(First(x), First(y), End);
    if x != [] && y != [] && x[0] == y[0] {
      TokensCmpAntisymmetric(x[1..], y[1..]);
      assert x == [x[0]] + x[1..] && y == [y[0]] + y[1..];
    }
  }

  lemma {:induction false} TokensCmpTransitive(x: seq<Token>, y: seq<Token>, z: seq<Token>)
    requires TokensCmp(x, y) <= 0 && TokensCmp(y, z) <= 0
    ensures TokensCmp(x, z) <= 0
  {
    var a, b, c := First(x), First(y), First(z);
    SymbolCmpLaws(a, b, c);
    SymbolCmpLaws(b, c, a);
    SymbolCmpLaws(a, c, b);
    SymbolCmpLaws(c, b, a);
    if x != [] && a == b == c {
      TokensCmpTransitive(x[1..], y[1..], z[1..]);
    }
  }

  // ---- Vercmp --------------------------------------------------------------

  /** Two accepted versions compare equal exactly when their token lists are the same. */
  lemma {:induction false} EqualIffSameTokens(a: seq<byte>, b: seq<byte>)
    requires !Rejected(a) && !Rejected(b)
    ensures VersionCmp(a, b) == 0 <==> Tokens(a) == Tokens(b)
  {
    TokensCmpAntisymmetric(Tokens(a), Tokens(b));
  }

  /** Reversing the arguments reverses the result, for all strings. */
  lemma {:induction false} VersionCmpAntisymmetric(a: seq<byte>, b: seq<byte>)
    ensures VersionCmp(a, b) == -VersionCmp(b, a)
    ensures VersionCmp(a, a) == 0
  {
    TokensCmpAntisymmetric(Tokens(a), Tokens(b));
    TokensCmpAntisymmetric(Tokens(a), Tokens(a));
  }

  lemma {:induction false} AcceptedTransitive(a: seq<byte>, b: seq<byte>, c: seq<byte>)
    requires !Rejected(a) && !Rejected(b) && !Rejected(c)
    ensures VersionCmp(a, b) <= 0 && VersionCmp(b, c) <= 0 ==> VersionCmp(a, c) <= 0
    ensures VersionCmp(a, b) == 0 ==> VersionCmp(a, c) == VersionCmp(b, c)
  {
    TokensCmpAntisymmetric(Tokens(a), Tokens(b));
    if VersionCmp(a, b) <= 0 && VersionCmp(b, c) <= 0 {
      TokensCmpTransitive(Tokens(a), Tokens(b), Tokens(c));
    }
  }

  /**
    For all strings, exactly when the laws hold: transitivity fails only through a
    rejected string between two that are ordered the other way, and equal strings
    are interchangeable unless exactly one of them is rejected and the other one
    differs from the third.
   */
  lemma {:induction false} VersionCmpTransitive(a: seq<byte>, b: seq<byte>, c: seq<byte>)
    ensures (VersionCmp(a, b) <= 0 && VersionCmp(b, c) <= 0 ==> VersionCmp(a, c) <= 0)
      <==> !Rejected(b) || Rejected(a) || Rejected(c) || TokensCmp(Tokens(a), Tokens(c)) <= 0
    ensures (VersionCmp(a, b) == 0 ==> VersionCmp(a, c) == VersionCmp(b, c))
      <==> Rejected(a) == Rejected(b) || Rejected(c) || Tokens(if Rejected(a) then b else a) == Tokens(c)
  {
    hide Tokens, TokensCmp, Rejected;
    if !Rejected(a) && !Rejected(b) && !Rejected(c) {
      AcceptedTransitive(a, b, c);
    }
    TokensCmpAntisymmetric(Tokens(a), Tokens(c));
    TokensCmpAntisymmetric(Tokens(b), Tokens(c));
  }

  /** VersionSlice.Less */
  predicate VersionLess(vs: seq<seq<byte>>, i: nat, j: nat)
    requires i < |vs| && j < |vs|
  {
    VersionCmp(vs[i], vs[j]) == -1
  }

  ghost predicate Tied(less: (int, int) -> bool, i: int, j: int) {
    !less(i, j) && !less(j, i)
  }

  /** What sort.Interface asks of Less over n elements: irreflexive, transitive, and incomparability is transitive. */
  ghost predicate StrictWeakOrder(n: nat, less: (int, int) -> bool) {
    && (forall i :: 0 <= i < n ==> !less(i, i))
    && (forall i, j, k :: 0 <= i < n && 0 <= j < n && 0 <= k < n && less(i, j) && less(j, k) ==> less(i, k))
    && (forall i, j, k :: 0 <= i < n && 0 <= j < n && 0 <= k < n && Tied(less, i, j) && Tied(less, j, k) ==>
          Tied(less, i, k))
  }

  function VersionLessFn(vs: seq<seq<byte>>): (less: (int, int) -> bool)
    ensures forall i, j :: 0 <= i < |vs| && 0 <= j < |vs| ==> less(i, j) == VersionLess(vs, i, j)
  {
    (i: int, j: int) => 0 <= i < |vs| && 0 <= j < |vs| && VersionLess(vs, i, j)
  }

  ghost predicate AllAccepted(vs: seq<seq<byte>>) {
    forall i :: 0 <= i < |vs| ==> !Rejected(vs[i])
  }

  /** All accepted elements mean the same version. */
  ghost predicate AcceptedAgree(vs: seq<seq<byte>>) {
    forall i, j :: 0 <= i < |vs| && 0 <= j < |vs| && !Rejected(vs[i]) && !Rejected(vs[j]) ==>
      Tokens(vs[i]) == Tokens(vs[j])
  }

  lemma {:induction false} AcceptedVersionsAreOrdered(vs: seq<seq<byte>>)
    requires AllAccepted(vs)
    ensures StrictWeakOrder(|vs|, VersionLessFn(vs))
  {
    var n, less := |vs|, VersionLessFn(vs);
    forall i | 0 <= i < n ensures !less(i, i) {
      VersionCmpAntisymmetric(vs[i], vs[i]);
    }
    forall i, j, k | 0 <= i < n && 0 <= j < n && 0 <= k < n && less(i, j) && less(j, k) ensures less(i, k) {
      var a, b, c := vs[i], vs[j], vs[k];
      AcceptedTransitive(a, b, c);
      AcceptedTransitive(c, a, b);
      VersionCmpAntisymmetric(a, c);
      VersionCmpAntisymmetric(b, c);
    }
    forall i, j, k | 0 <= i < n && 0 <= j < n && 0 <= k < n && Tied(less, i, j) && Tied(less, j, k)
      ensures Tied(less, i, k)
    {
      var a, b, c := vs[i], vs[j], vs[k];
      VersionCmpAntisymmetric(a, b);
      VersionCmpAntisymmetric(b, c);
      AcceptedTransitive(a, b, c);
      VersionCmpAntisymmetric(a, c);
    }
  }

  /**
    VersionSlice.Less orders a slice exactly when no element hides a newline
    behind its leading junk, or all other elements have the same tokens: a
    rejected version ties with every other one.
   */
  lemma {:induction false} VersionsOrderedIff(vs: seq<seq<byte>>)
    ensures StrictWeakOrder(|vs|, VersionLessFn(vs)) <==> AllAccepted(vs) || AcceptedAgree(vs)
  {
    hide Tokens, TokensCmp, Rejected;
    var n, less := |vs|, VersionLessFn(vs);
    if AllAccepted(vs) {
      AcceptedVersionsAreOrdered(vs);
    } else if AcceptedAgree(vs) {
      forall i, j | 0 <= i < n && 0 <= j < n ensures !less(i, j) {
        TokensCmpAntisymmetric(Tokens(vs[i]), Tokens(vs[j]));
      }
    } else {
      var r :| 0 <= r < n && Rejected(vs[r]);
      var i, k :| 0 <= i < n && 0 <= k < n && !Rejected(vs[i]) && !Rejected(vs[k]) && Tokens(vs[i]) != Tokens(vs[k]);
      TokensCmpAntisymmetric(Tokens(vs[i]), Tokens(vs[k]));
      assert Tied(less, i, r) && Tied(less, r, k) && !Tied(less, i, k);
    }
  }

  // ---- epochs --------------------------------------------------------------

  /** strconv.FormatUint(n, 10) */
  function FormatUint(n: nat): (s: seq<byte>)
    ensures s != [] && AllDigits(s) && Value(s) == n
    ensures |s| > 1 ==> s[0] != ZERO
  {
    if n < 10 then
      assert [(ZERO + n) as byte][..0] == [];
      [ZERO + n]
    else
      var s := FormatUint(n / 10);
      var r: seq<byte> := s + [ZERO + n % 10];
      assert r[..|r| - 1] == s;
      r
  }

  lemma {:induction false} SpanOfDigits(s: seq<byte>)
    requires AllDigits(s)
    ensures Span(s, Digit) == |s|
  {
    if s != [] {
      SpanOfDigits(s[1..]);
    }
  }

  lemma {:induction false} TokensOfDigits(s: seq<byte>)
    requires s != [] && AllDigits(s)
    ensures Tokens(s) == [Num(Value(s))] && !Rejected(s)
  {
    SpanOfDigits(s);
    assert s[0..] == s && s[..|s|] == s;
    assert Tokens(s[|s|..]) == [];
  }

  /** Epochs as GetNEVRA prints them are ordered by their numeric value. */
  lemma {:induction false} EpochsCompareByValue(m: nat, n: nat)
    ensures VersionCmp(FormatUint(m), FormatUint(n)) == Sign(m - n)
  {
    TokensOfDigits(FormatUint(m));
    TokensOfDigits(FormatUint(n));
    TokensCmpOfCons(Num(m), [], Num(n), []);
    assert [Num(m)] + [] == [Num(m)] && [Num(n)] + [] == [Num(n)];
  }

  /** "1" is less than "2". */
  lemma {:induction false} OneAndTwo()
    ensures !Rejected([49]) && !Rejected([50]) && VersionCmp([49], [50]) == -1
  {
    hide Rejected, VersionCmp, Tokens;
    EpochsCompareByValue(1, 2);
    TokensOfDigits([49]);
    TokensOfDigits([50]);
  }

  lemma {:induction false} NewlineIsRejected()
    ensures Rejected([49, 10])
  {
    var s: seq<byte> := [49, 10];
    assert s[0..] == s && Span(s, Junk) == 0;
    assert s[0..][1] == 10;
  }

  /** "1", "1\n", "2": the middle string ties with both, yet the outer two are ordered. */
  lemma {:induction false} NewlineBreaksTies()
    ensures var vs: seq<seq<byte>> := [[49], [49, 10], [50]];
            && VersionCmp(vs[0], vs[1]) == 0 == VersionCmp(vs[1], vs[2])
            && VersionCmp(vs[0], vs[2]) == -1
            && !StrictWeakOrder(3, VersionLessFn(vs))
  {
    hide Rejected, Tokens, TokensCmp;
    OneAndTwo();
    NewlineIsRejected();
    var vs: seq<seq<byte>> := [[49], [49, 10], [50]];
    assert VersionLess(vs, 0, 2);
    VersionCmpAntisymmetric(vs[0], vs[1]);
    VersionCmpAntisymmetric(vs[1], vs[2]);
    var less := VersionLessFn(vs);
    assert less(0, 2) && Tied(less, 0, 1) && Tied(less, 1, 2);
  }

  const EPOCH := 1003

  /** The epoch of a header as a number; an absent or empty one counts as 0. */
  function EpochValue(m: Header.Entries): (r: Outcome<nat>) {
    match HeaderGetters.GetUint64s(m, EPOCH)
    case Ok(v) => Ok(if v == [] then 0 else v[0])
    case Err(NoSuchTag(_)) => Ok(0)
    case Err(e) => Err(e)
    case Panic => Panic
  }

  /** The epoch field GetNEVRA fills in. */
  function EpochText(m: Header.Entries): (r: Outcome<seq<byte>>) {
    var v :- EpochValue(m);
    Ok(FormatUint(v))
  }

  /** Of two headers with an epoch, the comparison of the texts is that of the numbers. */
  lemma {:induction false} HeaderEpochsCompareByValue(m: Header.Entries, w: Header.Entries)
    requires EpochValue(m).Ok? && EpochValue(w).Ok?
    ensures EpochText(m).Ok? && EpochText(w).Ok?
    ensures VersionCmp(EpochText(m).value, EpochText(w).value) == Sign(EpochValue(m).value - EpochValue(w).value)
  {
    hide EpochValue, VersionCmp;
    EpochsCompareByValue(EpochValue(m).value, EpochValue(w).value);
  }

  // ---- NEVRA ---------------------------------------------------------------

  datatype NEVRA = NEVRA(name: seq<byte>, epoch: seq<byte>, version: seq<byte>, release: seq<byte>, arch: seq<byte>)

  predicate AcceptedNEVRA(a: NEVRA) {
    !Rejected(a.epoch) && !Rejected(a.version) && !Rejected(a.release)
  }

  /** The epoch decides, then the version, then the release. */
  function PackageCmp(a: NEVRA, b: NEVRA): (r: int)
    ensures r == -1 || r == 0 || r == 1
  {
    var e, v := VersionCmp(a.epoch, b.epoch), VersionCmp(a.version, b.version);
    if e != 0 then e else if v != 0 then v else VersionCmp(a.release, b.release)
  }

  method NEVRAcmp(a: NEVRA, b: NEVRA) returns (r: int)
    ensures r == PackageCmp(a, b)
  {
    r := Vercmp.Vercmp(a.epoch, b.epoch);
    if r != 0 {
      return;
    }
    r := Vercmp.Vercmp(a.version, b.version);
    if r != 0 {
      return;
    }
    r := Vercmp.Vercmp(a.release, b.release);
    if r != 0 {
      return;
    }
    return 0;
  }

  /** Packages compare as the list of the meanings of epoch, version and release. */
  function PackageKey(a: NEVRA): (k: (seq<Token>, seq<Token>, seq<Token>)) {
    (Tokens(a.epoch), Tokens(a.version), Tokens(a.release))
  }

  lemma {:induction false} PackageCmpAntisymmetric(a: NEVRA, b: NEVRA)
    ensures PackageCmp(a, b) == -PackageCmp(b, a)
    ensures PackageCmp(a, a) == 0
    ensures AcceptedNEVRA(a) && AcceptedNEVRA(b) ==> (PackageCmp(a, b) == 0 <==> PackageKey(a) == PackageKey(b))
  {
    VersionCmpAntisymmetric(a.epoch, b.epoch);
    VersionCmpAntisymmetric(a.version, b.version);
    VersionCmpAntisymmetric(a.release, b.release);
    TokensCmpAntisymmetric(Tokens(a.epoch), Tokens(b.epoch));
    TokensCmpAntisymmetric(Tokens(a.version), Tokens(b.version));
    TokensCmpAntisymmetric(Tokens(a.release), Tokens(b.release));
  }

  lemma {:induction false} PackageCmpTransitive(a: NEVRA, b: NEVRA, c: NEVRA)
    requires AcceptedNEVRA(a) && AcceptedNEVRA(b) && AcceptedNEVRA(c)
    ensures PackageCmp(a, b) <= 0 && PackageCmp(b, c) <= 0 ==> PackageCmp(a, c) <= 0
    ensures PackageCmp(a, b) == 0 ==> PackageCmp(a, c) == PackageCmp(b, c)
  {
    FieldCmpTransitive(a.epoch, b.epoch, c.epoch);
    FieldCmpTransitive(a.version, b.version, c.version);
    FieldCmpTransitive(a.release, b.release, c.release);
  }

  /** The laws in the form a lexicographic combination needs. */
  lemma {:induction false} FieldCmpTransitive(a: seq<byte>, b: seq<byte>, c: seq<byte>)
    requires !Rejected(a) && !Rejected(b) && !Rejected(c)
    ensures VersionCmp(a, b) <= 0 && VersionCmp(b, c) <= 0 ==> VersionCmp(a, c) <= 0
    ensures VersionCmp(a, b) <= 0 && VersionCmp(b, c) <= 0 && VersionCmp(a, c) == 0 ==>
      VersionCmp(a, b) == 0 && VersionCmp(b, c) == 0
    ensures VersionCmp(a, b) == 0 ==> VersionCmp(a, c) == VersionCmp(b, c)
    ensures VersionCmp(b, c) == 0 ==> VersionCmp(a, c) == VersionCmp(a, b)
  {
    AcceptedTransitive(a, b, c);
    AcceptedTransitive(b, c, a);
    VersionCmpAntisymmetric(a, b);
    VersionCmpAntisymmetric(b, c);
    VersionCmpAntisymmetric(a, c);
    EqualIffSameTokens(a, c);
  }

  function PackageLessFn(s: seq<NEVRA>): (less: (int, int) -> bool)
    ensures forall i, j :: 0 <= i < |s| && 0 <= j < |s| ==> less(i, j) == (PackageCmp(s[i], s[j]) == -1)
  {
    (i: int, j: int) => 0 <= i < |s| && 0 <= j < |s| && PackageCmp(s[i], s[j]) == -1
  }

  /** NEVRASlice.Less meets the contract of sort.Sort. */
  lemma {:induction false} PackagesAreOrdered(s: seq<NEVRA>)
    requires forall i :: 0 <= i < |s| ==> AcceptedNEVRA(s[i])
    ensures StrictWeakOrder(|s|, PackageLessFn(s))
  {
    var n, less := |s|, PackageLessFn(s);
    forall i | 0 <= i < n ensures !less(i, i) {
      PackageCmpAntisymmetric(s[i], s[i]);
    }
    forall i, j, k | 0 <= i < n && 0 <= j < n && 0 <= k < n && less(i, j) && less(j, k) ensures less(i, k) {
      PackageCmpTransitive(s[i], s[j], s[k]);
      PackageCmpTransitive(s[k], s[i], s[j]);
      PackageCmpAntisymmetric(s[i], s[k]);
      PackageCmpAntisymmetric(s[j], s[k]);
    }
    forall i, j, k | 0 <= i < n && 0 <= j < n && 0 <= k < n && Tied(less, i, j) && Tied(less, j, k)
      ensures Tied(less, i, k)
    {
      PackageCmpAntisymmetric(s[i], s[j]);
      PackageCmpAntisymmetric(s[j], s[k]);
      PackageCmpTransitive(s[i], s[j], s[k]);
      PackageCmpAntisymmetric(s[i], s[k]);
    }
  }

  /** Packages that differ in their versions only compare as these do. */
  lemma {:induction false} SameButVersion(p: NEVRA, v: seq<byte>, w: seq<byte>)
    ensures PackageCmp(p.(version := v), p.(version := w)) == VersionCmp(v, w)
  {
    hide VersionCmp;
    VersionCmpAntisymmetric(p.epoch, p.epoch);
    VersionCmpAntisymmetric(p.release, p.release);
  }

  /** Packages with the versions "1", "1\n" and "2" and nothing else different: the middle one ties with both others. */
  lemma {:induction false} NewlineBreaksPackages(p: NEVRA)
    ensures !StrictWeakOrder(3, PackageLessFn([p.(version := [49]), p.(version := [49, 10]), p.(version := [50])]))
  {
    hide VersionCmp, PackageCmp;
    var a, b, c: seq<byte> := [49], [49, 10], [50];
    var s := [p.(version := a), p.(version := b), p.(version := c)];
    NewlineBreaksTies();
    var vs: seq<seq<byte>> := [a, b, c];
    assert vs[0] == a && vs[1] == b && vs[2] == c;
    VersionCmpAntisymmetric(a, b);
    VersionCmpAntisymmetric(b, c);
    SameButVersion(p, a, b);
    SameButVersion(p, b, a);
    SameButVersion(p, b, c);
    SameButVersion(p, c, b);
    SameButVersion(p, a, c);
    var less := PackageLessFn(s);
    assert less(0, 2) && Tied(less, 0, 1) && Tied(less, 1, 2);
  }

  /** The package with d in place of every rejected field. */
  function Repaired(p: NEVRA, d: seq<byte>): (q: NEVRA) {
    p.(epoch := if Rejected(p.epoch) then d else p.epoch,
       version := if Rejected(p.version) then d else p.version,
       release := if Rejected(p.release) then d else p.release)
  }

  /** A package with a rejected field ties with two accepted ones that are ordered. */
  lemma {:induction false} RejectedTies(p: NEVRA) returns (a: NEVRA, c: NEVRA)
    requires !AcceptedNEVRA(p)
    ensures AcceptedNEVRA(a) && AcceptedNEVRA(c)
    ensures PackageCmp(a, p) == 0 == PackageCmp(p, c) && PackageCmp(a, c) == -1 && PackageCmp(c, a) == 1
    ensures PackageCmp(p, a) == 0 == PackageCmp(c, p)
  {
    hide Tokens, TokensCmp, Rejected;
    OneAndTwo();
    a, c := Repaired(p, [49]), Repaired(p, [50]);
    TokensCmpAntisymmetric(Tokens(p.epoch), Tokens(p.epoch));
    TokensCmpAntisymmetric(Tokens(p.version), Tokens(p.version));
    TokensCmpAntisymmetric(Tokens(p.release), Tokens(p.release));
    PackageCmpAntisymmetric(a, p);
    PackageCmpAntisymmetric(p, c);
    PackageCmpAntisymmetric(a, c);
  }

  /** All elements are accepted or the package p. */
  ghost predicate AcceptedOr(s: seq<NEVRA>, p: NEVRA) {
    forall i :: 0 <= i < |s| ==> AcceptedNEVRA(s[i]) || s[i] == p
  }

  /**
    Exactly which packages can be sorted together with any accepted ones: those
    whose epoch, version and release have no newline behind their leading junk.
   */
  lemma {:induction false} PackageIsOrderedIff(p: NEVRA)
    ensures AcceptedNEVRA(p) <==> forall s | AcceptedOr(s, p) :: StrictWeakOrder(|s|, PackageLessFn(s))
  {
    hide AcceptedNEVRA, PackageCmp;
    if AcceptedNEVRA(p) {
      forall s | AcceptedOr(s, p) ensures StrictWeakOrder(|s|, PackageLessFn(s)) {
        PackagesAreOrdered(s);
      }
    } else {
      var a, c := RejectedTies(p);
      var s := [a, p, c];
      var less := PackageLessFn(s);
      assert less(0, 2) && Tied(less, 0, 1) && Tied(less, 1, 2);
      assert AcceptedOr(s, p);
    }
  }

  /** Exactly which packages the comparison is transitive through, among accepted ones. */
  lemma {:induction false} PackageCmpTransitiveIff(b: NEVRA)
    ensures AcceptedNEVRA(b) <==>
      forall a, c | AcceptedNEVRA(a) && AcceptedNEVRA(c) && PackageCmp(c, b) <= 0 && PackageCmp(b, a) <= 0 ::
        PackageCmp(c, a) <= 0
  {
    hide AcceptedNEVRA, PackageCmp;
    if AcceptedNEVRA(b) {
      forall a, c | AcceptedNEVRA(a) && AcceptedNEVRA(c) && PackageCmp(c, b) <= 0 && PackageCmp(b, a) <= 0
        ensures PackageCmp(c, a) <= 0
      {
        PackageCmpTransitive(c, b, a);
      }
    } else {
      var a, c := RejectedTies(b);
    }
  }

  // ---- which field decides -------------------------------------------------

  /** Neither version is rejected, and both mean the same. */
  predicate SameMeaning(a: seq<byte>, b: seq<byte>) { !Rejected(a) && !Rejected(b) && Tokens(a) == Tokens(b) }

  /** A smaller epoch is older, whatever versions and releases are. */
  lemma {:induction false} EpochDecides(p: NEVRA, q: NEVRA, m: nat, n: nat)
    requires m < n
    ensures PackageCmp(p.(epoch := FormatUint(m)), q.(epoch := FormatUint(n))) == -1
    ensures PackageCmp(q.(epoch := FormatUint(n)), p.(epoch := FormatUint(m))) == 1
    ensures PackageLessFn([p.(epoch := FormatUint(m)), q.(epoch := FormatUint(n))])(0, 1)
  {
    hide VersionCmp, FormatUint;
    EpochsCompareByValue(m, n);
    EpochsCompareByValue(n, m);
    var s := [p.(epoch := FormatUint(m)), q.(epoch := FormatUint(n))];
    assert PackageLessFn(s)(0, 1) == (PackageCmp(s[0], s[1]) == -1);
  }

  /** With epochs that mean the same, the versions decide, whatever the releases are. */
  lemma {:induction false} VersionDecides(p: NEVRA, q: NEVRA)
    requires SameMeaning(p.epoch, q.epoch) && VersionCmp(p.version, q.version) != 0
    ensures PackageCmp(p, q) == VersionCmp(p.version, q.version)
  {
    TokensCmpAntisymmetric(Tokens(p.epoch), Tokens(q.epoch));
  }

  /** With epochs and versions that mean the same, the releases decide; name and architecture never do. */
  lemma {:induction false} ReleaseDecides(p: NEVRA, q: NEVRA)
    requires SameMeaning(p.epoch, q.epoch) && SameMeaning(p.version, q.version)
    ensures PackageCmp(p, q) == VersionCmp(p.release, q.release)
  {
    TokensCmpAntisymmetric(Tokens(p.epoch), Tokens(q.epoch));
    TokensCmpAntisymmetric(Tokens(p.version), Tokens(q.version));
  }

  /** Epoch 2, version 1 is newer than epoch 1, version 2. */
  lemma {:induction false} EpochBeatsVersion(p: NEVRA)
    ensures PackageCmp(p.(epoch := [50], version := [49]), p.(epoch := [49], version := [50])) == 1
  {
    EpochDecides(p.(version := [50]), p.(version := [49]), 1, 2);
  }

  /** The epoch of a header: 0 without an entry or with an empty one, otherwise the first value of an integer entry. */
  lemma {:induction false} EpochOfHeader(m: Header.Entries, v: seq<nat>, w: nat)
    ensures 1003 !in m ==> EpochValue(m) == Ok(0)
    ensures 1003 in m && (m[1003].dataType as int, w) in {(1, 1), (2, 1), (3, 2), (4, 4), (5, 8)}
            && m[1003].contents == HeaderGetters.EncodeInts(v, w) && (forall i :: 0 <= i < |v| ==> v[i] < Pow256(w))
            ==> EpochValue(m) == Ok(if v == [] then 0 else v[0])
    ensures 1003 in m && m[1003].dataType !in {1, 2, 3, 4, 5} ==> EpochValue(m) == Err(WrongType)
  {
    hide Pow256;
    HeaderGetters.GettersByType(m, 1003);
    if 1003 in m && (m[1003].dataType as int, w) in {(1, 1), (2, 1), (3, 2), (4, 4), (5, 8)}
       && m[1003].contents == HeaderGetters.EncodeInts(v, w) && (forall i :: 0 <= i < |v| ==> v[i] < Pow256(w)) {
      HeaderGetters.IntsAreDecoded(m, 1003, v, w);
    }
  }
}
