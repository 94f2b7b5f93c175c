/**
 What the sanitiser makes of texts as people write them: the numbers in a token are
 those in its text, ranges are ordered by them, and a version is found behind other
 words, inside "(MC: ...)", and nowhere else.
 */
module VersionTexts {
  import opened Basics
  import opened Text
  import opened VersionIdempotence
  import opened VersionInputs
  import opened VersionLabels
  import opened VersionRanges
  import opened Versions
  import SegmentNames

  // ---- Numbers ------------------------------------------------------------------------------

  predicate Digits(d: string) {
    d != [] && forall i :: 0 <= i < |d| ==> '0' <= d[i] <= '9'
  }

  /** The largest number a version may hold. */
  const LARGEST := 2147483647

  /** Reading the decimal writing of a number gives the number. */
  lemma {:induction false} DecimalIsNumber(n: nat)
    ensures Digits(SegmentNames.Decimal(n)) && NumberOf(SegmentNames.Decimal(n)) == n
  {
    var d := SegmentNames.Decimal(n);
    if n < 10 {
      assert d == [SegmentNames.Digit(n)] && d[..0] == [];
    } else {
      var front := SegmentNames.Decimal(n / 10);
      DecimalIsNumber(n / 10);
      assert d == front + [SegmentNames.Digit(n % 10)];
      assert d[..|d| - 1] == front;
    }
  }

  /** A leading zero does not change it. */
  lemma {:induction false} LeadingZero(d: string)
    ensures NumberOf("0" + d) == NumberOf(d)
  {
    if d == [] {
      assert "0" + d == "0" && "0"[..0] == [];
    } else {
      var front := d[..|d| - 1];
      assert ("0" + d)[..|d|] == "0" + front;
      LeadingZero(front);
    }
  }

  lemma ReadsNumber(d: string, t: string)
    requires Digits(d) && StartsNoDigit(t)
    ensures ParseNumber(d + t) == if NumberOf(d) > I32_MAX then None else Some(Number(NumberOf(d), |d|))
  {
    hide NumberOf;
    AllDigits(d, t);
    assert (d + t)[..|d|] == d;
  }

  // ---- Versions as text ----------------------------------------------------------------------

  /** What follows "1.minor" in a version: nothing, a patch number, or a wildcard. */
  datatype Tail = Bare | Numbered(patch: string) | Wild(x: char) {
    function Text(): string {
      match this
      case Bare => []
      case Numbered(p) => "." + p
      case Wild(x) => ['.', x]
    }

    function Parts(): seq<int> {
      match this
      case Numbered(p) => [NumberOf(p)]
      case _ => []
    }

    predicate WellFormed() {
      match this
      case Bare => true
      case Numbered(p) => Digits(p)
      case Wild(x) => x == 'x' || x == 'X'
    }

    predicate Fits() {
      Numbered? ==> NumberOf(patch) <= LARGEST
    }
  }

  function VersionText(m: string, tail: Tail): string {
    "1." + m + tail.Text()
  }

  function VersionParts(m: string, tail: Tail): seq<int> {
    [1, NumberOf(m)] + tail.Parts()
  }

  /** The label: the version without its wildcard. */
  function Label(m: string, tail: Tail): string {
    if tail.Wild? then "1." + m else VersionText(m, tail)
  }

  predicate WellFormed(m: string, tail: Tail) {
    Digits(m) && tail.WellFormed()
  }

  /** Its numbers are i32. */
  predicate Fits(m: string, tail: Tail) {
    NumberOf(m) <= LARGEST && tail.Fits()
  }

  /** No more of a number comes next. */
  predicate Ends(t: string) {
    t == [] || (!('0' <= t[0] <= '9') && t[0] != '.')
  }

  lemma HeadUnfolds(v: string, rest: string)
    requires |v| >= 2 && ParseNumber(v) == Some(Number(1, 1)) && v[1] == '.' && v[2..] == rest
    ensures ParseHead(v) == match ParseNumber(rest)
                            case None => None
                            case Some(n) => Some(Head(n.number, 2 + n.end))
  {
    hide ParseNumber;
  }

  lemma ReadsOne(rest: string)
    ensures ParseNumber("1" + ("." + rest)) == Some(Number(1, 1))
  {
    NumberOne();
    ReadsNumber("1", "." + rest);
  }

  lemma ReadsHead(m: string, t: string)
    requires Digits(m) && StartsNoDigit(t)
    ensures ParseHead("1." + m + t) ==
            if NumberOf(m) > I32_MAX then None else Some(Head(NumberOf(m), 2 + |m|))
  {
    hide NumberOf, ParseNumber, ParseHead, IsDigit;
    ReadsOne(m + t);
    ReadsNumber(m, t);
    AfterOneDot(m, t);
    HeadUnfolds("1" + ("." + (m + t)), m + t);
  }

  lemma AfterOneDot(m: string, t: string)
    ensures "1." + m + t == "1" + ("." + (m + t))
    ensures var v := "1" + ("." + (m + t)); |v| >= 2 && v[1] == '.' && v[2..] == m + t
  {
  }

  lemma NumberOne()
    ensures NumberOf("1") == 1
  {
    assert "1"[..0] == [];
  }

  lemma PatchUnfolds(v: string, rest: string)
    requires |v| > 1 && v[0] == '.' && IsDigit(v[1]) && v[1..] == rest
    ensures ParsePatch(v) == match ParseNumber(rest)
                             case None => None
                             case Some(n) => Some(Patch([n.number], 1 + n.end))
  {
    hide ParseNumber;
  }

  lemma AfterDot(p: string, t: string)
    requires p != []
    ensures var v := "." + p + t; |v| > 1 && v[0] == '.' && v[1] == p[0] && v[1..] == p + t
  {
  }

  lemma ReadsPatch(p: string, t: string)
    requires Digits(p) && StartsNoDigit(t)
    ensures StartsNoDigit("." + p + t)
    ensures ParsePatch("." + p + t) ==
            if NumberOf(p) <= I32_MAX then Some(Patch([NumberOf(p)], 1 + |p|)) else None
  {
    assert !IsDigit('.');
    hide NumberOf, ParseNumber, ParsePatch, IsDigit;
    AfterDot(p, t);
    ReadsNumber(p, t);
    PatchUnfolds("." + p + t, p + t);
  }

  lemma ReadsWildcard(x: char, t: string)
    requires IsX(x)
    ensures StartsNoDigit(['.', x] + t) && ParsePatch(['.', x] + t) == Some(Patch([], 2))
  {
    hide ParseNumber;
    var v := ['.', x] + t;
    assert v[0] == '.' && v[1] == x;
  }

  lemma ReadsTail(tail: Tail, t: string)
    requires tail.WellFormed() && Ends(t)
    ensures StartsNoDigit(tail.Text() + t)
    ensures ParsePatch(tail.Text() + t) ==
            if tail.Fits() then Some(Patch(tail.Parts(), |tail.Text()|)) else None
  {
    hide NumberOf, ParseNumber;
    match tail
    case Bare => assert [] + t == t;
    case Numbered(p) =>
      hide ParsePatch;
      ReadsPatch(p, t);
    case Wild(x) =>
      hide ParsePatch;
      ReadsWildcard(x, t);
  }

  lemma CoreUnfolds(v: string, minor: int, h: nat, rest: string)
    requires h <= |v| && ParseHead(v) == Some(Head(minor, h)) && v[h..] == rest
    ensures ParseCore(v) == match ParsePatch(rest)
                            case None => None
                            case Some(p) => Some(Core([1, minor] + p.parts, h + p.end))
  {
    hide ParseHead, ParsePatch;
  }

  lemma NoHeadNoCore(v: string)
    requires ParseHead(v) == None
    ensures ParseCore(v) == None
  {
  }

  /** The core of a version is read with exactly its numbers as parts, whatever comes
      next; it is not read at all when one of them is not an i32. */
  lemma ReadsCore(m: string, tail: Tail, t: string)
    requires WellFormed(m, tail) && Ends(t)
    ensures ParseCore(VersionText(m, tail) + t) ==
            if Fits(m, tail) then Some(Core(VersionParts(m, tail), |VersionText(m, tail)|)) else None
  {
    hide ParseHead, ParsePatch, ParseCore, NumberOf, IsDigit, Tail.Text, Tail.Parts;
    var rest := tail.Text() + t;
    AssociativeConcat("1." + m, tail.Text(), t);
    ReadsTail(tail, t);
    ReadsHead(m, rest);
    if NumberOf(m) <= I32_MAX {
      Cut("1." + m, rest);
      CoreUnfolds("1." + m + rest, NumberOf(m), 2 + |m|, rest);
    } else {
      NoHeadNoCore("1." + m + rest);
    }
  }

  // ---- Tokens ------------------------------------------------------------------------------------

  predicate LetterOrDigit(c: char) {
    '0' <= c <= '9' || 'a' <= c <= 'z' || 'A' <= c <= 'Z'
  }

  lemma LettersAndDigits()
    ensures forall c :: IsAlphanumeric(c) <==> LetterOrDigit(c)
  {
  }

  lemma VersionLabel(m: string, tail: Tail)
    requires WellFormed(m, tail)
    ensures TrimLabel(VersionText(m, tail)) == Label(m, tail)
    ensures !EndsInX(Label(m, tail)) && Label(m, tail) <= VersionText(m, tail)
  {
    hide TrimLabel, EndsInX;
    var front := "1." + m;
    assert front[|front| - 1] == m[|m| - 1];
    match tail
    case Bare =>
      assert VersionText(m, tail) == front;
      EndsInDigit(front);
      TrimFixed(front);
    case Numbered(p) =>
      var v := VersionText(m, tail);
      assert v[|v| - 1] == p[|p| - 1];
      EndsInDigit(v);
      TrimFixed(v);
    case Wild(x) =>
      EndsInDigit(front);
      TrimWildcard(front, x);
  }

  lemma Cut(v: string, t: string)
    ensures (v + t)[..|v|] == v && (v + t)[|v|..] == t && (t != [] ==> (v + t)[|v|] == t[0])
  {
  }

  /** A version that no letter, digit or suffix follows is a token: its label and its parts. */
  lemma ReadsToken(m: string, tail: Tail, t: string)
    requires WellFormed(m, tail) && Fits(m, tail) && Ends(t) && SuffixLength(t) == 0
    ensures if t != [] && LetterOrDigit(t[0]) then ParseToken(VersionText(m, tail) + t) == None
            else TokenIs(VersionText(m, tail) + t, Token(Label(m, tail), VersionParts(m, tail)), |VersionText(m, tail)|)
  {
    LettersAndDigits();
    hide ParseCore, ParseToken, SuffixLength, TrimLabel, IsAlphanumeric, LetterOrDigit, EndsInX, NumberOf, IsDigit;
    var v := VersionText(m, tail);
    ReadsCore(m, tail, t);
    Cut(v, t);
    TokenOfCore(v + t, VersionParts(m, tail), |v|);
    VersionLabel(m, tail);
  }

  lemma UnfitIsNoToken(m: string, tail: Tail, t: string)
    requires WellFormed(m, tail) && !Fits(m, tail) && Ends(t)
    ensures ParseToken(VersionText(m, tail) + t) == None
  {
    hide ParseCore, NumberOf;
    ReadsCore(m, tail, t);
  }

  const SUFFIXES := {"pre", "rc", "snapshot", "beta", "alpha"}

  /** The character is this lower-case letter or sign, or its capital. */
  predicate SameLetter(c: char, lower: char) {
    c == lower || ('A' <= c <= 'Z' && c as int + 32 == lower as int)
  }

  /** The text starts with these letters, in any case. */
  predicate SpelledAnyCase(w: string, k: string) {
    |k| <= |w| && forall i :: 0 <= i < |k| ==> SameLetter(w[i], k[i])
  }

  /** The text starts with one of the words for unfinished versions, in any case. */
  predicate IsSuffix(w: string) {
    exists k :: k in SUFFIXES && SpelledAnyCase(w, k)
  }

  /** Nothing in the text is a capital letter. */
  predicate NoCapitals(k: string) {
    forall i :: 0 <= i < |k| ==> !('A' <= k[i] <= 'Z')
  }

  lemma StartsInLowerCase(w: string, k: string)
    requires NoCapitals(k)
    ensures StartsWith(Lower(w), k) <==> SpelledAnyCase(w, k)
  {
    if StartsWith(Lower(w), k) {
      forall i | 0 <= i < |k| ensures SameLetter(w[i], k[i]) {
        assert k[i] == Lower(w)[i];
      }
    }
    if SpelledAnyCase(w, k) {
      forall i | 0 <= i < |k| ensures Lower(w)[i] == k[i] {
        assert SameLetter(w[i], k[i]);
      }
      assert Lower(w)[..|k|] == k;
    }
  }

  lemma SuffixesAreLowerCase()
    ensures forall k :: k in SUFFIXES ==> NoCapitals(k)
  {
  }

  lemma SuffixStarts(w: string)
    ensures StartsWithSuffix(w) <==> IsSuffix(w)
  {
    SuffixesAreLowerCase();
    hide Lower, SpelledAnyCase, NoCapitals;
    forall k | k in SUFFIXES ensures StartsWith(Lower(w), k) <==> SpelledAnyCase(w, k) {
      StartsInLowerCase(w, k);
    }
    assert forall k :: k in SUFFIXES <==> k == "pre" || k == "rc" || k == "snapshot" || k == "beta" || k == "alpha";
  }

  /** The characters that continue a suffix. */
  predicate Continues(c: char) {
    LetterOrDigit(c) || c == '.' || c == '-'
  }

  predicate AllSuffixChars(w: string) {
    forall i :: 0 <= i < |w| ==> Continues(w[i])
  }

  lemma {:induction false} RunStops(w: string, t: string)
    requires AllSuffixChars(w) && (t == [] || !Continues(t[0]))
    ensures RunLength(w + t) == |w|
  {
    if w == [] {
      assert w + t == t;
    } else {
      assert (w + t)[1..] == w[1..] + t;
      RunStops(w[1..], t);
    }
  }

  /** How far a suffix reaches: to the first character that is not alphanumeric, a dot
      or a dash; and there is one only behind a dash and one of the words. */
  lemma SuffixReaches(w: string, t: string)
    requires AllSuffixChars(w) && (t == [] || !Continues(t[0]))
    ensures SuffixLength("-" + w + t) == if IsSuffix(w + t) then 1 + |w| else 0
  {
    hide IsSuffixChar, Continues, StartsWithSuffix, IsSuffix;
    SuffixStarts(w + t);
    RunStops(w, t);
    assert ("-" + w + t)[1..] == w + t;
  }

  lemma NoDashNoSuffix(t: string)
    requires t == [] || t[0] != '-'
    ensures SuffixLength(t) == 0
  {
  }

  /** A version with a suffix is one token with the same parts. */
  lemma ReadsSuffixed(m: string, tail: Tail, w: string, t: string)
    requires WellFormed(m, tail) && Fits(m, tail) && AllSuffixChars(w) && IsSuffix(w + t)
    requires t == [] || !Continues(t[0])
    ensures var v := VersionText(m, tail) + ("-" + w);
            TokenIs(v + t, Token(TrimLabel(v), VersionParts(m, tail)), |v|)
  {
    hide ParseCore, ParseToken, SuffixLength, TrimLabel, IsSuffix, NumberOf;
    var core, v := VersionText(m, tail), VersionText(m, tail) + ("-" + w);
    assert v + t == core + ("-" + w + t);
    assert ("-" + w + t)[0] == '-';
    ReadsCore(m, tail, "-" + w + t);
    SuffixReaches(w, t);
    Cut(core, "-" + w + t);
    Cut(v, t);
    TokenOfCore(v + t, VersionParts(m, tail), |core|);
  }

  // ---- A version alone -------------------------------------------------------------------------

  lemma VersionIsOutput(m: string, tail: Tail)
    requires WellFormed(m, tail)
    ensures IsOutputText(VersionText(m, tail)) && VersionText(m, tail)[0] == '1'
  {
  }

  /** A version by itself comes back without its wildcard. */
  lemma VersionAlone(m: string, tail: Tail)
    requires WellFormed(m, tail) && Fits(m, tail)
    ensures Sanitize(VersionText(m, tail)) == Label(m, tail)
  {
    hide Sanitize, ParseToken, TrimLabel, SuffixLength, Fits, WellFormed, EndsInX;
    var v := VersionText(m, tail);
    NoDashNoSuffix([]);
    assert v + [] == v;
    ReadsToken(m, tail, []);
    VersionLabel(m, tail);
    VersionIsOutput(m, tail);
    hide VersionText;
    WholeTokenSanitizes(v, VersionParts(m, tail));
  }

  /** A version with a suffix comes back as it is, unless the suffix ends in a wildcard. */
  lemma SuffixedAlone(m: string, tail: Tail, w: string)
    requires WellFormed(m, tail) && Fits(m, tail) && AllSuffixChars(w) && IsSuffix(w)
    ensures var v := VersionText(m, tail) + ("-" + w);
            Sanitize(v) == TrimLabel(v) && (!EndsInX(v) ==> Sanitize(v) == v)
  {
    hide Sanitize, ParseToken, TrimLabel, EndsInX, Fits, IsSuffix;
    var v := VersionText(m, tail) + ("-" + w);
    assert v + [] == v && w + [] == w;
    ReadsSuffixed(m, tail, w, []);
    VersionIsOutput(m, tail);
    assert IsOutputText(v) && v[0] == '1';
    WholeTokenSanitizes(v, VersionParts(m, tail));
    TrimFixed(v);
  }

  // ---- Ranges ------------------------------------------------------------------------------------

  function PatchOf(tail: Tail): int {
    if tail.Numbered? then NumberOf(tail.patch) else 0
  }

  /** The first version comes after the second, by their numbers. */
  predicate After(m: string, tail: Tail, m': string, tail': Tail) {
    NumberOf(m) > NumberOf(m') || (NumberOf(m) == NumberOf(m') && PatchOf(tail) > PatchOf(tail'))
  }

  lemma ComparesNumbers(m: string, tail: Tail, m': string, tail': Tail)
    ensures CompareParts(VersionParts(m, tail), VersionParts(m', tail')) == Greater <==> After(m, tail, m', tail')
    ensures CompareParts(VersionParts(m, tail), VersionParts(m', tail')) == Less <==> After(m', tail', m, tail)
  {
    hide NumberOf;
    var a, b := VersionParts(m, tail), VersionParts(m', tail');
    assert CompareFrom(a, b, 3) == Equal;
    assert PartAt(a, 2) == PatchOf(tail) && PartAt(b, 2) == PatchOf(tail');
    assert CompareFrom(a, b, 2) == if Max(|a|, |b|) == 2 then Equal else CompareInts(PatchOf(tail), PatchOf(tail'));
    assert CompareFrom(a, b, 1) ==
           if NumberOf(m) == NumberOf(m') then CompareFrom(a, b, 2) else CompareInts(NumberOf(m), NumberOf(m'));
    assert CompareFrom(a, b, 0) == CompareFrom(a, b, 1);
  }

  lemma ReadsWhole(m: string, tail: Tail)
    requires WellFormed(m, tail) && Fits(m, tail)
    ensures var v := VersionText(m, tail);
            TokenIs(v, Token(Label(m, tail), VersionParts(m, tail)), |v|) && IsOutputText(v) && v[0] == '1'
  {
    hide ParseToken, TrimLabel, SuffixLength, Fits, NumberOf, VersionParts;
    NoDashNoSuffix([]);
    assert VersionText(m, tail) + [] == VersionText(m, tail);
    ReadsToken(m, tail, []);
    VersionIsOutput(m, tail);
  }

  lemma DashOne(v: string, w: string)
    requires v != [] && w != [] && w[0] == '1'
    ensures var t := "-" + w; t != [] && Ends(t) && !LetterOrDigit(t[0]) && SuffixLength(t) == 0
    ensures (v + "-" + w)[0] == v[0]
  {
    DashDigitIsNoSuffix(w);
    hide SuffixLength;
  }

  lemma IsDigitOne(w: string)
    requires IsOutputText(w)
    ensures forall i :: 0 <= i < |w| ==> IsSuffixChar(w[i])
    ensures w != [] && (w[0] == '1' ==> IsDigit(w[0]))
  {
  }

  lemma TwoVersionsSanitize(m: string, tail: Tail, m': string, tail': Tail)
    requires WellFormed(m, tail) && Fits(m, tail) && WellFormed(m', tail') && Fits(m', tail')
    ensures var a, b := Token(Label(m, tail), VersionParts(m, tail)), Token(Label(m', tail'), VersionParts(m', tail'));
            Sanitize(VersionText(m, tail) + "-" + VersionText(m', tail')) == FormatRange(a, b)
  {
    hide *;
    var v, w := VersionText(m, tail), VersionText(m', tail');
    ReadsWhole(m, tail);
    ReadsWhole(m', tail');
    IsDigitOne(v);
    IsDigitOne(w);
    UpperEnd(w, Token(Label(m', tail'), VersionParts(m', tail')));
    DashOne(v, w);
    ReadsToken(m, tail, "-" + w);
    RangeIsOutputText(v, w);
    Halves(v, w);
    TwoTokensSanitize(v + "-" + w, Token(Label(m, tail), VersionParts(m, tail)), |v|,
                      Token(Label(m', tail'), VersionParts(m', tail')));
  }

  /**
   A range of two versions is printed with the end first that has the smaller numbers;
   ends with the same numbers, a missing patch counting as zero, stay as they are, and
   become one if they are written alike.
   */
  lemma RangesAreOrdered(m: string, tail: Tail, m': string, tail': Tail)
    requires WellFormed(m, tail) && Fits(m, tail) && WellFormed(m', tail') && Fits(m', tail')
    ensures var a, b := Label(m, tail), Label(m', tail');
            Sanitize(VersionText(m, tail) + "-" + VersionText(m', tail')) ==
            if After(m, tail, m', tail') then b + "-" + a
            else if a == b then a
            else a + "-" + b
  {
    hide Sanitize, Fits, WellFormed, NumberOf, CompareParts;
    TwoVersionsSanitize(m, tail, m', tail');
    ComparesNumbers(m, tail, m', tail');
    if Label(m, tail) == Label(m', tail') {
      SameLabelSameNumbers(m, tail, m', tail');
    }
  }

  lemma SameLabelSameNumbers(m: string, tail: Tail, m': string, tail': Tail)
    requires WellFormed(m, tail) && Fits(m, tail) && WellFormed(m', tail') && Fits(m', tail')
    requires Label(m, tail) == Label(m', tail')
    ensures CompareParts(VersionParts(m, tail), VersionParts(m', tail')) == Equal
  {
    hide NumberOf, ParseCore, CompareParts;
    var bare := (t: Tail) => if t.Wild? then Bare else t;
    assert VersionText(m, bare(tail)) == Label(m, tail) && VersionText(m', bare(tail')) == Label(m', tail');
    assert VersionParts(m, bare(tail)) == VersionParts(m, tail);
    assert VersionParts(m', bare(tail')) == VersionParts(m', tail');
    ReadsCore(m, bare(tail), []);
    ReadsCore(m', bare(tail'), []);
    assert VersionParts(m, tail) == VersionParts(m', tail');
    EqualExactlyWhenPaddedAlike(VersionParts(m, tail), VersionParts(m', tail'));
  }

  /** The version with these numbers, in decimal. */
  function Numbers(m: nat, p: nat): string {
    "1." + SegmentNames.Decimal(m) + ("." + SegmentNames.Decimal(p))
  }

  /** So "1.m.p-1.m.q" is printed "1.m.q-1.m.p" for any q less than p. */
  lemma LowerPatchFirst(m: nat, p: nat, q: nat)
    requires m <= LARGEST && q < p <= LARGEST
    ensures Sanitize(Numbers(m, p) + "-" + Numbers(m, q)) == Numbers(m, q) + "-" + Numbers(m, p)
  {
    DecimalIsNumber(m);
    DecimalIsNumber(p);
    DecimalIsNumber(q);
    hide Sanitize, NumberOf, IsDigit, SegmentNames.Decimal;
    var d, high, low := SegmentNames.Decimal(m), SegmentNames.Decimal(p), SegmentNames.Decimal(q);
    RangesAreOrdered(d, Numbered(high), d, Numbered(low));
  }

  // ---- Versions inside other text ------------------------------------------------------------------

  /** Normalised text in which no parenthesis opens is searched as it is. */
  lemma NoParenthesis(t: string)
    requires IsNormal(t) && '(' !in t
    ensures Sanitize(t) == SanitizePlain(t)
  {
    hide SanitizePlain, IsNormal, FindToken;
    NormalStays(t);
    assert '(' !in Lower(t) by {
      forall i | 0 <= i < |t| ensures Lower(t)[i] != '(' {
        assert t[i] in t;
      }
    }
    NotFound(Lower(t), "(mc:");
    NothingFound();
  }

  lemma NothingFound()
    ensures SanitizePlain([]) == []
  {
  }

  predicate NotGlued(pre: string) {
    pre == [] || (!LetterOrDigit(pre[|pre| - 1]) && pre[|pre| - 1] != '.')
  }

  lemma {:induction false} NoTokenBefore(t: string, i: nat, n: nat)
    requires i <= n <= |t| && forall j :: i <= j < n ==> t[j] != '1' || !BoundaryBefore(t, j)
    ensures FindToken(t, i) == FindToken(t, n)
    decreases n - i
  {
    hide ParseToken;
    if i < n {
      NoTokenBefore(t, i + 1, n);
    }
  }

  /** A version is found behind other text in which no "1" stands, unless it is glued to it. */
  lemma FoundBehind(pre: string, v: string, token: Token, n: nat)
    requires '1' !in pre && NotGlued(pre) && v != [] && v[0] == '1' && TokenIs(v, token, n)
    ensures FindToken(pre + v, 0) == Some(Found(token, |pre|, |pre| + n))
  {
    LettersAndDigits();
    hide ParseToken, IsAlphanumeric, LetterOrDigit;
    var t := pre + v;
    forall j | 0 <= j < |pre| ensures t[j] != '1' {
      assert t[j] in pre;
    }
    NoTokenBefore(t, 0, |pre|);
    Cut(pre, v);
    assert pre != [] ==> t[|pre| - 1] == pre[|pre| - 1];
  }

  function AfterFirst(first: Token, rest: string): string {
    match SecondToken(rest)
    case None => first.text
    case Some(second) => FormatRange(first, second)
  }

  lemma PlainUnfolds(t: string, f: Found, rest: string)
    requires FindToken(t, 0) == Some(f) && f.end <= |t| && t[f.end..] == rest
    ensures SanitizePlain(t) == AfterFirst(f.token, rest)
  {
    hide FindToken, SecondToken, FormatRange;
  }

  lemma BehindBoth(pre: string, v: string, n: nat)
    requires n <= |v|
    ensures |pre| + n <= |pre + v| && (pre + v)[|pre| + n..] == v[n..]
  {
  }

  lemma FoundAtStart(v: string, token: Token, n: nat)
    requires v != [] && v[0] == '1' && TokenIs(v, token, n)
    ensures n <= |v| && FindToken(v, 0) == Some(Found(token, 0, n))
  {
    FoundAtOnce(v, token, n);
    hide ParseCore, FindToken;
  }

  lemma PlainBehind(pre: string, v: string, token: Token, n: nat)
    requires '1' !in pre && NotGlued(pre) && v != [] && v[0] == '1' && TokenIs(v, token, n)
    ensures SanitizePlain(pre + v) == SanitizePlain(v)
  {
    hide *;
    FoundBehind(pre, v, token, n);
    FoundAtStart(v, token, n);
    BehindBoth(pre, v, n);
    PlainUnfolds(pre + v, Found(token, |pre|, |pre| + n), v[n..]);
    PlainUnfolds(v, Found(token, 0, n), v[n..]);
  }

  /** So words in front of a version do not change what is found. */
  lemma WordsInFront(pre: string, v: string)
    requires IsNormal(pre + v) && '(' !in pre + v && IsNormal(v)
    requires '1' !in pre && NotGlued(pre) && v != [] && v[0] == '1' && ParseToken(v).Some?
    ensures Sanitize(pre + v) == Sanitize(v)
  {
    hide ParseToken, SanitizePlain, IsNormal, NotGlued;
    assert forall c :: c in v ==> c in pre + v;
    NoParenthesis(pre + v);
    NoParenthesis(v);
    PlainBehind(pre, v, ParseToken(v).value.token, ParseToken(v).value.end);
  }

  /** A version is letters, digits and dots. */
  lemma VersionChars(m: string, tail: Tail, i: nat)
    requires WellFormed(m, tail) && i < |VersionText(m, tail)|
    ensures var c := VersionText(m, tail)[i]; LetterOrDigit(c) || c == '.'
  {
  }

  lemma NeverABoundary(c: char, m: string, tail: Tail, j: nat)
    requires WellFormed(m, tail) && (LetterOrDigit(c) || c == '.')
    requires 0 < j <= |VersionText(m, tail)|
    ensures !BoundaryBefore([c] + VersionText(m, tail), j)
  {
    LettersAndDigits();
    if j > 1 {
      VersionChars(m, tail, j - 2);
    }
    hide VersionText, IsAlphanumeric, LetterOrDigit;
    assert ([c] + VersionText(m, tail))[j - 1] == if j == 1 then c else VersionText(m, tail)[j - 2];
  }

  lemma GluedIsOutput(c: char, m: string, tail: Tail)
    requires WellFormed(m, tail) && (LetterOrDigit(c) || c == '.')
    ensures IsOutputText([c] + VersionText(m, tail))
  {
    VersionIsOutput(m, tail);
    hide VersionText;
  }

  lemma GluedStartsNone(c: char, m: string, tail: Tail)
    ensures !TokenStarts([c] + VersionText(m, tail), 0)
  {
    hide ParseToken, BoundaryBefore, Tail.Text;
    var t := [c] + VersionText(m, tail);
    assert t[0] == c && t[0..] == t;
    if c == '1' {
      ElevenIsNoMajor(m + tail.Text());
      OneMore(m, tail.Text());
    }
  }

  lemma OneMore(m: string, rest: string)
    ensures ['1'] + ("1." + m + rest) == "11." + (m + rest)
  {
  }

  /** A version glued to a letter, a digit or a dot in front of it is none. */
  lemma GluedIsNone(c: char, m: string, tail: Tail)
    requires WellFormed(m, tail) && (LetterOrDigit(c) || c == '.')
    ensures Sanitize([c] + VersionText(m, tail)) == []
  {
    hide *;
    var t := [c] + VersionText(m, tail);
    forall j | 0 < j <= |VersionText(m, tail)| ensures t[j] != '1' || !BoundaryBefore(t, j) {
      NeverABoundary(c, m, tail, j);
    }
    GluedIsOutput(c, m, tail);
    OutputIsPlain(t);
    GluedStartsNone(c, m, tail);
    NoTokenBefore(t, 1, |t|);
    NoneFound(t);
  }

  lemma NoneFound(t: string)
    requires t != [] && !TokenStarts(t, 0) && FindToken(t, 1) == FindToken(t, |t|)
    ensures SanitizePlain(t) == []
  {
    hide TokenStarts;
  }

  lemma ElevenIsNoMajor(rest: string)
    ensures ParseToken("11." + rest) == None
  {
    var v := "11." + rest;
    assert v == "11" + ("." + rest);
    AllDigits("11", "." + rest);
    NumberOfShort("11");
    assert v[..2] == "11";
  }

  /** A letter right behind a version makes it none. */
  lemma LetterBehindIsNone(m: string, tail: Tail, c: char, rest: string)
    requires WellFormed(m, tail) && LetterOrDigit(c) && !('0' <= c <= '9')
    ensures ParseToken(VersionText(m, tail) + ([c] + rest)) == None
  {
    hide NumberOf, ParseToken, SuffixLength, ParseCore;
    NoDashNoSuffix([c] + rest);
    if Fits(m, tail) {
      ReadsToken(m, tail, [c] + rest);
    } else {
      UnfitIsNoToken(m, tail, [c] + rest);
    }
  }

  // ---- "(MC: ...)" ------------------------------------------------------------------------------------

  lemma {:induction false} FindsBehind(a: string, what: string, rest: string)
    requires what != [] && what[0] !in a
    ensures Find(a + (what + rest), what) == Some(|a|)
  {
    if a == [] {
      assert a + (what + rest) == what + rest;
    } else {
      var s := a + (what + rest);
      assert s[0] == a[0] && a[0] in a;
      assert s[1..] == a[1..] + (what + rest);
      FindsBehind(a[1..], what, rest);
    }
  }

  lemma LowerOfConcat(a: string, b: string)
    ensures Lower(a + b) == Lower(a) + Lower(b)
  {
  }

  lemma LowerKeepsParenthesis(a: string)
    requires '(' !in a
    ensures '(' !in Lower(a)
  {
    forall i | 0 <= i < |a| ensures Lower(a)[i] != '(' {
      assert a[i] in a;
    }
  }

  lemma MarkInLowerCase(mark: string)
    requires |mark| == 4 && SpelledAnyCase(mark, "(mc:")
    ensures Lower(mark) == "(mc:"
  {
    StartsInLowerCase(mark, "(mc:");
  }

  /** The parenthetical of "(MC: body)", in any case, is the body, trimmed. */
  lemma ParentheticalIsBody(a: string, mark: string, body: string, b: string)
    requires '(' !in a && |mark| == 4 && SpelledAnyCase(mark, "(mc:") && ')' !in body
    ensures ExtractMc(a + (mark + (body + (")" + b)))) == Some(Trim(body))
  {
    MarkInLowerCase(mark);
    hide Lower, Trim, Find, SpelledAnyCase;
    var rest := body + (")" + b);
    var t := a + (mark + rest);
    LowerOfConcat(a, mark + rest);
    LowerOfConcat(mark, rest);
    LowerKeepsParenthesis(a);
    FindsBehind(Lower(a), "(mc:", Lower(rest));
    assert t[|a| + 4..] == rest;
    FindsBehind(body, ")", b);
    Cut(body, ")" + b);
  }

  /** So a version in such a parenthetical wins over everything around it. */
  lemma ParentheticalWins(a: string, mark: string, body: string, b: string)
    requires '(' !in a && |mark| == 4 && SpelledAnyCase(mark, "(mc:") && ')' !in body
    requires IsNormal(a + (mark + (body + (")" + b))))
    requires Sanitize(Trim(body)) != []
    ensures Sanitize(a + (mark + (body + (")" + b)))) == Sanitize(Trim(body))
  {
    hide *;
    var t := a + (mark + (body + (")" + b)));
    NormalStays(t);
    ParentheticalIsBody(a, mark, body, b);
    NotEmpty(a, mark, body, b);
    SanitizeUnfolds(t, Trim(body));
  }

  lemma NotEmpty(a: string, mark: string, body: string, b: string)
    ensures a + (mark + (body + (")" + b))) != []
  {
    assert |a + (mark + (body + (")" + b)))| > 0;
  }

  lemma SanitizeUnfolds(t: string, mc: string)
    requires t != [] && Normalize(t) == t && ExtractMc(t) == Some(mc) && Sanitize(mc) != []
    ensures Sanitize(t) == Sanitize(mc)
  {
    hide Normalize, ExtractMc, SanitizePlain;
  }

  // ---- Text without a version ----------------------------------------------------------------------------

  lemma PieceHasNoOne(s: string, t: string, i: nat)
    requires PieceAt(s, t, i) && '1' !in t
    ensures '1' !in s
  {
    forall j | 0 <= j < |s| ensures s[j] != '1' {
      assert t[i + j] in t;
    }
  }

  lemma PlainWithoutOne(t: string)
    requires '1' !in t
    ensures SanitizePlain(t) == []
  {
    hide ParseToken;
    NoTokenBefore(t, 0, |t|);
  }

  /** Text without a "1" has no version, in parentheses or out of them. */
  lemma {:induction false} WithoutOne(t: string)
    requires IsNormal(t) && '1' !in t
    ensures Sanitize(t) == []
    decreases |t|
  {
    hide IsNormal, Normalize, ExtractMc, SanitizePlain, PieceAt, Trimmed;
    NormalStays(t);
    PlainWithoutOne(t);
    if ExtractMc(t).Some? {
      var i := ExtractedIsPiece(t);
      PieceIsNormal(ExtractMc(t).value, t, i);
      PieceHasNoOne(ExtractMc(t).value, t, i);
      WithoutOne(ExtractMc(t).value);
    }
  }

  // ---- Normalising ---------------------------------------------------------------------------------------

  /** A section sign goes, and with it whatever character follows. */
  lemma {:induction false} SignTakesTwo(a: string, c: char, b: string)
    requires '\U{A7}' !in a
    ensures StripCodes(a + (['\U{A7}', c] + b)) == a + StripCodes(b)
  {
    if a == [] {
      assert a + (['\U{A7}', c] + b) == ['\U{A7}', c] + b;
      assert (['\U{A7}', c] + b)[2..] == b;
      assert [] + StripCodes(b) == StripCodes(b);
    } else {
      assert a[0] in a;
      assert (a + (['\U{A7}', c] + b))[1..] == a[1..] + (['\U{A7}', c] + b);
      SignTakesTwo(a[1..], c, b);
      assert a == [a[0]] + a[1..];
      AssociativeConcat([a[0]], a[1..], StripCodes(b));
    }
  }

  lemma {:induction false} WordThenSpace(w: string, rest: string)
    requires (forall i :: 0 <= i < |w| ==> !IsWhitespace(w[i])) && (rest == [] || IsWhitespace(rest[0]))
    ensures WordLength(w + rest) == |w|
  {
    hide IsWhitespace;
    if w == [] {
      assert w + rest == rest;
    } else {
      assert (w + rest)[1..] == w[1..] + rest;
      WordThenSpace(w[1..], rest);
    }
  }

  /** Text free of white space is one word. */
  lemma WholeWord(w: string)
    requires IsWord(w)
    ensures Words(w) == [w]
  {
    hide IsWhitespace;
    assert w + [] == w;
    WordThenSpace(w, []);
    OneWordOnly(w);
  }

  /** And white space ends a word. */
  lemma WordsAroundSpace(w: string, c: char, rest: string)
    requires IsWhitespace(c) && IsWord(w)
    ensures Words([c] + rest) == Words(rest)
    ensures Words(w + ([c] + rest)) == [w] + Words(rest)
  {
    hide IsWhitespace;
    assert ([c] + rest)[1..] == rest;
    WordThenSpace(w, [c] + rest);
    Cut(w, [c] + rest);
    FirstWordOf(w + ([c] + rest), |w|);
    assert (w + ([c] + rest))[|w| + 1..] == rest;
  }
}
