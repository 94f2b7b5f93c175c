/**
 Inputs on which sanitising is idempotent: a condition on the normalised text that
 can be checked before the call.
 */
module VersionInputs {
  import opened Basics
  import opened Text
  import opened VersionIdempotence
  import opened VersionLabels
  import opened Versions

  // ---- Normal form ---------------------------------------------------------------------

  predicate IsSpaced(t: string, i: nat)
    requires i < |t|
  {
    IsWhitespace(t[i]) ==> t[i] == ' ' && (i + 1 < |t| ==> !IsWhitespace(t[i + 1]))
  }

  /** No section sign, and single spaces for white space, none at the ends. */
  predicate IsNormal(t: string) {
    && (forall i :: 0 <= i < |t| ==> t[i] != SECTION_SIGN && IsSpaced(t, i))
    && Trimmed(t)
  }

  /** Nothing to trim. */
  predicate Trimmed(t: string) {
    t == [] || (!IsWhitespace(t[0]) && !IsWhitespace(t[|t| - 1]))
  }

  predicate NoSign(t: string) {
    forall i :: 0 <= i < |t| ==> t[i] != SECTION_SIGN
  }

  lemma {:induction false} StrippedHasNoSign(raw: string)
    ensures NoSign(StripCodes(raw))
    decreases |raw|
  {
    if raw == [] {
    } else if raw[0] == SECTION_SIGN {
      if |raw| > 1 {
        StrippedHasNoSign(raw[2..]);
      }
    } else {
      StrippedHasNoSign(raw[1..]);
    }
  }

  predicate CleanWord(w: string) {
    IsWord(w) && NoSign(w)
  }

  lemma {:induction false} CleanWords(s: string)
    requires NoSign(s)
    ensures forall w :: w in Words(s) ==> CleanWord(w)
    decreases |s|
  {
    if s != [] {
      if IsWhitespace(s[0]) {
        CleanWords(s[1..]);
      } else {
        var n := WordLength(s);
        WordIsWord(s);
        CleanWords(s[n..]);
      }
    }
  }

  lemma {:induction false} JoinedIsNormal(words: seq<string>)
    requires forall w :: w in words ==> CleanWord(w)
    ensures IsNormal(Join(words, " ")) && (words != [] ==> Join(words, " ") != [])
  {
    if words == [] {
    } else if |words| == 1 {
      assert words[0] in words;
    } else {
      assert words[0] in words;
      JoinedIsNormal(words[1..]);
      WordThenNormal(words[0], Join(words[1..], " "));
    }
  }

  lemma WordThenNormal(w: string, rest: string)
    requires CleanWord(w) && IsNormal(rest) && rest != []
    ensures IsNormal(w + " " + rest)
  {
    var t := w + " " + rest;
    assert t[|w|] == ' ';
    forall i | 0 <= i < |t| ensures t[i] != SECTION_SIGN && IsSpaced(t, i) {
      if i < |w| {
        assert t[i] == w[i];
      } else if i == |w| {
        assert t[i + 1] == rest[0];
      } else {
        assert t[i] == rest[i - |w| - 1] && IsSpaced(rest, i - |w| - 1);
        assert i + 1 < |t| ==> t[i + 1] == rest[i - |w|];
      }
    }
    assert t[0] == w[0] && t[|t| - 1] == rest[|rest| - 1];
  }

  lemma NormalizedIsNormal(raw: string)
    ensures IsNormal(Normalize(raw))
  {
    StrippedHasNoSign(raw);
    CleanWords(StripCodes(raw));
    JoinedIsNormal(Words(StripCodes(raw)));
  }

  // ---- Normal text is its own normal form -------------------------------------------------

  lemma {:induction false} NoSignUnstripped(t: string)
    requires NoSign(t)
    ensures StripCodes(t) == t
  {
    if t != [] {
      NoSignUnstripped(t[1..]);
    }
  }

  lemma SuffixIsSpaced(t: string, n: nat)
    requires IsNormal(t) && n < |t| && !IsWhitespace(t[n])
    ensures IsNormal(t[n..])
  {
    forall i | 0 <= i < |t[n..]| ensures t[n..][i] != SECTION_SIGN && IsSpaced(t[n..], i) {
      assert IsSpaced(t, n + i);
    }
  }

  lemma FirstWordOf(t: string, n: nat)
    requires t != [] && !IsWhitespace(t[0]) && n == WordLength(t) < |t| && IsWhitespace(t[n])
    ensures Words(t) == [t[..n]] + Words(t[n + 1..])
  {
    hide IsWhitespace;
    assert t[n..][1..] == t[n + 1..] && t[n..][0] == t[n];
  }

  lemma OneWordOnly(t: string)
    requires t != [] && !IsWhitespace(t[0]) && WordLength(t) == |t|
    ensures Words(t) == [t]
  {
    hide IsWhitespace;
    assert t[..|t|] == t && t[|t|..] == [];
    assert [t] + [] == [t];
  }

  lemma JoinCons(w: string, words: seq<string>)
    requires words != []
    ensures Join([w] + words, " ") == w + " " + Join(words, " ")
  {
    assert ([w] + words)[1..] == words;
  }

  lemma {:induction false} WordsOfNormal(t: string)
    requires IsNormal(t)
    ensures Join(Words(t), " ") == t && (t != [] ==> Words(t) != [])
    decreases |t|
  {
    hide IsWhitespace, IsSpaced, WordLength, Words, Join;
    if t == [] {
      NoWords();
    } else {
      var n := WordLength(t);
      WordEnds(t);
      if n == |t| {
        OneWordOnly(t);
        JoinOne(t);
      } else {
        FirstGap(t, n);
        var rest := t[n + 1..];
        SuffixIsSpaced(t, n + 1);
        WordsOfNormal(rest);
        FirstWordOf(t, n);
        JoinCons(t[..n], Words(rest));
        assert t == t[..n] + " " + rest;
      }
    }
  }

  lemma NoWords()
    ensures Words([]) == [] && Join([], " ") == []
  {
  }

  lemma JoinOne(w: string)
    ensures Join([w], " ") == w
  {
  }

  lemma FirstGap(t: string, n: nat)
    requires IsNormal(t) && n < |t| && IsWhitespace(t[n])
    ensures t[n] == ' ' && n + 1 < |t| && !IsWhitespace(t[n + 1])
  {
    assert IsSpaced(t, n);
  }

  /** Normalising is idempotent. */
  lemma NormalizeTwice(raw: string)
    ensures Normalize(Normalize(raw)) == Normalize(raw)
  {
    NormalizedIsNormal(raw);
    NormalStays(Normalize(raw));
  }

  lemma NormalStays(t: string)
    requires IsNormal(t)
    ensures Normalize(t) == t
  {
    NoSignUnstripped(t);
    WordsOfNormal(t);
  }

  // ---- Parentheticals are pieces of the text ------------------------------------------------

  /** s is the piece of t that starts at i. */
  predicate PieceAt(s: string, t: string, i: nat) {
    i + |s| <= |t| && s == t[i..i + |s|]
  }

  lemma TrimIsPiece(s: string) returns (i: nat)
    ensures PieceAt(Trim(s), s, i)
  {
    i := |s| - |TrimStart(s)|;
  }

  lemma {:induction false} TrimmedStart(s: string)
    ensures TrimStart(s) == [] || !IsWhitespace(TrimStart(s)[0])
  {
    hide IsWhitespace;
    if s != [] && IsWhitespace(s[0]) {
      TrimmedStart(s[1..]);
    }
  }

  lemma {:induction false} TrimmedEnd(s: string)
    ensures TrimEnd(s) == [] || !IsWhitespace(TrimEnd(s)[|TrimEnd(s)| - 1])
  {
    hide IsWhitespace;
    if s != [] && IsWhitespace(s[|s| - 1]) {
      TrimmedEnd(s[..|s| - 1]);
    }
  }

  lemma TrimTrims(s: string)
    ensures Trimmed(Trim(s))
  {
    hide IsWhitespace;
    TrimmedStart(s);
    TrimmedEnd(TrimStart(s));
    assert TrimEnd(TrimStart(s)) <= TrimStart(s);
  }

  lemma PieceOfPiece(s: string, t: string, i: nat, u: string, j: nat)
    requires PieceAt(s, t, i) && PieceAt(t, u, j)
    ensures PieceAt(s, u, j + i)
  {
    SliceOfSlice(u, j, |t|, i, |s|);
  }

  lemma SliceOfSlice(u: string, j: nat, n: nat, i: nat, m: nat)
    requires j + n <= |u| && i + m <= n
    ensures u[j..j + n][i..i + m] == u[j + i..j + i + m]
  {
    var a, b := u[j..j + n][i..i + m], u[j + i..j + i + m];
    forall k | 0 <= k < |a| ensures a[k] == b[k] {
      assert a[k] == u[j..j + n][i + k];
    }
  }

  lemma ExtractedFrom(t: string) returns (start: nat, end: nat)
    requires ExtractMc(t).Some?
    ensures start + 4 + end <= |t| && ExtractMc(t).value == Trim(t[start + 4..][..end])
  {
    hide Lower, Trim;
    start := Find(Lower(t), "(mc:").value;
    end := Find(t[start + 4..], ")").value;
  }

  lemma InnerIsPiece(t: string, a: nat, n: nat)
    requires a + n <= |t|
    ensures PieceAt(t[a..][..n], t, a)
  {
  }

  lemma ExtractedIsPiece(t: string) returns (i: nat)
    requires ExtractMc(t).Some?
    ensures Trimmed(ExtractMc(t).value) && PieceAt(ExtractMc(t).value, t, i)
  {
    hide *;
    var start, end := ExtractedFrom(t);
    InnerIsPiece(t, start + 4, end);
    TrimTrims(t[start + 4..][..end]);
    i := TrimIsPiece(t[start + 4..][..end]);
    PieceOfPiece(Trim(t[start + 4..][..end]), t[start + 4..][..end], i, t, start + 4);
    i := start + 4 + i;
  }

  lemma PieceIsNormal(s: string, t: string, i: nat)
    requires IsNormal(t) && PieceAt(s, t, i) && Trimmed(s)
    ensures IsNormal(s)
  {
    forall k | 0 <= k < |s| ensures s[k] != SECTION_SIGN && IsSpaced(s, k) {
      assert IsSpaced(t, i + k) && s[k] == t[i + k];
      assert k + 1 < |s| ==> s[k + 1] == t[i + k + 1];
    }
  }

  // ---- The condition -------------------------------------------------------------------------

  /** No capital X, and no zero directly behind a dash or a space. */
  predicate Tame(t: string) {
    && (forall i :: 0 <= i < |t| ==> t[i] != 'X')
    && (forall i :: 0 < i < |t| && (t[i - 1] == '-' || t[i - 1] == ' ') ==> t[i] != '0')
  }

  lemma PieceIsTame(s: string, t: string, i: nat)
    requires Tame(t) && PieceAt(s, t, i)
    ensures Tame(s)
  {
    forall k | 0 <= k < |s| ensures s[k] != 'X' && (k > 0 && (s[k - 1] == '-' || s[k - 1] == ' ') ==> s[k] != '0') {
      assert s[k] == t[i + k] && (k > 0 ==> s[k - 1] == t[i + k - 1]);
    }
  }

  lemma {:induction false} NumberAtLeast(d: string)
    requires d != [] && forall i :: 0 <= i < |d| ==> IsDigit(d[i])
    ensures NumberOf(d) >= d[0] as int - '0' as int
  {
    if |d| > 1 {
      var front := d[..|d| - 1];
      assert front[0] == d[0];
      NumberAtLeast(front);
    }
  }

  /** A token that does not start with a zero starts with "1". */
  lemma NoLeadingZero(v: string)
    requires ParseToken(v).Some? && v[0] != '0'
    ensures v[0] == '1'
  {
    TokenHasCore(v);
    CoreParts(v);
    MajorIsOne(v);
    var n := DigitsLength(v);
    var d := v[..n];
    forall i | 0 <= i < n ensures IsDigit(d[i]) {
      DigitsAre(v, i);
    }
    NumberAtLeast(d);
    assert d[0] == v[0] && IsDigit(d[0]);
  }

  lemma MajorIsOne(v: string)
    requires ParseHead(v).Some?
    ensures DigitsLength(v) > 0 && NumberOf(v[..DigitsLength(v)]) == 1
  {
  }

  lemma {:induction false} TrimEndEnds(s: string, end: string)
    requires end != []
    ensures !EndsWith(TrimEndMatches(s, end), end)
  {
    if EndsWith(s, end) {
      TrimEndEnds(s[..|s| - |end|], end);
    }
  }

  /** Without a capital X, a trimmed label ends in neither wildcard. */
  lemma TrimLeavesNoX(s: string)
    requires forall i :: 0 <= i < |s| ==> s[i] != 'X'
    ensures !EndsInX(TrimLabel(s))
  {
    var once := TrimEndMatches(s, ".x");
    TrimEndEnds(s, ".x");
    NoCapitalEnd(once);
  }

  lemma NoCapitalEnd(s: string)
    requires forall i :: 0 <= i < |s| ==> s[i] != 'X'
    ensures !EndsWith(s, ".X") && TrimEndMatches(s, ".X") == s
  {
    if |s| >= 2 {
      assert s[|s| - 2..][1] == s[|s| - 1] != ".X"[1];
    }
  }

  lemma TameLabel(v: string)
    requires ParseToken(v).Some? && forall i :: 0 <= i < |v| ==> v[i] != 'X'
    ensures !EndsInX(ParseToken(v).value.token.text)
  {
    var end := ParseToken(v).value.end;
    LabelIsTrimmed(v);
    TrimLeavesNoX(v[..end]);
  }

  lemma LabelIsTrimmed(v: string)
    requires ParseToken(v).Some?
    ensures ParseToken(v).value.token.text == TrimLabel(v[..ParseToken(v).value.end])
  {
    hide ParseCore, SuffixLength, TrimLabel, IsAlphanumeric;
    TokenHasCore(v);
  }

  lemma DashOf(rest: string)
    requires SecondToken(rest).Some?
    ensures var trimmed := TrimStart(rest);
            && trimmed != [] && trimmed[0] == '-' && ParseToken(TrimStart(trimmed[1..])).Some?
            && SecondToken(rest).value == ParseToken(TrimStart(trimmed[1..])).value.token
  {
    hide ParseToken, TrimStart;
  }

  lemma TrimsOne(s: string)
    ensures TrimStart(s) == if s != [] && IsWhitespace(s[0]) then TrimStart(s[1..]) else s
  {
    hide IsWhitespace;
  }

  /** Trimming a suffix leaves a later suffix, and skips only white space. */
  lemma {:induction false} TrimmedFrom(t: string, from: nat) returns (at: nat)
    requires from <= |t|
    ensures from <= at <= |t| && TrimStart(t[from..]) == t[at..] && (at > from ==> IsWhitespace(t[at - 1]))
    decreases |t| - from
  {
    hide IsWhitespace, TrimStart;
    TrimsOne(t[from..]);
    if from < |t| {
      FirstAndRest(t, from);
    }
    if from < |t| && IsWhitespace(t[from]) {
      at := TrimmedFrom(t, from + 1);
    } else {
      at := from;
    }
  }

  lemma BehindTheDash(t: string, d: nat) returns (at: nat)
    requires IsNormal(t) && d < |t| && t[d] == '-'
    ensures d < at <= |t| && TrimStart(t[d + 1..]) == t[at..] && (t[at - 1] == '-' || t[at - 1] == ' ')
  {
    hide *;
    at := TrimmedFrom(t, d + 1);
    if at - 1 > d {
      SpaceIsSpace(t, at - 1);
    }
  }

  /** What the second token of a range is parsed from. */
  lemma SecondIsBehindTheDash(t: string, from: nat) returns (at: nat)
    requires IsNormal(t) && from <= |t| && SecondToken(t[from..]).Some?
    ensures 0 < at < |t| && ParseToken(t[at..]).Some? && (t[at - 1] == '-' || t[at - 1] == ' ')
    ensures SecondToken(t[from..]).value == ParseToken(t[at..]).value.token
  {
    hide *;
    DashOf(t[from..]);
    var d := TrimmedFrom(t, from);
    FirstAndRest(t, d);
    at := BehindTheDash(t, d);
    TokenIsNotEmpty(t[at..]);
  }

  lemma FirstAndRest(t: string, d: nat)
    requires d < |t|
    ensures t[d..][0] == t[d] && t[d..][1..] == t[d + 1..]
  {
  }

  lemma SpaceIsSpace(t: string, i: nat)
    requires IsNormal(t) && i < |t| && IsWhitespace(t[i])
    ensures t[i] == ' '
  {
    assert IsSpaced(t, i);
  }

  lemma TokenIsNotEmpty(v: string)
    requires ParseToken(v).Some?
    ensures v != []
  {
  }

  lemma PlainTameSettles(t: string)
    requires IsNormal(t) && Tame(t)
    ensures Settled(SanitizePlain(t))
  {
    hide ParseToken, BoundaryBefore, TrimLabel, TokenIs;
    if FindToken(t, 0).Some? {
      FindTokenMeans(t, 0);
      FoundIsLabel(t);
      var f := FindToken(t, 0).value;
      FoundIsParsed(t);
      TameLabel(t[f.start..]);
      if SecondToken(t[f.end..]).Some? {
        var at := SecondIsBehindTheDash(t, f.end);
        NoLeadingZero(t[at..]);
        TameLabel(t[at..]);
        SecondStartsWithOne(t[at..]);
        RangeSettled(f.token, ParseToken(t[at..]).value.token);
      }
    }
  }

  lemma FoundIsParsed(t: string)
    requires FindToken(t, 0).Some?
    ensures var f := FindToken(t, 0).value;
            ParseToken(t[f.start..]).Some? && f.token == ParseToken(t[f.start..]).value.token
  {
    hide ParseToken;
    FindTokenIsFirst(t, 0);
  }

  lemma SecondStartsWithOne(v: string)
    requires ParseToken(v).Some? && v[0] == '1'
    ensures var token := ParseToken(v).value.token; GoodToken(token) && token.text[0] == '1'
  {
    LabelsReparse(v);
    LabelChars(v);
  }

  lemma RangeSettled(a: Token, b: Token)
    requires GoodToken(a) && GoodToken(b) && a.text[0] == '1' && b.text[0] == '1'
    requires !EndsInX(a.text) && !EndsInX(b.text)
    ensures Settled(FormatRange(a, b))
  {
    hide EndsInX, CompareParts, GoodToken, CoreIs, ParseCore;
    TokenIsLong(a);
    TokenIsLong(b);
    RangeEnd(a.text, b.text);
    RangeEnd(b.text, a.text);
  }

  lemma {:induction false} TameSettles(raw: string)
    requires Tame(Normalize(raw))
    ensures Settled(Sanitize(raw))
    decreases |raw|
  {
    hide SanitizePlain, Tame, Settled, IsNormal;
    var t := Normalize(raw);
    NormalizeShrinks(raw);
    NormalizedIsNormal(raw);
    PlainTameSettles(t);
    if t == [] {
      NothingSettles();
    } else if ExtractMc(t).Some? {
      var mc := ExtractMc(t).value;
      var i := ExtractedIsPiece(t);
      PieceIsNormal(mc, t, i);
      PieceIsTame(mc, t, i);
      NormalStays(mc);
      TameSettles(mc);
    }
  }

  lemma NothingSettles()
    ensures Settled([])
  {
  }

  /**
   A caller can tell before the call: a version whose normalised text has no capital
   X, and no zero directly behind a dash or a space, is sanitised once and for all.
   */
  lemma TameIsIdempotent(raw: string)
    requires Tame(Normalize(raw))
    ensures Sanitize(Sanitize(raw)) == Sanitize(raw)
  {
    TameSettles(raw);
    IdempotentExactlyWhen(raw);
  }
}
