/** What a label looks like: reparsing it ends at its end, with the same parts. */
module VersionLabels {
  import opened Basics
  import opened Text
  import opened Versions

  // ---- Numbers -------------------------------------------------------------------------

  lemma {:induction false} DigitsAre(v: string, i: nat)
    requires i < DigitsLength(v)
    ensures IsDigit(v[i])
  {
    if i > 0 {
      DigitsAre(v[1..], i - 1);
    }
  }

  predicate StartsNoDigit(t: string) {
    t == [] || !IsDigit(t[0])
  }

  lemma {:induction false} DigitsLocal(v: string, t: string)
    requires StartsNoDigit(t)
    ensures DigitsLength(v[..DigitsLength(v)] + t) == DigitsLength(v)
  {
    var n := DigitsLength(v);
    if n == 0 {
      assert v[..0] + t == t;
    } else {
      DigitsLocal(v[1..], t);
      assert (v[..n] + t)[1..] == v[1..][..n - 1] + t;
    }
  }

  /** A number ends where its digits end, whatever comes next. */
  lemma NumberLocal(v: string, t: string)
    requires ParseNumber(v).Some? && StartsNoDigit(t)
    ensures ParseNumber(v[..ParseNumber(v).value.end] + t) == ParseNumber(v)
  {
    var n := DigitsLength(v);
    DigitsLocal(v, t);
    assert (v[..n] + t)[..n] == v[..n];
  }

  // ---- The core -------------------------------------------------------------------------

  lemma HeadLocal(v: string, t: string)
    requires ParseHead(v).Some? && StartsNoDigit(t)
    ensures ParseHead(v[..ParseHead(v).value.end] + t) == ParseHead(v)
  {
    hide NumberOf, DigitsLength;
    var n := ParseNumber(v).value.end;
    var v2 := v[n + 1..];
    var m := ParseNumber(v2).value.end;
    var w := v[..n + 1 + m] + t;
    var rest := v2[..m] + t;
    assert w == v[..n] + (['.'] + rest);
    NumberLocal(v, ['.'] + rest);
    assert w[n + 1..] == rest;
    NumberLocal(v2, t);
  }

  lemma HeadShape(v: string)
    requires ParseHead(v).Some?
    ensures var h := ParseHead(v).value.end; IsDigit(v[0]) && IsDigit(v[h - 1])
    ensures forall i :: 0 <= i < ParseHead(v).value.end ==> IsSuffixChar(v[i])
  {
    var n := DigitsLength(v);
    var v2 := v[n + 1..];
    var m := DigitsLength(v2);
    DigitsAre(v, 0);
    DigitsAre(v2, m - 1);
    forall i | 0 <= i < n + 1 + m ensures IsSuffixChar(v[i]) {
      if i < n {
        DigitsAre(v, i);
      } else if i > n {
        DigitsAre(v2, i - n - 1);
      }
    }
  }

  /** The patch of v is ".x" or ".X". */
  predicate IsWildcard(v: string) {
    |v| > 1 && v[0] == '.' && IsX(v[1])
  }

  predicate StartsDash(t: string) {
    t == [] || t[0] == '-'
  }

  lemma PatchLocal(v: string, t: string)
    requires ParsePatch(v).Some? && StartsDash(t)
    ensures ParsePatch(v[..ParsePatch(v).value.end] + t) == ParsePatch(v)
  {
    var p := ParsePatch(v).value.end;
    if !IsWildcard(v) && p > 0 {
      var n := ParseNumber(v[1..]).value.end;
      NumberLocal(v[1..], t);
      assert (v[..p] + t)[1..] == v[1..][..n] + t;
    } else if p == 0 {
      assert v[..0] + t == t;
    }
  }

  lemma PatchShape(v: string)
    requires ParsePatch(v).Some? && ParsePatch(v).value.end > 0
    ensures var p := ParsePatch(v).value.end;
            v[0] == '.' && p >= 2 && (IsWildcard(v) ==> p == 2) && (!IsWildcard(v) ==> IsDigit(v[p - 1]))
    ensures forall i :: 0 <= i < ParsePatch(v).value.end ==> IsSuffixChar(v[i])
  {
    var p := ParsePatch(v).value.end;
    if !IsWildcard(v) {
      forall i | 1 <= i < p ensures IsDigit(v[i]) {
        DigitsAre(v[1..], i - 1);
      }
    }
  }

  /** Behind the head, any tail decides the core by its own patch. */
  lemma CoreWithTail(v: string, tail: string)
    requires ParseHead(v).Some? && StartsNoDigit(tail) && ParsePatch(tail).Some?
    ensures var Head(minor, h) := ParseHead(v).value; var Patch(more, p) := ParsePatch(tail).value;
            ParseCore(v[..h] + tail) == Some(Core([MAJOR, minor] + more, h + p))
  {
    var h := ParseHead(v).value.end;
    HeadLocal(v, tail);
    assert (v[..h] + tail)[h..] == tail;
  }

  lemma PatchBeforeDash(v: string, t: string)
    requires ParsePatch(v).Some? && StartsDash(t)
    ensures var tail := v[..ParsePatch(v).value.end] + t; StartsNoDigit(tail) && ParsePatch(tail) == ParsePatch(v)
  {
    PatchLocal(v, t);
    if ParsePatch(v).value.end > 0 {
      PatchShape(v);
    }
  }

  lemma CutTwice(v: string, h: nat, p: nat, t: string)
    requires h + p <= |v|
    ensures v[..h + p] + t == v[..h] + (v[h..][..p] + t)
  {
  }

  lemma CoreParts(v: string)
    requires ParseCore(v).Some?
    ensures ParseHead(v).Some? && ParsePatch(v[ParseHead(v).value.end..]).Some?
    ensures var Head(minor, h) := ParseHead(v).value; var Patch(more, p) := ParsePatch(v[h..]).value;
            ParseCore(v) == Some(Core([MAJOR, minor] + more, h + p))
  {
  }

  /** A core ends where it ends, when nothing or a dash comes next. */
  lemma CoreLocal(v: string, t: string)
    requires ParseCore(v).Some? && StartsDash(t)
    ensures ParseCore(v[..ParseCore(v).value.end] + t) == ParseCore(v)
  {
    hide *;
    CoreParts(v);
    var h := ParseHead(v).value.end;
    var p := ParsePatch(v[h..]).value.end;
    var tail := v[h..][..p] + t;
    PatchBeforeDash(v[h..], t);
    CutTwice(v, h, p, t);
    CoreWithTail(v, tail);
  }

  lemma CoreShape(v: string)
    requires ParseCore(v).Some?
    ensures IsDigit(v[0])
    ensures forall i :: 0 <= i < ParseCore(v).value.end ==> IsSuffixChar(v[i])
  {
    var h := ParseHead(v).value.end;
    HeadShape(v);
    if ParsePatch(v[h..]).value.end > 0 {
      PatchShape(v[h..]);
    }
    forall i | h <= i < ParseCore(v).value.end ensures IsSuffixChar(v[i]) {
      assert v[i] == v[h..][i - h];
    }
  }

  // ---- Trimming a label --------------------------------------------------------------------

  predicate EndsInX(s: string) {
    EndsWith(s, ".x") || EndsWith(s, ".X")
  }

  /** trim_end_matches changes a label exactly when it ends in ".x" or ".X". */
  lemma TrimFixed(s: string)
    ensures TrimLabel(s) == s <==> !EndsInX(s)
  {
  }

  lemma {:induction false} TrimEndKeeps(s: string, end: string, j: nat)
    requires |end| == 2 && j < |s| && s[j] != end[0] && s[j] != end[1]
    ensures j < |TrimEndMatches(s, end)|
  {
    if EndsWith(s, end) {
      var n := |s| - 2;
      assert s[n..][0] == s[n] && s[n..][1] == s[n + 1];
      TrimEndKeeps(s[..n], end, j);
    }
  }

  /** A character that is neither a dot nor an x survives the trimming. */
  lemma TrimKeeps(s: string, j: nat)
    requires j < |s| && s[j] != '.' && !IsX(s[j])
    ensures j < |TrimLabel(s)| && TrimLabel(s) <= s
  {
    TrimEndKeeps(s, ".x", j);
    TrimEndKeeps(TrimEndMatches(s, ".x"), ".X", j);
  }

  lemma EndsInDigit(s: string)
    requires s != [] && IsDigit(s[|s| - 1])
    ensures !EndsInX(s)
  {
    if |s| >= 2 {
      assert s[|s| - 2..][1] == s[|s| - 1];
    }
  }

  /** A wildcard goes in one cut: "1.20.x" becomes "1.20". */
  lemma TrimWildcard(a: string, x: char)
    requires a != [] && IsDigit(a[|a| - 1]) && IsX(x)
    ensures TrimLabel(a + ['.', x]) == a
  {
    var s := a + ['.', x];
    EndsInDigit(a);
    assert s[..|s| - 2] == a && s[|s| - 2..] == ['.', x];
    assert EndsWith(s, ['.', x]);
    if x == 'x' {
      assert ['.', x] == ".x";
      assert TrimEndMatches(s, ".x") == TrimEndMatches(a, ".x") == a;
    } else {
      assert ['.', x] == ".X";
      assert s[|s| - 2..][1] != ".x"[1];
      assert TrimEndMatches(s, ".x") == s;
      assert TrimEndMatches(s, ".X") == TrimEndMatches(a, ".X") == a;
    }
  }

  // ---- Suffixes -------------------------------------------------------------------------------

  lemma {:induction false} RunIs(v: string, i: nat)
    requires i < RunLength(v)
    ensures IsSuffixChar(v[i])
  {
    if i > 0 {
      RunIs(v[1..], i - 1);
    }
  }

  lemma {:induction false} RunWhole(v: string)
    requires forall i :: 0 <= i < |v| ==> IsSuffixChar(v[i])
    ensures RunLength(v) == |v|
  {
    if v != [] {
      RunWhole(v[1..]);
    }
  }

  lemma LowerPrefix(v: string, w: string, n: nat)
    requires n <= |v| && v[..n] <= w
    ensures Lower(v)[..n] <= Lower(w)
  {
  }

  predicate Letters(s: string) {
    forall i :: 0 <= i < |s| ==> 'a' <= s[i] <= 'z'
  }

  lemma Spelled(v: string, prefix: string)
    requires prefix != [] && Letters(prefix) && StartsWith(Lower(v), prefix)
    requires prefix[|prefix| - 1] != 'x'
    ensures |prefix| <= |v| && v[|prefix| - 1] != '.' && !IsX(v[|prefix| - 1])
    ensures forall i :: 0 <= i < |prefix| ==> IsSuffixChar(v[i])
  {
    forall i | 0 <= i < |prefix| ensures IsAlphanumeric(v[i]) && LowerChar(v[i]) == prefix[i] {
      assert Lower(v)[i] == prefix[i];
    }
  }

  /** A suffix word, all of which any longer piece of the text keeps. */
  lemma SuffixWord(v: string) returns (n: nat)
    requires StartsWithSuffix(v)
    ensures 0 < n <= |v| && v[n - 1] != '.' && !IsX(v[n - 1])
    ensures forall w: string :: v[..n] <= w ==> StartsWithSuffix(w)
    ensures n <= RunLength(v)
  {
    var lower := Lower(v);
    var prefix := if StartsWith(lower, "pre") then "pre" else if StartsWith(lower, "rc") then "rc"
                  else if StartsWith(lower, "snapshot") then "snapshot" else if StartsWith(lower, "beta") then "beta"
                  else "alpha";
    Spelled(v, prefix);
    n := |prefix|;
    RunAtLeast(v, n);
    forall w: string | v[..n] <= w ensures StartsWithSuffix(w) {
      LowerPrefix(v, w, n);
      assert StartsWith(Lower(w), prefix);
    }
  }

  lemma {:induction false} RunAtLeast(v: string, n: nat)
    requires n <= |v| && forall i :: 0 <= i < n ==> IsSuffixChar(v[i])
    ensures n <= RunLength(v)
  {
    if n > 0 {
      RunAtLeast(v[1..], n - 1);
    }
  }

  lemma DigitIsNoSuffix(v: string)
    requires v != [] && IsDigit(v[0])
    ensures !StartsWithSuffix(v)
  {
    assert Lower(v)[0] == v[0];
  }

  // ---- Reparsing -----------------------------------------------------------------------------

  predicate CoreIs(v: string, parts: seq<int>, c: nat) {
    ParseCore(v).Some? && ParseCore(v).value.parts == parts && ParseCore(v).value.end == c
  }

  predicate TokenIs(v: string, token: Token, n: nat) {
    ParseToken(v).Some? && ParseToken(v).value.token == token && ParseToken(v).value.end == n
  }

  /** The label of a token is itself a token from end to end, with the same parts;
      one without a suffix has nothing left to trim. */
  ghost predicate GoodToken(t: Token) {
    && TokenIs(t.text, Token(TrimLabel(t.text), t.parts), |t.text|)
    && (forall i :: 0 <= i < |t.text| ==> IsSuffixChar(t.text[i]))
    && IsDigit(t.text[0])
    && (ParseCore(t.text).value.end == |t.text| ==> !EndsInX(t.text))
  }

  lemma BareLabelReparses(text: string, parts: seq<int>)
    requires CoreIs(text, parts, |text|) && !EndsInX(text)
    ensures GoodToken(Token(text, parts))
  {
    assert text[|text|..] == [];
    WholeToken(text, parts, |text|);
    CoreShape(text);
    TrimFixed(text);
  }

  /** A token that ends with its numeric core. */
  predicate IsBare(v: string) {
    ParseToken(v).Some? && ParseCore(v).Some? && ParseToken(v).value.end == ParseCore(v).value.end
  }

  lemma WildcardText(v: string)
    requires IsBare(v) && IsWildcard(v[ParseHead(v).value.end..])
    ensures ParseToken(v).value.token.text == v[..ParseHead(v).value.end]
  {
    hide SuffixLength, ParseHead, TrimLabel, IsAlphanumeric;
    var h := ParseHead(v).value.end;
    HeadShape(v);
    assert v[h..][0] == v[h] && v[h..][1] == v[h + 1];
    assert v[..h + 2] == v[..h] + ['.', v[h + 1]];
    TrimWildcard(v[..h], v[h + 1]);
  }

  lemma HeadAlone(v: string)
    requires ParseHead(v).Some?
    ensures var Head(minor, h) := ParseHead(v).value; CoreIs(v[..h], [MAJOR, minor], h)
  {
    hide ParseHead, ParseCore;
    var Head(minor, h) := ParseHead(v).value;
    CoreWithTail(v, []);
    assert v[..h] + [] == v[..h] && [MAJOR, minor] + [] == [MAJOR, minor];
  }

  lemma WildcardParts(v: string)
    requires ParseCore(v).Some? && IsWildcard(v[ParseHead(v).value.end..])
    ensures ParseCore(v).value.parts == [MAJOR, ParseHead(v).value.minor]
  {
    hide ParseHead;
    assert [MAJOR, ParseHead(v).value.minor] + [] == [MAJOR, ParseHead(v).value.minor];
  }

  lemma WildcardLabelReparses(v: string)
    requires IsBare(v) && IsWildcard(v[ParseHead(v).value.end..])
    ensures GoodToken(ParseToken(v).value.token)
  {
    hide ParseHead, ParseCore, ParseToken, TrimLabel, GoodToken, CoreIs;
    CoreParts(v);
    var Head(minor, h) := ParseHead(v).value;
    HeadShape(v);
    WildcardText(v);
    WildcardParts(v);
    LabelParts(v);
    HeadAlone(v);
    NumberIsGood(v[..h], [MAJOR, minor]);
    EndsInDigit(v[..h]);
    TrimFixed(v[..h]);
  }

  lemma NumberLabelReparses(v: string)
    requires IsBare(v) && !IsWildcard(v[ParseHead(v).value.end..])
    ensures GoodToken(ParseToken(v).value.token)
  {
    hide ParseToken, ParseCore, TrimLabel, StartsWithSuffix, GoodToken;
    var parts, c := ParseCore(v).value.parts, ParseCore(v).value.end;
    BareText(v);
    CoreEndsInDigit(v);
    CoreAlone(v);
    NumberIsGood(v[..c], parts);
  }

  lemma BareText(v: string)
    requires IsBare(v)
    ensures ParseToken(v).value.token == Token(TrimLabel(v[..ParseCore(v).value.end]), ParseCore(v).value.parts)
  {
    hide ParseCore, SuffixLength, TrimLabel, StartsWithSuffix, IsAlphanumeric;
  }

  lemma NumberIsGood(text: string, parts: seq<int>)
    requires CoreIs(text, parts, |text|) && IsDigit(text[|text| - 1])
    ensures GoodToken(Token(TrimLabel(text), parts))
  {
    EndsInDigit(text);
    TrimFixed(text);
    BareLabelReparses(text, parts);
  }

  lemma CoreAlone(v: string)
    requires ParseCore(v).Some?
    ensures CoreIs(v[..ParseCore(v).value.end], ParseCore(v).value.parts, ParseCore(v).value.end)
  {
    CoreLocal(v, []);
    assert v[..ParseCore(v).value.end] + [] == v[..ParseCore(v).value.end];
  }

  lemma CoreEndsInDigit(v: string)
    requires ParseCore(v).Some? && !IsWildcard(v[ParseHead(v).value.end..])
    ensures IsDigit(v[ParseCore(v).value.end - 1])
  {
    var h := ParseHead(v).value.end;
    var p := ParsePatch(v[h..]).value.end;
    HeadShape(v);
    if p > 0 {
      PatchShape(v[h..]);
      assert v[h + p - 1] == v[h..][p - 1];
    }
  }

  lemma PrefixKeeps(v: string, text: string, c: nat, n: nat)
    requires text <= v && c + n < |text|
    ensures text[..c] == v[..c] && text[c] == v[c]
    ensures v[c + 1..][..n] <= text[c + 1..]
  {
  }

  /** A suffixed label keeps its core and its suffix word, however it is trimmed. */
  lemma SuffixedLabelShape(v: string)
    requires ParseToken(v).Some? && !IsBare(v)
    ensures var c := ParseCore(v).value.end; var text := ParseToken(v).value.token.text;
            c < |text| && text[..c] == v[..c] && text[c] == '-' && StartsWithSuffix(text[c + 1..])
            && text <= v
  {
    hide TrimLabel, ParseCore, StartsWithSuffix, RunLength, ParseHead;
    var c := ParseCore(v).value.end;
    var text := ParseToken(v).value.token.text;
    var suffix := v[c + 1..];
    assert v[c..][1..] == suffix && v[c..][0] == v[c];
    var n := SuffixWord(suffix);
    LabelKeeps(v, c, n);
    PrefixKeeps(v, text, c, n);
  }

  lemma LabelKeeps(v: string, c: nat, n: nat)
    requires ParseToken(v).Some? && c + n < ParseToken(v).value.end
    requires v[c + n] != '.' && !IsX(v[c + n])
    ensures c + n < |ParseToken(v).value.token.text| && ParseToken(v).value.token.text <= v
  {
    hide ParseCore, SuffixLength, TrimLabel, IsAlphanumeric;
    var slice := v[..ParseToken(v).value.end];
    assert slice[c + n] == v[c + n];
    TrimKeeps(slice, c + n);
  }

  lemma SuffixLabelReparses(v: string)
    requires ParseToken(v).Some? && !IsBare(v)
    ensures GoodToken(ParseToken(v).value.token)
  {
    hide ParseToken, ParseCore, TrimLabel, StartsWithSuffix, GoodToken, TokenIs;
    TokenHasCore(v);
    var parts, c := ParseCore(v).value.parts, ParseCore(v).value.end;
    var text := ParseToken(v).value.token.text;
    SuffixedLabelShape(v);
    LabelChars(v);
    SuffixedTextReparses(v, text, parts, c);
    CoreShape(text);
    SuffixedIsGood(text, parts, c);
    LabelParts(v);
  }

  lemma LabelParts(v: string)
    requires ParseToken(v).Some?
    ensures ParseToken(v).value.token.parts == ParseCore(v).value.parts
  {
  }

  lemma SuffixedIsGood(text: string, parts: seq<int>, c: nat)
    requires CoreIs(text, parts, c) && c < |text| && TokenIs(text, Token(TrimLabel(text), parts), |text|)
    requires IsDigit(text[0]) && forall i :: 0 <= i < |text| ==> IsSuffixChar(text[i])
    ensures GoodToken(Token(text, parts))
  {
  }

  lemma LabelChars(v: string)
    requires ParseToken(v).Some?
    ensures ParseToken(v).value.token.text <= v && |ParseToken(v).value.token.text| <= ParseToken(v).value.end
    ensures forall i :: 0 <= i < |ParseToken(v).value.token.text| ==> IsSuffixChar(ParseToken(v).value.token.text[i])
  {
    var Parsed(token, e) := ParseToken(v).value;
    assert token.text <= v[..e];
    forall i | 0 <= i < |token.text| ensures IsSuffixChar(token.text[i]) {
      SliceIsRun(v, i);
    }
  }

  lemma SuffixedTextReparses(v: string, text: string, parts: seq<int>, c: nat)
    requires CoreIs(v, parts, c)
    requires c < |text| && text[..c] == v[..c] && text[c] == '-' && StartsWithSuffix(text[c + 1..])
    requires forall i :: 0 <= i < |text| ==> IsSuffixChar(text[i])
    ensures CoreIs(text, parts, c) && TokenIs(text, Token(TrimLabel(text), parts), |text|)
  {
    var t := text[c..];
    assert text == v[..c] + t;
    CoreLocal(v, t);
    WholeSuffix(text, c);
    WholeToken(text, parts, c);
  }

  /** A core and a suffix that reaches the end are a token to the end. */
  lemma WholeToken(text: string, parts: seq<int>, c: nat)
    requires CoreIs(text, parts, c) && c + SuffixLength(text[c..]) == |text|
    ensures TokenIs(text, Token(TrimLabel(text), parts), |text|)
  {
    hide ParseCore, SuffixLength, TrimLabel, StartsWithSuffix, IsAlphanumeric;
    assert text[..|text|] == text;
  }

  lemma WholeSuffix(text: string, c: nat)
    requires c < |text| && text[c] == '-' && StartsWithSuffix(text[c + 1..])
    requires forall i :: 0 <= i < |text| ==> IsSuffixChar(text[i])
    ensures SuffixLength(text[c..]) == |text| - c
  {
    assert text[c..][1..] == text[c + 1..];
    RunWhole(text[c + 1..]);
  }

  lemma SliceIsRun(v: string, i: nat)
    requires ParseToken(v).Some? && i < ParseToken(v).value.end
    ensures IsSuffixChar(v[i])
  {
    hide TrimLabel, StartsWithSuffix, ParseCore, IsAlphanumeric;
    var c := ParseCore(v).value.end;
    CoreShape(v);
    if i > c {
      assert v[c..][1..] == v[c + 1..];
      RunIs(v[c + 1..], i - c - 1);
    }
  }

  /** Reparsing a label from its start ends at its end, with the same parts. */
  lemma LabelsReparse(v: string)
    requires ParseToken(v).Some?
    ensures GoodToken(ParseToken(v).value.token)
  {
    if !IsBare(v) {
      SuffixLabelReparses(v);
    } else if IsWildcard(v[ParseHead(v).value.end..]) {
      WildcardLabelReparses(v);
    } else {
      NumberLabelReparses(v);
    }
  }
}
