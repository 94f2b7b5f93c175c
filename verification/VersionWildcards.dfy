/**
 Exactly on which inputs sanitising is idempotent, by the tokens found in them: what
 trimming leaves of a label, and which label ends the output.
 */
module VersionWildcards {
  import opened Basics
  import opened Text
  import opened VersionIdempotence
  import opened VersionInputs
  import opened VersionLabels
  import opened VersionRanges
  import opened Versions

  // ---- What trimming leaves ----------------------------------------------------------------

  predicate WildcardTail(s: string, front: string, k: nat, j: nat) {
    s == front + ".x" + Repeat(".X", k) + Repeat(".x", j)
  }

  /** The text ends in ".x", then in ".X" at least once, then in any number of ".x". */
  ghost predicate LeavesWildcard(s: string) {
    exists front, k, j :: k > 0 && WildcardTail(s, front, k, j)
  }

  lemma RepeatSnoc(w: string, n: nat)
    ensures Repeat(w, n + 1) == Repeat(w, n) + w
  {
    RepeatAdds(w, n, 1);
    assert Repeat(w, 1) == w + [] == w;
  }

  lemma {:induction false} TrimmedTail(s: string, end: string) returns (n: nat)
    requires end != []
    ensures s == TrimEndMatches(s, end) + Repeat(end, n)
  {
    if EndsWith(s, end) {
      var front := s[..|s| - |end|];
      n := TrimmedTail(front, end);
      RepeatSnoc(end, n);
      AssociativeConcat(TrimEndMatches(front, end), Repeat(end, n), end);
      assert s == front + end;
      n := n + 1;
    } else {
      n := 0;
      assert s + [] == s;
    }
  }

  lemma NoRepeat(u: string, w: string)
    ensures u + Repeat(w, 0) == u
  {
  }

  lemma EndCut(u: string, end: string)
    ensures EndsWith(u + end, end) && (u + end)[..|u + end| - |end|] == u
  {
  }

  lemma TrimOnce(u: string, end: string)
    requires end != []
    ensures TrimEndMatches(u + end, end) == TrimEndMatches(u, end)
  {
    EndCut(u, end);
  }

  lemma TrimNone(u: string, end: string)
    requires end != [] && !EndsWith(u, end)
    ensures TrimEndMatches(u, end) == u
  {
  }

  lemma {:induction false} TrimsAll(u: string, end: string, n: nat)
    requires end != [] && !EndsWith(u, end)
    ensures TrimEndMatches(u + Repeat(end, n), end) == u
  {
    hide *;
    if n == 0 {
      NoRepeat(u, end);
      TrimNone(u, end);
    } else {
      RepeatSnoc(end, n - 1);
      AssociativeConcat(u, Repeat(end, n - 1), end);
      TrimOnce(u + Repeat(end, n - 1), end);
      TrimsAll(u, end, n - 1);
    }
  }

  lemma OneEndOnly(s: string)
    ensures !(EndsWith(s, ".x") && EndsWith(s, ".X"))
  {
    if EndsWith(s, ".x") {
      assert s[|s| - 2..][1] == 'x';
    }
  }

  lemma EndsInCapitals(u: string, k: nat)
    requires k > 0
    ensures EndsWith(u + Repeat(".X", k), ".X")
  {
    RepeatSnoc(".X", k - 1);
    AssociativeConcat(u, Repeat(".X", k - 1), ".X");
    EndCut(u + Repeat(".X", k - 1), ".X");
  }

  lemma WildcardIsLeft(s: string, front: string, k: nat, j: nat)
    requires k > 0 && WildcardTail(s, front, k, j)
    ensures EndsInX(TrimLabel(s))
  {
    hide Repeat, TrimEndMatches, EndsWith;
    var u := front + ".x";
    var w := u + Repeat(".X", k);
    EndsInCapitals(u, k);
    OneEndOnly(w);
    TrimsAll(w, ".x", j);
    EndCut(front, ".x");
    OneEndOnly(u);
    TrimsAll(u, ".X", k);
  }

  lemma OnlyWildcardsAreLeft(s: string)
    requires EndsInX(TrimLabel(s))
    ensures LeavesWildcard(s)
  {
    hide Repeat, TrimEndMatches, EndsWith;
    var u, r := TrimEndMatches(s, ".x"), TrimLabel(s);
    var j := TrimmedTail(s, ".x");
    var k := TrimmedTail(u, ".X");
    TrimEndEnds(s, ".x");
    TrimEndEnds(u, ".X");
    NoRepeat(r, ".X");
    EndParts(r, ".x");
    var front := r[..|r| - 2];
    assert WildcardTail(s, front, k, j);
  }

  lemma EndParts(s: string, end: string)
    requires EndsWith(s, end)
    ensures |end| <= |s| && s == s[..|s| - |end|] + end
  {
  }

  /** Exactly when a trimmed label still ends in a wildcard. */
  lemma TrimLeavesExactly(s: string)
    ensures EndsInX(TrimLabel(s)) <==> LeavesWildcard(s)
  {
    hide TrimLabel, EndsInX, WildcardTail;
    if LeavesWildcard(s) {
      var front, k, j :| k > 0 && WildcardTail(s, front, k, j);
      WildcardIsLeft(s, front, k, j);
    }
    if EndsInX(TrimLabel(s)) {
      OnlyWildcardsAreLeft(s);
    }
  }

  // ---- The condition on the tokens --------------------------------------------------------

  /** The text behind the dash that the second token is parsed from. */
  function BehindDash(rest: string): string {
    var trimmed := TrimStart(rest);
    if trimmed == [] then [] else TrimStart(trimmed[1..])
  }

  /** The text that a token covers, before its label is trimmed. */
  function Slice(v: string): string
    requires ParseToken(v).Some?
  {
    v[..ParseToken(v).value.end]
  }

  lemma SliceLeaves(v: string)
    requires ParseToken(v).Some?
    ensures EndsInX(ParseToken(v).value.token.text) <==> LeavesWildcard(Slice(v))
  {
    hide LeavesWildcard, EndsInX, TrimLabel, ParseToken;
    LabelIsTrimmed(v);
    TrimLeavesExactly(Slice(v));
  }

  /** A range settles by its upper end, and by how its lower end starts. */
  ghost predicate RangeStable(v: string, w: string)
    requires ParseToken(v).Some? && ParseToken(w).Some?
  {
    match CompareParts(ParseToken(v).value.token.parts, ParseToken(w).value.token.parts)
    case Greater => w[0] == '1' && !LeavesWildcard(Slice(v))
    case _ => !LeavesWildcard(Slice(w))
  }

  /** The tokens that normalised text is sanitised to. */
  ghost predicate PlainStable(t: string) {
    match FindToken(t, 0)
    case None => true
    case Some(f) =>
      var v, rest := t[f.start..], t[f.end..];
      ParseToken(v).Some? &&
      if SecondToken(rest).None? then !LeavesWildcard(Slice(v))
      else ParseToken(BehindDash(rest)).Some? && RangeStable(v, BehindDash(rest))
  }

  /** Some token is found in the text, or in the parentheticals inside. */
  predicate HasVersion(raw: string)
    decreases |raw|
  {
    var t := Normalize(raw);
    NormalizeShrinks(raw);
    t != [] && ((ExtractMc(t).Some? && HasVersion(ExtractMc(t).value)) || FindToken(t, 0).Some?)
  }

  /** The condition, on the innermost parenthetical that has a version. */
  ghost predicate Stable(raw: string)
    decreases |raw|
  {
    var t := Normalize(raw);
    NormalizeShrinks(raw);
    t == [] ||
    if ExtractMc(t).Some? && HasVersion(ExtractMc(t).value) then Stable(ExtractMc(t).value) else PlainStable(t)
  }

  // ---- It is exact ---------------------------------------------------------------------------

  lemma BehindDashIsSecond(rest: string)
    requires SecondToken(rest).Some?
    ensures ParseToken(BehindDash(rest)).Some?
    ensures SecondToken(rest).value == ParseToken(BehindDash(rest)).value.token
  {
    hide ParseToken, TrimStart;
    DashOf(rest);
  }

  lemma LabelStart(v: string)
    requires ParseToken(v).Some?
    ensures v != [] && GoodToken(ParseToken(v).value.token)
    ensures ParseToken(v).value.token.text != [] && ParseToken(v).value.token.text[0] == v[0]
  {
    LabelsReparse(v);
    LabelChars(v);
    TokenIsNotEmpty(v);
    hide ParseToken;
    TokenIsLong(ParseToken(v).value.token);
  }

  lemma DashedSettles(a: string, b: string)
    requires a != [] && |b| >= 2
    ensures Settled(a + "-" + b) <==> a[0] == '1' && !EndsInX(b)
  {
    hide EndsInX;
    RangeEnd(a, b);
    assert (a + "-" + b)[0] == a[0];
  }

  lemma LabelIsLong(t: Token)
    requires GoodToken(t)
    ensures |t.text| >= 3
  {
    hide *;
    TokenIsLong(t);
  }

  lemma PrintedSettles(a: Token, b: Token)
    requires |a.text| >= 3 && |b.text| >= 3 && a.text[0] == '1'
    ensures FormatRange(a, b) != []
    ensures Settled(FormatRange(a, b)) <==>
            match CompareParts(a.parts, b.parts)
            case Greater => b.text[0] == '1' && !EndsInX(a.text)
            case _ => !EndsInX(b.text)
  {
    hide EndsInX, CompareParts;
    DashedSettles(a.text, b.text);
    DashedSettles(b.text, a.text);
  }

  lemma RangeSettlesExactly(v: string, w: string)
    requires ParseToken(v).Some? && ParseToken(w).Some? && v != [] && v[0] == '1'
    ensures w != []
    ensures var out := FormatRange(ParseToken(v).value.token, ParseToken(w).value.token);
            out != [] && (Settled(out) <==> RangeStable(v, w))
  {
    hide ParseToken, GoodToken, LeavesWildcard, EndsInX, CompareParts, Slice, FormatRange, Settled;
    LabelStart(v);
    LabelStart(w);
    SliceLeaves(v);
    SliceLeaves(w);
    var a, b := ParseToken(v).value.token, ParseToken(w).value.token;
    LabelIsLong(a);
    LabelIsLong(b);
    PrintedSettles(a, b);
  }

  lemma PlainSettlesExactly(t: string)
    ensures Settled(SanitizePlain(t)) <==> PlainStable(t)
    ensures SanitizePlain(t) != [] <==> FindToken(t, 0).Some?
  {
    hide ParseToken, RangeStable, LeavesWildcard, EndsInX, FormatRange;
    if FindToken(t, 0).Some? {
      var f := FindToken(t, 0).value;
      FindTokenMeans(t, 0);
      FoundIsParsed(t);
      var v, rest := t[f.start..], t[f.end..];
      LabelStart(v);
      assert v[0] == '1';
      if SecondToken(rest).Some? {
        BehindDashIsSecond(rest);
        RangeSettlesExactly(v, BehindDash(rest));
      } else {
        SliceLeaves(v);
      }
    }
  }

  lemma {:induction false} SettlesExactly(raw: string)
    ensures Settled(Sanitize(raw)) <==> Stable(raw)
    ensures Sanitize(raw) != [] <==> HasVersion(raw)
    decreases |raw|
  {
    hide SanitizePlain, PlainStable, FindToken, Settled, Normalize, ExtractMc;
    var t := Normalize(raw);
    NormalizeShrinks(raw);
    NothingSettles();
    PlainSettlesExactly(t);
    if t != [] && ExtractMc(t).Some? {
      SettlesExactly(ExtractMc(t).value);
    }
  }

  /**
   Exactly when sanitising an input twice is sanitising it once, by what is found in
   it: the token that ends the output leaves no wildcard when its label is trimmed,
   and a second token that becomes the lower end starts with "1".
   */
  lemma IdempotentInputs(raw: string)
    ensures Sanitize(Sanitize(raw)) == Sanitize(raw) <==> Stable(raw)
  {
    hide *;
    IdempotentExactlyWhen(raw);
    SettlesExactly(raw);
  }
}
