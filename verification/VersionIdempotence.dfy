/**
 Sanitising a sanitised version: what the sanitiser can produce, and exactly when
 producing it again changes nothing.
 */
module VersionIdempotence {
  import opened Basics
  import opened Text
  import opened Versions
  import opened VersionLabels
  import opened VersionRanges

  // ---- What the sanitiser produces ------------------------------------------------------

  /** A label that starts with the major version as "1". */
  ghost predicate IsLabel(out: string, a: Token) {
    GoodToken(a) && a.text[0] == '1' && out == a.text
  }

  /** A range, lower end first. */
  ghost predicate IsRange(out: string, a: Token, b: Token) {
    && GoodToken(a) && GoodToken(b) && out == a.text + "-" + b.text
    && CompareParts(a.parts, b.parts) != Greater
    && (CompareParts(a.parts, b.parts) == Equal ==> a.text != b.text)
  }

  ghost predicate Produced(out: string) {
    || out == []
    || (exists a :: IsLabel(out, a))
    || (exists a, b :: IsRange(out, a, b))
  }

  lemma {:induction false} FindTokenMeans(value: string, i: nat)
    requires i <= |value| && FindToken(value, i).Some?
    ensures var Found(token, start, end) := FindToken(value, i).value;
            value[start] == '1' && TokenIs(value[start..], token, end - start) && end - start >= 3
    decreases |value| - i
  {
    if !(value[i] == '1' && BoundaryBefore(value, i) && ParseToken(value[i..]).Some?) {
      FindTokenMeans(value, i + 1);
    }
  }

  /** A token found starts with "1": its major version has no leading zeros. */
  lemma FoundIsLabel(value: string)
    requires FindToken(value, 0).Some?
    ensures var token := FindToken(value, 0).value.token; GoodToken(token) && token.text[0] == '1'
  {
    FindTokenMeans(value, 0);
    var start := FindToken(value, 0).value.start;
    LabelsReparse(value[start..]);
    LabelChars(value[start..]);
  }

  lemma SecondIsGood(rest: string)
    requires SecondToken(rest).Some?
    ensures GoodToken(SecondToken(rest).value)
  {
    LabelsReparse(TrimStart(TrimStart(rest)[1..]));
  }

  lemma FormatIsProduced(first: Token, second: Token)
    requires GoodToken(first) && GoodToken(second) && first.text[0] == '1'
    ensures Produced(FormatRange(first, second))
  {
    var out := FormatRange(first, second);
    CompareIsATotalPreorder(first.parts, second.parts, []);
    if CompareParts(first.parts, second.parts) == Greater {
      assert IsRange(out, second, first);
    } else if CompareParts(first.parts, second.parts) == Equal && first.text == second.text {
      assert IsLabel(out, first);
    } else {
      assert IsRange(out, first, second);
    }
  }

  lemma PlainProduces(normalized: string)
    ensures Produced(SanitizePlain(normalized))
  {
    if FindToken(normalized, 0).Some? {
      var first, end := FindToken(normalized, 0).value.token, FindToken(normalized, 0).value.end;
      FoundIsLabel(normalized);
      if SecondToken(normalized[end..]).Some? {
        SecondIsGood(normalized[end..]);
        FormatIsProduced(first, SecondToken(normalized[end..]).value);
      } else {
        assert IsLabel(first.text, first);
      }
    }
  }

  lemma {:induction false} SanitizeProduces(raw: string)
    ensures Produced(Sanitize(raw))
    decreases |raw|
  {
    var normalized := Normalize(raw);
    NormalizeShrinks(raw);
    PlainProduces(normalized);
    if normalized != [] && ExtractMc(normalized).Some? {
      SanitizeProduces(ExtractMc(normalized).value);
    }
  }

  // ---- Output passes the first stages unchanged --------------------------------------------

  predicate IsOutputText(s: string) {
    s != [] && forall i :: 0 <= i < |s| ==> IsSuffixChar(s[i])
  }

  lemma {:induction false} NothingStripped(s: string)
    requires forall i :: 0 <= i < |s| ==> IsSuffixChar(s[i])
    ensures StripCodes(s) == s && WordLength(s) == |s|
  {
    if s != [] {
      NothingStripped(s[1..]);
      assert IsSuffixChar(s[0]);
    }
  }

  lemma OneWord(s: string)
    requires IsOutputText(s)
    ensures Normalize(s) == s
  {
    NothingStripped(s);
    assert IsSuffixChar(s[0]);
    assert s[..|s|] == s && s[|s|..] == [];
    assert Words([]) == [];
    assert Words(s) == [s] + [];
  }

  lemma {:induction false} NotFound(s: string, what: string)
    requires what != [] && what[0] !in s
    ensures Find(s, what) == None
  {
    if s != [] {
      NotFound(s[1..], what);
    }
  }

  lemma OutputIsPlain(s: string)
    requires IsOutputText(s)
    ensures Sanitize(s) == SanitizePlain(s)
  {
    OneWord(s);
    assert '(' !in Lower(s) by {
      forall i | 0 <= i < |s| ensures Lower(s)[i] != '(' {
        assert IsSuffixChar(s[i]);
      }
    }
    NotFound(Lower(s), "(mc:");
  }

  lemma FoundAtOnce(s: string, token: Token, n: nat)
    requires s != [] && s[0] == '1' && TokenIs(s, token, n)
    ensures var r := FindToken(s, 0); r.Some? && r.value.token == token && r.value.start == 0 && r.value.end == n
  {
    assert s[0..] == s;
  }

  /** Output that is a token from end to end comes back trimmed. */
  lemma WholeTokenSanitizes(s: string, parts: seq<int>)
    requires IsOutputText(s) && s[0] == '1' && TokenIs(s, Token(TrimLabel(s), parts), |s|)
    ensures Sanitize(s) == TrimLabel(s)
  {
    OutputIsPlain(s);
    FoundAtOnce(s, Token(TrimLabel(s), parts), |s|);
    assert s[|s|..] == [];
    assert SecondToken([]) == None;
  }

  // ---- Ranges come back --------------------------------------------------------------------------

  lemma Halves(a: string, b: string)
    ensures var out := a + "-" + b;
            && |out| == |a| + 1 + |b| && a <= out && out[..|a|] == a && out[|a|..] == "-" + b
            && out == a + ("-" + b)
  {
  }

  lemma RangeIsOutputText(a: string, b: string)
    requires forall i :: 0 <= i < |a| ==> IsSuffixChar(a[i])
    requires forall i :: 0 <= i < |b| ==> IsSuffixChar(b[i])
    ensures IsOutputText(a + "-" + b)
  {
    var out := a + "-" + b;
    forall i | 0 <= i < |out| ensures IsSuffixChar(out[i]) {
      if i < |a| {
        assert out[i] == a[i];
      } else if i > |a| {
        assert out[i] == b[i - |a| - 1];
      }
    }
  }

  lemma LastTwo(a: string, b: string)
    requires |b| >= 2
    ensures var out := a + "-" + b; out[|out| - 2..] == b[|b| - 2..]
  {
  }

  lemma RangeEnd(a: string, b: string)
    requires |b| >= 2
    ensures EndsInX(a + "-" + b) <==> EndsInX(b)
  {
    LastTwo(a, b);
  }

  lemma TokenIsLong(t: Token)
    requires GoodToken(t)
    ensures |t.text| >= 3 && CoreIs(t.text, t.parts, ParseCore(t.text).value.end)
  {
    LabelParts(t.text);
  }

  lemma NoSuffixAtCore(v: string)
    requires ParseCore(v).Some?
    requires var c := ParseCore(v).value.end; c < |v| && v[c] == '-' && SuffixLength(v[c..]) == 0
    ensures var c := ParseCore(v).value.end;
            ParseToken(v).Some? && ParseToken(v).value.end == c && ParseToken(v).value.token.text == TrimLabel(v[..c])
  {
    hide ParseCore, SuffixLength, TrimLabel;
  }

  lemma EndsAtCore(v: string, parts: seq<int>, c: nat)
    requires CoreIs(v, parts, c) && c < |v| && v[c] == '-' && SuffixLength(v[c..]) == 0
    ensures TokenIs(v, Token(TrimLabel(v[..c]), parts), c)
  {
    NoSuffixAtCore(v);
    LabelParts(v);
  }

  lemma DashDigitIsNoSuffix(b: string)
    requires b != [] && IsDigit(b[0])
    ensures SuffixLength("-" + b) == 0
  {
    assert ("-" + b)[1..] == b;
    DigitIsNoSuffix(b);
  }

  lemma CoreThenDash(a: string, parts: seq<int>, b: string)
    requires CoreIs(a, parts, |a|)
    ensures CoreIs(a + ("-" + b), parts, |a|)
  {
    assert a[..|a|] == a;
    CoreLocal(a, "-" + b);
  }

  /** A lower end without a suffix is read back from a range. */
  lemma BareLowerEnd(a: string, parts: seq<int>, b: string)
    requires CoreIs(a, parts, |a|) && !EndsInX(a) && b != [] && IsDigit(b[0])
    ensures TokenIs(a + "-" + b, Token(a, parts), |a|)
  {
    Halves(a, b);
    CoreThenDash(a, parts, b);
    DashDigitIsNoSuffix(b);
    EndsAtCore(a + "-" + b, parts, |a|);
    TrimFixed(a);
  }

  /** An upper end is read back behind the dash. */
  lemma UpperEnd(b: string, token: Token)
    requires b != [] && IsDigit(b[0]) && TokenIs(b, token, |b|)
    ensures SecondIs("-" + b, token)
  {
    hide ParseToken, TrimLabel;
    assert ("-" + b)[1..] == b;
    OtherStartIsKept("-" + b);
    OtherStartIsKept(b);
  }

  predicate SecondIs(rest: string, token: Token) {
    SecondToken(rest).Some? && SecondToken(rest).value == token
  }

  lemma TwoTokensSanitize(s: string, a: Token, n: nat, b: Token)
    requires IsOutputText(s) && s[0] == '1' && TokenIs(s, a, n) && SecondIs(s[n..], b)
    ensures Sanitize(s) == FormatRange(a, b)
  {
    OutputIsPlain(s);
    FoundAtOnce(s, a, n);
  }

  /** The lower end has no suffix: the range is read as the same range, its upper
      end trimmed. */
  lemma BareRangeSanitizes(a: Token, b: Token)
    requires GoodToken(a) && GoodToken(b) && a.text[0] == '1' && ParseCore(a.text).value.end == |a.text|
    ensures Sanitize(a.text + "-" + b.text) == FormatRange(a, Token(TrimLabel(b.text), b.parts))
  {
    TokenIsLong(a);
    RangeIsOutputText(a.text, b.text);
    Halves(a.text, b.text);
    BareLowerEnd(a.text, a.parts, b.text);
    UpperEnd(b.text, Token(TrimLabel(b.text), b.parts));
    TwoTokensSanitize(a.text + "-" + b.text, a, |a.text|, Token(TrimLabel(b.text), b.parts));
  }

  lemma SuffixInside(text: string)
    requires ParseToken(text).Some? && ParseToken(text).value.end == |text| && ParseCore(text).value.end < |text|
    ensures var c := ParseCore(text).value.end; text[c] == '-' && StartsWithSuffix(text[c + 1..])
  {
    hide ParseCore, TrimLabel, StartsWithSuffix, RunLength;
    var c := ParseCore(text).value.end;
    assert text[c..][1..] == text[c + 1..] && text[c..][0] == text[c];
  }

  lemma LongerKeepsSuffix(a: string, out: string, c: nat)
    requires a <= out && c < |a| && StartsWithSuffix(a[c + 1..])
    ensures out[..c] == a[..c] && out[c] == a[c] && StartsWithSuffix(out[c + 1..])
  {
    var n := SuffixWord(a[c + 1..]);
    assert a[c + 1..][..n] <= out[c + 1..];
  }

  lemma SuffixSwallowsTheRest(a: string, parts: seq<int>, c: nat, out: string)
    requires CoreIs(a, parts, c) && c < |a| && a[c] == '-' && StartsWithSuffix(a[c + 1..])
    requires a <= out && IsOutputText(out)
    ensures TokenIs(out, Token(TrimLabel(out), parts), |out|)
  {
    LongerKeepsSuffix(a, out, c);
    SuffixedTextReparses(a, out, parts, c);
  }

  /** The lower end has a suffix: the suffix swallows the rest, and the whole range
      is read as one token. */
  lemma SuffixedRangeSanitizes(a: Token, b: Token)
    requires GoodToken(a) && GoodToken(b) && a.text[0] == '1' && ParseCore(a.text).value.end < |a.text|
    ensures Sanitize(a.text + "-" + b.text) == TrimLabel(a.text + "-" + b.text)
  {
    hide ParseToken, ParseCore, StartsWithSuffix, TrimLabel, Sanitize, CoreIs, IsOutputText;
    var out := a.text + "-" + b.text;
    TokenIsLong(a);
    RangeIsOutputText(a.text, b.text);
    Halves(a.text, b.text);
    SuffixInside(a.text);
    SuffixSwallowsTheRest(a.text, a.parts, ParseCore(a.text).value.end, out);
    WholeTokenSanitizes(out, a.parts);
  }

  // ---- A lower end with a leading zero is lost ------------------------------------------------------

  lemma SecondIsShort(rest: string)
    requires SecondToken(rest).Some?
    ensures |SecondToken(rest).value.text| < |rest|
  {
    LabelChars(TrimStart(TrimStart(rest)[1..]));
  }

  lemma FirstIsShort(s: string)
    requires s != [] && s[0] != '1' && FindToken(s, 0).Some?
    ensures |FindToken(s, 0).value.token.text| < FindToken(s, 0).value.end
  {
    FindTokenMeans(s, 0);
    LabelChars(s[FindToken(s, 0).value.start..]);
  }

  lemma FormatLength(a: Token, b: Token)
    ensures |FormatRange(a, b)| <= |a.text| + 1 + |b.text|
  {
  }

  /** Text that does not start with "1" comes back shorter. */
  lemma OtherTextShrinks(s: string)
    requires IsOutputText(s) && s[0] != '1'
    ensures |Sanitize(s)| < |s|
  {
    OutputIsPlain(s);
    if FindToken(s, 0).Some? {
      FirstIsShort(s);
      var first, end := FindToken(s, 0).value.token, FindToken(s, 0).value.end;
      if SecondToken(s[end..]).Some? {
        SecondIsShort(s[end..]);
        FormatLength(first, SecondToken(s[end..]).value);
      }
    }
  }

  // ---- Idempotence -------------------------------------------------------------------------------

  /** What a caller can see of a sanitised version: it starts with "1" and does not
      end in ".x" or ".X", or it is empty. */
  predicate Settled(out: string) {
    out == [] || (out[0] == '1' && !EndsInX(out))
  }

  lemma TrimIsPrefix(s: string)
    ensures TrimLabel(s) <= s
  {
  }

  /** Trimming the upper end is all that printing a range again can change. */
  lemma PrintedAgain(a: Token, b: Token)
    requires IsRange(a.text + "-" + b.text, a, b)
    ensures FormatRange(a, Token(TrimLabel(b.text), b.parts)) == a.text + "-" + b.text <==> !EndsInX(b.text)
  {
    hide CompareParts, TrimLabel, GoodToken;
    TrimFixed(b.text);
    TrimIsPrefix(b.text);
  }

  lemma RangeSettles(out: string, a: Token, b: Token)
    requires IsRange(out, a, b)
    ensures Sanitize(out) == out <==> Settled(out)
  {
    hide Sanitize, FormatRange, TrimLabel, EndsInX, CompareParts, TokenIs, CoreIs, ParseCore;
    TokenIsLong(a);
    TokenIsLong(b);
    RangeIsOutputText(a.text, b.text);
    RangeEnd(a.text, b.text);
    assert out[0] == a.text[0];
    if a.text[0] != '1' {
      OtherTextShrinks(out);
    } else if ParseCore(a.text).value.end < |a.text| {
      SuffixedRangeSanitizes(a, b);
      TrimFixed(out);
    } else {
      BareRangeSanitizes(a, b);
      PrintedAgain(a, b);
    }
  }

  lemma LabelSettles(out: string, a: Token)
    requires IsLabel(out, a)
    ensures Sanitize(out) == out <==> Settled(out)
  {
    WholeTokenSanitizes(out, a.parts);
    TrimFixed(out);
  }

  /**
   Sanitising is idempotent on exactly those inputs whose sanitised form starts
   with "1" and does not end in ".x" or ".X" (or is empty).
   */
  lemma IdempotentExactlyWhen(raw: string)
    ensures Sanitize(Sanitize(raw)) == Sanitize(raw) <==> Settled(Sanitize(raw))
  {
    var out := Sanitize(raw);
    SanitizeProduces(raw);
    if out == [] {
      assert Sanitize([]) == [];
    } else if a :| IsLabel(out, a) {
      LabelSettles(out, a);
    } else {
      var a, b :| IsRange(out, a, b);
      RangeSettles(out, a, b);
    }
  }

  // ---- A version that sanitising twice changes -------------------------------------------------------

  lemma {:induction false} AllDigits(d: string, t: string)
    requires (forall i :: 0 <= i < |d| ==> IsDigit(d[i])) && StartsNoDigit(t)
    ensures DigitsLength(d + t) == |d|
  {
    if d == [] {
      assert d + t == t;
    } else {
      AllDigits(d[1..], t);
      assert (d + t)[1..] == d[1..] + t;
    }
  }

  lemma NumberOfShort(d: string)
    requires 0 < |d| <= 2
    ensures NumberOf(d) == if |d| == 1 then d[0] as int - 48 else 10 * (d[0] as int - 48) + (d[1] as int - 48)
  {
    if |d| == 2 {
      assert d[..1] == [d[0]];
      assert NumberOf([d[0]]) == d[0] as int - 48;
    }
  }

  lemma OneTwenty()
    ensures CoreIs("1.20", [MAJOR, 20], 4)
  {
    var v := "1.20";
    assert v == "1" + ".20" && v[1 + 1..] == "20" && v[..1] == "1" && "20" + [] == "20";
    AllDigits("1", ".20");
    AllDigits("20", []);
    NumberOfShort("1");
    NumberOfShort("20");
    assert "20"[..2] == "20";
    assert v[4..] == [];
  }

  lemma PreStarts()
    ensures var s := "1.20-pre.x.X"; StartsWithSuffix(s[4 + 1..]) && s[4] == '-' && s == "1.20" + ("-" + "pre.x.X")
  {
    assert "1.20-pre.x.X"[5..] == "pre.x.X";
    assert Lower("pre.x.X")[..3] == "pre";
  }

  lemma PreIsText()
    ensures IsOutputText("1.20-pre.x.X")
  {
  }

  lemma OneTwentyPre()
    ensures var s := "1.20-pre.x.X"; IsOutputText(s) && TokenIs(s, Token(TrimLabel(s), [MAJOR, 20]), |s|)
  {
    OneTwenty();
    CoreThenDash("1.20", [MAJOR, 20], "pre.x.X");
    PreStarts();
    PreIsText();
    CoreAndSuffix("1.20-pre.x.X", [MAJOR, 20]);
  }

  lemma CoreAndSuffix(s: string, parts: seq<int>)
    requires IsOutputText(s) && |s| > 4 && CoreIs(s, parts, 4) && s[4] == '-' && StartsWithSuffix(s[4 + 1..])
    ensures TokenIs(s, Token(TrimLabel(s), parts), |s|)
  {
    SuffixSwallowsTheRest(s, parts, 4, s);
  }

  lemma PreTrims()
    ensures TrimLabel("1.20-pre.x.X") == "1.20-pre.x" && EndsInX("1.20-pre.x")
  {
    var s, once := "1.20-pre.x.X", "1.20-pre.x";
    assert s[10..] == ".X" && s[..10] == once && s[10..][1] != ".x"[1];
    assert once[8..] == ".x" && once[8..][1] != ".X"[1];
  }

  /** "1.20-pre.x.X" keeps a ".x" the first time and loses it the second. */
  lemma TwiceIsNotOnce()
    ensures Sanitize("1.20-pre.x.X") == "1.20-pre.x"
    ensures Sanitize("1.20-pre.x") != "1.20-pre.x"
  {
    OneTwentyPre();
    WholeTokenSanitizes("1.20-pre.x.X", [MAJOR, 20]);
    PreTrims();
    IdempotentExactlyWhen("1.20-pre.x.X");
  }
}
