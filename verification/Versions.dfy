/**
 The Minecraft version sanitiser of src/ping.rs.  A string is a sequence of
 characters, and a parse at an index is a parse of what starts there.
 */
module Versions {
  import opened Basics
  import opened Text

  const MAJOR := 1
  const I32_MAX := 0x7fff_ffff
  const SECTION_SIGN: char := '\U{A7}'

  // ---- Characters ------------------------------------------------------------------

  predicate IsDigit(c: char) {
    '0' <= c <= '9'
  }

  predicate IsAlphanumeric(c: char) {
    IsDigit(c) || 'a' <= c <= 'z' || 'A' <= c <= 'Z'
  }

  /** The characters a version suffix runs over. */
  predicate IsSuffixChar(c: char) {
    IsAlphanumeric(c) || c == '.' || c == '-'
  }

  function LowerChar(c: char): char {
    if 'A' <= c <= 'Z' then (c as int + 32) as char else c
  }

  function Lower(s: string): (r: string)
    ensures |r| == |s|
  {
    seq(|s|, i requires 0 <= i < |s| => LowerChar(s[i]))
  }

  // ---- normalize_version_candidate ----------------------------------------------------

  /** Drop every section sign and the character behind it. */
  function StripCodes(raw: string): (r: string)
    ensures |r| <= |raw|
  {
    if raw == [] then []
    else if raw[0] == SECTION_SIGN then (if |raw| == 1 then [] else StripCodes(raw[2..]))
    else [raw[0]] + StripCodes(raw[1..])
  }

  function WordLength(s: string): (n: nat)
    ensures n <= |s|
  {
    if s == [] || IsWhitespace(s[0]) then 0 else 1 + WordLength(s[1..])
  }

  /** split_whitespace. */
  function Words(s: string): seq<string>
    decreases |s|
  {
    if s == [] then []
    else if IsWhitespace(s[0]) then Words(s[1..])
    else [s[..WordLength(s)]] + Words(s[WordLength(s)..])
  }

  function Normalize(raw: string): string {
    Join(Words(StripCodes(raw)), " ")
  }

  function Unspaced(s: string): string {
    if s == [] then [] else (if IsWhitespace(s[0]) then [] else [s[0]]) + Unspaced(s[1..])
  }

  function Glued(words: seq<string>): string {
    if words == [] then [] else words[0] + Glued(words[1..])
  }

  predicate IsWord(w: string) {
    w != [] && forall i :: 0 <= i < |w| ==> !IsWhitespace(w[i])
  }

  lemma {:induction false} WordIsWord(s: string)
    ensures forall i :: 0 <= i < WordLength(s) ==> !IsWhitespace(s[i])
    ensures Unspaced(s) == s[..WordLength(s)] + Unspaced(s[WordLength(s)..])
  {
    hide IsWhitespace;
    if WordLength(s) > 0 {
      WordIsWord(s[1..]);
      var n := WordLength(s[1..]);
      assert s[1..][n..] == s[n + 1..];
      assert s[..n + 1] == [s[0]] + s[1..][..n];
      AssociativeConcat([s[0]], s[1..][..n], Unspaced(s[n + 1..]));
    }
  }

  /** The words are what they should be: nonempty, free of white space, and
      together all of the text but its white space, in order. */
  lemma {:induction false} WordsSplit(s: string)
    ensures forall w :: w in Words(s) ==> IsWord(w)
    ensures Glued(Words(s)) == Unspaced(s)
    decreases |s|
  {
    if s != [] {
      if IsWhitespace(s[0]) {
        WordsSplit(s[1..]);
        assert [] + Unspaced(s[1..]) == Unspaced(s[1..]);
      } else {
        var n := WordLength(s);
        WordIsWord(s);
        WordsSplit(s[n..]);
        GluedCons(s[..n], Words(s[n..]));
      }
    }
  }

  lemma GluedCons(w: string, words: seq<string>)
    ensures Glued([w] + words) == w + Glued(words)
  {
    assert ([w] + words)[1..] == words;
  }

  /** normalize_version_candidate, with its skip flag. */
  method NormalizeVersionCandidate(raw: string) returns (r: string)
    ensures r == Normalize(raw)
  {
    var stripped := "";
    var skipNext := false;
    assert raw[0..] == raw;
    for i := 0 to |raw|
      invariant stripped + StripCodes(if skipNext && i < |raw| then raw[i + 1..] else raw[i..]) == StripCodes(raw)
    {
      var ch := raw[i];
      assert raw[i..][1..] == raw[i + 1..];
      assert |raw[i..]| > 1 ==> raw[i..][2..] == raw[i + 2..];
      if skipNext {
        skipNext := false;
        continue;
      }
      if ch == SECTION_SIGN {
        skipNext := true;
        continue;
      }
      AssociativeConcat(stripped, [ch], StripCodes(raw[i + 1..]));
      stripped := stripped + [ch];
    }
    assert stripped + [] == stripped;
    return Join(Words(stripped), " ");
  }

  // ---- Tokens -----------------------------------------------------------------------------

  datatype Token = Token(text: string, parts: seq<int>)

  // What the parsing functions find at the front of a string, and where it ends.

  datatype Number = Number(number: int, end: nat)
  datatype Head = Head(minor: int, end: nat)
  datatype Patch = Patch(parts: seq<int>, end: nat)
  datatype Core = Core(parts: seq<int>, end: nat)
  datatype Parsed = Parsed(token: Token, end: nat)
  datatype Found = Found(token: Token, start: nat, end: nat)

  function DigitsLength(v: string): (n: nat)
    ensures n <= |v|
  {
    if v == [] || !IsDigit(v[0]) then 0 else 1 + DigitsLength(v[1..])
  }

  /** The number a string of digits writes. */
  function NumberOf(digits: string): int {
    if digits == [] then 0
    else 10 * NumberOf(digits[..|digits| - 1]) + (digits[|digits| - 1] as int - '0' as int)
  }

  /** Leading digits as an i32, and how many there are. */
  function ParseNumber(v: string): (r: Option<Number>)
    ensures r.Some? ==> 0 < r.value.end <= |v|
  {
    var n := DigitsLength(v);
    if n == 0 || NumberOf(v[..n]) > I32_MAX then None else Some(Number(NumberOf(v[..n]), n))
  }

  predicate IsX(c: char) {
    c == 'x' || c == 'X'
  }

  /** What may follow "1.minor": ".x", or a patch number; how long it is, and the
      parts it adds.  A patch number too large for an i32 fails the token. */
  function ParsePatch(v: string): (r: Option<Patch>)
    ensures r.Some? ==> r.value.end <= |v|
  {
    if |v| > 1 && v[0] == '.' && IsX(v[1]) then Some(Patch([], 2))
    else if |v| > 1 && v[0] == '.' && IsDigit(v[1]) then
      match ParseNumber(v[1..])
      case None => None
      case Some(Number(patch, n)) => Some(Patch([patch], 1 + n))
    else Some(Patch([], 0))
  }

  /** "1.minor": the minor number, and the length. */
  function ParseHead(v: string): (r: Option<Head>)
    ensures r.Some? ==> 3 <= r.value.end <= |v|
  {
    match ParseNumber(v)
    case None => None
    case Some(Number(major, n)) =>
      if major != MAJOR || n == |v| || v[n] != '.' then None
      else
        match ParseNumber(v[n + 1..])
        case None => None
        case Some(Number(minor, m)) => Some(Head(minor, n + 1 + m))
  }

  /** The numeric core of a token: its parts and its length. */
  function ParseCore(v: string): (r: Option<Core>)
    ensures r.Some? ==> 3 <= r.value.end <= |v|
  {
    match ParseHead(v)
    case None => None
    case Some(Head(minor, h)) =>
      match ParsePatch(v[h..])
      case None => None
      case Some(Patch(more, p)) => Some(Core([MAJOR, minor] + more, h + p))
  }

  predicate StartsWith(v: string, prefix: string) {
    prefix <= v
  }

  /** starts_with_version_suffix. */
  predicate StartsWithSuffix(v: string) {
    var lower := Lower(v);
    StartsWith(lower, "pre") || StartsWith(lower, "rc") || StartsWith(lower, "snapshot") || StartsWith(lower, "beta")
      || StartsWith(lower, "alpha")
  }

  function RunLength(v: string): (n: nat)
    ensures n <= |v|
  {
    if v == [] || !IsSuffixChar(v[0]) then 0 else 1 + RunLength(v[1..])
  }

  /** How far a suffix such as "-pre1" reaches, if there is one. */
  function SuffixLength(v: string): (n: nat)
    ensures n <= |v|
  {
    if v != [] && v[0] == '-' && StartsWithSuffix(v[1..]) then 1 + RunLength(v[1..]) else 0
  }

  predicate EndsWith(s: string, end: string) {
    |end| <= |s| && s[|s| - |end|..] == end
  }

  /** trim_end_matches. */
  function TrimEndMatches(s: string, end: string): (r: string)
    requires end != []
    ensures r <= s
  {
    if EndsWith(s, end) then TrimEndMatches(s[..|s| - |end|], end) else s
  }

  function TrimLabel(s: string): string {
    TrimEndMatches(TrimEndMatches(s, ".x"), ".X")
  }

  /** parse_minecraft_version_token: the token at the front, and its length. */
  function ParseToken(v: string): (r: Option<Parsed>)
    ensures r.Some? ==> 3 <= r.value.end <= |v|
  {
    match ParseCore(v)
    case None => None
    case Some(Core(parts, c)) =>
      var end := c + SuffixLength(v[c..]);
      if end < |v| && IsAlphanumeric(v[end]) then None else Some(Parsed(Token(TrimLabel(v[..end]), parts), end))
  }

  /** parse_digits: the index behind the digits at index, if there are any. */
  method ParseDigits(value: string, start: nat) returns (end: Option<nat>)
    requires start <= |value|
    ensures var n := DigitsLength(value[start..]);
            end == if n == 0 then None else Some(start + n)
  {
    if !(start < |value| && IsDigit(value[start])) {
      return None;
    }
    var index := start;
    while index < |value| && IsDigit(value[index])
      invariant start <= index <= |value|
      invariant DigitsLength(value[start..]) == index - start + DigitsLength(value[index..])
    {
      assert value[index..][1..] == value[index + 1..];
      index := index + 1;
    }
    return Some(index);
  }

  /** A number at an index, as parse::<i32> of the slice that ParseDigits finds. */
  method ParseNumberAt(value: string, start: nat) returns (r: Option<Number>)
    requires start <= |value|
    ensures match ParseNumber(value[start..])
            case None => r == None
            case Some(Number(k, n)) => r == Some(Number(k, start + n))
  {
    var end := ParseDigits(value, start);
    if end.None? {
      return None;
    }
    assert value[start..end.value] == value[start..][..end.value - start];
    var k := NumberOf(value[start..end.value]);
    if k > I32_MAX {
      return None;
    }
    return Some(Number(k, end.value));
  }

  /** The major and minor numbers, by the moving index. */
  method ParseHeadAt(value: string, start: nat) returns (r: Option<Head>)
    requires start <= |value|
    ensures match ParseHead(value[start..])
            case None => r == None
            case Some(Head(minor, h)) => r == Some(Head(minor, start + h))
  {
    var major := ParseNumberAt(value, start);
    if major.None? {
      return None;
    }
    var index := major.value.end;
    if major.value.number != MAJOR || index == |value| || value[index] != '.' {
      return None;
    }
    index := index + 1;
    SliceOfSuffix(value, start, index - start, 0);
    var minor := ParseNumberAt(value, index);
    if minor.None? {
      return None;
    }
    return Some(Head(minor.value.number, minor.value.end));
  }

  /** The core, by its moving index. */
  method ParseCoreAt(value: string, start: nat) returns (r: Option<Core>)
    requires start <= |value|
    ensures match ParseCore(value[start..])
            case None => r == None
            case Some(Core(parts, c)) => r == Some(Core(parts, start + c))
  {
    hide ParseHead, NumberOf, DigitsLength;
    var head := ParseHeadAt(value, start);
    if head.None? {
      return None;
    }
    var index := head.value.end;
    SliceOfSuffix(value, start, index - start, 0);
    var parts := [MAJOR, head.value.minor];
    assert parts + [] == parts;
    if index < |value| && value[index] == '.' {
      var patchStart := index + 1;
      SliceOfSuffix(value, index, 1, 0);
      if patchStart < |value| && IsX(value[patchStart]) {
        index := patchStart + 1;
      } else if patchStart < |value| && IsDigit(value[patchStart]) {
        var patch := ParseNumberAt(value, patchStart);
        if patch.None? {
          return None;
        }
        parts := parts + [patch.value.number];
        index := patch.value.end;
      }
    }
    return Some(Core(parts, index));
  }

  /** The suffix loop: where a suffix at index ends, or index itself. */
  method ParseSuffixAt(value: string, start: nat) returns (index: nat)
    requires start <= |value|
    ensures index == start + SuffixLength(value[start..])
  {
    index := start;
    if start < |value| && value[start] == '-' && StartsWithSuffix(value[start + 1..]) {
      assert value[start..][1..] == value[start + 1..];
      index := start + 1;
      while index < |value| && IsSuffixChar(value[index])
        invariant start + 1 <= index <= |value|
        invariant RunLength(value[start + 1..]) == index - (start + 1) + RunLength(value[index..])
      {
        assert value[index..][1..] == value[index + 1..];
        index := index + 1;
      }
    }
  }

  /** parse_minecraft_version_token: whether there is a token at an index, the
      token, and the index behind it. */
  method ParseMinecraftVersionToken(value: string, start: nat) returns (found: bool, token: Token, index: nat)
    requires start <= |value|
    ensures found <==> ParseToken(value[start..]).Some?
    ensures found ==> var parsed := ParseToken(value[start..]).value;
                      token == parsed.token && index == start + parsed.end
  {
    hide ParseToken, ParseCore, SuffixLength, TrimLabel, StartsWithSuffix, IsAlphanumeric;
    token := Token("", []);
    index := start;
    var core := ParseCoreAt(value, start);
    if core.None? {
      TokenHasCore(value[start..]);
      return false, token, index;
    }
    var parts, coreEnd := core.value.parts, core.value.end;
    index := ParseSuffixAt(value, coreEnd);
    ghost var c: nat, n: nat := coreEnd - start, index - start;
    TokenAt(value, start, parts, c, n);
    if index < |value| && IsAlphanumeric(value[index]) {
      return false, token, index;
    }
    token := Token(TrimLabel(value[start..index]), parts);
    found := true;
  }

  lemma SliceOfSuffix(value: string, start: nat, c: nat, e: nat)
    requires start + c <= |value| && start + e <= |value|
    ensures value[start..][c..] == value[start + c..]
    ensures value[start..][..e] == value[start..start + e]
    ensures start + e < |value| ==> value[start..][e] == value[start + e]
  {
  }

  /** A token by indices into the whole string: its core is c long, and it n. */
  lemma TokenAt(value: string, start: nat, parts: seq<int>, c: nat, n: nat)
    requires start + c <= |value| && ParseCore(value[start..]) == Some(Core(parts, c))
    requires n == c + SuffixLength(value[start + c..])
    ensures ParseToken(value[start..]) ==
            if start + n < |value| && IsAlphanumeric(value[start + n]) then None
            else Some(Parsed(Token(TrimLabel(value[start..start + n]), parts), n))
  {
    hide *;
    SliceOfSuffix(value, start, c, n);
    TokenOfCore(value[start..], parts, c);
  }

  lemma TokenHasCore(v: string)
    ensures ParseToken(v).Some? ==> ParseCore(v).Some?
  {
  }

  lemma TokenOfCore(v: string, parts: seq<int>, c: nat)
    requires ParseCore(v) == Some(Core(parts, c))
    ensures var e := c + SuffixLength(v[c..]);
            ParseToken(v) ==
            if e < |v| && IsAlphanumeric(v[e]) then None else Some(Parsed(Token(TrimLabel(v[..e]), parts), e))
  {
    hide ParseCore, SuffixLength, TrimLabel, StartsWithSuffix, IsAlphanumeric;
  }

  // ---- Ranges -------------------------------------------------------------------------------

  function PartAt(parts: seq<int>, i: nat): int {
    if i < |parts| then parts[i] else 0
  }

  /** Compare from part i on, reading missing parts as zero. */
  function CompareFrom(a: seq<int>, b: seq<int>, i: nat): Ordering
    decreases Max(|a|, |b|) - i
  {
    if i >= Max(|a|, |b|) then Equal
    else
      var here := CompareInts(PartAt(a, i), PartAt(b, i));
      if here != Equal then here else CompareFrom(a, b, i + 1)
  }

  function CompareParts(a: seq<int>, b: seq<int>): Ordering {
    CompareFrom(a, b, 0)
  }

  /** compare_version_parts. */
  method CompareVersionParts(left: seq<int>, right: seq<int>) returns (r: Ordering)
    ensures r == CompareParts(left, right)
  {
    for index := 0 to Max(|left|, |right|)
      invariant CompareFrom(left, right, index) == CompareParts(left, right)
    {
      var here := CompareInts(PartAt(left, index), PartAt(right, index));
      if here != Equal {
        return here;
      }
    }
    return Equal;
  }

  /** format_version_range. */
  function FormatRange(left: Token, right: Token): string {
    match CompareParts(left.parts, right.parts)
    case Equal => if left.text == right.text then left.text else left.text + "-" + right.text
    case Greater => right.text + "-" + left.text
    case Less => left.text + "-" + right.text
  }

  // ---- sanitize_minecraft_version ---------------------------------------------------------------

  /** find: the first index at which a string occurs. */
  function Find(s: string, what: string): (r: Option<nat>)
    ensures r.Some? ==> r.value + |what| <= |s| && s[r.value..r.value + |what|] == what
  {
    if StartsWith(s, what) then Some(0)
    else if s == [] then None
    else
      match Find(s[1..], what)
      case None => None
      case Some(i) => Some(i + 1)
  }

  /** extract_mc_parenthetical: the text of "(MC: text)". */
  function ExtractMc(value: string): (r: Option<string>)
    ensures r.Some? ==> |r.value| < |value|
  {
    match Find(Lower(value), "(mc:")
    case None => None
    case Some(start) =>
      var body := value[start + 4..];
      match Find(body, ")")
      case None => None
      case Some(end) => Some(Trim(body[..end]))
  }

  /** is_version_boundary_before. */
  predicate BoundaryBefore(value: string, i: nat)
    requires i <= |value|
  {
    i == 0 || (!IsAlphanumeric(value[i - 1]) && value[i - 1] != '.')
  }

  /** A token that counts starts at i: with "1", at a boundary. */
  predicate TokenStarts(value: string, i: nat)
    requires i < |value|
  {
    value[i] == '1' && BoundaryBefore(value, i) && ParseToken(value[i..]).Some?
  }

  /** find_minecraft_version_token: the first token from an index on, where it
      starts, and where it ends. */
  function FindToken(value: string, i: nat): (r: Option<Found>)
    requires i <= |value|
    ensures r.Some? ==> i <= r.value.start < r.value.end <= |value|
    decreases |value| - i
  {
    if i == |value| then None
    else if TokenStarts(value, i) then
      var Parsed(token, n) := ParseToken(value[i..]).value;
      Some(Found(token, i, i + n))
    else FindToken(value, i + 1)
  }

  /** What follows the first token, if it is a dash and another token. */
  function SecondToken(rest: string): Option<Token> {
    var trimmed := TrimStart(rest);
    if trimmed == [] || trimmed[0] != '-' then None
    else
      match ParseToken(TrimStart(trimmed[1..]))
      case None => None
      case Some(Parsed(token, _)) => Some(token)
  }

  /** The sanitiser on normalised text without a parenthetical. */
  function SanitizePlain(normalized: string): string {
    match FindToken(normalized, 0)
    case None => []
    case Some(Found(first, _, end)) =>
      match SecondToken(normalized[end..])
      case None => first.text
      case Some(second) => FormatRange(first, second)
  }

  function Sanitize(raw: string): string
    decreases |raw|
  {
    var normalized := Normalize(raw);
    NormalizeShrinks(raw);
    if normalized == [] then []
    else
      match ExtractMc(normalized)
      case None => SanitizePlain(normalized)
      case Some(mc) =>
        var version := Sanitize(mc);
        if version != [] then version else SanitizePlain(normalized)
  }

  // ---- Searching -------------------------------------------------------------------------------------

  predicate OccursAt(s: string, what: string, i: nat) {
    i + |what| <= |s| && s[i..i + |what|] == what
  }

  lemma OccursLater(s: string, what: string, i: nat)
    requires s != [] && i > 0
    ensures OccursAt(s, what, i) <==> OccursAt(s[1..], what, i - 1)
  {
    if i + |what| <= |s| {
      assert s[1..][i - 1..i - 1 + |what|] == s[i..i + |what|];
    }
  }

  /** find gives the first occurrence, and nothing only when there is none. */
  lemma {:induction false} FindIsFirst(s: string, what: string)
    ensures match Find(s, what)
            case None => forall i: nat :: !OccursAt(s, what, i)
            case Some(at) => OccursAt(s, what, at) && forall i: nat :: i < at ==> !OccursAt(s, what, i)
  {
    assert OccursAt(s, what, 0) <==> StartsWith(s, what);
    if !StartsWith(s, what) && s != [] {
      FindIsFirst(s[1..], what);
      forall i: nat | i > 0 ensures OccursAt(s, what, i) <==> OccursAt(s[1..], what, i - 1) {
        OccursLater(s, what, i);
      }
    }
  }

  /** The token found is the first that counts, with its own end; nothing is found
      only when no token counts. */
  lemma {:induction false} FindTokenIsFirst(value: string, i: nat)
    requires i <= |value|
    ensures match FindToken(value, i)
            case None => forall j :: i <= j < |value| ==> !TokenStarts(value, j)
            case Some(f) =>
              && i <= f.start < |value| && TokenStarts(value, f.start)
              && f.token == ParseToken(value[f.start..]).value.token
              && f.end == f.start + ParseToken(value[f.start..]).value.end
              && forall j :: i <= j < f.start ==> !TokenStarts(value, j)
    decreases |value| - i
  {
    hide ParseToken, BoundaryBefore;
    if i < |value| && !TokenStarts(value, i) {
      FindTokenIsFirst(value, i + 1);
    }
  }

  lemma AfterDash(rest: string)
    ensures var p := ParseToken(TrimStart(rest));
            SecondToken("-" + rest) == if p.None? then None else Some(p.value.token)
  {
    OtherStartIsKept("-" + rest);
    hide ParseToken, TrimStart;
    assert ("-" + rest)[1..] == rest;
  }

  lemma BeforeDash(rest: string)
    ensures SecondToken(" " + rest) == SecondToken(rest)
  {
    hide ParseToken, TrimStart;
    LeadingSpaceIsTrimmed(rest);
  }

  /** Spaces on either side of the dash of a range do not matter. */
  lemma SpacesAroundTheDash(rest: string)
    ensures SecondToken(" " + rest) == SecondToken(rest)
    ensures SecondToken("-" + (" " + rest)) == SecondToken("-" + rest)
  {
    hide *;
    BeforeDash(rest);
    AfterDash(rest);
    AfterDash(" " + rest);
    LeadingSpaceIsTrimmed(rest);
  }

  // ---- Termination ---------------------------------------------------------------------------------

  function JoinedLength(words: seq<string>): nat {
    if words == [] then 0 else |words[0]| + 1 + JoinedLength(words[1..])
  }

  lemma {:induction false} JoinLength(words: seq<string>)
    ensures |Join(words, " ")| == if words == [] then 0 else JoinedLength(words) - 1
  {
    if |words| > 1 {
      JoinLength(words[1..]);
    }
  }

  lemma {:induction false} WordsFit(s: string)
    ensures JoinedLength(Words(s)) <= |s| + 1
    decreases |s|
  {
    if s != [] {
      if IsWhitespace(s[0]) {
        WordsFit(s[1..]);
      } else {
        var n := WordLength(s);
        WordEnds(s);
        var words := Words(s[n..]);
        assert ([s[..n]] + words)[1..] == words;
        if n < |s| {
          WordsFit(s[n + 1..]);
          assert s[n..][1..] == s[n + 1..];
        }
      }
    }
  }

  lemma {:induction false} WordEnds(s: string)
    ensures var n := WordLength(s); n < |s| ==> IsWhitespace(s[n])
  {
    if s != [] && !IsWhitespace(s[0]) {
      WordEnds(s[1..]);
    }
  }

  /** Normalising never lengthens, and a parenthetical is shorter than what holds
      it: the sanitiser's recursion is on ever shorter strings. */
  lemma NormalizeShrinks(raw: string)
    ensures |Normalize(raw)| <= |raw|
  {
    WordsFit(StripCodes(raw));
    JoinLength(Words(StripCodes(raw)));
  }
}
