/** Strings as the Rust standard library sees them: white space and trimming. */
module Text {
  import opened Basics

  /** The characters with the Unicode property White_Space. */
  predicate IsWhitespace(c: char) {
    || '\U{9}' <= c <= '\U{D}'
    || c == ' ' || c == '\U{85}' || c == '\U{A0}' || c == '\U{1680}'
    || '\U{2000}' <= c <= '\U{200A}'
    || c == '\U{2028}' || c == '\U{2029}' || c == '\U{202F}' || c == '\U{205F}' || c == '\U{3000}'
  }

  function TrimStart(s: string): (r: string)
    ensures |r| <= |s| && r == s[|s| - |r|..]
  {
    if s != [] && IsWhitespace(s[0]) then TrimStart(s[1..]) else s
  }

  function TrimEnd(s: string): (r: string)
    ensures r <= s
  {
    if s != [] && IsWhitespace(s[|s| - 1]) then TrimEnd(s[..|s| - 1]) else s
  }

  function Trim(s: string): (r: string)
    ensures |r| <= |s|
  {
    TrimEnd(TrimStart(s))
  }

  predicate AllWhitespace(s: string) {
    forall i :: 0 <= i < |s| ==> IsWhitespace(s[i])
  }

  /** There is nothing to trim at either end. */
  predicate IsTrimmed(t: string) {
    t == [] || (!IsWhitespace(t[0]) && !IsWhitespace(t[|t| - 1]))
  }

  /** The text is t, but for white space around it. */
  ghost predicate TrimsTo(s: string, t: string) {
    IsTrimmed(t) && exists pre, post :: AllWhitespace(pre) && AllWhitespace(post) && s == pre + t + post
  }

  lemma {:induction false} LeadingIsTrimmed(pre: string, rest: string)
    requires AllWhitespace(pre) && (rest == [] || !IsWhitespace(rest[0]))
    ensures TrimStart(pre + rest) == rest
  {
    hide IsWhitespace;
    if pre == [] {
      assert pre + rest == rest;
    } else {
      assert (pre + rest)[1..] == pre[1..] + rest;
      LeadingIsTrimmed(pre[1..], rest);
    }
  }

  lemma TrimEndUnfolds(s: string)
    ensures TrimEnd(s) == if s != [] && IsWhitespace(s[|s| - 1]) then TrimEnd(s[..|s| - 1]) else s
  {
  }

  lemma LastOfTrailing(rest: string, post: string)
    requires AllWhitespace(post) && post != []
    ensures var s, front := rest + post, post[..|post| - 1];
            s != [] && IsWhitespace(s[|s| - 1]) && s[..|s| - 1] == rest + front && AllWhitespace(front)
  {
    hide IsWhitespace;
  }

  lemma {:induction false} TrailingIsTrimmed(rest: string, post: string)
    requires AllWhitespace(post) && (rest == [] || !IsWhitespace(rest[|rest| - 1]))
    ensures TrimEnd(rest + post) == rest
    decreases |post|
  {
    hide *;
    TrimEndUnfolds(rest + post);
    if post == [] {
      assert rest + post == rest;
    } else {
      LastOfTrailing(rest, post);
      TrailingIsTrimmed(rest, post[..|post| - 1]);
    }
  }

  lemma TrimMeans(s: string, t: string)
    requires TrimsTo(s, t)
    ensures Trim(s) == t
  {
    hide IsWhitespace;
    var pre, post :| AllWhitespace(pre) && AllWhitespace(post) && s == pre + t + post;
    if t == [] {
      assert s == pre + post + [];
      LeadingIsTrimmed(pre + post, []);
    } else {
      assert s == pre + (t + post);
      LeadingIsTrimmed(pre, t + post);
      TrailingIsTrimmed(t, post);
    }
  }

  /** In ASCII, white space is the space, and the controls from tab to carriage return. */
  lemma AsciiWhitespace(c: char)
    requires c < '\U{80}'
    ensures IsWhitespace(c) <==> c in {' ', '\t', '\n', '\U{B}', '\U{C}', '\r'}
  {
  }

  lemma SpaceInFront(c: char, pre: string)
    requires IsWhitespace(c) && AllWhitespace(pre)
    ensures AllWhitespace([c] + pre) && AllWhitespace(pre + [c])
  {
    hide IsWhitespace;
  }

  lemma TrimStartUnfolds(s: string)
    ensures TrimStart(s) == if s != [] && IsWhitespace(s[0]) then TrimStart(s[1..]) else s
    ensures s != [] ==> s == [s[0]] + s[1..]
  {
  }

  lemma {:induction false} LeadingWhitespace(s: string) returns (pre: string)
    ensures AllWhitespace(pre) && s == pre + TrimStart(s)
    ensures TrimStart(s) == [] || !IsWhitespace(TrimStart(s)[0])
    decreases |s|
  {
    hide *;
    TrimStartUnfolds(s);
    if s != [] && IsWhitespace(s[0]) {
      var rest := s[1..];
      var more := LeadingWhitespace(rest);
      pre := [s[0]] + more;
      SpaceInFront(s[0], more);
      AssociativeConcat([s[0]], more, TrimStart(rest));
    } else {
      pre := NoWhitespace(s);
    }
  }

  lemma NoWhitespace(s: string) returns (none: string)
    ensures none == [] && AllWhitespace(none) && none + s == s && s + none == s
  {
    none := [];
  }

  lemma {:induction false} TrailingWhitespace(s: string) returns (post: string)
    ensures AllWhitespace(post) && s == TrimEnd(s) + post
    ensures TrimEnd(s) == [] || !IsWhitespace(TrimEnd(s)[|TrimEnd(s)| - 1])
  {
    hide IsWhitespace, AllWhitespace;
    if s != [] && IsWhitespace(s[|s| - 1]) {
      var front := s[..|s| - 1];
      var more := TrailingWhitespace(front);
      post := more + [s[|s| - 1]];
      SpaceInFront(s[|s| - 1], more);
      assert s == (TrimEnd(front) + more) + [s[|s| - 1]];
    } else {
      post := NoWhitespace(s);
    }
  }

  lemma TrimsToItsTrim(s: string)
    ensures TrimsTo(s, Trim(s))
  {
    hide IsWhitespace, AllWhitespace, TrimStart;
    var pre := LeadingWhitespace(s);
    var u := TrimStart(s);
    var post := TrailingWhitespace(u);
    if TrimEnd(u) != [] {
      StartOfPrefix(u, TrimEnd(u));
    }
    AssociativeConcat(pre, TrimEnd(u), post);
    assert s == pre + TrimEnd(u) + post;
  }

  /** Trimming takes all white space off both ends, and nothing else. */
  lemma TrimExactly(s: string, t: string)
    ensures Trim(s) == t <==> TrimsTo(s, t)
  {
    hide *;
    TrimsToItsTrim(s);
    if TrimsTo(s, t) {
      TrimMeans(s, t);
    }
  }

  lemma StartOfPrefix(u: string, t: string)
    requires t <= u && t != []
    ensures t[0] == u[0]
  {
  }

  lemma LeadingSpaceIsTrimmed(s: string)
    ensures TrimStart(" " + s) == TrimStart(s)
  {
    assert IsWhitespace(' ');
    hide IsWhitespace;
    var t := " " + s;
    assert t[0] == ' ' && t[1..] == s;
  }

  lemma OtherStartIsKept(s: string)
    requires s != [] && !IsWhitespace(s[0])
    ensures TrimStart(s) == s
  {
  }

  function Join(parts: seq<string>, separator: string): string {
    if parts == [] then []
    else if |parts| == 1 then parts[0]
    else parts[0] + separator + Join(parts[1..], separator)
  }
}
