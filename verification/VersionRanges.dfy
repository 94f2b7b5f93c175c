/** The order on versions and the ranges printed with it. */
module VersionRanges {
  import opened Basics
  import opened Versions

  // ---- The order ---------------------------------------------------------------------

  /** Compare parts i up to n, reading missing parts as zero. */
  function CompareUpTo(a: seq<int>, b: seq<int>, i: nat, n: nat): Ordering
    decreases n - i
  {
    if i >= n then Equal
    else
      var here := CompareInts(PartAt(a, i), PartAt(b, i));
      if here != Equal then here else CompareUpTo(a, b, i + 1, n)
  }

  /** Looking at more parts than there are changes nothing. */
  lemma {:induction false} MorePartsAreZero(a: seq<int>, b: seq<int>, i: nat, n: nat)
    requires n >= Max(|a|, |b|)
    ensures CompareUpTo(a, b, i, n) == CompareFrom(a, b, i)
    decreases n - i
  {
    if i < n {
      MorePartsAreZero(a, b, i + 1, n);
    }
  }

  lemma {:induction false} UpToFlips(a: seq<int>, b: seq<int>, i: nat, n: nat)
    ensures CompareUpTo(b, a, i, n) == CompareUpTo(a, b, i, n).Flip()
    decreases n - i
  {
    if i < n {
      UpToFlips(a, b, i + 1, n);
    }
  }

  lemma {:induction false} UpToIsTransitive(a: seq<int>, b: seq<int>, c: seq<int>, i: nat, n: nat)
    requires CompareUpTo(a, b, i, n) != Greater && CompareUpTo(b, c, i, n) != Greater
    ensures CompareUpTo(a, c, i, n) != Greater
    ensures CompareUpTo(a, c, i, n) == Equal <==> CompareUpTo(a, b, i, n) == Equal && CompareUpTo(b, c, i, n) == Equal
    decreases n - i
  {
    if i < n {
      if PartAt(a, i) == PartAt(b, i) == PartAt(c, i) {
        UpToIsTransitive(a, b, c, i + 1, n);
      }
    }
  }

  /** Comparing versions is a total preorder: it reverses with its arguments and is transitive. */
  lemma CompareIsATotalPreorder(a: seq<int>, b: seq<int>, c: seq<int>)
    ensures CompareParts(b, a) == CompareParts(a, b).Flip()
    ensures CompareParts(a, b) != Greater && CompareParts(b, c) != Greater ==> CompareParts(a, c) != Greater
  {
    var n := Max(Max(|a|, |b|), |c|);
    MorePartsAreZero(a, b, 0, n);
    MorePartsAreZero(b, a, 0, n);
    MorePartsAreZero(b, c, 0, n);
    MorePartsAreZero(a, c, 0, n);
    UpToFlips(a, b, 0, n);
    if CompareParts(a, b) != Greater && CompareParts(b, c) != Greater {
      UpToIsTransitive(a, b, c, 0, n);
    }
  }

  lemma {:induction false} EqualFrom(a: seq<int>, b: seq<int>, i: nat)
    ensures CompareFrom(a, b, i) == Equal <==> forall j :: i <= j ==> PartAt(a, j) == PartAt(b, j)
    decreases Max(|a|, |b|) - i
  {
    if i < Max(|a|, |b|) {
      EqualFrom(a, b, i + 1);
    }
  }

  /** Two versions compare equal exactly when they agree once padded with zeros. */
  lemma EqualExactlyWhenPaddedAlike(a: seq<int>, b: seq<int>)
    ensures CompareParts(a, b) == Equal <==> forall j: nat :: PartAt(a, j) == PartAt(b, j)
  {
    EqualFrom(a, b, 0);
  }

  lemma {:induction false} UpToDependsOnParts(a: seq<int>, a': seq<int>, b: seq<int>, i: nat, n: nat)
    requires forall j: nat :: PartAt(a, j) == PartAt(a', j)
    ensures CompareUpTo(a, b, i, n) == CompareUpTo(a', b, i, n)
    decreases n - i
  {
    if i < n {
      UpToDependsOnParts(a, a', b, i + 1, n);
    }
  }

  /** Trailing zeros never matter. */
  lemma TrailingZeros(a: seq<int>, b: seq<int>)
    ensures CompareParts(a + [0], b) == CompareParts(a, b)
  {
    var n := Max(|a| + 1, |b|);
    MorePartsAreZero(a + [0], b, 0, n);
    MorePartsAreZero(a, b, 0, n);
    UpToDependsOnParts(a + [0], a, b, 0, n);
  }

  // ---- Ranges ---------------------------------------------------------------------------

  /** A printed range has its lower end first: it is "x-y" for the two tokens in an
      order in which x does not come after y, or one label when the tokens are alike. */
  lemma LowerEndFirst(left: Token, right: Token)
    ensures var r := FormatRange(left, right);
            || (r == left.text && left.text == right.text && CompareParts(left.parts, right.parts) == Equal)
            || (r == left.text + "-" + right.text && CompareParts(left.parts, right.parts) != Greater)
            || (r == right.text + "-" + left.text && CompareParts(right.parts, left.parts) == Less)
  {
    CompareIsATotalPreorder(left.parts, right.parts, []);
  }

  lemma FirstDash(a: string, b: string)
    requires '-' !in a
    ensures var s := a + "-" + b; s[|a|] == '-' && (forall i :: 0 <= i < |a| ==> s[i] != '-') && s[..|a|] == a
  {
  }

  lemma DashSplits(a: string, b: string)
    requires '-' !in a && '-' !in b && a + "-" + b == b + "-" + a
    ensures a == b
  {
    FirstDash(a, b);
    FirstDash(b, a);
  }

  // ---- When the order of the ends matters ------------------------------------------------

  function Repeat(w: string, n: nat): string {
    if n == 0 then [] else w + Repeat(w, n - 1)
  }

  lemma {:induction false} RepeatAdds(w: string, i: nat, j: nat)
    ensures Repeat(w, i) + Repeat(w, j) == Repeat(w, i + j)
  {
    if i == 0 {
      assert [] + Repeat(w, j) == Repeat(w, j);
    } else {
      RepeatAdds(w, i - 1, j);
      AssociativeConcat(w, Repeat(w, i - 1), Repeat(w, j));
    }
  }

  /** The two are repetitions of one string. */
  ghost predicate RepeatOne(u: string, v: string) {
    exists w, i, j :: Repetition(u, w, i) && Repetition(v, w, j)
  }

  predicate Repetition(u: string, w: string, i: nat) {
    u == Repeat(w, i)
  }

  lemma OnceIsRepeat(w: string)
    ensures Repetition(w, w, 1) && Repetition([], w, 0)
  {
    assert w + [] == w;
  }

  lemma CutFront(u: string, v: string)
    requires u + v == v + u && |u| <= |v|
    ensures var v' := v[|u|..]; v == u + v' && u + v' == v' + u
  {
    var v' := v[|u|..];
    assert (u + v)[..|u|] == u && (v + u)[..|u|] == v[..|u|];
    assert v == v[..|u|] + v';
    assert (u + v)[|u|..] == v && (v + u)[|u|..] == v' + u;
  }

  /** Strings commute exactly when they are repetitions of one string. */
  lemma {:induction false} CommutingRepeat(u: string, v: string) returns (w: string, i: nat, j: nat)
    requires u + v == v + u
    ensures Repetition(u, w, i) && Repetition(v, w, j)
    decreases |u| + |v|
  {
    if u == [] {
      OnceIsRepeat(v);
      w, i, j := v, 0, 1;
    } else if v == [] {
      OnceIsRepeat(u);
      w, i, j := u, 1, 0;
    } else if |u| <= |v| {
      CutFront(u, v);
      w, i, j := CommutingRepeat(u, v[|u|..]);
      RepeatAdds(w, i, j);
      j := i + j;
    } else {
      CutFront(v, u);
      w, i, j := CommutingRepeat(u[|v|..], v);
      RepeatAdds(w, j, i);
      i := j + i;
    }
  }

  lemma CommuteExactlyWhen(u: string, v: string)
    ensures u + v == v + u <==> RepeatOne(u, v)
  {
    if u + v == v + u {
      var w, i, j := CommutingRepeat(u, v);
    }
    if RepeatOne(u, v) {
      var w, i, j :| Repetition(u, w, i) && Repetition(v, w, j);
      RepeatAdds(w, i, j);
      RepeatAdds(w, j, i);
    }
  }

  lemma DashBehind(a: string, b: string)
    ensures a + "-" + b == b + "-" + a <==> (a + "-") + (b + "-") == (b + "-") + (a + "-")
  {
    var s, t := a + "-" + b, b + "-" + a;
    assert (a + "-") + (b + "-") == s + "-" && (b + "-") + (a + "-") == t + "-";
    assert (s + "-")[..|s|] == s && (t + "-")[..|t|] == t;
  }

  /**
   Exactly when the printed range does not depend on the order of its ends: they
   compare different, or their labels, each with a dash behind it, are repetitions
   of one string, as equal labels are.
   */
  lemma SymmetricExactlyWhen(left: Token, right: Token)
    ensures FormatRange(left, right) == FormatRange(right, left) <==>
            CompareParts(left.parts, right.parts) != Equal || RepeatOne(left.text + "-", right.text + "-")
  {
    hide RepeatOne, CompareParts;
    CompareIsATotalPreorder(left.parts, right.parts, []);
    DashBehind(left.text, right.text);
    CommuteExactlyWhen(left.text + "-", right.text + "-");
  }

  /** For labels without a suffix the only such labels are equal ones. */
  lemma SymmetricWithoutSuffix(left: Token, right: Token)
    requires '-' !in left.text && '-' !in right.text
    ensures FormatRange(left, right) == FormatRange(right, left) <==>
            CompareParts(left.parts, right.parts) != Equal || left.text == right.text
  {
    hide CompareParts;
    CompareIsATotalPreorder(left.parts, right.parts, []);
    if left.text + "-" + right.text == right.text + "-" + left.text {
      DashSplits(left.text, right.text);
    }
  }
}
