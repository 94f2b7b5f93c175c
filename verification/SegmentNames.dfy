/**
 Segment file names.  The buffer keeps no index of its own: it lists the
 directory and sorts by name (src/wal.rs:152-159), so what "oldest" means is
 the lexicographic order of "buffer-{millis}.wal".
 */
module SegmentNames {

  function Digit(d: nat): char
    requires d < 10
  {
    '0' + d as char
  }

  function Decimal(n: nat): (s: string)
    ensures s != []
  {
    if n < 10 then [Digit(n)] else Decimal(n / 10) + [Digit(n % 10)]
  }

  function SegmentName(ts: nat): string {
    "buffer-" + Decimal(ts) + ".wal"
  }

  /** Strict lexicographic order. */
  predicate Before(a: string, b: string) {
    b != [] && (a == [] || a[0] < b[0] || (a[0] == b[0] && Before(a[1..], b[1..])))
  }

  /** The order in which the directory listing puts two segments. */
  predicate Earlier(a: nat, b: nat) {
    Before(SegmentName(a), SegmentName(b))
  }

  /** How many digits a number is written with. */
  function Width(n: nat): (w: nat)
    ensures w > 0
  {
    |Decimal(n)|
  }

  predicate SameWidth(a: nat, b: nat) {
    Width(a) == Width(b)
  }

  // ---- The name order is a strict total order ---------------------------------

  lemma {:induction false} BeforeIsTotal(a: string, b: string)
    ensures a == b || Before(a, b) || Before(b, a)
  {
    if a != [] && b != [] && a[0] == b[0] {
      BeforeIsTotal(a[1..], b[1..]);
      assert a == [a[0]] + a[1..] && b == [b[0]] + b[1..];
    }
  }

  lemma {:induction false} BeforeIsIrreflexive(a: string)
    ensures !Before(a, a)
  {
    if a != [] {
      BeforeIsIrreflexive(a[1..]);
    }
  }

  lemma {:induction false} BeforeIsTransitive(a: string, b: string, c: string)
    requires Before(a, b) && Before(b, c)
    ensures Before(a, c)
  {
    if a != [] && a[0] == b[0] == c[0] {
      BeforeIsTransitive(a[1..], b[1..], c[1..]);
    }
  }

  lemma OneDigit(n: nat)
    ensures |Decimal(n)| == 1 <==> n < 10
  {
    if n >= 10 {
      assert |Decimal(n / 10)| >= 1;
    }
  }

  lemma {:induction false} DecimalIsInjective(a: nat, b: nat)
    requires Decimal(a) == Decimal(b)
    ensures a == b
  {
    var s, t := Decimal(a), Decimal(b);
    assert s[|s| - 1] == Digit(a % 10) && t[|t| - 1] == Digit(b % 10);
    OneDigit(a);
    OneDigit(b);
    if a >= 10 {
      assert s[..|s| - 1] == Decimal(a / 10) && t[..|t| - 1] == Decimal(b / 10);
      DecimalIsInjective(a / 10, b / 10);
    }
  }

  lemma NamesAreDistinct(a: nat, b: nat)
    requires SegmentName(a) == SegmentName(b)
    ensures a == b
  {
    var s, t := SegmentName(a), SegmentName(b);
    assert s[7..|s| - 4] == Decimal(a) && t[7..|t| - 4] == Decimal(b);
    DecimalIsInjective(a, b);
  }

  /** Earlier is a strict total order on timestamps. */
  lemma EarlierIsTotal(a: nat, b: nat)
    ensures a == b || Earlier(a, b) || Earlier(b, a)
    ensures !(Earlier(a, b) && Earlier(b, a))
    ensures !Earlier(a, a)
  {
    BeforeIsTotal(SegmentName(a), SegmentName(b));
    BeforeIsIrreflexive(SegmentName(a));
    if Earlier(a, b) && Earlier(b, a) {
      BeforeIsTransitive(SegmentName(a), SegmentName(b), SegmentName(a));
    }
    if SegmentName(a) == SegmentName(b) {
      NamesAreDistinct(a, b);
    }
  }

  lemma EarlierIsTransitive(a: nat, b: nat, c: nat)
    requires Earlier(a, b) && Earlier(b, c)
    ensures Earlier(a, c)
  {
    BeforeIsTransitive(SegmentName(a), SegmentName(b), SegmentName(c));
  }

  // ---- Name order and numeric order -------------------------------------------

  lemma {:induction false} BeforeOfConcat(a: string, b: string, x: string, y: string)
    requires |a| == |b|
    ensures Before(a + x, b + y) <==> Before(a, b) || (a == b && Before(x, y))
  {
    if a == [] {
      assert a + x == x && b + y == y;
    } else {
      assert (a + x)[1..] == a[1..] + x && (b + y)[1..] == b[1..] + y;
      BeforeOfConcat(a[1..], b[1..], x, y);
      assert a == [a[0]] + a[1..] && b == [b[0]] + b[1..];
    }
  }

  lemma {:induction false} DecimalOrder(a: nat, b: nat)
    requires SameWidth(a, b)
    ensures Before(Decimal(a), Decimal(b)) <==> a < b
  {
    OneDigit(a);
    OneDigit(b);
    if a < 10 {
      assert Digit(a) < Digit(b) <==> a < b;
    } else {
      DecimalOrder(a / 10, b / 10);
      BeforeOfConcat(Decimal(a / 10), Decimal(b / 10), [Digit(a % 10)], [Digit(b % 10)]);
      if Decimal(a / 10) == Decimal(b / 10) {
        DecimalIsInjective(a / 10, b / 10);
      }
    }
  }

  /** Between timestamps of equal width, the listing order is the order of time. */
  lemma EarlierIsNumericOrder(a: nat, b: nat)
    requires SameWidth(a, b)
    ensures Earlier(a, b) <==> a < b
  {
    DecimalOrder(a, b);
    BeforeOfConcat(Decimal(a), Decimal(b), ".wal", ".wal");
    BeforeIsIrreflexive(".wal");
    EarlierByNumber(a, b);
  }

  // ---- Name order between any two widths ------------------------------------------

  /** The number that the first n digits of b write. */
  function Leading(b: nat, n: nat): (l: nat)
    requires 0 < n <= Width(b)
    ensures Width(l) == n
    decreases b
  {
    if Width(b) == n then b
    else
      OneDigit(b);
      Leading(b / 10, n)
  }

  lemma {:induction false} LeadingSplits(b: nat, n: nat)
    requires 0 < n <= Width(b)
    ensures Decimal(b)[..n] == Decimal(Leading(b, n))
    ensures n < Width(b) ==> IsDigit(Decimal(b)[n])
    decreases b
  {
    if n < Width(b) {
      OneDigit(b);
      LeadingSplits(b / 10, n);
    }
  }

  predicate IsDigit(c: char) {
    '0' <= c <= '9'
  }

  lemma DotBeforeDigit(rest: string)
    requires rest != [] && IsDigit(rest[0])
    ensures Before(".wal", rest) && !Before(rest, ".wal")
  {
  }

  lemma SplitAtWidth(b: nat, n: nat)
    requires 0 < n < Width(b)
    ensures var rest := Decimal(b)[n..] + ".wal";
            Decimal(b) + ".wal" == Decimal(Leading(b, n)) + rest && IsDigit(rest[0])
  {
    LeadingSplits(b, n);
    hide Decimal, Leading;
    assert Decimal(b) == Decimal(b)[..n] + Decimal(b)[n..];
  }

  /** A shorter number comes first exactly when it is at most what the longer
      one's digits write at its width: the dot of ".wal" sorts below every digit. */
  lemma ShorterFirst(a: nat, b: nat)
    requires Width(a) < Width(b)
    ensures Before(Decimal(a) + ".wal", Decimal(b) + ".wal") <==> a <= Leading(b, Width(a))
    ensures Before(Decimal(b) + ".wal", Decimal(a) + ".wal") <==> Leading(b, Width(a)) < a
  {
    hide Decimal, Leading, Before, IsDigit;
    var n := Width(a);
    var lead, rest := Leading(b, n), Decimal(b)[n..] + ".wal";
    SplitAtWidth(b, n);
    DotBeforeDigit(rest);
    BeforeOfConcat(Decimal(a), Decimal(lead), ".wal", rest);
    BeforeOfConcat(Decimal(lead), Decimal(a), rest, ".wal");
    DecimalOrder(a, lead);
    DecimalOrder(lead, a);
    if Decimal(a) == Decimal(lead) {
      DecimalIsInjective(a, lead);
    }
  }

  lemma EarlierByNumber(a: nat, b: nat)
    ensures Earlier(a, b) <==> Before(Decimal(a) + ".wal", Decimal(b) + ".wal")
  {
    BeforeOfConcat("buffer-", "buffer-", Decimal(a) + ".wal", Decimal(b) + ".wal");
    BeforeIsIrreflexive("buffer-");
    assert SegmentName(a) == "buffer-" + (Decimal(a) + ".wal");
    assert SegmentName(b) == "buffer-" + (Decimal(b) + ".wal");
  }

  /** The listing order of any two timestamps, by numbers alone. */
  lemma EarlierExactly(a: nat, b: nat)
    ensures Earlier(a, b) <==>
              if Width(a) <= Width(b) then (if SameWidth(a, b) then a < b else a <= Leading(b, Width(a)))
              else Leading(a, Width(b)) < b
  {
    EarlierByNumber(a, b);
    if SameWidth(a, b) {
      EarlierIsNumericOrder(a, b);
    } else if Width(a) < Width(b) {
      ShorterFirst(a, b);
    } else {
      ShorterFirst(b, a);
    }
  }

  lemma {:induction false} WiderIsLarger(a: nat, b: nat)
    requires a <= b
    ensures Width(a) <= Width(b)
  {
    OneDigit(a);
    OneDigit(b);
    if a >= 10 {
      WiderIsLarger(a / 10, b / 10);
    }
  }

  /** Exactly when the listing keeps two segments in the order of time: when the
      earlier timestamp is at most the leading digits of the later one. */
  lemma KeepsTimeExactly(a: nat, b: nat)
    requires a < b
    ensures Width(a) <= Width(b)
    ensures Earlier(a, b) <==> a <= Leading(b, Width(a))
  {
    WiderIsLarger(a, b);
    EarlierExactly(a, b);
  }

  /** So a later timestamp can be listed first. */
  lemma WidthMatters()
    ensures Earlier(10, 9)
  {
    assert Decimal(10) == "10" && Decimal(9) == "9" && Leading(10, 1) == 1;
    EarlierExactly(10, 9);
  }

  // ---- The first segment of a listing ------------------------------------------

  predicate IsFirst(keys: set<nat>, k: nat) {
    k in keys && forall j :: j in keys ==> j == k || Earlier(k, j)
  }

  lemma {:induction false} FirstExists(keys: set<nat>)
    requires keys != {}
    ensures exists k :: IsFirst(keys, k)
    decreases |keys|
  {
    var x :| x in keys;
    if keys == {x} {
      assert IsFirst(keys, x);
    } else {
      FirstExists(keys - {x});
      var k :| IsFirst(keys - {x}, k);
      EarlierIsTotal(x, k);
      if Earlier(k, x) {
        assert IsFirst(keys, k);
      } else {
        forall j | j in keys ensures j == x || Earlier(x, j) {
          if j != x && j != k {
            EarlierIsTransitive(x, k, j);
          }
        }
        assert IsFirst(keys, x);
      }
    }
  }

  lemma FirstIsUnique(keys: set<nat>, a: nat, b: nat)
    requires IsFirst(keys, a) && IsFirst(keys, b)
    ensures a == b
  {
    EarlierIsTotal(a, b);
  }

  ghost function First(keys: set<nat>): (k: nat)
    requires keys != {}
    ensures IsFirst(keys, k)
  {
    FirstExists(keys);
    var k :| IsFirst(keys, k);
    k
  }

  lemma FirstIs(keys: set<nat>, k: nat)
    requires IsFirst(keys, k)
    ensures First(keys) == k
  {
    FirstIsUnique(keys, First(keys), k);
  }

  /** The directory listing: every key once, in name order. */
  ghost predicate IsListing(keys: set<nat>, list: seq<nat>) {
    && (forall k :: k in keys <==> k in list)
    && (forall i, j :: 0 <= i < j < |list| ==> Earlier(list[i], list[j]))
  }
}
