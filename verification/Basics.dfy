/** Optional values, orderings and sequence facts shared by every component. */
module Basics {

  /** How many numbers a u32 can hold. */
  const U32_RANGE: nat := 0x1_0000_0000

  datatype Option<+T> = None | Some(value: T) {
    function GetOr(default: T): T {
      match this
      case Some(v) => v
      case None => default
    }
  }

  /** The first n elements, or all of them when there are fewer. */
  function Take<T>(s: seq<T>, n: nat): seq<T> {
    if n < |s| then s[..n] else s
  }

  lemma TakeOfConcat<T>(a: seq<T>, b: seq<T>, n: nat)
    requires |a| <= n && (b == [] || |a| == n)
    ensures Take(a + b, n) == a
  {
  }

  lemma AssociativeConcat<T>(a: seq<T>, b: seq<T>, c: seq<T>)
    ensures a + (b + c) == a + b + c
  {
  }

  lemma TakeCons<T>(s: seq<T>, n: nat)
    requires n < |s|
    ensures s[..1 + n] == [s[0]] + s[1..][..n]
  {
  }

  lemma MultisetOfConcat<T>(a: seq<T>, b: seq<T>, c: multiset<T>)
    ensures multiset(a + b) + c == multiset(a) + (multiset(b) + c)
  {
  }

  lemma MultisetAppend<T>(a: seq<T>, b: seq<T>)
    ensures multiset(a + b) == multiset(a) + multiset(b)
  {
  }

  lemma MultisetSum<T>(a: multiset<T>, b: multiset<T>, c: multiset<T>)
    ensures a + (b + c) == a + b + c
  {
  }

  function Max(a: int, b: int): int {
    if a < b then b else a
  }

  datatype Ordering = Less | Equal | Greater {
    function Flip(): Ordering {
      match this
      case Less => Greater
      case Equal => Equal
      case Greater => Less
    }

    function Then(other: Ordering): Ordering {
      if Equal? then other else this
    }
  }

  function CompareInts(a: int, b: int): Ordering {
    if a < b then Less else if a > b then Greater else Equal
  }
}
