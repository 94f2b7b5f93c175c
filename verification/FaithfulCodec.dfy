/**
 A codec that restores every value, to show that what is asked of the JSON codec
 can be met: numbers in unary, so that no encoding is a prefix of another.
 */
module FaithfulCodec {
  import opened Basics
  import opened Json
  import opened RecordCodec

  // ---- Prefix-free pieces ------------------------------------------------------------------

  function OfNat(n: nat): seq<byte> {
    if n == 0 then [0] else [1] + OfNat(n - 1)
  }

  lemma {:induction false} NatSplits(n: nat, m: nat, x: seq<byte>, y: seq<byte>)
    requires OfNat(n) + x == OfNat(m) + y
    ensures n == m && x == y
  {
    var s, t := OfNat(n) + x, OfNat(m) + y;
    assert s[0] == OfNat(n)[0] && t[0] == OfNat(m)[0];
    if n == 0 {
      assert s[1..] == x && t[1..] == y;
    } else {
      assert s[1..] == OfNat(n - 1) + x && t[1..] == OfNat(m - 1) + y;
      NatSplits(n - 1, m - 1, x, y);
    }
  }

  function Folded(i: int): nat {
    if i >= 0 then 2 * i else -2 * i - 1
  }

  function OfInt(i: int): seq<byte> {
    OfNat(Folded(i))
  }

  lemma IntSplits(i: int, j: int, x: seq<byte>, y: seq<byte>)
    requires OfInt(i) + x == OfInt(j) + y
    ensures i == j && x == y
  {
    NatSplits(Folded(i), Folded(j), x, y);
  }

  function OfChars(s: string): seq<byte> {
    if s == [] then [] else OfNat(s[0] as nat) + OfChars(s[1..])
  }

  lemma {:induction false} CharsSplit(s: string, t: string, x: seq<byte>, y: seq<byte>)
    requires |s| == |t| && OfChars(s) + x == OfChars(t) + y
    ensures s == t && x == y
  {
    if s == [] {
      assert OfChars(s) + x == x && OfChars(t) + y == y;
    } else {
      AssociativeConcat(OfNat(s[0] as nat), OfChars(s[1..]), x);
      AssociativeConcat(OfNat(t[0] as nat), OfChars(t[1..]), y);
      NatSplits(s[0] as nat, t[0] as nat, OfChars(s[1..]) + x, OfChars(t[1..]) + y);
      CharsSplit(s[1..], t[1..], x, y);
      assert s == [s[0]] + s[1..] && t == [t[0]] + t[1..];
    }
  }

  function OfString(s: string): seq<byte> {
    OfNat(|s|) + OfChars(s)
  }

  lemma StringSplits(s: string, t: string, x: seq<byte>, y: seq<byte>)
    requires OfString(s) + x == OfString(t) + y
    ensures s == t && x == y
  {
    AssociativeConcat(OfNat(|s|), OfChars(s), x);
    AssociativeConcat(OfNat(|t|), OfChars(t), y);
    NatSplits(|s|, |t|, OfChars(s) + x, OfChars(t) + y);
    CharsSplit(s, t, x, y);
  }

  // ---- Values ------------------------------------------------------------------------------

  /** The keys of an object in some order, the same order whenever they are the same keys. */
  ghost function Listed(keys: set<string>): (list: seq<string>)
    ensures forall k :: k in list <==> k in keys
    decreases |keys|
  {
    if keys == {} then []
    else
      var k :| k in keys;
      [k] + Listed(keys - {k})
  }

  function Tag(v: Value): nat {
    match v
    case Null => 0
    case Bool(_) => 1
    case Integer(_) => 2
    case Float(_, _) => 3
    case String(_) => 4
    case Array(_) => 5
    case Object(_) => 6
  }

  ghost function Body(v: Value): seq<byte>
    decreases v, 1, 0
  {
    match v
    case Null => []
    case Bool(flag) => OfNat(if flag then 1 else 0)
    case Integer(n) => OfInt(n)
    case Float(m, e) => OfInt(m) + OfInt(e)
    case String(s) => OfString(s)
    case Array(items) => OfNat(|items|) + Items(v, 0)
    case Object(fields) => OfNat(|Listed(fields.Keys)|) + Fields(v, Listed(fields.Keys))
  }

  ghost function Bytes(v: Value): seq<byte>
    decreases v, 2, 0
  {
    OfNat(Tag(v)) + Body(v)
  }

  /** The items of an array from i on. */
  ghost function Items(v: Value, i: nat): seq<byte>
    requires v.Array? && i <= |v.items|
    decreases v, 0, |v.items| - i
  {
    if i == |v.items| then [] else Bytes(v.items[i]) + Items(v, i + 1)
  }

  /** These fields of an object, keys and values. */
  ghost function Fields(v: Value, keys: seq<string>): seq<byte>
    requires v.Object? && forall k :: k in keys ==> k in v.fields
    decreases v, 0, |keys|
  {
    if keys == [] then [] else OfString(keys[0]) + (Bytes(v.fields[keys[0]]) + Fields(v, keys[1..]))
  }

  lemma {:induction false} BytesSplit(v: Value, w: Value, x: seq<byte>, y: seq<byte>)
    requires Bytes(v) + x == Bytes(w) + y
    ensures v == w && x == y
    decreases v, 2, 0
  {
    AssociativeConcat(OfNat(Tag(v)), Body(v), x);
    AssociativeConcat(OfNat(Tag(w)), Body(w), y);
    NatSplits(Tag(v), Tag(w), Body(v) + x, Body(w) + y);
    BodySplits(v, w, x, y);
  }

  lemma {:induction false} BodySplits(v: Value, w: Value, x: seq<byte>, y: seq<byte>)
    requires Tag(v) == Tag(w) && Body(v) + x == Body(w) + y
    ensures v == w && x == y
    decreases v, 1, 0
  {
    match v
    case Null =>
      assert [] + x == x && [] + y == y;
    case Bool(flag) =>
      NatSplits(if flag then 1 else 0, if w.flag then 1 else 0, x, y);
    case Integer(n) =>
      IntSplits(n, w.number, x, y);
    case Float(m, e) =>
      AssociativeConcat(OfInt(m), OfInt(e), x);
      AssociativeConcat(OfInt(w.mantissa), OfInt(w.exponent), y);
      IntSplits(m, w.mantissa, OfInt(e) + x, OfInt(w.exponent) + y);
      IntSplits(e, w.exponent, x, y);
    case String(s) =>
      StringSplits(s, w.text, x, y);
    case Array(items) =>
      AssociativeConcat(OfNat(|items|), Items(v, 0), x);
      AssociativeConcat(OfNat(|w.items|), Items(w, 0), y);
      NatSplits(|items|, |w.items|, Items(v, 0) + x, Items(w, 0) + y);
      ItemsSplit(v, w, 0, x, y);
    case Object(fields) =>
      ObjectSplits(v, w, x, y);
  }

  lemma {:induction false} ItemsSplit(v: Value, w: Value, i: nat, x: seq<byte>, y: seq<byte>)
    requires v.Array? && w.Array? && |v.items| == |w.items| && i <= |v.items|
    requires Items(v, i) + x == Items(w, i) + y
    ensures v.items[i..] == w.items[i..] && x == y
    decreases v, 0, |v.items| - i
  {
    if i == |v.items| {
      assert [] + x == x && [] + y == y;
    } else {
      AssociativeConcat(Bytes(v.items[i]), Items(v, i + 1), x);
      AssociativeConcat(Bytes(w.items[i]), Items(w, i + 1), y);
      BytesSplit(v.items[i], w.items[i], Items(v, i + 1) + x, Items(w, i + 1) + y);
      ItemsSplit(v, w, i + 1, x, y);
      assert v.items[i..] == [v.items[i]] + v.items[i + 1..] && w.items[i..] == [w.items[i]] + w.items[i + 1..];
    }
  }

  lemma {:induction false} ObjectSplits(v: Value, w: Value, x: seq<byte>, y: seq<byte>)
    requires v.Object? && w.Object? && Body(v) + x == Body(w) + y
    ensures v == w && x == y
    decreases v, 0, |Listed(v.fields.Keys)| + 1
  {
    var a, b := Listed(v.fields.Keys), Listed(w.fields.Keys);
    AssociativeConcat(OfNat(|a|), Fields(v, a), x);
    AssociativeConcat(OfNat(|b|), Fields(w, b), y);
    NatSplits(|a|, |b|, Fields(v, a) + x, Fields(w, b) + y);
    FieldsSplit(v, w, a, b, x, y);
    assert v.fields.Keys == w.fields.Keys by {
      forall k ensures k in v.fields.Keys <==> k in w.fields.Keys {
        assert k in a <==> k in b;
      }
    }
    assert v.fields == w.fields by {
      forall k | k in v.fields ensures v.fields[k] == w.fields[k] {
        assert k in a;
      }
    }
  }

  lemma {:induction false} FieldsSplit(v: Value, w: Value, a: seq<string>, b: seq<string>, x: seq<byte>, y: seq<byte>)
    requires v.Object? && w.Object? && |a| == |b|
    requires (forall k :: k in a ==> k in v.fields) && (forall k :: k in b ==> k in w.fields)
    requires Fields(v, a) + x == Fields(w, b) + y
    ensures a == b && x == y && forall k :: k in a ==> v.fields[k] == w.fields[k]
    decreases v, 0, |a|
  {
    if a == [] {
      assert [] + x == x && [] + y == y;
    } else {
      var va, wb := v.fields[a[0]], w.fields[b[0]];
      var restA, restB := Fields(v, a[1..]), Fields(w, b[1..]);
      AssociativeConcat(OfString(a[0]), Bytes(va) + restA, x);
      AssociativeConcat(OfString(b[0]), Bytes(wb) + restB, y);
      StringSplits(a[0], b[0], Bytes(va) + restA + x, Bytes(wb) + restB + y);
      AssociativeConcat(Bytes(va), restA, x);
      AssociativeConcat(Bytes(wb), restB, y);
      BytesSplit(va, wb, restA + x, restB + y);
      FieldsSplit(v, w, a[1..], b[1..], x, y);
      assert a == [a[0]] + a[1..] && b == [b[0]] + b[1..];
    }
  }

  // ---- The codec -----------------------------------------------------------------------------

  ghost function Decoded(bytes: seq<byte>): Option<Value> {
    if exists v :: Bytes(v) == bytes then
      var v :| Bytes(v) == bytes;
      Some(v)
    else None
  }

  ghost function Unary(): Codec {
    Codec(v => Bytes(v), bytes => Decoded(bytes))
  }

  /** What is asked of the JSON codec can be met, for all values at once. */
  lemma UnaryRestores(v: Value)
    ensures Unary().Restores(v)
  {
    assert Bytes(v) == Bytes(v);
    var w := Decoded(Bytes(v)).value;
    assert Bytes(w) + [] == Bytes(v) + [];
    BytesSplit(w, v, [], []);
  }
}
