/**
 The VarInt codec of src/ping.rs.  An i32 is an int in range, and its bit
 operations are written out as what they do to two's complement numbers: masks
 of low bits are remainders, an arithmetic right shift is a division rounding
 down, and a left shift wraps at 32 bits.
 */
module VarInt {
  import opened Basics
  import opened RecordCodec

  type i32 = v: int | -0x8000_0000 <= v < 0x8000_0000

  /** The 32-bit pattern of a number, as an unsigned value, and back. */
  function Unsigned(v: i32): nat {
    v % U32_RANGE
  }

  function Signed(u: nat): i32
    requires u < U32_RANGE
  {
    if u < 0x8000_0000 then u else u - U32_RANGE
  }

  lemma SignedOfUnsigned(v: i32)
    ensures Unsigned(v) < U32_RANGE && Signed(Unsigned(v)) == v
  {
  }

  /** The reference: an unsigned number, seven bits at a time, low end first. */
  function Encode(n: nat): (bytes: seq<byte>)
    ensures bytes != []
  {
    if n < 0x80 then [n as byte] else [(0x80 + n % 0x80) as byte] + Encode(n / 0x80)
  }

  /** One turn's arithmetic shift and mask on a signed number are an unsigned
      shift in disguise. */
  lemma ShiftInDisguise(v: int)
    ensures (v / 0x80) % 0x200_0000 == (v % U32_RANGE) / 0x80
    ensures v % 0x80 == (v % U32_RANGE) % 0x80
  {
    assert v == v / U32_RANGE * U32_RANGE + v % U32_RANGE;
    assert v / 0x80 == v / U32_RANGE * 0x200_0000 + (v % U32_RANGE) / 0x80;
  }

  /** write_varint: the loop shifts a signed value and masks the sign copies away. */
  method WriteVarInt(buffer: seq<byte>, v: i32) returns (r: seq<byte>)
    ensures r == buffer + Encode(Unsigned(v))
  {
    r := buffer;
    var value: i32 := v;
    while true
      invariant r + Encode(Unsigned(value)) == buffer + Encode(Unsigned(v))
      decreases Unsigned(value)
    {
      ShiftInDisguise(value);
      ghost var rest := Unsigned(value) / 0x80;
      var current := value % 0x80;
      value := value / 0x80;
      value := value % 0x200_0000;
      assert Unsigned(value) == rest;
      if value != 0 {
        current := current + 0x80;
      }
      AssociativeConcat(r, [current as byte], Encode(rest));
      r := r + [current as byte];
      if value == 0 {
        break;
      }
    }
  }

  // ---- Reading --------------------------------------------------------------------

  datatype Read = Ok(value: nat, consumed: nat) | UnexpectedEof | TooLong

  function Pow2(n: nat): (p: nat)
    ensures p > 0
  {
    if n == 0 then 1 else 2 * Pow2(n - 1)
  }

  /** Bitwise or. */
  function BitOr(a: nat, b: nat): nat {
    if a == 0 then b
    else 2 * BitOr(a / 2, b / 2) + if a % 2 == 1 || b % 2 == 1 then 1 else 0
  }

  /** checked_shl(n).unwrap_or(0) on a 32-bit pattern. */
  function CheckedShl(x: nat, n: nat): nat {
    if n < 32 then x * Pow2(n) % U32_RANGE else 0
  }

  predicate Continues(b: byte) {
    b >= 0x80
  }

  function Low7(b: byte): nat {
    b as int % 0x80
  }

  /** The read loop, with count bytes already read into acc. */
  function Decode(bytes: seq<byte>, count: nat, acc: nat): Read
    decreases |bytes|
  {
    if bytes == [] then UnexpectedEof
    else
      var result := BitOr(acc, CheckedShl(Low7(bytes[0]), 7 * count));
      if count + 1 > 5 then TooLong
      else if !Continues(bytes[0]) then Ok(result, count + 1)
      else Decode(bytes[1..], count + 1, result)
  }

  function ReadBytes(bytes: seq<byte>): Read {
    Decode(bytes, 0, 0)
  }

  /** read_varint, from a reader holding these bytes. */
  method ReadVarInt(bytes: seq<byte>) returns (r: Read)
    ensures r == ReadBytes(bytes)
  {
    var result := 0;
    var readCount := 0;
    assert bytes[0..] == bytes;
    while true
      invariant readCount <= |bytes|
      invariant Decode(bytes[readCount..], readCount, result) == ReadBytes(bytes)
      decreases |bytes| - readCount
    {
      if readCount == |bytes| {
        return UnexpectedEof;
      }
      var b := bytes[readCount];
      result := BitOr(result, CheckedShl(Low7(b), 7 * readCount));
      assert bytes[readCount..][1..] == bytes[readCount + 1..];
      readCount := readCount + 1;
      if readCount > 5 {
        return TooLong;
      }
      if !Continues(b) {
        return Ok(result, readCount);
      }
    }
  }

  // ---- Putting groups together ---------------------------------------------------------

  /** A number below a power of two and a multiple of it have no bits in common. */
  lemma {:induction false} OrOfDisjoint(a: nat, m: nat, k: nat)
    requires a < Pow2(k)
    ensures BitOr(a, m * Pow2(k)) == a + m * Pow2(k)
    decreases k
  {
    if k > 0 && a > 0 {
      var p := Pow2(k - 1);
      assert m * Pow2(k) == 2 * (m * p);
      OrOfDisjoint(a / 2, m, k - 1);
    }
  }

  /** The weight of the group after count others. */
  function Weight(count: nat): (w: nat) {
    match count
    case 0 => 1
    case 1 => 0x80
    case 2 => 0x4000
    case 3 => 0x20_0000
    case _ => 0x1000_0000
  }

  lemma WeightIsPower(count: nat)
    requires count < 5
    ensures Pow2(7 * count) == Weight(count)
  {
    Powers(7);
    Powers(14);
    Powers(21);
    Powers(28);
  }

  lemma {:induction false} Powers(n: nat)
    requires 7 <= n
    ensures Pow2(n) == 128 * Pow2(n - 7)
  {
    assert Pow2(n) == 2 * Pow2(n - 1) && Pow2(n - 1) == 2 * Pow2(n - 2) && Pow2(n - 2) == 2 * Pow2(n - 3);
    assert Pow2(n - 3) == 2 * Pow2(n - 4) && Pow2(n - 4) == 2 * Pow2(n - 5) && Pow2(n - 5) == 2 * Pow2(n - 6);
  }

  /** What remains of a group after its shift: of the fifth, four bits. */
  function Kept(low: nat, count: nat): nat {
    if count == 4 then low % 0x10 else low
  }

  lemma KeptAtWeight(low: nat, count: nat)
    requires count < 5 && low < 0x80
    ensures low * Weight(count) % U32_RANGE == Kept(low, count) * Weight(count)
  {
    match count
    case 0 =>
    case 1 =>
    case 2 =>
    case 3 =>
    case 4 =>
      assert low * 0x1000_0000 == low / 0x10 * U32_RANGE + low % 0x10 * 0x1000_0000;
  }

  lemma ShiftedGroup(low: nat, count: nat)
    requires count < 5 && low < 0x80
    ensures CheckedShl(low, 7 * count) == Kept(low, count) * Weight(count)
  {
    hide Pow2, Weight, Kept;
    WeightIsPower(count);
    KeptAtWeight(low, count);
  }

  /** Shifting a group in adds it at its weight; of the fifth, four bits remain. */
  lemma ShiftIn(acc: nat, low: nat, count: nat)
    requires count < 5 && acc < Weight(count) && low < 0x80
    ensures BitOr(acc, CheckedShl(low, 7 * count)) == acc + (if count == 4 then low % 0x10 else low) * Weight(count)
  {
    hide BitOr, CheckedShl, Pow2, Weight;
    WeightIsPower(count);
    ShiftedGroup(low, count);
    OrOfDisjoint(acc, Kept(low, count), 7 * count);
  }

  // ---- The round trip ----------------------------------------------------------------------

  lemma GroupsAddUp(n: nat, acc: nat, count: nat)
    requires count < 4 && acc < Weight(count) && n < U32_RANGE / Weight(count)
    ensures var acc' := acc + n % 0x80 * Weight(count);
            acc' < Weight(count + 1) && n / 0x80 < U32_RANGE / Weight(count + 1)
            && acc' + n / 0x80 * Weight(count + 1) == acc + n * Weight(count)
  {
    assert n == n / 0x80 * 0x80 + n % 0x80;
  }

  /** One turn of the read loop adds the byte's group at its weight. */
  lemma DecodeTurn(b: byte, rest: seq<byte>, count: nat, acc: nat)
    requires count < 5 && acc < Weight(count)
    ensures var acc' := acc + (if count == 4 then Low7(b) % 0x10 else Low7(b)) * Weight(count);
            Decode([b] + rest, count, acc)
            == if Continues(b) then Decode(rest, count + 1, acc') else Ok(acc', count + 1)
  {
    ShiftIn(acc, Low7(b), count);
    assert ([b] + rest)[1..] == rest;
  }

  lemma LastTurn(n: nat, rest: seq<byte>, count: nat, acc: nat)
    requires count < 5 && acc < Weight(count) && n < 0x80 && n < U32_RANGE / Weight(count)
    ensures Decode(Encode(n) + rest, count, acc) == Ok(acc + n * Weight(count), count + 1)
  {
    assert Encode(n) == [n as byte] && Low7(n as byte) == n;
    DecodeTurn(n as byte, rest, count, acc);
  }

  lemma NextTurn(n: nat, rest: seq<byte>, count: nat, acc: nat)
    requires count < 4 && acc < Weight(count) && n >= 0x80
    ensures Decode(Encode(n) + rest, count, acc)
            == Decode(Encode(n / 0x80) + rest, count + 1, acc + n % 0x80 * Weight(count))
  {
    var b := (0x80 + n % 0x80) as byte;
    var later := Encode(n / 0x80);
    assert Low7(b) == n % 0x80 && Continues(b);
    AssociativeConcat([b], later, rest);
    assert Encode(n) + rest == [b] + (later + rest);
    DecodeTurn(b, later + rest, count, acc);
  }

  /** Reading the rest of a number, when what was read so far makes it w. */
  lemma {:induction false} DecodeOfEncode(n: nat, rest: seq<byte>, count: nat, acc: nat, w: nat)
    requires count < 5 && acc < Weight(count) && n < U32_RANGE / Weight(count)
    requires acc + n * Weight(count) == w
    ensures Decode(Encode(n) + rest, count, acc) == Ok(w, count + |Encode(n)|)
    ensures count + |Encode(n)| <= 5
  {
    if n < 0x80 {
      LastTurn(n, rest, count, acc);
    } else {
      assert count < 4;
      NextTurn(n, rest, count, acc);
      GroupsAddUp(n, acc, count);
      DecodeOfEncode(n / 0x80, rest, count + 1, acc + n % 0x80 * Weight(count), w);
    }
  }

  /**
   Round trip: for every i32, negative ones included, reading what was written,
   whatever follows it, gives the number back and consumes exactly the one to five
   bytes written.
   */
  lemma ReadOfWritten(v: i32, rest: seq<byte>)
    ensures var r := ReadBytes(Encode(Unsigned(v)) + rest);
            r.Ok? && r.value < U32_RANGE && Signed(r.value) == v && r.consumed == |Encode(Unsigned(v))|
    ensures 1 <= |Encode(Unsigned(v))| <= 5
  {
    SignedOfUnsigned(v);
    DecodeOfEncode(Unsigned(v), rest, 0, 0, Unsigned(v));
  }

  // ---- What the bytes mean ---------------------------------------------------------------

  /** The number that groups of seven bits write, the least significant first. */
  function GroupSum(bytes: seq<byte>): nat {
    if bytes == [] then 0 else bytes[0] as int % 128 + 128 * GroupSum(bytes[1..])
  }

  /** What is written is the number's groups of seven bits, with the eighth bit set on
      all but the last. */
  lemma {:induction false} WrittenGroups(n: nat)
    ensures var bytes := Encode(n); var last := |bytes| - 1;
            GroupSum(bytes) == n && bytes[last] < 128 && forall i :: 0 <= i < last ==> bytes[i] >= 128
  {
    if n < 0x80 {
      assert Encode(n)[1..] == [];
    } else {
      WrittenGroups(n / 0x80);
      var b, later := (0x80 + n % 0x80) as byte, Encode(n / 0x80);
      assert Encode(n) == [b] + later && Encode(n)[1..] == later;
      assert forall i :: 0 < i < |Encode(n)| ==> Encode(n)[i] == later[i - 1];
    }
  }

  lemma NextWeight(acc: nat, low: nat, sum: nat, count: nat)
    requires count < 4 && acc < Weight(count) && low < 0x80
    ensures acc + low * Weight(count) < Weight(count + 1)
    ensures acc + low * Weight(count) + sum * Weight(count + 1) == acc + (low + 128 * sum) * Weight(count)
  {
    match count
    case 0 =>
    case 1 =>
    case 2 =>
    case 3 =>
  }

  lemma LastGroup(acc: nat, low: nat, count: nat)
    requires count < 5 && acc < Weight(count) && low < 0x80
    ensures acc + Kept(low, count) * Weight(count) == (acc + low * Weight(count)) % U32_RANGE
  {
    if count == 4 {
      assert acc + low * 0x1000_0000 == low / 0x10 * U32_RANGE + (acc + low % 0x10 * 0x1000_0000);
    }
  }

  lemma GroupSumCons(b: byte, rest: seq<byte>, k: nat)
    requires 0 < k <= |rest| + 1
    ensures GroupSum(([b] + rest)[..k]) == b as int % 128 + 128 * GroupSum(rest[..k - 1])
  {
    assert ([b] + rest)[..k][1..] == rest[..k - 1];
  }

  lemma {:induction false} DecodeMeans(bytes: seq<byte>, count: nat, acc: nat)
    requires count < 5 && acc < Weight(count) && Decode(bytes, count, acc).Ok?
    ensures var r := Decode(bytes, count, acc);
            count < r.consumed <= count + |bytes|
            && r.value == (acc + GroupSum(bytes[..r.consumed - count]) * Weight(count)) % U32_RANGE
    decreases |bytes|
  {
    hide GroupSum, BitOr, CheckedShl;
    var b, rest := bytes[0], bytes[1..];
    assert bytes == [b] + rest;
    DecodeTurn(b, rest, count, acc);
    if Continues(b) {
      assert count < 4;
      var acc' := acc + Low7(b) * Weight(count);
      NextWeight(acc, Low7(b), 0, count);
      DecodeMeans(rest, count + 1, acc');
      var k := Decode(bytes, count, acc).consumed - count;
      GroupSumCons(b, rest, k);
      NextWeight(acc, Low7(b), GroupSum(rest[..k - 1]), count);
    } else {
      GroupSumCons(b, rest, 1);
      NoGroups();
      LastGroup(acc, Low7(b), count);
    }
  }

  lemma NoGroups()
    ensures GroupSum([]) == 0
  {
  }

  /** What is read is what the groups up to the last write, as 32 bits. */
  lemma ReadGroups(bytes: seq<byte>)
    requires ReadBytes(bytes).Ok?
    ensures var r := ReadBytes(bytes);
            r.consumed <= |bytes| && r.value == GroupSum(bytes[..r.consumed]) % U32_RANGE
  {
    DecodeMeans(bytes, 0, 0);
  }

  // ---- Every input --------------------------------------------------------------------------

  /** The index of the first byte without a continuation bit, or the length. */
  function FirstStop(bytes: seq<byte>): (n: nat)
    ensures n <= |bytes|
  {
    if bytes == [] || !Continues(bytes[0]) then 0 else 1 + FirstStop(bytes[1..])
  }

  lemma {:induction false} DecodeOutcome(bytes: seq<byte>, count: nat, acc: nat)
    requires count <= 5
    ensures var n := count + FirstStop(bytes);
            match Decode(bytes, count, acc)
            case Ok(_, consumed) => n < 5 && FirstStop(bytes) < |bytes| && consumed == n + 1
            case TooLong => n >= 5 && count + |bytes| >= 6
            case UnexpectedEof => FirstStop(bytes) == |bytes| && count + |bytes| <= 5
    decreases |bytes|
  {
    if bytes != [] && count < 5 && Continues(bytes[0]) {
      DecodeOutcome(bytes[1..], count + 1, BitOr(acc, CheckedShl(Low7(bytes[0]), 7 * count)));
    }
  }

  /**
   What read_varint makes of any input: a number exactly when one of the first
   five bytes ends it; otherwise an error, which is "too long" when a sixth byte
   is there to be read and end of input when it is not.
   */
  lemma ReadOutcome(bytes: seq<byte>)
    ensures match ReadBytes(bytes)
            case Ok(_, consumed) => consumed == FirstStop(bytes) + 1 <= 5 && consumed <= |bytes|
            case TooLong => FirstStop(bytes) >= 5 && |bytes| >= 6
            case UnexpectedEof => FirstStop(bytes) == |bytes| <= 5
  {
    DecodeOutcome(bytes, 0, 0);
  }

  // ---- Shortest form ----------------------------------------------------------------------------

  /** The numbers that count groups can hold; five hold any 32-bit pattern. */
  function Range(count: nat): nat {
    if count < 5 then Weight(count) else U32_RANGE
  }

  lemma {:induction false} DecodedIsHeld(bytes: seq<byte>, count: nat, acc: nat)
    requires count <= 5 && acc < Range(count)
    ensures var r := Decode(bytes, count, acc);
            r.Ok? ==> count < r.consumed <= 5 && r.value < Range(r.consumed)
    decreases |bytes|
  {
    hide CheckedShl, BitOr;
    if bytes != [] && count < 5 {
      ShiftIn(acc, Low7(bytes[0]), count);
      var acc' := BitOr(acc, CheckedShl(Low7(bytes[0]), 7 * count));
      assert acc' < Range(count + 1) by {
        match count
        case 0 =>
        case 1 =>
        case 2 =>
        case 3 =>
        case 4 =>
      }
      if Continues(bytes[0]) {
        DecodedIsHeld(bytes[1..], count + 1, acc');
      }
    }
  }

  lemma {:induction false} EncodeIsShort(n: nat, count: nat)
    requires 0 < count < 5 && n < Weight(count)
    ensures |Encode(n)| <= count
    decreases count
  {
    if n >= 0x80 {
      EncodeIsShort(n / 0x80, count - 1);
    }
  }

  /** Every number read is a 32-bit pattern, and the written form is the shortest
      that reads as it: no input that reads as v is read in fewer bytes. */
  lemma WrittenIsShortest(bytes: seq<byte>)
    requires ReadBytes(bytes).Ok?
    ensures ReadBytes(bytes).value < U32_RANGE
    ensures |Encode(ReadBytes(bytes).value)| <= ReadBytes(bytes).consumed
  {
    DecodedIsHeld(bytes, 0, 0);
    var r := ReadBytes(bytes);
    if r.consumed < 5 {
      EncodeIsShort(r.value, r.consumed);
    } else {
      DecodeOfEncode(r.value, [], 0, 0, r.value);
    }
  }
}
