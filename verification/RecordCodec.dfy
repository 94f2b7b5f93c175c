/**
 The on-disk record format of src/wal.rs: a four-byte big-endian length, the
 payload, and one sentinel byte.  Values are turned into payloads by a codec
 that stands for serde_json.  Where a value must read back, the codec is asked to
 restore that value; FaithfulCodec.dfy exhibits one that restores every value.
 */
module RecordCodec {
  import opened Json
  import opened Basics

  newtype byte = b: int | 0 <= b < 256

  const SENTINEL: byte := 0x0A
  const MAX_PAYLOAD: nat := 16 * 1024 * 1024

  datatype Codec = Codec(encode: Value -> seq<byte>, decode: seq<byte> -> Option<Value>) {
    /** Decoding what v was encoded to gives v back. */
    predicate Restores(v: Value) {
      decode(encode(v)) == Some(v)
    }
  }

  // ---- Framing -------------------------------------------------------------

  function BigEndian(n: nat): (bytes: seq<byte>)
    requires n < U32_RANGE
    ensures |bytes| == 4 && FromBigEndian(bytes) == n
  {
    BigEndianDigits(n);
    [(n / 0x100_0000) as byte, (n / 0x1_0000 % 0x100) as byte, (n / 0x100 % 0x100) as byte, (n % 0x100) as byte]
  }

  /** The number the first four bytes stand for. */
  function FromBigEndian(bytes: seq<byte>): nat
    requires |bytes| >= 4
  {
    bytes[0] as int * 0x100_0000 + bytes[1] as int * 0x1_0000 + bytes[2] as int * 0x100 + bytes[3] as int
  }

  lemma BigEndianDigits(n: nat)
    requires n < U32_RANGE
    ensures n == n / 0x100_0000 * 0x100_0000 + n / 0x1_0000 % 0x100 * 0x1_0000 + n / 0x100 % 0x100 * 0x100 + n % 0x100
  {
    assert n / 0x1_0000 == n / 0x100_0000 * 0x100 + n / 0x1_0000 % 0x100;
    assert n / 0x100 == n / 0x1_0000 * 0x100 + n / 0x100 % 0x100;
  }

  lemma BaseDigits(n: nat)
    requires n < U32_RANGE
    ensures n == n / 0x100_0000 * 0x100_0000 + n % 0x100_0000
    ensures n % 0x100_0000 == n / 0x1_0000 % 0x100 * 0x1_0000 + n % 0x1_0000
    ensures n % 0x1_0000 == n / 0x100 % 0x100 * 0x100 + n % 0x100
  {
    BigEndianDigits(n);
  }

  /** The most significant byte comes first: prefixes sort as the numbers do. */
  lemma PrefixesSortLikeLengths(m: nat, n: nat) returns (i: nat)
    requires m < n < U32_RANGE
    ensures i < 4 && BigEndian(m)[..i] == BigEndian(n)[..i] && BigEndian(m)[i] < BigEndian(n)[i]
  {
    BaseDigits(m);
    BaseDigits(n);
    if m / 0x100_0000 != n / 0x100_0000 {
      i := 0;
    } else if m / 0x1_0000 % 0x100 != n / 0x1_0000 % 0x100 {
      i := 1;
    } else if m / 0x100 % 0x100 != n / 0x100 % 0x100 {
      i := 2;
    } else {
      i := 3;
    }
  }

  function RecordSize(payload: seq<byte>): nat {
    4 + |payload| + 1
  }

  /** The bytes appended for one record; the length prefix is cast to u32. */
  function EncodeRecord(payload: seq<byte>): (bytes: seq<byte>)
    ensures |bytes| == RecordSize(payload)
  {
    BigEndian(|payload| % U32_RANGE) + payload + [SENTINEL]
  }

  function EncodeAll(payloads: seq<seq<byte>>): seq<byte> {
    if payloads == [] then [] else EncodeRecord(payloads[0]) + EncodeAll(payloads[1..])
  }

  // ---- Reading -------------------------------------------------------------

  /** What the reader finds at the front of the remaining bytes. */
  datatype Scan = Stop | Frame(payload: seq<byte>, sealed: bool) {
    function Size(): nat requires Frame? { RecordSize(payload) }
  }

  function NextFrame(bytes: seq<byte>): (scan: Scan)
    ensures scan.Frame? ==> 5 <= scan.Size() <= |bytes|
  {
    if |bytes| < 4 then Stop
    else
      var n := FromBigEndian(bytes);
      if n > MAX_PAYLOAD || |bytes| < 4 + n + 1 then Stop
      else Frame(bytes[4..4 + n], bytes[4 + n] == SENTINEL)
  }

  /** The value a frame contributes, if its sentinel and its payload are good. */
  function Accepted(codec: Codec, scan: Scan): seq<Value>
    requires scan.Frame?
  {
    if !scan.sealed then [] else
    match codec.decode(scan.payload)
    case Some(v) => [v]
    case None => []
  }

  /** Every value a reader without an item limit finds in arbitrary bytes. */
  function ReadAll(codec: Codec, bytes: seq<byte>): seq<Value>
    decreases |bytes|
  {
    var scan := NextFrame(bytes);
    if scan.Stop? then []
    else Accepted(codec, scan) + ReadAll(codec, bytes[scan.Size()..])
  }

  /** The bytes are whole frames from end to end, nothing torn. */
  predicate Framed(bytes: seq<byte>)
    decreases |bytes|
  {
    bytes == [] ||
    var scan := NextFrame(bytes);
    scan.Frame? && Framed(bytes[scan.Size()..])
  }

  /** Somewhere between whole frames stands an impossible length: the reader stops
      there, whatever is appended. */
  predicate Blocked(bytes: seq<byte>)
    decreases |bytes|
  {
    |bytes| >= 4 &&
    (FromBigEndian(bytes) > MAX_PAYLOAD || (NextFrame(bytes).Frame? && Blocked(bytes[NextFrame(bytes).Size()..])))
  }

  /** Nothing is torn: only whole frames, or whole frames and then an impossible length. */
  predicate Untorn(bytes: seq<byte>) {
    Framed(bytes) || Blocked(bytes)
  }

  /** One turn of the reader's loop leaves the same total to be returned. */
  lemma ReaderTurn(codec: Codec, bytes: seq<byte>, pos: nat, items: seq<Value>)
    requires pos <= |bytes| && NextFrame(bytes[pos..]).Frame?
    ensures var scan := NextFrame(bytes[pos..]);
            items + ReadAll(codec, bytes[pos..])
            == items + Accepted(codec, scan) + ReadAll(codec, bytes[pos + scan.Size()..])
    ensures Accepted(codec, NextFrame(bytes[pos..])) == [] ==>
              items + Accepted(codec, NextFrame(bytes[pos..])) == items
  {
    var scan := NextFrame(bytes[pos..]);
    assert bytes[pos..][scan.Size()..] == bytes[pos + scan.Size()..];
    AssociativeConcat(items, Accepted(codec, scan), ReadAll(codec, bytes[pos + scan.Size()..]));
  }

  /** read_segment: the position loop over one segment file. */
  method ReadSegment(codec: Codec, bytes: seq<byte>, maxItems: nat) returns (items: seq<Value>)
    ensures items == Take(ReadAll(codec, bytes), maxItems)
  {
    hide NextFrame, Take;
    items := [];
    var pos := 0;
    assert bytes[0..] == bytes;
    while |items| < maxItems
      invariant pos <= |bytes| && |items| <= maxItems
      invariant items + ReadAll(codec, bytes[pos..]) == ReadAll(codec, bytes)
      decreases |bytes| - pos
    {
      var scan := NextFrame(bytes[pos..]);
      if scan.Stop? {
        break;
      }
      ReaderTurn(codec, bytes, pos, items);
      pos := pos + scan.Size();
      ghost var rest := ReadAll(codec, bytes[pos..]);
      assert items + Accepted(codec, scan) + rest == ReadAll(codec, bytes);
      if !scan.sealed {
        assert items + rest == ReadAll(codec, bytes);
        continue;
      }
      match codec.decode(scan.payload) {
        case Some(v) =>
          items := items + [v];
          assert items + rest == ReadAll(codec, bytes);
        case None =>
          assert items + rest == ReadAll(codec, bytes);
      }
    }
    TakeOfConcat(items, ReadAll(codec, bytes[pos..]), maxItems);
  }

  // ---- Properties of the reader ---------------------------------------------

  lemma NextFrameIsLocal(a: seq<byte>, b: seq<byte>)
    requires NextFrame(a).Frame?
    ensures NextFrame(a + b) == NextFrame(a)
    ensures (a + b)[NextFrame(a).Size()..] == a[NextFrame(a).Size()..] + b
  {
    var n := |NextFrame(a).payload|;
    assert (a + b)[4..4 + n] == a[4..4 + n];
  }

  lemma FrameThenRest(codec: Codec, a: seq<byte>, b: seq<byte>)
    requires NextFrame(a).Frame?
    ensures var scan := NextFrame(a); var rest := a[scan.Size()..];
            ReadAll(codec, a + b) == Accepted(codec, scan) + ReadAll(codec, rest + b) &&
            ReadAll(codec, a) == Accepted(codec, scan) + ReadAll(codec, rest)
  {
    NextFrameIsLocal(a, b);
  }

  /** Appending to a file with nothing torn adds exactly what the new bytes hold. */
  lemma {:induction false} AppendToFramed(codec: Codec, a: seq<byte>, b: seq<byte>)
    requires Framed(a)
    ensures ReadAll(codec, a + b) == ReadAll(codec, a) + ReadAll(codec, b)
    decreases |a|
  {
    hide Accepted;
    if a == [] {
      assert a + b == b;
    } else {
      var rest := a[NextFrame(a).Size()..];
      FrameThenRest(codec, a, b);
      AppendToFramed(codec, rest, b);
      AssociativeConcat(Accepted(codec, NextFrame(a)), ReadAll(codec, rest), ReadAll(codec, b));
    }
  }

  lemma {:induction false} FramedAppend(a: seq<byte>, b: seq<byte>)
    requires Framed(a)
    ensures Framed(a + b) <==> Framed(b)
    decreases |a|
  {
    if a == [] {
      assert a + b == b;
    } else {
      NextFrameIsLocal(a, b);
      FramedAppend(a[NextFrame(a).Size()..], b);
    }
  }

  lemma {:induction false} BlockedStays(codec: Codec, a: seq<byte>, b: seq<byte>)
    requires Blocked(a)
    ensures Blocked(a + b) && !Framed(a) && ReadAll(codec, a + b) == ReadAll(codec, a)
    decreases |a|
  {
    if FromBigEndian(a) <= MAX_PAYLOAD {
      FrameThenRest(codec, a, b);
      NextFrameIsLocal(a, b);
      BlockedStays(codec, a[NextFrame(a).Size()..], b);
    }
  }

  lemma {:induction false} BlockedBehind(a: seq<byte>, b: seq<byte>)
    requires Framed(a) && Blocked(b)
    ensures Blocked(a + b)
    decreases |a|
  {
    if a == [] {
      assert a + b == b;
    } else {
      NextFrameIsLocal(a, b);
      BlockedBehind(a[NextFrame(a).Size()..], b);
    }
  }

  /** Whatever the bytes are, cutting them short only drops values off the end. */
  lemma {:induction false} TruncationKeepsAPrefix(codec: Codec, bytes: seq<byte>, n: nat)
    requires n <= |bytes|
    ensures ReadAll(codec, bytes[..n]) <= ReadAll(codec, bytes)
    decreases n
  {
    var cut := bytes[..n];
    var scan := NextFrame(cut);
    if scan.Frame? {
      NextFrameIsLocal(cut, bytes[n..]);
      assert cut + bytes[n..] == bytes;
      assert cut[scan.Size()..] == bytes[scan.Size()..][..n - scan.Size()];
      TruncationKeepsAPrefix(codec, bytes[scan.Size()..], n - scan.Size());
    }
  }

  lemma SameFirstFour(a: seq<byte>, b: seq<byte>)
    requires |a| >= 4 && |b| >= 4 && a[..4] == b[..4]
    ensures FromBigEndian(a) == FromBigEndian(b)
  {
    assert a[0] == a[..4][0] && a[1] == a[..4][1] && a[2] == a[..4][2] && a[3] == a[..4][3];
    assert b[0] == b[..4][0] && b[1] == b[..4][1] && b[2] == b[..4][2] && b[3] == b[..4][3];
  }

  lemma LengthPrefix(payload: seq<byte>, bytes: seq<byte>)
    requires |payload| < U32_RANGE
    requires |bytes| >= 4 && bytes[..4] == EncodeRecord(payload)[..4]
    ensures FromBigEndian(bytes) == |payload|
  {
    hide FromBigEndian, BigEndian;
    var prefix := BigEndian(|payload|);
    assert EncodeRecord(payload)[..4] == prefix && prefix[..4] == prefix;
    SameFirstFour(bytes, prefix);
  }

  lemma EncodedRecordScans(payload: seq<byte>, rest: seq<byte>)
    requires |payload| <= MAX_PAYLOAD
    ensures NextFrame(EncodeRecord(payload) + rest) == Frame(payload, true)
    ensures (EncodeRecord(payload) + rest)[RecordSize(payload)..] == rest
  {
    var record := EncodeRecord(payload);
    LengthPrefix(payload, record);
    assert record[4..4 + |payload|] == payload;
    assert NextFrame(record) == Frame(payload, true);
    NextFrameIsLocal(record, rest);
    assert record[RecordSize(payload)..] + rest == rest;
  }

  /** A record cut anywhere before its sentinel stops the reader. */
  lemma TornRecordStops(payload: seq<byte>, n: nat)
    requires |payload| <= MAX_PAYLOAD && n < RecordSize(payload)
    ensures NextFrame(EncodeRecord(payload)[..n]) == Stop
  {
    if n >= 4 {
      assert EncodeRecord(payload)[..n][..4] == EncodeRecord(payload)[..4];
      LengthPrefix(payload, EncodeRecord(payload)[..n]);
    }
  }

  lemma OversizeBlocks(payload: seq<byte>)
    requires MAX_PAYLOAD < |payload| < U32_RANGE
    ensures Blocked(EncodeRecord(payload)) && NextFrame(EncodeRecord(payload)) == Stop
  {
    LengthPrefix(payload, EncodeRecord(payload));
  }

  // ---- Damaged frames ---------------------------------------------------------

  /** A frame as it may stand on disk: any payload, and any byte for the sentinel. */
  datatype RawFrame = RawFrame(payload: seq<byte>, mark: byte) {
    function Bytes(): seq<byte> requires |payload| <= MAX_PAYLOAD {
      BigEndian(|payload|) + payload + [mark]
    }
  }

  predicate Readable(frames: seq<RawFrame>) {
    forall f :: f in frames ==> |f.payload| <= 16_777_216
  }

  function RawBytes(frames: seq<RawFrame>): seq<byte>
    requires Readable(frames)
  {
    if frames == [] then [] else frames[0].Bytes() + RawBytes(frames[1..])
  }

  /** The values of the frames that end in a line feed and hold JSON. */
  function Intact(codec: Codec, frames: seq<RawFrame>): seq<Value> {
    if frames == [] then []
    else if frames[0].mark == 10 && codec.decode(frames[0].payload).Some? then
      [codec.decode(frames[0].payload).value] + Intact(codec, frames[1..])
    else Intact(codec, frames[1..])
  }

  lemma RawFrameScans(f: RawFrame, rest: seq<byte>)
    requires |f.payload| <= MAX_PAYLOAD
    ensures NextFrame(f.Bytes() + rest) == Frame(f.payload, f.mark == 10)
    ensures (f.Bytes() + rest)[RecordSize(f.payload)..] == rest
  {
    var bytes, prefix := f.Bytes(), BigEndian(|f.payload|);
    assert bytes[..4] == prefix && prefix[..4] == prefix;
    SameFirstFour(bytes, prefix);
    assert bytes[4..4 + |f.payload|] == f.payload;
    NextFrameIsLocal(bytes, rest);
    assert bytes[RecordSize(f.payload)..] + rest == rest;
  }

  /**
   A frame whose last byte is not the sentinel, or whose payload is not JSON, adds
   nothing, and what stands around it is read as if it were not there.
   */
  lemma {:induction false} DamagedFramesAreSkipped(codec: Codec, frames: seq<RawFrame>, tail: seq<byte>)
    requires Readable(frames)
    ensures ReadAll(codec, RawBytes(frames) + tail) == Intact(codec, frames) + ReadAll(codec, tail)
  {
    hide NextFrame, RawFrame.Bytes;
    if frames == [] {
      assert RawBytes(frames) + tail == tail && [] + ReadAll(codec, tail) == ReadAll(codec, tail);
    } else {
      var f, rest := frames[0], RawBytes(frames[1..]) + tail;
      assert f in frames;
      AssociativeConcat(f.Bytes(), RawBytes(frames[1..]), tail);
      RawFrameScans(f, rest);
      DamagedFramesAreSkipped(codec, frames[1..], tail);
      AssociativeConcat(Accepted(codec, Frame(f.payload, f.mark == 10)), Intact(codec, frames[1..]),
                        ReadAll(codec, tail));
      assert [] + Intact(codec, frames[1..]) == Intact(codec, frames[1..]);
    }
  }

  // ---- Crash recovery --------------------------------------------------------

  function Payloads(codec: Codec, values: seq<Value>): (ps: seq<seq<byte>>)
    ensures |ps| == |values|
    ensures forall i :: 0 <= i < |ps| ==> ps[i] == codec.encode(values[i])
  {
    seq(|values|, i requires 0 <= i < |values| => codec.encode(values[i]))
  }

  /** The values read back, and their payloads are within the reader's limit. */
  predicate Storable(codec: Codec, values: seq<Value>) {
    forall v :: v in values ==> codec.Restores(v) && |codec.encode(v)| <= MAX_PAYLOAD
  }

  function Encoded(codec: Codec, values: seq<Value>): seq<byte> {
    EncodeAll(Payloads(codec, values))
  }

  lemma EncodedUnfolds(codec: Codec, values: seq<Value>)
    requires values != []
    ensures Encoded(codec, values) == EncodeRecord(codec.encode(values[0])) + Encoded(codec, values[1..])
  {
    assert Payloads(codec, values)[1..] == Payloads(codec, values[1..]);
  }

  /** How many of the records lie wholly inside the first n bytes of their encoding. */
  function WholeRecords(codec: Codec, values: seq<Value>, n: nat): (k: nat)
    ensures k <= |values|
  {
    if values == [] then 0
    else
      var size := RecordSize(codec.encode(values[0]));
      if n < size then 0 else 1 + WholeRecords(codec, values[1..], n - size)
  }

  /** WholeRecords is what its name says: the first k records fit, and k + 1 do not. */
  lemma {:induction false} WholeRecordsIsMaximal(codec: Codec, values: seq<Value>, n: nat)
    ensures var k := WholeRecords(codec, values, n);
            |Encoded(codec, values[..k])| <= n &&
            (k < |values| ==> n < |Encoded(codec, values[..k + 1])|)
  {
    hide EncodeRecord, BigEndian;
    var k := WholeRecords(codec, values, n);
    if values == [] {
    } else {
      var size := RecordSize(codec.encode(values[0]));
      if n < size {
        assert Encoded(codec, values[..0]) == [];
        EncodedUnfolds(codec, values[..1]);
        assert values[..1][1..] == [];
      } else {
        WholeRecordsIsMaximal(codec, values[1..], n - size);
        EncodedUnfolds(codec, values[..k]);
        assert values[..k][1..] == values[1..][..k - 1];
        if k < |values| {
          EncodedUnfolds(codec, values[..k + 1]);
          assert values[..k + 1][1..] == values[1..][..k];
        }
      }
    }
  }

  /**
   Crash recovery: after a crash that left any byte prefix of a segment, the
   reader returns exactly the records that were wholly written, in order.
   */
  lemma {:induction false} CrashPrefixRecovers(codec: Codec, values: seq<Value>, n: nat)
    requires Storable(codec, values)
    requires n <= |Encoded(codec, values)|
    ensures ReadAll(codec, Encoded(codec, values)[..n]) == values[..WholeRecords(codec, values, n)]
  {
    hide NextFrame, EncodeRecord;
    var bytes := Encoded(codec, values);
    if values == [] {
    } else {
      EncodedUnfolds(codec, values);
      var p := codec.encode(values[0]);
      if n < RecordSize(p) {
        assert bytes[..n] == EncodeRecord(p)[..n];
        TornRecordStops(p, n);
      } else {
        var rest := Encoded(codec, values[1..])[..n - RecordSize(p)];
        assert bytes[..n] == EncodeRecord(p) + rest;
        EncodedRecordScans(p, rest);
        CrashPrefixRecovers(codec, values[1..], n - RecordSize(p));
      }
    }
  }

  /** The whole file reads back as what was written, and is Framed. */
  lemma {:induction false} EncodingRoundTrips(codec: Codec, values: seq<Value>)
    requires Storable(codec, values)
    ensures ReadAll(codec, Encoded(codec, values)) == values
    ensures Framed(Encoded(codec, values))
  {
    if values == [] {
    } else {
      EncodedUnfolds(codec, values);
      EncodedRecordScans(codec.encode(values[0]), Encoded(codec, values[1..]));
      EncodingRoundTrips(codec, values[1..]);
    }
  }

  /**
   The other half of the size condition: a payload over the limit (and under 4 GiB)
   is unreadable and hides everything written behind it.
   */
  lemma OversizeRecordHidesTheRest(codec: Codec, values: seq<Value>, big: seq<byte>, tail: seq<byte>)
    requires Storable(codec, values)
    requires 16_777_216 < |big| < U32_RANGE
    ensures ReadAll(codec, Encoded(codec, values) + EncodeRecord(big) + tail) == values
  {
    EncodingRoundTrips(codec, values);
    var rest := EncodeRecord(big) + tail;
    assert rest[..4] == EncodeRecord(big)[..4];
    LengthPrefix(big, rest);
    AppendToFramed(codec, Encoded(codec, values), rest);
    AssociativeConcat(Encoded(codec, values), EncodeRecord(big), tail);
  }
}
