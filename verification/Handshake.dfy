/**
 The server-list ping handshake of src/ping.rs: the frame that
 build_java_status_requests builds, and an independent reader for it.
 */
module Handshake {
  import opened Basics
  import opened RecordCodec
  import opened VarInt

  /** The `as i32` cast of a length. */
  function AsI32(n: nat): i32 {
    Signed(n % U32_RANGE)
  }

  function PortBytes(port: nat): seq<byte>
    requires port < 0x1_0000
  {
    [(port / 0x100) as byte, (port % 0x100) as byte]
  }

  /** The frame's body: packet id 0, protocol version, host, port, next state 1. */
  function Body(host: seq<byte>, port: nat, protocol: i32): seq<byte>
    requires port < 0x1_0000
  {
    [0 as byte] + Encode(Unsigned(protocol)) + Encode(Unsigned(AsI32(|host|))) + host + PortBytes(port) + Encode(1)
  }

  function Frame(host: seq<byte>, port: nat, protocol: i32): seq<byte>
    requires port < 0x1_0000
  {
    var body := Body(host, port, protocol);
    Encode(Unsigned(AsI32(|body|))) + body
  }

  /** build_java_status_requests. */
  method BuildJavaStatusRequests(host: seq<byte>, port: nat, protocol: i32)
    returns (handshakeRequest: seq<byte>, statusRequest: seq<byte>)
    requires port < 0x1_0000
    ensures handshakeRequest == Frame(host, port, protocol)
    ensures statusRequest == [1, 0]
  {
    var handshake: seq<byte> := [0];
    handshake := WriteVarInt(handshake, protocol);
    handshake := WriteVarInt(handshake, AsI32(|host|));
    handshake := handshake + host;
    handshake := handshake + PortBytes(port);
    handshake := WriteVarInt(handshake, 1);

    handshakeRequest := WriteVarInt([], AsI32(|handshake|));
    handshakeRequest := handshakeRequest + handshake;
    assert [] + Encode(Unsigned(AsI32(|handshake|))) == Encode(Unsigned(AsI32(|handshake|)));
    statusRequest := [1, 0];
  }

  // ---- The server's side ---------------------------------------------------------------

  datatype Fields = Fields(packetId: i32, protocol: i32, host: seq<byte>, port: nat, nextState: i32)

  /** A VarInt at the front as an i32, and the bytes behind it. */
  function TakeVarInt(bytes: seq<byte>): Option<(i32, seq<byte>)> {
    var r := ReadBytes(bytes);
    if r.Ok? && r.value < U32_RANGE && r.consumed <= |bytes| then Some((Signed(r.value), bytes[r.consumed..])) else None
  }

  function TakeBytes(bytes: seq<byte>, n: int): Option<(seq<byte>, seq<byte>)> {
    if 0 <= n <= |bytes| then Some((bytes[..n], bytes[n..])) else None
  }

  /** Fields of a frame body, all of it and nothing behind it. */
  function ReadBody(body: seq<byte>): Option<Fields> {
    match TakeVarInt(body)
    case None => None
    case Some((packetId, b1)) =>
      match TakeVarInt(b1)
      case None => None
      case Some((protocol, b2)) =>
        match TakeVarInt(b2)
        case None => None
        case Some((hostLength, b3)) =>
          match TakeBytes(b3, hostLength)
          case None => None
          case Some((host, b4)) =>
            match TakeBytes(b4, 2)
            case None => None
            case Some((port, b5)) =>
              match TakeVarInt(b5)
              case None => None
              case Some((nextState, b6)) =>
                var number := port[0] as nat * 0x100 + port[1] as nat;
                if b6 == [] then Some(Fields(packetId, protocol, host, number, nextState)) else None
  }

  /** A length-prefixed frame at the front of a stream, and what follows it. */
  function ReadFrame(stream: seq<byte>): Option<(Fields, seq<byte>)> {
    match TakeVarInt(stream)
    case None => None
    case Some((length, rest)) =>
      match TakeBytes(rest, length)
      case None => None
      case Some((body, later)) =>
        match ReadBody(body)
        case None => None
        case Some(fields) => Some((fields, later))
  }

  lemma TakesWritten(v: i32, rest: seq<byte>)
    ensures TakeVarInt(Encode(Unsigned(v)) + rest) == Some((v, rest))
  {
    ReadOfWritten(v, rest);
  }

  lemma TakesBytes(bytes: seq<byte>, rest: seq<byte>)
    ensures TakeBytes(bytes + rest, |bytes|) == Some((bytes, rest))
  {
  }

  lemma AsI32IsExact(n: nat)
    requires n < 0x8000_0000
    ensures AsI32(n) == n
  {
  }

  lemma ZeroIsOneByte()
    ensures Encode(Unsigned(0)) == [0]
  {
  }

  lemma BodyReadsBack(host: seq<byte>, port: nat, protocol: i32)
    requires port < 0x1_0000 && |host| < 0x8000_0000
    ensures ReadBody(Body(host, port, protocol)) == Some(Fields(0, protocol, host, port, 1))
  {
    hide Encode, TakeVarInt, AsI32, TakeBytes;
    var b5 := Encode(Unsigned(1));
    var b4 := PortBytes(port) + b5;
    var b3 := host + b4;
    var b2 := Encode(Unsigned(AsI32(|host|))) + b3;
    var b1 := Encode(Unsigned(protocol)) + b2;
    ZeroIsOneByte();
    assert Body(host, port, protocol) == Encode(Unsigned(0)) + b1;
    assert b5 + [] == b5;
    AsI32IsExact(|host|);
    TakesWritten(0, b1);
    TakesWritten(protocol, b2);
    TakesWritten(AsI32(|host|), b3);
    TakesBytes(host, b4);
    TakesBytes(PortBytes(port), b5);
    TakesWritten(1, []);
  }

  /** A longer length wraps: it becomes negative or too small. */
  lemma AsI32Wraps(n: nat)
    requires n >= 0x8000_0000
    ensures AsI32(n) < n
  {
  }

  lemma WrappedLengthFails(body: seq<byte>, later: seq<byte>, fields: Fields)
    requires |body| >= 0x8000_0000
    ensures ReadFrame(Encode(Unsigned(AsI32(|body|))) + (body + later)) != Some((fields, later))
  {
    hide Encode, AsI32, TakeVarInt, ReadBody;
    AsI32Wraps(|body|);
    TakesWritten(AsI32(|body|), body + later);
  }

  lemma ExactLengthReads(host: seq<byte>, port: nat, protocol: i32, later: seq<byte>)
    requires port < 0x1_0000 && |Body(host, port, protocol)| < 0x8000_0000
    ensures var body := Body(host, port, protocol);
            ReadFrame(Encode(Unsigned(AsI32(|body|))) + (body + later))
            == Some((Fields(0, protocol, host, port, 1), later))
  {
    var body := Body(host, port, protocol);
    BodyIsLonger(host, port, protocol);
    BodyReadsBack(host, port, protocol);
    hide Encode, Body, AsI32, TakeVarInt, ReadBody, TakeBytes;
    AsI32IsExact(|body|);
    TakesWritten(AsI32(|body|), body + later);
    TakesBytes(body, later);
  }

  lemma BodyIsLonger(host: seq<byte>, port: nat, protocol: i32)
    requires port < 0x1_0000
    ensures |host| < |Body(host, port, protocol)|
  {
  }

  /**
   The handshake reads back, from the front of any stream: the reader takes
   exactly the frame, and finds packet id 0, the protocol version, the host's
   bytes, the port in network order and next state 1.  It does so exactly for the
   hosts whose frame's length is an i32.
   */
  lemma FrameReadsBackExactly(host: seq<byte>, port: nat, protocol: i32, later: seq<byte>)
    requires port < 0x1_0000
    ensures ReadFrame(Frame(host, port, protocol) + later) == Some((Fields(0, protocol, host, port, 1), later))
            <==> |Body(host, port, protocol)| < 0x8000_0000
  {
    hide Encode, Body, AsI32, ReadFrame;
    var body := Body(host, port, protocol);
    AssociativeConcat(Encode(Unsigned(AsI32(|body|))), body, later);
    if |body| < 0x8000_0000 {
      ExactLengthReads(host, port, protocol, later);
    } else {
      WrappedLengthFails(body, later, Fields(0, protocol, host, port, 1));
    }
  }

  /** A host of up to 2^31 - 15 bytes always fits. */
  lemma HostFits(host: seq<byte>, port: nat, protocol: i32)
    requires port < 0x1_0000 && |host| <= 0x8000_0000 - 15
    ensures |Body(host, port, protocol)| < 0x8000_0000
  {
    ReadOfWritten(protocol, []);
    ReadOfWritten(AsI32(|host|), []);
    assert |Encode(1)| == 1;
  }
}
