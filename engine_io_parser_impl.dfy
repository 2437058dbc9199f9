/**
 * Model of src/engine_io_parser/engine_io_parser_impl.rs: the Engine.IO packet framing
 * `<type byte><data bytes>` (the "Encoding" section of the Engine.IO protocol). Both
 * operations fill a buffer in a loop; each is proved to produce its reference value.
 */
module EngineIoParserImpl {
  import opened Wrappers
  import opened Bytes
  import opened EngineIoPacket

  /** The frame of a packet: its type code, then its data. */
  function Frame(p: Packet): seq<Byte> {
    [ToU8(p.packetType)] + p.data
  }

  /** What decoding a frame gives: an error for an empty frame or a bad code, else the code's type and the rest. */
  function Unframe(data: seq<Byte>): Result<Packet, ParserError> {
    if |data| == 0 then Err(EmptyPacket)
    else
      match TryFromU8(data[0])
      case Err(e) => Err(e)
      case Ok(t) => Ok(Packet(t, data[1..]))
  }

  /** `encode_packet`: push the type code, then every data byte. */
  method EncodePacket(packet: Packet) returns (buffer: seq<Byte>)
    ensures buffer == Frame(packet)
  {
    buffer := [];
    buffer := buffer + [ToU8(packet.packetType)];
    for i := 0 to |packet.data|
      invariant buffer == [ToU8(packet.packetType)] + packet.data[..i]
    {
      buffer := buffer + [packet.data[i]];
    }
    assert packet.data[..|packet.data|] == packet.data;
  }

  /** `decode_packet`: reject an empty frame, read the type code, then copy the remaining bytes. */
  method DecodePacket(data: seq<Byte>) returns (r: Result<Packet, ParserError>)
    ensures r == Unframe(data)
  {
    if |data| == 0 {
      return Err(EmptyPacket);
    }
    var packetType;
    match TryFromU8(data[0]) {
      case Err(e) =>
        return Err(e);
      case Ok(t) =>
        packetType := t;
    }
    var packetDataLen := |data| - 1;
    var packetData: seq<Byte> := [];
    for ii := 0 to packetDataLen
      invariant packetData == data[1..ii + 1]
    {
      packetData := packetData + [data[ii + 1]];
    }
    assert data[1..packetDataLen + 1] == data[1..];
    return Ok(NewPacket(packetType, packetData));
  }

  /** The frame is one byte longer than the data: the type code first, the data unchanged after it. */
  lemma FrameLayout(p: Packet)
    ensures |Frame(p)| == |p.data| + 1
    ensures Frame(p)[0] == ToU8(p.packetType) && Frame(p)[1..] == p.data
  {
  }

  /** The error cases of decoding: an empty frame, and a first byte above 6 (reported with that byte). */
  lemma UnframeErrors(data: seq<Byte>)
    ensures |data| == 0 ==> Unframe(data) == Err(EmptyPacket)
    ensures |data| > 0 && data[0] > 6 ==> Unframe(data) == Err(InvalidPacketType(data[0]))
    ensures Unframe(data).Ok? <==> |data| > 0 && data[0] <= 6
  {
  }

  /** A successful decode takes its type from byte 0 and its data from the bytes after it. */
  lemma UnframeFields(data: seq<Byte>)
    requires Unframe(data).Ok?
    ensures ToU8(Unframe(data).value.packetType) == data[0]
    ensures Unframe(data).value.data == data[1..]
  {
  }

  /** Decoding an encoded packet gives the packet back. */
  lemma DecodeEncode(p: Packet)
    ensures Unframe(Frame(p)) == Ok(p)
  {
    TryFromInvertsToU8(p.packetType);
    assert Frame(p)[1..] == p.data;
  }

  /** Re-encoding a decoded frame gives the frame back. */
  lemma EncodeDecode(data: seq<Byte>)
    requires Unframe(data).Ok?
    ensures Frame(Unframe(data).value) == data
  {
    assert [data[0]] + data[1..] == data;
  }

  /** The documented examples: `Open` with [1, 2, 3] is [0, 1, 2, 3], and [4, 1, 2, 3] is `Message` with [1, 2, 3]. */
  lemma Examples()
    ensures Frame(Packet(Open, [1, 2, 3])) == [0, 1, 2, 3]
    ensures Frame(Packet(Message, [1, 2, 3])) == [4, 1, 2, 3]
    ensures Unframe([0, 1, 2, 3]) == Ok(Packet(Open, [1, 2, 3]))
    ensures Unframe([4, 1, 2, 3]) == Ok(Packet(Message, [1, 2, 3]))
  {
    assert [0, 1, 2, 3][1..] == [1, 2, 3];
    assert [4, 1, 2, 3][1..] == [1, 2, 3];
  }
}
