/**
 * Model of src/parser/parser_impl.rs, the earlier copy of the Engine.IO parser over
 * src/data: the same loops, proved to produce the same frames and packets as
 * `EngineIoParserImpl`, so its round-trip and error lemmas apply here too.
 */
module ParserImpl {
  import opened Wrappers
  import opened Bytes
  import opened EngineIoPacket
  import DataPacket
  import EngineIoParserImpl

  /** `encode_packet`. */
  method EncodePacket(packet: Packet) returns (buffer: seq<Byte>)
    ensures buffer == EngineIoParserImpl.Frame(packet)
  {
    buffer := [];
    buffer := buffer + [DataPacket.Into(packet.packetType)];
    for i := 0 to |packet.data|
      invariant buffer == [ToU8(packet.packetType)] + packet.data[..i]
    {
      buffer := buffer + [packet.data[i]];
    }
    assert packet.data[..|packet.data|] == packet.data;
  }

  /** `decode_packet`. */
  method DecodePacket(data: seq<Byte>) returns (r: Result<Packet, ParserError>)
    ensures r == EngineIoParserImpl.Unframe(data)
  {
    if |data| == 0 {
      return Err(EmptyPacket);
    }
    var packetType;
    match DataPacket.TryFrom(data[0]) {
      case Err(e) =>
        return Err(e);
      case Ok(t) =>
        packetType := t;
    }
    var packetDataLen := |data| - 1;
    var packetData: seq<Byte> := [];
    for ii := 0 to packetDataLen
      invariant packetData == data[1..ii + 1]
    {
      packetData := packetData + [data[ii + 1]];
    }
    assert data[1..packetDataLen + 1] == data[1..];
    return Ok(DataPacket.NewPacket(packetType, packetData));
  }
}
