/**
 * Model of src/data/mod.rs, the earlier copy of the Engine.IO packet types. Its enum, struct
 * and error variants have the shape of those in src/engine_io_parser, so the model uses those
 * datatypes; its conversions are modelled as written and shown to agree with them.
 * (`crate::data::errors` is not part of this model; its variants are taken to be those of
 * src/engine_io_parser/errors.rs.)
 */
module DataPacket {
  import opened Wrappers
  import opened Bytes
  import EngineIoPacket

  /** `Into<u8>`. */
  function Into(t: EngineIoPacket.PacketType): (b: Byte)
    ensures b == EngineIoPacket.ToU8(t)
  {
    match t
    case Open => 0
    case Close => 1
    case Ping => 2
    case Pong => 3
    case Message => 4
    case Upgrade => 5
    case Noop => 6
  }

  /** `TryFrom<u8>`. */
  function TryFrom(value: Byte): (r: Result<EngineIoPacket.PacketType, EngineIoPacket.ParserError>)
    ensures r == EngineIoPacket.TryFromU8(value)
  {
    match value
    case 0 => Ok(EngineIoPacket.Open)
    case 1 => Ok(EngineIoPacket.Close)
    case 2 => Ok(EngineIoPacket.Ping)
    case 3 => Ok(EngineIoPacket.Pong)
    case 4 => Ok(EngineIoPacket.Message)
    case 5 => Ok(EngineIoPacket.Upgrade)
    case 6 => Ok(EngineIoPacket.Noop)
    case _ => Err(EngineIoPacket.InvalidPacketType(value))
  }

  /** `Packet::new`. */
  function NewPacket(packetType: EngineIoPacket.PacketType, data: seq<Byte>): (p: EngineIoPacket.Packet)
    ensures p == EngineIoPacket.NewPacket(packetType, data)
  {
    EngineIoPacket.Packet(packetType, data)
  }
}
