/**
 * Model of src/engine_io_parser/packet.rs and src/engine_io_parser/errors.rs: the seven
 * Engine.IO packet types with their byte codes, and a packet as a type plus a byte payload.
 */
module EngineIoPacket {
  import opened Wrappers
  import opened Bytes

  datatype PacketType = Open | Close | Ping | Pong | Message | Upgrade | Noop

  /** `ParserError`. */
  datatype ParserError = InvalidPacketType(value: Byte) | EmptyPacket

  /** `Into<u8>`: the code, in declaration order. */
  function ToU8(t: PacketType): (b: Byte)
    ensures b <= 6
  {
    match t
    case Open => 0
    case Close => 1
    case Ping => 2
    case Pong => 3
    case Message => 4
    case Upgrade => 5
    case Noop => 6
  }

  /** `TryFrom<u8>`: the type with code `value`; any code above 6 is `InvalidPacketType(value)`. */
  function TryFromU8(value: Byte): (r: Result<PacketType, ParserError>)
    ensures r.Ok? <==> value <= 6
    ensures r.Ok? ==> ToU8(r.value) == value
    ensures r.Err? ==> r.error == InvalidPacketType(value)
  {
    match value
    case 0 => Ok(Open)
    case 1 => Ok(Close)
    case 2 => Ok(Ping)
    case 3 => Ok(Pong)
    case 4 => Ok(Message)
    case 5 => Ok(Upgrade)
    case 6 => Ok(Noop)
    case _ => Err(InvalidPacketType(value))
  }

  /** `Packet`: `<packet type id><data>`. */
  datatype Packet = Packet(packetType: PacketType, data: seq<Byte>)

  /** `Packet::new`: stores both arguments as they are. */
  function NewPacket(packetType: PacketType, data: seq<Byte>): (p: Packet)
    ensures p.packetType == packetType && p.data == data
  {
    Packet(packetType, data)
  }

  /** Reading back the code of a type gives the type. */
  lemma {:induction false} TryFromInvertsToU8(t: PacketType)
    ensures TryFromU8(ToU8(t)) == Ok(t)
  {
    match t
    case Open =>
    case Close =>
    case Ping =>
    case Pong =>
    case Message =>
    case Upgrade =>
    case Noop =>
  }

  /** Distinct types have distinct codes. */
  lemma ToU8Injective(s: PacketType, t: PacketType)
    requires ToU8(s) == ToU8(t)
    ensures s == t
  {
    TryFromInvertsToU8(s);
    TryFromInvertsToU8(t);
  }
}
