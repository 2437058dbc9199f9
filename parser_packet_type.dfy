/**
 * Model of src/socket_io_parser/socket_io_packet_type.rs, the draft packet-type enum. Its
 * variants and discriminants are those of the codec's enum, so the model uses that datatype;
 * the draft's conversions are modelled as written and shown to agree with the codec's.
 */
module ParserPacketType {
  import opened Wrappers
  import opened CodecPacketType
  import ParserNumberUtil

  /** `Into<u8>`: the discriminant. */
  function Into(t: SocketIoPacketType): (n: nat)
    ensures n == ToU8(t)
  {
    match t
    case Connect => 0
    case Disconnect => 1
    case Event => 2
    case Ack => 3
    case Error => 4
    case BinaryEvent => 5
    case BinaryAck => 6
  }

  /** `TryFrom<u8>`: the inverse of `Into` on 0..6, `Err(())` above. */
  function TryFrom(value: nat): (r: Result<SocketIoPacketType, ()>)
    ensures r == TryFromU8(value)
  {
    match value
    case 0 => Ok(Connect)
    case 1 => Ok(Disconnect)
    case 2 => Ok(Event)
    case 3 => Ok(Ack)
    case 4 => Ok(Error)
    case 5 => Ok(BinaryEvent)
    case 6 => Ok(BinaryAck)
    case _ => Err(())
  }

  /** `convert_from_char`: Ok exactly for '0'..'6'. */
  function ConvertFromChar(c: char): (r: Result<SocketIoPacketType, ()>)
    ensures r == CodecPacketType.ConvertFromChar(c)
  {
    match ParserNumberUtil.CharToNumber(c)
    case Some(n) => TryFrom(n)
    case None => Err(())
  }
}
