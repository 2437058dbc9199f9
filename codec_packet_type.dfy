/** Model of src/socket_io_packet_codec/packet_type.rs: the seven Socket.IO packet types. */
module CodecPacketType {
  import opened Wrappers
  import opened Decimal
  import CodecNumberUtil

  /** Declaration order gives the discriminants 0..6. */
  datatype SocketIoPacketType =
    | Connect
    | Disconnect
    | Event
    | Ack
    | Error
    | BinaryEvent
    | BinaryAck

  /** `t as u8` (and `Into<u8>`). */
  function ToU8(t: SocketIoPacketType): (n: nat)
    ensures n <= 6
  {
    match t
    case Connect => 0
    case Disconnect => 1
    case Event => 2
    case Ack => 3
    case Error => 4
    case BinaryEvent => 5
    case BinaryAck => 6
  }

  /** `TryFrom<u8>`: the variant whose discriminant is `n`, `Err(())` above 6. */
  function TryFromU8(n: nat): (r: Result<SocketIoPacketType, ()>)
    ensures r.Ok? <==> n <= 6
    ensures r.Ok? ==> ToU8(r.value) == n
  {
    match n
    case 0 => Ok(Connect)
    case 1 => Ok(Disconnect)
    case 2 => Ok(Event)
    case 3 => Ok(Ack)
    case 4 => Ok(Error)
    case 5 => Ok(BinaryEvent)
    case 6 => Ok(BinaryAck)
    case _ => Err(())
  }

  /** `convert_from_char`: a digit through `convert_char_to_number`, then `try_from`. */
  function ConvertFromChar(c: char): (r: Result<SocketIoPacketType, ()>)
    ensures r.Ok? <==> '0' <= c <= '6'
    ensures r.Ok? ==> ToU8(r.value) == c as int - '0' as int
  {
    match CodecNumberUtil.CharToNumber(c)
    case Some(n) => TryFromU8(n)
    case None => Err(())
  }

  /** The characters written for a type by `write!(f, "{}", t as u8)`. */
  function TypeDigit(t: SocketIoPacketType): (c: char)
    ensures '0' <= c <= '6'
  {
    DigitChar(ToU8(t))
  }

  /** `try_from(t as u8) == Ok(t)` for every variant. */
  lemma {:induction false} TryFromInvertsToU8(t: SocketIoPacketType)
    ensures TryFromU8(ToU8(t)) == Ok(t)
  {
    match t
    case Connect =>
    case Disconnect =>
    case Event =>
    case Ack =>
    case Error =>
    case BinaryEvent =>
    case BinaryAck =>
  }

  /** `ToU8` is injective: distinct variants have distinct discriminants. */
  lemma ToU8Injective(s: SocketIoPacketType, t: SocketIoPacketType)
    ensures ToU8(s) == ToU8(t) ==> s == t
  {
    TryFromInvertsToU8(s);
    TryFromInvertsToU8(t);
  }

  /** Reading back the digit written for a type gives the type. */
  lemma ConvertTypeDigit(t: SocketIoPacketType)
    ensures TypeDigit(t) == "0123456"[ToU8(t)]
    ensures ConvertFromChar(TypeDigit(t)) == Ok(t)
  {
    TryFromInvertsToU8(t);
  }
}
