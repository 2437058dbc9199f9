/**
 * Model of the `SocketIoPacket` record (src/socket_io_packet_codec/socket_io_packet.rs; the
 * draft under src/socket_io_parser/ declares the same fields). The JSON payload type of
 * serde_json is the type parameter `V`.
 */
module SocketIoPacket {
  import opened Wrappers
  import opened Decimal
  import opened CodecPacketType

  datatype SocketIoPacket<V> = SocketIoPacket(
    packetType: SocketIoPacketType,
    nsp: string,
    id: Option<U32>,
    data: Option<V>)
}
