# socket-io-rust, modelled in Dafny

This project models the sequential core of `socket-io-rust`, a Socket.IO server written in Rust on actix. The model has four parts.

- **The Socket.IO text packet codec.**
  - The format is `<type digit>[<nsp>,][<ack id digits>][<json>]`, with the packet types of revision 4 of the Socket.IO protocol (CONNECT 0 … BINARY_ACK 6).
  - `DefaultPacketCodec` holds the encoder and the cursor-based decoder.
  - The packet-type conversions and the digit helper sit in their own modules.
  - The earlier draft of the same grammar, `SocketIoParserImpl`, is modelled beside the codec, with its broken ack-id loop.
- **The room and namespace registry.**
  - Two maps are kept in sync: room → sockets and socket → rooms. A room is dropped once it empties.
  - Each socket is joined to a room named after itself.
  - A broadcast resolves the union of the rooms' members and sends exactly once to each of them.
- **One WebSocket connection (`SocketIoWebsocket`).**
  - Ping/Pong refresh the heartbeat time.
  - A heartbeat tick drops a client that stayed silent longer than `CLIENT_TIMEOUT`.
  - Binary, Close and errors stop the connection; Text broadcasts on the "/" adaptor.
  - Start and stop register the socket in the registry and remove it again.
- **The Engine.IO byte framing** `<type byte><data bytes>`, in both copies of the crate (`engine_io_parser` and `data` + `parser`).

## How the model is built

- **Plain values.** Pure Rust code becomes datatypes and functions with named results. Packet types, conversions and `encode` are modelled this way.
- **Imperative code.** It becomes classes and methods.
  - The two decoders are methods with the same cursor and loops as the source. Each is proved equal to a function on positions of the input: `DecodeSpec`, or `Unframe` for the framing decoder.
  - The room managers are classes with `rooms` and `sids` map fields. Each mutator is proved equal to a function of `RoomTable` on the old state, and it preserves the invariant `RoomTable.Consistent`: `sid ∈ rooms[r] ⇔ r ∈ sids[sid]`, and no stored room is empty.
- **The websocket connection.** A class whose fields are `hb`, a stopped flag, and the frames written to the client.
- **Inputs and outputs.**
  - Time is a parameter, counted in nanoseconds.
  - An actix address is a type parameter `H`.
  - A send (`do_send`) is a `Delivery` value in the sequence an emit returns.
- **JSON.** serde_json is a pair of parameters: `show` (`to_string`) and `parse` (`from_str`). What the round-trip needs of them is stated as a precondition (`PayloadRoundTrips`), not proved.
- **The draft decoder's hang.** A call of the draft `decode` either returns or runs forever. Running forever is the outcome `Hangs`. A step-by-step model of the loop (`IdLoopPass`, `RunIdLoop`) proves that the loop never exits on exactly those inputs.
- **Stopping a connection.** Stopping removes the socket from the "/" adaptor, whatever namespace it was started in (`Stopped`). A socket started in another namespace stays registered there; see "Findings".

## Model

| member | source | states |
|---|---|---|
| Decimal.ToDigit | src/socket_io_packet_codec/number_util.rs:2 | `char::to_digit(10)`: a digit exactly for '0'..'9', with the value `c - '0'` below 10 |
| Decimal.DigitChar | src/socket_io_packet_codec/default_packet_codec.rs:16 | the char written for a value below 10 is a decimal digit with that value |
| Decimal.NatToDecimal | src/socket_io_packet_codec/default_packet_codec.rs:24-26 | the id is written as a non-empty run of decimal digits, without a leading zero |
| Decimal.ParseU32 | src/socket_io_packet_codec/default_packet_codec.rs:104-107 | `str::parse::<u32>` succeeds exactly on an optional '+' followed by a non-empty digit run whose value is at most `u32::MAX` (the value it yields is stated by `ParseDigits`) |
| Decimal.DecimalRoundTrip | src/socket_io_packet_codec/default_packet_codec.rs:24-26 | reading back the written decimal text of n gives n |
| Decimal.ParseFormattedU32 | src/socket_io_packet_codec/default_packet_codec.rs:104-105 | parsing the written text of a `u32` gives it back |
| Decimal.ParseDigits | src/socket_io_packet_codec/default_packet_codec.rs:104-107 | a digit run parses to its value when that fits in `u32`, and fails otherwise |
| Decimal.ParseRejectsNonDigit | src/socket_io_parser/socket_io_parser_impl.rs:101-104 | id text with a non-digit after its first char fails to parse |
| Decimal.ParseSingleDigit | src/socket_io_parser/socket_io_parser_impl.rs:101-102 | the id text of one digit parses to that digit's value |
| CodecNumberUtil.CharToNumber | src/socket_io_packet_codec/number_util.rs:1-7 | `Some(c - '0')` exactly for '0'..'9' (so `n <= 9`), `None` for every other char, letters and non-ASCII included |
| CodecNumberUtil.GuardUnreachable | src/socket_io_packet_codec/number_util.rs:2-5 | the `n > 9` guard never fires for radix 10, so the function is `to_digit(10)` |
| CodecPacketType.ToU8 | src/socket_io_packet_codec/packet_type.rs:4-18 | `t as u8` is the declaration-order discriminant, at most 6 |
| CodecPacketType.TryFromU8 | src/socket_io_packet_codec/packet_type.rs:20-35 | `try_from(n)` is `Ok` exactly for n <= 6, with the variant whose discriminant is n; `Err(())` above 6 |
| CodecPacketType.ConvertFromChar | src/socket_io_packet_codec/packet_type.rs:37-44 | `Ok` exactly for '0'..'6', mapping 'k' to the variant with discriminant k |
| CodecPacketType.TypeDigit | src/socket_io_packet_codec/default_packet_codec.rs:16 | the type is written as one char in '0'..'6' |
| CodecPacketType.TryFromInvertsToU8 | src/socket_io_packet_codec/packet_type.rs:14-35 | `try_from(t as u8) == Ok(t)` for every variant |
| CodecPacketType.ToU8Injective | src/socket_io_packet_codec/packet_type.rs:4-18 | distinct variants have distinct discriminants |
| CodecPacketType.ConvertTypeDigit | src/socket_io_packet_codec/packet_type.rs:37-44 | the written type digit is "0123456"[t as u8], and `convert_from_char` reads it back as t |
| DefaultPacketCodec.Encode | src/socket_io_packet_codec/default_packet_codec.rs:15-32 | the output starts with the type digit, and its length is the sum of the four segments |
| DefaultPacketCodec.EncodeLayout | src/socket_io_packet_codec/default_packet_codec.rs:15-32 | after the type digit comes `nsp` and ',' exactly when `nsp != "/"`, then the ack id as decimal digits with its value, and the payload text ends the output |
| DefaultPacketCodec.CommaFrom | src/socket_io_packet_codec/default_packet_codec.rs:62-72 | where the namespace loop stops: the first ',' at or after i, or the end |
| DefaultPacketCodec.DigitRunEnd | src/socket_io_packet_codec/default_packet_codec.rs:86-102 | where the ack-id loop stops: the first non-digit at or after i, or the end, with only digits in between |
| DefaultPacketCodec.NspCursor | src/socket_io_packet_codec/default_packet_codec.rs:61-75 | the namespace scan leaves the cursor within the input |
| DefaultPacketCodec.ScanNamespace | src/socket_io_packet_codec/default_packet_codec.rs:60-75 | the namespace loop: after a '/' it collects every char up to the next ',' (or the end) and stops on it; otherwise the namespace is "/" and the cursor stays on the type digit |
| DefaultPacketCodec.ScanAckId | src/socket_io_packet_codec/default_packet_codec.rs:82-102 | the digit loop collects the maximal digit run, and the `idx -= 1` step leaves the cursor on its last digit, or past the end when the run ends the input |
| DefaultPacketCodec.Decode | src/socket_io_packet_codec/default_packet_codec.rs:34-123 | `decode`, statement by statement, equals `DecodeSpec`; every index it takes is in bounds |
| DefaultPacketCodec.CommaFromIsFirst | src/socket_io_packet_codec/default_packet_codec.rs:62-72 | any position with no comma before it that is a comma or the end is where the namespace loop stops |
| DefaultPacketCodec.DigitRunEndIsMaximal | src/socket_io_packet_codec/default_packet_codec.rs:86-102 | any all-digit stretch ended by a non-digit or the end is where the digit loop stops |
| DefaultPacketCodec.AfterId | src/socket_io_packet_codec/default_packet_codec.rs:77-112 | where the payload starts: right after the digit run, or after the namespace segment when there is no id |
| DefaultPacketCodec.DecodeTypeErrors | src/socket_io_packet_codec/default_packet_codec.rs:35-58 | empty input fails with "Data is empty", a first char outside '0'..'6' with "Unknown packet type", '5' and '6' with "Binary not supported"; a success has a type in '0'..'4' read from the first char |
| DefaultPacketCodec.DecodedFields | src/socket_io_packet_codec/default_packet_codec.rs:60-122 | a decoded packet has the scanned namespace, an id exactly when a digit follows the namespace segment (with the parsed run), and data exactly when text remains after the id (what the JSON parser makes of it) |
| DefaultPacketCodec.DecodedNamespace | src/socket_io_packet_codec/default_packet_codec.rs:61-75 | the namespace starts with '/' and has no ','; after a '/' it is the input up to the next ',' or the end, otherwise it is "/" |
| DefaultPacketCodec.DecodedAckId | src/socket_io_packet_codec/default_packet_codec.rs:77-109 | the id is present exactly when a digit follows the namespace segment, and it is the value of the maximal digit run there |
| DefaultPacketCodec.AckIdOverflowFails | src/socket_io_packet_codec/default_packet_codec.rs:104-107 | a digit run above `u32::MAX` fails with "Unable to parse ID" |
| DefaultPacketCodec.PayloadErrorFails | src/socket_io_packet_codec/default_packet_codec.rs:111-120 | a remainder the JSON parser rejects fails the decode with the parser's message |
| DefaultPacketCodec.NamespaceOfEncoding | src/socket_io_packet_codec/default_packet_codec.rs:15-75 | scanning an encoding gives back the packet's namespace, and the id scan starts right after the written segment |
| DefaultPacketCodec.AckIdOfEncoding | src/socket_io_packet_codec/default_packet_codec.rs:15-109 | scanning an encoding finds an id exactly when the packet has one, parses it back, and leaves exactly the payload text |
| DefaultPacketCodec.RoundTrip | src/socket_io_packet_codec/default_packet_codec.rs:211-263 | `decode(encode(p)) == p` for a text packet type, a '/'-led comma-free namespace, and a payload whose text round-trips through JSON and does not start with a digit |
| DefaultPacketCodec.EncodeExamples | src/socket_io_packet_codec/default_packet_codec.rs:137-207 | for any JSON text of the payload: Connect on "/hello" with id 100 encodes to `0/hello,100` and the text; Ack on "/" with no id to `3` and the text; Event on "/" with neither to `2` |
| DefaultPacketCodec.DecodeNamespaceExamples | src/socket_io_packet_codec/default_packet_codec.rs:266-299 | "0/hello," and "0/hello" both decode to Connect on "/hello" with no id and no data |
| DefaultPacketCodec.DecodeAckIdExamples | src/socket_io_packet_codec/default_packet_codec.rs:320-353 | "0100" and "00" decode to Connect on "/" with ids 100 and 0 |
| ParserNumberUtil.CharToNumber | src/socket_io_parser/number_util.rs:1-7 | the draft's digit helper agrees with the codec's on every char |
| ParserPacketType.Into | src/socket_io_parser/socket_io_packet_type.rs:24-28 | the draft's `into` is the declaration-order discriminant, as in the codec |
| ParserPacketType.TryFrom | src/socket_io_parser/socket_io_packet_type.rs:30-44 | the draft's `try_from` is the codec's: `Ok` exactly on 0..6 |
| ParserPacketType.ConvertFromChar | src/socket_io_parser/socket_io_packet_type.rs:15-22 | the draft's `convert_from_char` is the codec's: `Ok` exactly for '0'..'6' |
| SocketIoParserImpl.Encode | src/socket_io_parser/socket_io_parser_impl.rs:9-29 | the draft writes exactly the codec's text for every packet |
| SocketIoParserImpl.Decode | src/socket_io_parser/socket_io_parser_impl.rs:31-119 | the draft `decode`, statement by statement: it errs on an empty input, an unknown type, a binary type, a non-digit after the namespace and a lone digit followed by non-digits; it returns id `None` when nothing follows the namespace and the digit as id when one digit ends the input; and it hangs once any later digit follows the first id digit |
| SocketIoParserImpl.DecodeAfterNamespace | src/socket_io_parser/socket_io_parser_impl.rs:73-118 | the id loop and JSON branch of the draft equal the part of `DecodeSpec` after the namespace scan |
| SocketIoParserImpl.IdLoopSpins | src/socket_io_parser/socket_io_parser_impl.rs:83-98 | with a digit after the cursor the loop never exits, the cursor never moves, and the id text grows by one char per pass |
| SocketIoParserImpl.IdLoopAdvances | src/socket_io_parser/socket_io_parser_impl.rs:83-98 | over non-digits the loop advances one char per pass and pushes each |
| SocketIoParserImpl.RunIdLoopSplits | src/socket_io_parser/socket_io_parser_impl.rs:83-98 | a + b passes are a passes followed by b passes |
| SocketIoParserImpl.FirstDigit | src/socket_io_parser/socket_io_parser_impl.rs:83-98 | the first digit at or after a position, with none before it |
| SocketIoParserImpl.NeverExits | src/socket_io_parser/socket_io_parser_impl.rs:83-98 | non-digits and then a digit ahead of the cursor: no number of passes exits the loop |
| SocketIoParserImpl.DecodeSpins | src/socket_io_parser/socket_io_parser_impl.rs:79-98 | on every input where `DecodeSpec` says `Hangs`, the loop as `decode` enters it never exits |
| SocketIoParserImpl.IdLoopExits | src/socket_io_parser/socket_io_parser_impl.rs:83-98 | with no later digit, the loop exits at the end of the input holding the rest of it as id text |
| SocketIoParserImpl.AgreesWithCodec | src/socket_io_parser/socket_io_parser_impl.rs:31-119 | whatever the draft decodes, the codec decodes to the same packet |
| SocketIoParserImpl.NoPayloadDecodes | src/socket_io_parser/socket_io_parser_impl.rs:107-116 | the draft never returns a packet with a payload, even one the codec round-trips |
| SocketIoParserImpl.DecodeExamples | src/socket_io_parser/socket_io_parser_impl.rs:31-119 | "01" decodes with id 1, "0100" hangs, an event with a payload is rejected, and "0/chat," decodes to "/chat" |
| RoomTable.EmptyConsistent | src/socket_io_adaptor/chat_room_manager.rs:39-44 | the empty manager satisfies the membership invariant |
| RoomTable.AddOneConsistent | src/socket_io_adaptor/chat_room_manager.rs:59-68 | one pass of the `add_all` loop preserves the invariant |
| RoomTable.AddOneRooms | src/socket_io_adaptor/chat_room_manager.rs:63-67 | one pass adds `id` to room r (creating it if needed) and changes no other room |
| RoomTable.AddOneSids | src/socket_io_adaptor/chat_room_manager.rs:60-61 | one pass adds r to the rooms of `id` (creating its entry if needed) and changes no other socket |
| RoomTable.AddAllRooms | src/socket_io_adaptor/chat_room_manager.rs:58-69 | `add_all(id, rs)` makes `id` a member of each room of rs, creates only those rooms, and changes no other membership |
| RoomTable.AddAllSids | src/socket_io_adaptor/chat_room_manager.rs:58-69 | `add_all(id, rs)` gives `id` the rooms of rs, creates its entry only when rs is non-empty, and changes no other socket |
| RoomTable.AddAllEffect | src/socket_io_adaptor/chat_room_manager.rs:58-69 | both sides of `add_all` together |
| RoomTable.AddAllConsistent | src/socket_io_adaptor/chat_room_manager.rs:58-69 | `add_all` preserves the invariant |
| RoomTable.AddJoins | src/socket_io_adaptor/chat_room_manager.rs:54-56 | after `add(id, r)`, `id ∈ rooms[r]` and `r ∈ sids[id]` |
| RoomTable.ReAddChangesNothing | src/socket_io_adaptor/chat_room_manager.rs:54-69 | re-adding a recorded membership changes nothing (set semantics) |
| RoomTable.DeleteConsistent | src/socket_io_adaptor/chat_room_manager.rs:45-77 | `delete` preserves the invariant, including that no stored room is empty |
| RoomTable.DeleteEffect | src/socket_io_adaptor/chat_room_manager.rs:71-77 | `delete(id, r)` removes only the pair (id, r), and the entry `sids[id]` stays even when it empties |
| RoomTable.DeleteNonMemberChangesNothing | src/socket_io_adaptor/chat_room_manager.rs:71-77 | deleting a non-member is a no-op |
| RoomTable.RemoveFromNoRooms | src/socket_io_adaptor/chat_room_manager.rs:79-84 | the `delete_all` loop with no rooms processed leaves the rooms as they are |
| RoomTable.RemoveFromRoomsStep | src/socket_io_adaptor/chat_room_manager.rs:80-84 | one more `remove_id_from_room` in the `delete_all` loop processes one more room; the order does not matter |
| RoomTable.DeleteAllConsistent | src/socket_io_adaptor/chat_room_manager.rs:79-87 | `delete_all` preserves the invariant |
| RoomTable.DeleteAllEffect | src/socket_io_adaptor/chat_room_manager.rs:79-87 | `delete_all(id)` removes `id` from every room and erases `sids[id]`, and other sockets are unchanged |
| RoomTable.ResolveIsUnion | src/socket_io_adaptor/chat_room_manager.rs:90-101 | the sockets of the named rooms are exactly those in at least one of them; unknown rooms add nothing |
| RoomTable.ConsistentQueries | src/socket_io_adaptor/chat_room_manager.rs:104-120 | under the invariant every room member has a `sids` entry, and every stored room is joined by some socket |
| RoomTable.ResolveAllRooms | src/socket_io_adaptor/namespace.rs:69-73 | resolving all stored rooms gives every socket in some room |
| RoomTable.ListOf | src/socket_io_adaptor/chat_room_manager.rs:100 | a set collected into a `Vec` in some order: the same elements, each once |
| ChatRooms.ChatRoomManager.constructor | src/socket_io_adaptor/chat_room_manager.rs:39-44 | a new manager is empty and consistent |
| ChatRooms.ChatRoomManager.RemoveIdFromRoom | src/socket_io_adaptor/chat_room_manager.rs:45-52 | removes `id` from the room and drops the room once it is empty; `sids` is untouched |
| ChatRooms.ChatRoomManager.Add | src/socket_io_adaptor/chat_room_manager.rs:54-56 | `add_all(id, [r])`; afterwards both directions of the membership hold, and the invariant is kept |
| ChatRooms.ChatRoomManager.AddAll | src/socket_io_adaptor/chat_room_manager.rs:58-69 | the loop's new state is `RoomTable.AddAll` of the old state, and the invariant is kept |
| ChatRooms.ChatRoomManager.Delete | src/socket_io_adaptor/chat_room_manager.rs:71-77 | the new state is `RoomTable.Delete` of the old, and the invariant is kept |
| ChatRooms.ChatRoomManager.DeleteAll | src/socket_io_adaptor/chat_room_manager.rs:79-87 | the loop's new state is `RoomTable.DeleteAll` of the old, and the invariant is kept |
| ChatRooms.ChatRoomManager.GetAllSidsFromRooms | src/socket_io_adaptor/chat_room_manager.rs:90-101 | the nested loops collect exactly the union of the named rooms' members |
| ChatRooms.ChatRoomManager.GetAllSids | src/socket_io_adaptor/chat_room_manager.rs:104-107 | the key set of `sids`; under the invariant it holds every room member |
| ChatRooms.ChatRoomManager.GetSocketRooms | src/socket_io_adaptor/chat_room_manager.rs:110-115 | `sids[id]`, empty for an unknown id; under the invariant exactly the rooms `id` is a member of |
| ChatRooms.ChatRoomManager.GetAllRooms | src/socket_io_adaptor/chat_room_manager.rs:118-120 | the key set of `rooms`; under the invariant each was joined by some socket |
| SocketIoAdaptorImpl.SocketIoAdaptor.constructor | src/socket_io_adaptor/socket_io_adaptor_impl.rs:39-44 | a new adaptor is empty and consistent |
| SocketIoAdaptorImpl.SocketIoAdaptor.RemoveIdFromRoom | src/socket_io_adaptor/socket_io_adaptor_impl.rs:45-52 | removes `id` from the room and drops the room once it is empty |
| SocketIoAdaptorImpl.SocketIoAdaptor.Add | src/socket_io_adaptor/socket_io_adaptor_impl.rs:54-56 | both directions of the membership hold afterwards, and the invariant is kept |
| SocketIoAdaptorImpl.SocketIoAdaptor.AddAll | src/socket_io_adaptor/socket_io_adaptor_impl.rs:58-66 | the new state is `RoomTable.AddAll` of the old, and the invariant is kept |
| SocketIoAdaptorImpl.SocketIoAdaptor.Delete | src/socket_io_adaptor/socket_io_adaptor_impl.rs:68-74 | the new state is `RoomTable.Delete` of the old, and the invariant is kept |
| SocketIoAdaptorImpl.SocketIoAdaptor.DeleteAll | src/socket_io_adaptor/socket_io_adaptor_impl.rs:76-84 | the new state is `RoomTable.DeleteAll` of the old: `id` is erased everywhere and other sockets are intact |
| SocketIoAdaptorImpl.SocketIoAdaptor.GetAllSidsFromRooms | src/socket_io_adaptor/socket_io_adaptor_impl.rs:87-98 | the union set of the named rooms' members; unknown rooms are ignored |
| SocketIoAdaptorImpl.SocketIoAdaptor.GetAllSids | src/socket_io_adaptor/socket_io_adaptor_impl.rs:101-104 | the key set of `sids` |
| SocketIoAdaptorImpl.SocketIoAdaptor.GetSocketRooms | src/socket_io_adaptor/socket_io_adaptor_impl.rs:107-112 | `None` exactly when `id` has no entry; otherwise the rooms `id` is a member of |
| SocketIdManagers.SocketIdManager.constructor | src/socket_io_adaptor/socket_id_manager.rs:11-13 | a new manager holds no handles |
| SocketIdManagers.SocketIdManager.GetSocketAddr | src/socket_io_adaptor/socket_id_manager.rs:19-21 | `Some` of the stored handle exactly when `id` has one |
| SocketIdManagers.SocketIdManager.AddSocket | src/socket_io_adaptor/socket_id_manager.rs:15-17 | afterwards `get_socket_addr(id)` is the new handle (last writer wins), and every other id is unchanged |
| SocketIdManagers.SocketIdManager.RemoveSocketById | src/socket_io_adaptor/socket_id_manager.rs:23-25 | returns the previous handle; afterwards `id` has none and every other id is unchanged |
| Namespaces.Namespace.constructor | src/socket_io_adaptor/namespace.rs:24-30 | the given name and empty managers |
| Namespaces.Namespace.Default | src/socket_io_adaptor/namespace.rs:13-21 | name "/" and empty managers |
| Namespaces.Namespace.AddSocket | src/socket_io_adaptor/namespace.rs:32-37 | stores the handle and joins `id` to the room named `id`; the invariant and "every room member has a handle" are kept |
| Namespaces.Namespace.JoinRoom | src/socket_io_adaptor/namespace.rs:39-41 | exactly the manager's `add`; afterwards every member still has a handle exactly when `id` has one |
| Namespaces.Namespace.LeaveRoom | src/socket_io_adaptor/namespace.rs:43-45 | exactly the manager's `delete`; the invariant and the handle property are kept |
| Namespaces.Namespace.RemoveSocket | src/socket_io_adaptor/namespace.rs:47-50 | afterwards `id` has no handle and is in no room, and its own room is gone when it was the only member |
| Namespaces.Namespace.EmitTo | src/socket_io_adaptor/namespace.rs:52-54 | one message to each member of the room, through its handle, and to no one else |
| Namespaces.Namespace.EmitToRooms | src/socket_io_adaptor/namespace.rs:56-67 | exactly one message to each distinct socket in the union of the rooms, and to no one else; each must have a handle (the `unwrap`) |
| Namespaces.Namespace.EmitToAll | src/socket_io_adaptor/namespace.rs:69-73 | exactly one message to every socket in some room |
| IoAdaptors.IoAdaptor.constructor | src/socket_io_adaptor/io_adaptor.rs:12-24 | empty managers |
| IoAdaptors.IoAdaptor.AddSocket | src/socket_io_adaptor/io_adaptor.rs:26-31 | stores the handle and the room named `id`; the invariant and the handle property are kept |
| IoAdaptors.IoAdaptor.JoinRoom | src/socket_io_adaptor/io_adaptor.rs:33-35 | exactly the manager's `add` |
| IoAdaptors.IoAdaptor.LeaveRoom | src/socket_io_adaptor/io_adaptor.rs:37-39 | exactly the manager's `delete` |
| IoAdaptors.IoAdaptor.RemoveSocket | src/socket_io_adaptor/io_adaptor.rs:41-44 | the handle and every membership of `id` are gone |
| IoAdaptors.IoAdaptor.EmitToRooms | src/socket_io_adaptor/io_adaptor.rs:46-56 | exactly one message per distinct member of the named rooms, each of which must have a handle |
| IoAdaptors.IoAdaptor.EmitToAll | src/socket_io_adaptor/io_adaptor.rs:58-62 | exactly one message to every socket in some room |
| NamespaceManagers.NamespaceManager.constructor | src/socket_io_adaptor/namespace_manager.rs:8-19 | no namespaces |
| NamespaceManagers.NamespaceManager.CreateNamespace | src/socket_io_adaptor/namespace_manager.rs:21-23 | the name maps to a fresh empty adaptor, replacing any earlier one; other namespaces are untouched |
| NamespaceManagers.NamespaceManager.GetAdaptor | src/socket_io_adaptor/namespace_manager.rs:25-31 | `None` exactly for an unregistered name, else its adaptor |
| Delivery.DeliversToNobody | src/socket_io_adaptor/namespace.rs:59-66 | an emit over no sockets sends nothing |
| Delivery.DeliversOneMore | src/socket_io_adaptor/namespace.rs:59-66 | one pass of the send loop covers one more socket, once |
| Delivery.DeliveryCount | src/socket_io_adaptor/namespace.rs:59-66 | an exactly-once emit makes as many sends as there are targets |
| SocketMessages.Render | src/socket_io_websocket/socket_io_websocket_impl.rs:42-46 | the text frame is the event name, a ',' and the content |
| SocketMessages.RenderSplits | src/socket_io_websocket/socket_io_websocket_impl.rs:42-46 | for a comma-free event name, no ',' of the frame lies inside the name, so the first one is the separator |
| SocketIoWebsockets.DurationSince | src/socket_io_websocket/socket_io_websocket_impl.rs:95 | the elapsed time, zero when the heartbeat time is later than now |
| SocketIoWebsockets.SocketIoWebsocket.constructor | src/socket_io_websocket/socket_io_websocket_impl.rs:80-87 | a new connection was heard from at creation time, is not stopped, and has no heartbeat running yet |
| SocketIoWebsockets.SocketIoWebsocket.Tick | src/socket_io_websocket/socket_io_websocket_impl.rs:92-105 | after more than `CLIENT_TIMEOUT` of silence the actor stops and sends no ping; otherwise exactly one empty ping |
| SocketIoWebsockets.SocketIoWebsocket.HandleStream | src/socket_io_websocket/socket_io_websocket_impl.rs:50-76 | Ping sets `hb := now` and answers with a pong of the same payload; Pong sets `hb := now`; Text reaches every socket in a room of "/" exactly once; anything else stops the actor |
| SocketIoWebsockets.SocketIoWebsocket.HandleSocketMessage | src/socket_io_websocket/socket_io_websocket_impl.rs:39-46 | one text frame, the rendered message |
| SocketIoWebsockets.SocketIoWebsocket.Started | src/socket_io_websocket/socket_io_websocket_impl.rs:107-122 | the socket and its own room are registered in the adaptor of its namespace, then the heartbeat runs |
| SocketIoWebsockets.SocketIoWebsocket.Stopped | src/socket_io_websocket/socket_io_websocket_impl.rs:113-128 | the socket is removed from the "/" adaptor only; any other namespace's adaptor is unchanged |
| SocketIoWebsockets.SocketIoWebsocket.StartThenStopLeaks | src/socket_io_websocket/socket_io_websocket_impl.rs:107-128 | a connection on a namespace other than "/" that starts and then stops as written still has its handle and its own room in that namespace |
| SocketIoWebsockets.SocketIoWebsocket.StoppedInOwnNamespace | src/socket_io_websocket/socket_io_websocket_impl.rs:118-128 | the corrected stop: removes the socket from its own namespace's adaptor, leaving no handle and no membership there, and keeps the invariant |
| SocketIoWebsockets.SocketIoWebsocket.StartThenStopInOwnNamespace | src/socket_io_websocket/socket_io_websocket_impl.rs:107-128 | with the corrected stop, starting and then stopping leaves nothing of the socket in its namespace |
| EngineIoPacket.ToU8 | src/engine_io_parser/packet.rs:38-52 | `into u8` is the declaration-order discriminant, at most 6 |
| EngineIoPacket.TryFromU8 | src/engine_io_parser/packet.rs:54-69 | `Ok` exactly on 0..6, with the variant of that discriminant; otherwise `InvalidPacketType` carrying the same byte |
| EngineIoPacket.NewPacket | src/engine_io_parser/packet.rs:79-83 | stores its arguments unchanged |
| EngineIoPacket.TryFromInvertsToU8 | src/engine_io_parser/packet.rs:48-69 | `try_from(t.into()) == Ok(t)` |
| EngineIoPacket.ToU8Injective | src/engine_io_parser/packet.rs:38-52 | distinct variants have distinct bytes |
| EngineIoParserImpl.EncodePacket | src/engine_io_parser/engine_io_parser_impl.rs:9-18 | the push loop builds exactly the type byte followed by the data |
| EngineIoParserImpl.DecodePacket | src/engine_io_parser/engine_io_parser_impl.rs:20-31 | the copy loop gives exactly `Unframe`: errors on empty input or a bad first byte, else the type and the remaining bytes |
| EngineIoParserImpl.FrameLayout | src/engine_io_parser/engine_io_parser_impl.rs:9-18 | the frame is one byte longer than the data, with the type byte first and then the data |
| EngineIoParserImpl.UnframeErrors | src/engine_io_parser/engine_io_parser_impl.rs:20-24 | empty input fails with `EmptyPacket`, a first byte above 6 with `InvalidPacketType` of it; it succeeds exactly otherwise |
| EngineIoParserImpl.UnframeFields | src/engine_io_parser/engine_io_parser_impl.rs:24-30 | on success the type comes from byte 0 and the data are the remaining bytes |
| EngineIoParserImpl.DecodeEncode | src/engine_io_parser/engine_io_parser_impl.rs:9-31 | `decode(encode(p)) == Ok(p)` |
| EngineIoParserImpl.EncodeDecode | src/engine_io_parser/engine_io_parser_impl.rs:9-31 | `encode(decode(b)) == b` whenever the decode succeeds |
| EngineIoParserImpl.Examples | src/engine_io_parser/engine_io_parser_impl.rs:40-55 | [0,1,2,3] is Open with [1,2,3], both ways, and likewise for Message |
| DataPacket.Into | src/data/mod.rs:18-22 | the `data` copy's `into u8` is the same as `engine_io_parser`'s |
| DataPacket.TryFrom | src/data/mod.rs:24-39 | the `data` copy's `try_from`: `Ok` exactly on 0..6, else `InvalidPacketType` of the byte |
| DataPacket.NewPacket | src/data/mod.rs:47-51 | stores its fields unchanged |
| ParserImpl.EncodePacket | src/parser/parser_impl.rs:9-18 | the push loop builds the type byte followed by the data |
| ParserImpl.DecodePacket | src/parser/parser_impl.rs:20-31 | the copy loop: `EmptyPacket`, `InvalidPacketType`, or the type and the remaining bytes |

## Left out

- serde_json is not modelled: `to_string` and `from_str` are the parameters `show` and `parse`, and the JSON round-trip `RoundTrip` needs is a precondition (`PayloadRoundTrips`).
- `EncodeError` and the `SocketIoPacketCodecMono` wrapper (src/socket_io_packet_codec/mod.rs) are left out: writing into a `String` cannot fail, and the wrapper only forwards.
- `&data[idx..]` slices by bytes with a char index, which misplaces or panics on a non-ASCII prefix. The model slices the char sequence, so it agrees with the source only when the type, namespace and id prefix is ASCII.
- The actix and actix-web plumbing is outside the model: `Addr`, `do_send`, the context's `text`/`ping`/`pong`/`stop`, `run_interval`, `ws::start`, the HTTP bootstrap, and the `RwLock` around the registry (with its poisoning). Handles are a type parameter, a send is a `Delivery` value, and frames are a sequence field.
- How often `Tick` fires (`HEARTBEAT_INTERVAL`) is up to the scheduler; the constant is stated, the schedule is not modelled.
- UUID generation (src/random_id_generator/mod.rs) is a foreign call: the id is a constructor argument.
- `HashMap` and `HashSet` iteration order is not modelled. Queries return sets; `RoomTable.ListOf` states what collecting one into a `Vec` keeps.
- The crate does not compile as written in three places. Each file is modelled as written:
  - `SocketMessage` has only `content` (src/socket_io_websocket/socket_message.rs), but `Namespace` and the websocket use an `event_name`. The model gives it both fields.
  - `IoAdaptor::emit_to_all` takes one argument, but the websocket's Text handler passes `"hello"` and the text.
  - `SocketIoWebsocket::new` takes two arguments, but the server passes one.
- SocketIoWebsockets.SocketIoWebsocket.HandleStream: a Text frame is broadcast as the bare text, because `IoAdaptor::emit_to_all` takes one argument. The `"hello"` event name the handler also passes is dropped.
- SocketIoWebsockets.SocketIoWebsocket.Tick: requires that the heartbeat is running and the actor has not stopped, because actix fires the interval only then.
- Namespaces.Namespace.EmitToRooms, Namespaces.Namespace.EmitTo, IoAdaptors.IoAdaptor.EmitToRooms: require that every resolved socket has a handle. The source's `unwrap` panics otherwise, and the panic is not modelled.
- Namespaces.Namespace.EmitToAll, IoAdaptors.IoAdaptor.EmitToAll, SocketIoWebsockets.SocketIoWebsocket.HandleStream: require that every room member has a handle (`Registered`). `AddSocket`, `LeaveRoom` and `RemoveSocket` keep it; `JoinRoom` keeps it only for a registered socket.
- SocketIoWebsockets.SocketIoWebsocket.Started, SocketIoWebsockets.SocketIoWebsocket.Stopped, SocketIoWebsockets.SocketIoWebsocket.HandleStream: require that the adaptor they `unwrap` exists. For `HandleStream` that is the "/" adaptor, needed for a Text frame. The source panics when the adaptor is missing, and the panic is not modelled.
- No code path in the crate ever creates a namespace. src/socket_io/socket_io_server.rs and src/socket_io_websocket/app_state.rs build an empty `NamespaceManager::new()`, and the `create_namespace("/")` in src/bin/main.rs is commented out. So every `unwrap` of an adaptor panics unless a caller first creates "/" (or the connection's namespace). The model states what happens once those adaptors exist.
- The two decoders' loops are methods of their own: `ScanNamespace`, `ScanAckId` and `DecodeAfterNamespace`. The draft reuses the codec's `ScanNamespace`, because its namespace loop is the same code.
- `get_adaptor_mut` is the same lookup as `get_adaptor` and is modelled by `NamespaceManager.GetAdaptor`. The adaptor it returns is a reference that callers mutate.
- Namespace names are not validated, and creating an existing namespace is not an error. The source does neither, so the model does neither.
- `crate::data::errors` is not part of this model. It is taken to have the variants of src/engine_io_parser/errors.rs.
- The draft decode never returns once it hangs. In the source, `id_builder` keeps growing until allocation fails; the model stops at the outcome `Hangs`.

## Findings

| source | as written | input that shows it | evidently intended | confidence | as-written member | corrected member |
|---|---|---|---|---|---|---|
| src/socket_io_parser/socket_io_parser_impl.rs:83-98 | on a digit the ack-id loop does `idx -= 1` and keeps looping, so it revisits the same index forever | "0100" (any digit after the first id digit) | the maximal digit run is the ack id, and the loop breaks on the first non-digit, as `default_packet_codec.rs` later does | high (not executed) | SocketIoParserImpl.DecodeSpins | DefaultPacketCodec.DecodedAckId |
| src/socket_io_parser/socket_io_parser_impl.rs:74-116 | a packet with a payload is never decoded: with no id the empty `id_builder` fails to parse, and with an id the loop hangs or pushes the payload into the id text | "2[\"hello\"]" | the remainder after the id goes to the JSON parser, and decode inverts encode | high (not executed) | SocketIoParserImpl.NoPayloadDecodes | DefaultPacketCodec.RoundTrip |
| src/socket_io_websocket/socket_io_websocket_impl.rs:118-128 | `started` registers the socket in the adaptor of `self.namespace`, but `stopped` removes it from the "/" adaptor only | a connection on "/chat" that starts and then stops: its handle and its own room stay in "/chat" | a stopped connection is removed from the namespace it was registered in | high (not executed) | SocketIoWebsockets.SocketIoWebsocket.StartThenStopLeaks | SocketIoWebsockets.SocketIoWebsocket.StartThenStopInOwnNamespace |
