/**
 * Model of src/socket_io_websocket/socket_io_websocket_impl.rs: one WebSocket connection.
 * Time is a parameter in nanoseconds (`Instant::now()` at the call); the frames the actor
 * writes to its context (`ctx.text`, `ctx.ping`, `ctx.pong`) are appended to `frames`, and
 * `ctx.stop()` sets `stopped`. The actix scheduler's calls become method calls: `Started`,
 * `Stopped`, one `Tick` per firing of the heartbeat interval, one `HandleStream` per
 * inbound WebSocket item, one `HandleSocketMessage` per message from an emit.
 */
module SocketIoWebsockets {
  import opened Wrappers
  import opened Bytes
  import opened RoomTable
  import opened Delivery
  import opened SocketMessages
  import opened IoAdaptors
  import opened NamespaceManagers

  /** `HEARTBEAT_INTERVAL`, 5 s: how often the actix interval fires `Tick`. */
  const HEARTBEAT_INTERVAL: nat := 5_000_000_000
  /** `CLIENT_TIMEOUT`, 10 s: the silence after which the connection is dropped. */
  const CLIENT_TIMEOUT: nat := 10_000_000_000

  /** `now.duration_since(earlier)`, which is zero when `earlier` is later than `now`. */
  function DurationSince(now: nat, earlier: nat): (d: nat)
    ensures now >= earlier ==> earlier + d == now
    ensures now < earlier ==> d == 0
  {
    if now >= earlier then now - earlier else 0
  }

  /** The heartbeat check: more than `CLIENT_TIMEOUT` since the last ping or pong. */
  predicate TimedOut(now: nat, hb: nat) {
    DurationSince(now, hb) > CLIENT_TIMEOUT
  }

  /** The items of `ws::Message` the stream handler matches on. */
  datatype WsMessage =
    | Text(text: string)
    | Binary(bytes: seq<Byte>)
    | Continuation
    | Ping(payload: seq<Byte>)
    | Pong(payload: seq<Byte>)
    | Close
    | Nop

  /** One item of the inbound stream: a message, or a protocol error. */
  datatype Inbound = Received(msg: WsMessage) | ProtocolError

  /** A frame the actor writes to the client. */
  datatype Frame = TextFrame(text: string) | PingFrame(payload: seq<Byte>) | PongFrame(payload: seq<Byte>)

  class SocketIoWebsocket<H> {
    /** The time the client was last heard from (ping or pong). */
    var hb: nat
    var stopped: bool
    /** Whether `hb(ctx)` has installed the heartbeat interval. */
    var heartbeatRunning: bool
    var frames: seq<Frame>
    const globalState: NamespaceManager<H>
    const id: string
    const namespace: string

    /** `SocketIoWebsocket::new(data, namespace)`: heard from at creation time; `id` is the generated UUID. */
    constructor(data: NamespaceManager<H>, namespace: string, id: string, now: nat)
      ensures hb == now && !stopped && !heartbeatRunning && frames == []
      ensures globalState == data && this.namespace == namespace && this.id == id
    {
      hb := now;
      stopped := false;
      heartbeatRunning := false;
      frames := [];
      globalState := data;
      this.namespace := namespace;
      this.id := id;
    }

    /** One firing of the heartbeat interval: stop after a timeout without pinging, else one empty ping. */
    method Tick(now: nat)
      requires heartbeatRunning && !stopped
      modifies this
      ensures hb == old(hb) && heartbeatRunning
      ensures TimedOut(now, hb) ==> stopped && frames == old(frames)
      ensures !TimedOut(now, hb) ==> !stopped && frames == old(frames) + [PingFrame([])]
    {
      if DurationSince(now, hb) > CLIENT_TIMEOUT {
        stopped := true;
        return;
      }
      frames := frames + [PingFrame([])];
    }

    /**
     * The stream handler. Ping refreshes `hb` and answers with a pong of the same payload; Pong
     * refreshes `hb`; Text goes to every socket in a room of the "/" adaptor (which must exist,
     * with a handle for each of them); anything else, protocol errors included, stops the actor.
     */
    method HandleStream(item: Inbound, now: nat) returns (sent: seq<Delivery<H, string>>)
      requires item.Received? && item.msg.Text? ==>
        "/" in globalState.nspAdaptorMap && globalState.nspAdaptorMap["/"].Registered()
      modifies this
      ensures item.Received? && item.msg.Ping? ==>
        hb == now && frames == old(frames) + [PongFrame(item.msg.payload)] && stopped == old(stopped)
      ensures item.Received? && item.msg.Pong? ==>
        hb == now && frames == old(frames) && stopped == old(stopped)
      ensures item.Received? && item.msg.Text? ==>
        var adaptor := globalState.nspAdaptorMap["/"];
        DeliversOnce(sent, Everyone(adaptor.chatRoomManager.State()), adaptor.socketIdManager.idSocketMap, item.msg.text) &&
        hb == old(hb) && frames == old(frames) && stopped == old(stopped)
      ensures !(item.Received? && (item.msg.Ping? || item.msg.Pong? || item.msg.Text?)) ==>
        stopped && hb == old(hb) && frames == old(frames) && sent == []
      ensures heartbeatRunning == old(heartbeatRunning)
    {
      sent := [];
      match item {
        case Received(Ping(msg)) =>
          hb := now;
          frames := frames + [PongFrame(msg)];
        case Received(Pong(_)) =>
          hb := now;
        case Received(Text(text)) =>
          var adaptor := globalState.GetAdaptor("/").value;
          sent := adaptor.EmitToAll(text);
        case Received(Binary(_)) =>
          stopped := true;
        case Received(Close) =>
          stopped := true;
        case _ =>
          stopped := true;
      }
    }

    /** The `SocketMessage` handler: write the event name, a comma and the content as one text frame. */
    method HandleSocketMessage(msg: SocketMessage)
      modifies this
      ensures frames == old(frames) + [TextFrame(Render(msg))]
      ensures hb == old(hb) && stopped == old(stopped) && heartbeatRunning == old(heartbeatRunning)
    {
      var content := msg.eventName + "," + msg.content;
      frames := frames + [TextFrame(content)];
    }

    /**
     * `started`: register this socket, with its own room, in the adaptor of `namespace` (which
     * must exist), then start the heartbeat. `address` is `ctx.address()`.
     */
    method Started(address: H)
      requires namespace in globalState.nspAdaptorMap
      modifies this, globalState.nspAdaptorMap[namespace].chatRoomManager, globalState.nspAdaptorMap[namespace].socketIdManager
      ensures var adaptor := globalState.nspAdaptorMap[namespace];
        adaptor.socketIdManager.idSocketMap == old(adaptor.socketIdManager.idSocketMap)[id := address] &&
        adaptor.chatRoomManager.State() == AddAll(old(adaptor.chatRoomManager.State()), id, [id]) &&
        (old(adaptor.Valid()) ==> adaptor.Valid()) &&
        (old(adaptor.Registered()) ==> adaptor.Registered())
      ensures heartbeatRunning
      ensures hb == old(hb) && stopped == old(stopped) && frames == old(frames)
    {
      var adaptor := globalState.GetAdaptor(namespace).value;
      adaptor.AddSocket(id, address);
      heartbeatRunning := true;
    }

    /**
     * `stopped`: remove this socket from the "/" adaptor (which must exist), whatever namespace
     * it was registered in; the adaptor of any other namespace is left as it is.
     */
    method Stopped()
      requires "/" in globalState.nspAdaptorMap
      modifies globalState.nspAdaptorMap["/"].chatRoomManager, globalState.nspAdaptorMap["/"].socketIdManager
      ensures var adaptor := globalState.nspAdaptorMap["/"];
        adaptor.socketIdManager.idSocketMap == old(adaptor.socketIdManager.idSocketMap) - {id} &&
        adaptor.chatRoomManager.State() == DeleteAll(old(adaptor.chatRoomManager.State()), id)
      ensures globalState.Separate() && namespace != "/" && namespace in globalState.nspAdaptorMap ==>
        unchanged(globalState.nspAdaptorMap[namespace].chatRoomManager, globalState.nspAdaptorMap[namespace].socketIdManager)
    {
      var adaptor := globalState.GetAdaptor("/").value;
      adaptor.RemoveSocket(id);
    }

    /**
     * The evidently intended `stopped`: remove this socket from the adaptor of its own
     * `namespace`, the one `Started` registered it in, so that it has no handle and is in no room there.
     */
    method StoppedInOwnNamespace()
      requires namespace in globalState.nspAdaptorMap
      modifies globalState.nspAdaptorMap[namespace].chatRoomManager, globalState.nspAdaptorMap[namespace].socketIdManager
      ensures var adaptor := globalState.nspAdaptorMap[namespace];
        adaptor.socketIdManager.idSocketMap == old(adaptor.socketIdManager.idSocketMap) - {id} &&
        adaptor.chatRoomManager.State() == DeleteAll(old(adaptor.chatRoomManager.State()), id) &&
        (old(adaptor.Valid()) ==> adaptor.Valid() && forall r :: id !in Members(adaptor.chatRoomManager.State(), r)) &&
        (old(adaptor.Valid() && adaptor.Registered()) ==> adaptor.Registered())
    {
      var adaptor := globalState.GetAdaptor(namespace).value;
      adaptor.RemoveSocket(id);
    }

    /**
     * A connection on a namespace other than "/" that starts and then stops as written: afterwards
     * it still has its handle and its own room in that namespace.
     */
    method StartThenStopLeaks(address: H)
      requires namespace != "/" && namespace in globalState.nspAdaptorMap && "/" in globalState.nspAdaptorMap
      requires globalState.Separate()
      modifies this
      modifies globalState.nspAdaptorMap[namespace].chatRoomManager, globalState.nspAdaptorMap[namespace].socketIdManager
      modifies globalState.nspAdaptorMap["/"].chatRoomManager, globalState.nspAdaptorMap["/"].socketIdManager
      ensures var adaptor := globalState.nspAdaptorMap[namespace];
        id in adaptor.socketIdManager.idSocketMap && id in Members(adaptor.chatRoomManager.State(), id)
    {
      ghost var before := globalState.nspAdaptorMap[namespace].chatRoomManager.State();
      Started(address);
      AddJoins(before, id, id);
      Stopped();
    }

    /** The same start and stop with the corrected `stopped`: nothing of the socket is left in its namespace. */
    method StartThenStopInOwnNamespace(address: H)
      requires namespace in globalState.nspAdaptorMap && globalState.nspAdaptorMap[namespace].Valid()
      modifies this
      modifies globalState.nspAdaptorMap[namespace].chatRoomManager, globalState.nspAdaptorMap[namespace].socketIdManager
      ensures var adaptor := globalState.nspAdaptorMap[namespace];
        id !in adaptor.socketIdManager.idSocketMap && adaptor.Valid() &&
        forall r :: id !in Members(adaptor.chatRoomManager.State(), r)
    {
      Started(address);
      StoppedInOwnNamespace();
    }
  }
}
