/**
 * The message an emit hands to a connection, and how the connection writes it out (the
 * `Handler<SocketMessage>` of src/socket_io_websocket/socket_io_websocket_impl.rs:49-57).
 * src/socket_io_websocket/socket_message.rs declares only `content`; the emitters in
 * namespace.rs and the handler also use `event_name`, so the model carries both.
 */
module SocketMessages {
  datatype SocketMessage = SocketMessage(eventName: string, content: string)

  /** `format!("{},{}", event_name, content)`: the event name, a comma, the content. */
  function Render(msg: SocketMessage): (text: string)
    ensures |text| == |msg.eventName| + 1 + |msg.content|
    ensures text[..|msg.eventName|] == msg.eventName
    ensures text[|msg.eventName|] == ','
    ensures text[|msg.eventName| + 1..] == msg.content
  {
    msg.eventName + "," + msg.content
  }

  /** An event name without commas is recovered from the text: it is everything before the first comma. */
  lemma RenderSplits(msg: SocketMessage, k: nat)
    requires forall i :: 0 <= i < |msg.eventName| ==> msg.eventName[i] != ','
    requires k < |Render(msg)| && Render(msg)[k] == ','
    ensures |msg.eventName| <= k
  {
  }
}
