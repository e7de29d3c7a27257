/**
 * The shapes declared in the gateway's type file: an inbound command, a room
 * of the registry, and the validator's verdict.
 */
module Types {
  import opened Js
  import opened Sockets

  datatype Option<T> = None | Some(value: T)

  /** The four command tags a `Message` may carry. */
  datatype Tag = Create | Join | Chat | Leave

  /** The string by which each tag is spelled on the wire. */
  function TagName(t: Tag): string {
    match t
    case Create => "create"
    case Join => "join"
    case Chat => "chat"
    case Leave => "leave"
  }

  /** The tag a parsed `type` property names, if it is exactly one of the four strings. */
  function TagOf(p: Prop): (t: Option<Tag>)
    ensures t.Some? ==> p == Val(JStr(TagName(t.value)))
    ensures forall tag :: p == Val(JStr(TagName(tag))) ==> t == Some(tag)
  {
    if p == Val(JStr("create")) then Some(Create)
    else if p == Val(JStr("join")) then Some(Join)
    else if p == Val(JStr("chat")) then Some(Chat)
    else if p == Val(JStr("leave")) then Some(Leave)
    else None
  }

  /**
   * A command payload. `roomId` is the validated string; `message` and
   * `senderName` are kept as parsed, since the validator checks `message`
   * only for `chat` and never checks `senderName`.
   */
  datatype Payload = Payload(roomId: string, message: Prop, senderName: Prop)

  datatype Message = Message(kind: Tag, payload: Payload)

  /** One member of a room: the name given on `create`/`join` and its connection. */
  datatype Entry = Entry(name: Json, socket: SocketId)

  /** A room of the registry: its id and its members in insertion order. */
  datatype Room = Room(id: string, sockets: seq<Entry>)

  /** The validator's verdict; `message` is the accepted command. */
  datatype ValidationResult = ValidationResult(isValid: bool, errMsg: string, message: Option<Message>)
}
