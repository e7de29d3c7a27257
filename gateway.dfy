/**
 * The chat gateway: a process-wide registry of rooms, keyed by room id, and
 * the two handlers every client connection runs, one per inbound frame and
 * one on disconnect. Each handler runs to completion as one step; the frames
 * it would send are appended to an outbox instead.
 */
module Gateway {
  import opened Js
  import opened Sockets
  import opened Types
  import opened Validation

  const UsernameNotDefined := "Username is not defined"
  const ServerErrorOccurred := "Server error occurred"

  /** An outbound frame: `{type: "chat", message, senderName}` or `{type: "error", message}`. */
  datatype Frame = ChatFrame(message: Prop, senderName: Prop) | ErrorFrame(reason: string)

  /** A frame handed to `send` on one connection. */
  datatype Sent = Sent(to: SocketId, frame: Frame)

  /** The `users` record: room id to room. */
  type Registry = map<string, Room>

  /**
   * The names a plain JavaScript object inherits from `Object.prototype`.
   * `users[k]` is a function or an object for these, hence never falsy,
   * although the registry has no such room.
   */
  const ObjectPrototypeKeys: set<string> :=
    {"constructor", "__proto__", "toString", "toLocaleString", "valueOf", "hasOwnProperty",
     "isPrototypeOf", "propertyIsEnumerable", "__defineGetter__", "__defineSetter__",
     "__lookupGetter__", "__lookupSetter__"}

  /** Whether looking `roomId` up in the `users` object gives a truthy value. */
  predicate Occupied(users: Registry, roomId: string) {
    roomId in users || roomId in ObjectPrototypeKeys
  }

  /** Every room is filed under its own id, and no inherited name is ever an own key. */
  ghost predicate WellKeyed(users: Registry) {
    && (forall k | k in users :: users[k].id == k)
    && users.Keys !! ObjectPrototypeKeys
  }

  /** No room of the registry is empty. */
  ghost predicate NoEmptyRooms(users: Registry) {
    forall k | k in users :: users[k].sockets != []
  }

  /** The frame the handler's `catch` sends back for what was thrown. */
  function ErrorReply(ws: SocketId, t: Thrown): Sent {
    Sent(ws, ErrorFrame(CaughtText(t, ServerErrorOccurred)))
  }

  /** The entries of a room whose socket is not `ws`, in their order. */
  function Without(entries: seq<Entry>, ws: SocketId): seq<Entry> {
    if entries == [] then []
    else (if entries[0].socket != ws then [entries[0]] else []) + Without(entries[1..], ws)
  }

  /** A room with every entry of `ws` removed. */
  function Cleaned(room: Room, ws: SocketId): Room {
    room.(sockets := Without(room.sockets, ws))
  }

  /** The frames the chat `forEach` sends, entry by entry, skipping the sender. */
  function ChatDeliveries(entries: seq<Entry>, sender: SocketId, frame: Frame): seq<Sent> {
    if entries == [] then []
    else
      var last := entries[|entries| - 1];
      ChatDeliveries(entries[..|entries| - 1], sender, frame)
        + (if last.socket != sender then [Sent(last.socket, frame)] else [])
  }

  /** The sockets listed in a room. */
  function SocketsOf(entries: seq<Entry>): set<SocketId> {
    set e | e in entries :: e.socket
  }

  /** The effect of one handler call: the new registry and the frames sent. */
  datatype Step = Step(users: Registry, sent: seq<Sent>)

  /**
   * `create` and `join`: make the room if `users[roomId]` is falsy, then
   * throw if the name is falsy, then push the new entry (which throws for an
   * inherited key, whose `sockets` is undefined).
   */
  function Enter(users: Registry, ws: SocketId, payload: Payload, engine: Engine): Step {
    var roomId := payload.roomId;
    var made := if Occupied(users, roomId) then users else users[roomId := Room(roomId, [])];
    if !Truthy(payload.senderName) then
      Step(made, [ErrorReply(ws, JsError(UsernameNotDefined))])
    else if roomId !in made then
      Step(made, [ErrorReply(ws, JsError(engine.typeErrorText(PushOfUndefined)))])
    else
      var room := made[roomId];
      Step(made[roomId := room.(sockets := room.sockets + [Entry(payload.senderName.value, ws)])], [])
  }

  /** `chat`: relay the payload's message and sender name to every other entry of the room. */
  function Broadcast(users: Registry, ws: SocketId, payload: Payload, engine: Engine): Step {
    var roomId := payload.roomId;
    if roomId in users then
      Step(users, ChatDeliveries(users[roomId].sockets, ws, ChatFrame(payload.message, payload.senderName)))
    else if roomId in ObjectPrototypeKeys then
      Step(users, [ErrorReply(ws, JsError(engine.typeErrorText(ForEachOfUndefined)))])
    else
      Step(users, [ErrorReply(ws, JsError(engine.typeErrorText(SocketsOfUndefined)))])
  }

  /** The dispatch on a validated command; `leave` has no branch. */
  function Dispatch(users: Registry, ws: SocketId, m: Message, engine: Engine): Step {
    match m.kind
    case Create => Enter(users, ws, m.payload, engine)
    case Join => Enter(users, ws, m.payload, engine)
    case Chat => Broadcast(users, ws, m.payload, engine)
    case Leave => Step(users, [])
  }

  /** The `message` handler: validate, reply with an error frame on rejection, else dispatch. */
  function Handle(users: Registry, ws: SocketId, input: ParseOutcome, engine: Engine): Step {
    var validate := Validate(input, engine);
    if !validate.isValid then Step(users, [Sent(ws, ErrorFrame(validate.errMsg))])
    else Dispatch(users, ws, validate.message.value, engine)
  }

  /** The `close` handler: filter `ws` out of every room, then drop the rooms left empty. */
  function CloseRegistry(users: Registry, ws: SocketId): Registry {
    map k | k in users && Without(users[k].sockets, ws) != [] :: Cleaned(users[k], ws)
  }

  /** The gateway process: the registry, and every frame sent so far. */
  class Server {
    var users: Registry
    var outbox: seq<Sent>

    ghost predicate Valid()
      reads this
    {
      WellKeyed(users)
    }

    constructor ()
      ensures Valid() && users == map[] && outbox == []
    {
      users := map[];
      outbox := [];
    }

    /** The `message` callback of connection `ws`. */
    method OnMessage(ws: SocketId, input: ParseOutcome, engine: Engine)
      requires Valid()
      modifies this
      ensures Valid()
      ensures users == Handle(old(users), ws, input, engine).users
      ensures outbox == old(outbox) + Handle(old(users), ws, input, engine).sent
    {
      HandleKeepsWellKeyed(users, ws, input, engine);
      var validate := Validate(input, engine);
      if !validate.isValid {
        outbox := outbox + [Sent(ws, ErrorFrame(validate.errMsg))];
        return;
      }
      var m := validate.message.value;
      var roomId := m.payload.roomId;
      if m.kind == Create || m.kind == Join {
        if !Occupied(users, roomId) {
          users := users[roomId := Room(roomId, [])];
        }
        if !Truthy(m.payload.senderName) {
          outbox := outbox + [ErrorReply(ws, JsError(UsernameNotDefined))];
        } else if roomId !in users {
          outbox := outbox + [ErrorReply(ws, JsError(engine.typeErrorText(PushOfUndefined)))];
        } else {
          var room := users[roomId];
          users := users[roomId := room.(sockets := room.sockets + [Entry(m.payload.senderName.value, ws)])];
        }
      } else if m.kind == Chat {
        if roomId !in users {
          var site := if roomId in ObjectPrototypeKeys then ForEachOfUndefined else SocketsOfUndefined;
          outbox := outbox + [ErrorReply(ws, JsError(engine.typeErrorText(site)))];
        } else {
          var entries := users[roomId].sockets;
          var frame := ChatFrame(m.payload.message, m.payload.senderName);
          var i := 0;
          while i < |entries|
            invariant 0 <= i <= |entries|
            invariant users == old(users)
            invariant outbox == old(outbox) + ChatDeliveries(entries[..i], ws, frame)
          {
            if entries[i].socket != ws {
              outbox := outbox + [Sent(entries[i].socket, frame)];
            }
            assert entries[..i + 1][..i] == entries[..i];
            i := i + 1;
          }
          assert entries[..i] == entries;
        }
      }
    }

    /** The `close` callback of connection `ws`: one pass over the room ids, in any order. */
    method OnClose(ws: SocketId)
      requires Valid()
      modifies this
      ensures Valid()
      ensures users == CloseRegistry(old(users), ws)
      ensures outbox == old(outbox)
    {
      var pending := users.Keys;
      while pending != {}
        invariant pending <= old(users).Keys
        invariant users.Keys <= old(users).Keys
        invariant forall k | k in pending :: k in users && users[k] == old(users)[k]
        invariant forall k | k in old(users) && k !in pending ::
            (k in users <==> Without(old(users)[k].sockets, ws) != [])
            && (k in users ==> users[k] == Cleaned(old(users)[k], ws))
        invariant outbox == old(outbox)
        decreases pending
      {
        var roomId :| roomId in pending;
        users := users[roomId := Cleaned(users[roomId], ws)];
        if |users[roomId].sockets| == 0 {
          users := users - {roomId};
        }
        pending := pending - {roomId};
      }
      assert users.Keys == CloseRegistry(old(users), ws).Keys;
    }
  }

  // ---------- Properties of filtering and chat fan-out ----------

  /** The filter keeps exactly the entries of other sockets. */
  lemma {:induction false} WithoutMembers(entries: seq<Entry>, ws: SocketId, e: Entry)
    ensures e in Without(entries, ws) <==> e in entries && e.socket != ws
  {
    if entries != [] {
      WithoutMembers(entries[1..], ws, e);
      assert entries == [entries[0]] + entries[1..];
    }
  }

  /** The filter distributes over concatenation, so the kept entries keep their relative order. */
  lemma {:induction false} WithoutAppend(a: seq<Entry>, b: seq<Entry>, ws: SocketId)
    ensures Without(a + b, ws) == Without(a, ws) + Without(b, ws)
  {
    if a != [] {
      assert (a + b)[0] == a[0] && (a + b)[1..] == a[1..] + b;
      WithoutAppend(a[1..], b, ws);
    } else {
      assert a + b == b;
    }
  }

  /** A room with no entry of `ws` is left as it is. */
  lemma {:induction false} WithoutAbsent(entries: seq<Entry>, ws: SocketId)
    requires forall i | 0 <= i < |entries| :: entries[i].socket != ws
    ensures Without(entries, ws) == entries
  {
    if entries != [] {
      WithoutAbsent(entries[1..], ws);
    }
  }

  /** The filter removes every copy of each entry of `ws` and keeps every copy of the others. */
  lemma {:induction false} WithoutCounts(entries: seq<Entry>, ws: SocketId, e: Entry)
    ensures multiset(Without(entries, ws))[e] == if e.socket == ws then 0 else multiset(entries)[e]
  {
    if entries != [] {
      WithoutCounts(entries[1..], ws, e);
      assert entries == [entries[0]] + entries[1..];
    }
  }

  /**
   * The chat loop sends one frame per entry of another socket, in room
   * order: the i-th frame goes to the i-th entry that is kept by the filter.
   */
  lemma {:induction false} ChatDeliveriesFollowMembers(entries: seq<Entry>, sender: SocketId, frame: Frame)
    ensures |ChatDeliveries(entries, sender, frame)| == |Without(entries, sender)|
    ensures forall i | 0 <= i < |ChatDeliveries(entries, sender, frame)| ::
      ChatDeliveries(entries, sender, frame)[i] == Sent(Without(entries, sender)[i].socket, frame)
  {
    if entries != [] {
      var n := |entries| - 1;
      ChatDeliveriesFollowMembers(entries[..n], sender, frame);
      assert entries == entries[..n] + [entries[n]];
      WithoutAppend(entries[..n], [entries[n]], sender);
    }
  }

  /** A socket gets a chat frame exactly when it is listed in the room and is not the sender. */
  lemma ChatRecipients(entries: seq<Entry>, sender: SocketId, frame: Frame, x: SocketId, f: Frame)
    ensures Sent(x, f) in ChatDeliveries(entries, sender, frame) <==> f == frame && x != sender && x in SocketsOf(entries)
  {
    ChatDeliveriesFollowMembers(entries, sender, frame);
    var out := ChatDeliveries(entries, sender, frame);
    var kept := Without(entries, sender);
    if Sent(x, f) in out {
      var i :| 0 <= i < |out| && out[i] == Sent(x, f);
      assert kept[i] in kept;
      WithoutMembers(entries, sender, kept[i]);
    }
    if f == frame && x != sender && x in SocketsOf(entries) {
      var e :| e in entries && e.socket == x;
      WithoutMembers(entries, sender, e);
      var i :| 0 <= i < |kept| && kept[i] == e;
      assert out[i] == Sent(x, f);
    }
  }

  // ---------- Properties of the message handler ----------

  /** A rejected frame gets exactly one error frame, to its sender only, and the registry stays. */
  lemma RejectionRepliesToSenderOnly(users: Registry, ws: SocketId, input: ParseOutcome, engine: Engine)
    requires !Validate(input, engine).isValid
    ensures Handle(users, ws, input, engine) == Step(users, [Sent(ws, ErrorFrame(Validate(input, engine).errMsg))])
  {
  }

  /** `create` and `join` have the same effect. */
  lemma CreateIsJoin(users: Registry, ws: SocketId, payload: Payload, engine: Engine)
    ensures Dispatch(users, ws, Message(Create, payload), engine) == Dispatch(users, ws, Message(Join, payload), engine)
  {
  }

  /**
   * A named `create`/`join` appends one entry at the end of its room, making
   * the room first if it is unknown; nothing else changes and nothing is sent.
   */
  lemma EnterAppends(users: Registry, ws: SocketId, payload: Payload, engine: Engine)
    requires WellKeyed(users)
    requires payload.roomId !in ObjectPrototypeKeys && Truthy(payload.senderName)
    ensures var s := Enter(users, ws, payload, engine);
      var before := if payload.roomId in users then users[payload.roomId].sockets else [];
      && s.sent == []
      && s.users.Keys == users.Keys + {payload.roomId}
      && s.users[payload.roomId] == Room(payload.roomId, before + [Entry(payload.senderName.value, ws)])
      && (forall k | k in users && k != payload.roomId :: s.users[k] == users[k])
  {
  }

  /**
   * A `create`/`join` without a name is refused with "Username is not
   * defined", adds no entry, yet leaves behind the room it made.
   */
  lemma EnterWithoutName(users: Registry, ws: SocketId, payload: Payload, engine: Engine)
    requires !Truthy(payload.senderName)
    ensures var s := Enter(users, ws, payload, engine);
      && s.sent == [Sent(ws, ErrorFrame(UsernameNotDefined))]
      && s.users == if Occupied(users, payload.roomId) then users else users[payload.roomId := Room(payload.roomId, [])]
  {
  }

  /**
   * A named `create`/`join` on a name inherited from `Object.prototype`
   * throws when it reads `push` off the missing `sockets`.
   */
  lemma EnterInheritedKey(users: Registry, ws: SocketId, payload: Payload, engine: Engine)
    requires WellKeyed(users)
    requires payload.roomId in ObjectPrototypeKeys && Truthy(payload.senderName)
    ensures Enter(users, ws, payload, engine) == Step(users, [Sent(ws, ErrorFrame(engine.typeErrorText(PushOfUndefined)))])
  {
  }

  /**
   * A `chat` to a known room sends the payload's message and sender name
   * once to each entry of another socket, in room order, nothing to the
   * sender, and leaves the registry as it was.
   */
  lemma ChatToKnownRoom(users: Registry, ws: SocketId, payload: Payload, engine: Engine)
    requires payload.roomId in users
    ensures var s := Broadcast(users, ws, payload, engine);
      var kept := Without(users[payload.roomId].sockets, ws);
      && s.users == users
      && |s.sent| == |kept|
      && (forall i | 0 <= i < |s.sent| ::
            s.sent[i] == Sent(kept[i].socket, ChatFrame(payload.message, payload.senderName)) && s.sent[i].to != ws)
  {
    var kept := Without(users[payload.roomId].sockets, ws);
    ChatDeliveriesFollowMembers(users[payload.roomId].sockets, ws, ChatFrame(payload.message, payload.senderName));
    forall i | 0 <= i < |kept| ensures kept[i].socket != ws {
      assert kept[i] in kept;
      WithoutMembers(users[payload.roomId].sockets, ws, kept[i]);
    }
  }

  /** A `chat` to a room that is not there throws; the sender gets one error frame and nothing is broadcast. */
  lemma ChatToUnknownRoom(users: Registry, ws: SocketId, payload: Payload, engine: Engine)
    requires payload.roomId !in users
    ensures var s := Broadcast(users, ws, payload, engine);
      var site := if payload.roomId in ObjectPrototypeKeys then ForEachOfUndefined else SocketsOfUndefined;
      s == Step(users, [Sent(ws, ErrorFrame(engine.typeErrorText(site)))])
  {
  }

  /** Chat frames reach only members of the addressed room; members of other rooms get nothing. */
  lemma ChatStaysInRoom(users: Registry, ws: SocketId, payload: Payload, engine: Engine, x: SocketId)
    requires x != ws && x !in SocketsOf(if payload.roomId in users then users[payload.roomId].sockets else [])
    ensures forall sent | sent in Broadcast(users, ws, payload, engine).sent :: sent.to != x
  {
    if payload.roomId in users {
      var frame := ChatFrame(payload.message, payload.senderName);
      forall sent | sent in Broadcast(users, ws, payload, engine).sent ensures sent.to != x {
        ChatRecipients(users[payload.roomId].sockets, ws, frame, sent.to, sent.frame);
      }
    }
  }

  /** `leave` has no handler: nothing changes and nothing is sent. */
  lemma LeaveDoesNothing(users: Registry, ws: SocketId, payload: Payload, engine: Engine)
    ensures Dispatch(users, ws, Message(Leave, payload), engine) == Step(users, [])
  {
  }

  /** Every message keeps each room under its own id and no inherited name as a key. */
  lemma HandleKeepsWellKeyed(users: Registry, ws: SocketId, input: ParseOutcome, engine: Engine)
    requires WellKeyed(users)
    ensures WellKeyed(Handle(users, ws, input, engine).users)
  {
  }

  /**
   * A room with no members is expected not to exist, yet one nameless `join`
   * to an unknown room leaves an empty room in the registry.
   */
  lemma NamelessJoinLeavesEmptyRoom(ws: SocketId, roomId: string, engine: Engine)
    requires roomId !in ObjectPrototypeKeys
    ensures var s := Enter(map[], ws, Payload(roomId, Undefined, Undefined), engine);
      s.users == map[roomId := Room(roomId, [])] && !NoEmptyRooms(s.users)
  {
  }

  // ---------- Properties of the close handler ----------

  /**
   * After `close`, no room lists `ws`, no room is empty (rooms that were
   * empty before are dropped too), a room survives exactly when it held an
   * entry of another socket, and each survivor is its old room filtered:
   * the other sockets' entries, in their order.
   */
  lemma CloseCleansRegistry(users: Registry, ws: SocketId)
    requires WellKeyed(users)
    ensures var after := CloseRegistry(users, ws);
      && WellKeyed(after)
      && NoEmptyRooms(after)
      && (forall k | k in after :: ws !in SocketsOf(after[k].sockets))
      && (forall k :: k in after <==> k in users && exists e | e in users[k].sockets :: e.socket != ws)
      && (forall k, e | k in after :: e in after[k].sockets <==> e in users[k].sockets && e.socket != ws)
      && (forall k | k in after :: after[k].sockets == Without(users[k].sockets, ws))
  {
    var after := CloseRegistry(users, ws);
    forall k, e | k in users
      ensures e in Without(users[k].sockets, ws) <==> e in users[k].sockets && e.socket != ws
    {
      WithoutMembers(users[k].sockets, ws, e);
    }
    forall k | k in users && (exists e | e in users[k].sockets :: e.socket != ws)
      ensures Without(users[k].sockets, ws) != []
    {
      var e :| e in users[k].sockets && e.socket != ws;
      assert e in Without(users[k].sockets, ws);
    }
    forall k | k in after
      ensures exists e | e in users[k].sockets :: e.socket != ws
    {
      var kept := Without(users[k].sockets, ws);
      assert kept[0] in kept;
      WithoutMembers(users[k].sockets, ws, kept[0]);
    }
  }

  /** Once its last member disconnects a room is gone, and a later `join` of the same id starts it afresh. */
  lemma RejoinStartsFresh(users: Registry, ws: SocketId, ws2: SocketId, payload: Payload, engine: Engine)
    requires WellKeyed(users)
    requires payload.roomId in users && payload.roomId !in ObjectPrototypeKeys && Truthy(payload.senderName)
    requires forall e | e in users[payload.roomId].sockets :: e.socket == ws
    ensures payload.roomId !in CloseRegistry(users, ws)
    ensures Enter(CloseRegistry(users, ws), ws2, payload, engine).users[payload.roomId]
         == Room(payload.roomId, [Entry(payload.senderName.value, ws2)])
  {
    CloseCleansRegistry(users, ws);
  }
}
