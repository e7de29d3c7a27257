/**
 * Whole conversations with the gateway and the relayer, run through the
 * handler functions step by step on concrete frames.
 */
module Scenarios {
  import opened Js
  import opened Sockets
  import opened Types
  import opened Validation
  import opened Gateway
  import Relayer

  /** `{"type": "join", "payload": {"roomId": room, "senderName": name}}`, parsed. */
  function JoinText(room: string, name: string): ParseOutcome {
    Parsed(JObj(map["type" := JStr("join"), "payload" := JObj(map["roomId" := JStr(room), "senderName" := JStr(name)])]))
  }

  /** `{"type": "chat", "payload": {"roomId": room, "message": text, "senderName": name}}`, parsed. */
  function ChatText(room: string, text: string, name: string): ParseOutcome {
    Parsed(JObj(map["type" := JStr("chat"),
                    "payload" := JObj(map["roomId" := JStr(room), "message" := JStr(text), "senderName" := JStr(name)])]))
  }

  /** A named join frame is accepted as the command it spells. */
  lemma JoinTextIsAccepted(room: string, name: string, engine: Engine)
    requires room != ""
    ensures Validate(JoinText(room, name), engine)
         == ValidationResult(true, NoErrors, Some(Message(Join, Payload(room, Undefined, Val(JStr(name))))))
  {
    SenderNameIsNeverChecked(Join, room, JStr(name), engine);
  }

  /** A chat frame with a non-empty text is accepted as the command it spells. */
  lemma ChatTextIsAccepted(room: string, text: string, name: string, engine: Engine)
    requires room != "" && text != ""
    ensures Validate(ChatText(room, text, name), engine)
         == ValidationResult(true, NoErrors, Some(Message(Chat, Payload(room, Val(JStr(text)), Val(JStr(name))))))
  {
    var payload := JObj(map["roomId" := JStr(room), "message" := JStr(text), "senderName" := JStr(name)]);
    var v := JObj(map["type" := JStr("chat"), "payload" := payload]);
    assert Get(v, "type") == Val(JStr("chat"));
    assert Get(v, "payload") == Val(payload);
    assert Get(payload, "roomId") == Val(JStr(room));
    assert Get(payload, "message") == Val(JStr(text));
    assert Get(payload, "senderName") == Val(JStr(name));
  }

  /** "R1" is not a name inherited from `Object.prototype`. */
  lemma RoomR1IsOwnKey()
    ensures "R1" !in ObjectPrototypeKeys
  {
    assert |"R1"| == 2;
    assert "R1" != "__proto__" && "R1" != "valueOf";
  }

  /** A named join to "R1" appends its entry to that room, made if needed, and sends nothing. */
  lemma JoinR1(users: Registry, ws: SocketId, name: string, engine: Engine)
    requires WellKeyed(users) && name != ""
    ensures var before := if "R1" in users then users["R1"].sockets else [];
      Handle(users, ws, JoinText("R1", name), engine)
        == Step(users["R1" := Room("R1", before + [Entry(JStr(name), ws)])], [])
  {
    JoinTextIsAccepted("R1", name, engine);
    RoomR1IsOwnKey();
    var payload := Payload("R1", Undefined, Val(JStr(name)));
    EnterAppends(users, ws, payload, engine);
    var before := if "R1" in users then users["R1"].sockets else [];
    var s := Enter(users, ws, payload, engine);
    assert s.users == users["R1" := Room("R1", before + [Entry(JStr(name), ws)])];
  }

  /** A and B join "R1"; A says "hi"; B gets `{type: "chat", message: "hi", senderName: "A"}`, A gets nothing. */
  lemma PeerReceivesChat(a: SocketId, b: SocketId, engine: Engine)
    requires a != b
    ensures var s1 := Handle(map[], a, JoinText("R1", "A"), engine);
      var s2 := Handle(s1.users, b, JoinText("R1", "B"), engine);
      var s3 := Handle(s2.users, a, ChatText("R1", "hi", "A"), engine);
      && s1.sent == [] && s2.sent == []
      && s3.sent == [Sent(b, ChatFrame(Val(JStr("hi")), Val(JStr("A"))))]
  {
    JoinR1(map[], a, "A", engine);
    var s1users := map["R1" := Room("R1", [Entry(JStr("A"), a)])];
    assert [] + [Entry(JStr("A"), a)] == [Entry(JStr("A"), a)];
    JoinR1(s1users, b, "B", engine);
    var s2users := map["R1" := Room("R1", [Entry(JStr("A"), a), Entry(JStr("B"), b)])];
    assert [Entry(JStr("A"), a)] + [Entry(JStr("B"), b)] == [Entry(JStr("A"), a), Entry(JStr("B"), b)];
    ChatTextIsAccepted("R1", "hi", "A", engine);
    var entries := s2users["R1"].sockets;
    var frame := ChatFrame(Val(JStr("hi")), Val(JStr("A")));
    assert entries[..1] == [Entry(JStr("A"), a)] && entries[..1][..0] == [];
    assert ChatDeliveries(entries[..1], a, frame) == [];
    assert ChatDeliveries(entries, a, frame) == [Sent(b, frame)];
  }

  /** A joins "R1" and disconnects; B then joins "R1" and chats: no error, and B is the room's only member. */
  lemma RejoinAfterDisconnect(a: SocketId, b: SocketId, engine: Engine)
    requires a != b
    ensures var s1 := Handle(map[], a, JoinText("R1", "A"), engine);
      var closed := CloseRegistry(s1.users, a);
      var s2 := Handle(closed, b, JoinText("R1", "B"), engine);
      var s3 := Handle(s2.users, b, ChatText("R1", "hello", "B"), engine);
      && closed == map[]
      && s2.sent == [] && s3.sent == []
      && s3.users == map["R1" := Room("R1", [Entry(JStr("B"), b)])]
  {
    JoinR1(map[], a, "A", engine);
    var s1users := map["R1" := Room("R1", [Entry(JStr("A"), a)])];
    assert [] + [Entry(JStr("A"), a)] == [Entry(JStr("A"), a)];
    assert Without(s1users["R1"].sockets, a) == [];
    assert CloseRegistry(s1users, a) == map[];
    JoinR1(map[], b, "B", engine);
    assert [] + [Entry(JStr("B"), b)] == [Entry(JStr("B"), b)];
    ChatTextIsAccepted("R1", "hello", "B", engine);
    var entries := [Entry(JStr("B"), b)];
    assert entries[..0] == [];
    assert ChatDeliveries(entries, b, ChatFrame(Val(JStr("hello")), Val(JStr("B")))) == [];
  }

  /** Text that does not parse gets exactly one error frame, to its sender, and nothing else happens. */
  lemma UnparsableTextGetsOneError(users: Registry, ws: SocketId, parseError: string, engine: Engine)
    ensures Handle(users, ws, ParseFail(JsError(parseError)), engine) == Step(users, [Sent(ws, ErrorFrame(parseError))])
  {
  }

  /**
   * Two gateways on one relayer: a message from the first reaches the
   * second, and (the relayer does not skip the sender) the first as well.
   */
  lemma TwoGatewaysShareMessages(g1: SocketId, g2: SocketId, data: Bytes)
    requires g1 != g2
    ensures Relayer.Fanout([g1, g2], data, {g1, g2}, {})
         == [Relayer.Delivery(g1, data), Relayer.Delivery(g2, data)]
  {
    assert [g1, g2][1..] == [g2] && [g2][1..] == [];
    assert Relayer.Fanout([g2], data, {g1, g2}, {}) == [Relayer.Delivery(g2, data)];
  }
}
