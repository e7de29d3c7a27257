# Room chat gateway and relayer, modelled in Dafny

This project models the core of a small real-time chat system:

- the **frame validator** of the user gateway, a chain of guards over the result of parsing an inbound frame;
- the **user gateway** itself: a process-wide registry `users` from room id to room, a `message` handler (create, join, chat, leave, and a catch-all that turns thrown errors into an error frame) and a `close` handler that removes a connection from every room and drops emptied rooms;
- the **relayer**, a separate process keeping an ordered list of connected sockets. It resends each inbound message to every listed OPEN socket and, on close, removes the first copy of the socket.

Every callback runs to completion before the next one starts, so each handler is one atomic step. Frames the handlers would `send` are appended to an outbox instead.

Modules, one per source file or shared concept:

- `Js` (`js.dfy`): the JavaScript semantics the code depends on. Values `JSON.parse` returns (`Json`), a property read (`Get`, giving `Undefined` or a value), truthiness (`Truthy`), values a `catch` receives (`Thrown`), and the engine's `TypeError` texts (`Engine`). Those texts differ between engines, so they are a parameter.
- `Sockets` (`sockets.dfy`): socket identities and message bytes.
- `Types` (`types.dfy`): the type file's `Message` (with `Tag` and `Payload`), `Room` (with `Entry`) and `ValidationResult`.
- `Validation` (`validation.dfy`): `Validate` and its guard chain `Check`, plus the reference predicate `Acceptable`, which says directly which parsed values the validator accepts.
- `Gateway` (`gateway.dfy`): the pure step functions. `Handle`, `Dispatch`, `Enter`, `Broadcast` cover the message handler, `CloseRegistry` the close handler, and `Without` and `ChatDeliveries` the filter and the chat loop. The class `Server` has fields `users` and `outbox`. Its methods `OnMessage` (with the chat `while` loop) and `OnClose` (a loop over the room ids) are proved to perform exactly those steps.
- `Relayer` (`relayer.dfy`): the spec functions `Fanout` and `RemoveFirst`, the `IndexOf` search, and the class `Relay` with fields `sockets` and `outbox` and the three callbacks.
- `Scenarios` (`scenarios.dfy`): whole conversations on concrete frames.

The model follows the code, including where the code does not do what its types, names and tests suggest:

- A parse failure is reported with the message of the error `JSON.parse` threw. The text "Invalid JSON format" is used only when the thrown value is not an `Error`, which `JSON.parse` never does. No fixed reason is used for text that does not parse.
- Chat is broadcast directly to the room's local sockets. The gateway never forwards chat to the relayer.
- The relayer resends to every OPEN socket, the sender included. It does not exclude the sender.
- A `create`/`join` without a name creates the room before it fails. The room stays behind with no members. A room with no members is expected not to exist, but that holds only after a `close` (`NamelessJoinLeavesEmptyRoom`, `CloseCleansRegistry`).
- The outbound chat frame carries the `message` and `senderName` of the chat payload, not the name registered on join. `senderName` may be absent.
- A room entry's name is the parsed `senderName` value as it is. The code checks only that it is truthy, so it need not be a string, although the type file declares one.
- `users` is a plain object. Room ids inherited from `Object.prototype` (`constructor`, `toString`, `__proto__`, ...) look like existing rooms, so the code never creates them. Such a room's `sockets` is `undefined`, so a named join of such an id throws a `TypeError` when it reads `push` off it, and a chat to one throws when it reads `forEach` off it. Neither method is ever called. Both end in an error frame (`EnterInheritedKey`, `ChatToUnknownRoom`). A nameless join of such an id throws "Username is not defined" first, because the name is checked before the push (`EnterWithoutName`).

## Model

| member | source | states |
|---|---|---|
| `Js.Get` | users-ws/src/middleware/validation.ts:8-18 | a property read on a non-null value: the field's value when the value is an object with that key, otherwise `undefined`; a read off `null` is excluded, because the code throws there |
| `Js.Truthy` | users-ws/src/middleware/validation.ts:8-18 | JavaScript truthiness: `undefined`, `null`, `false`, `0` and `""` are falsy; every other value, any object or array included, is truthy |
| `Js.CaughtText` | users-ws/src/index.ts:60-62 | the text a `catch` reports: an `Error`'s own message, otherwise a given fallback (also validation.ts:28) |
| `Js.TruthyStringIsNonEmpty` | users-ws/src/middleware/validation.ts:14 | a value passes the "truthy and a string" guard exactly when it is a non-empty string |
| `Types.TagOf` | users-ws/src/middleware/validation.ts:11 | a `type` value gives a tag exactly when it is the string spelling of that tag; anything else, a non-string included, gives none |
| `Validation.Validate` | users-ws/src/middleware/validation.ts:3-31 | never raises; a command is present exactly when the result is valid; success means "No errors" on a parsed value; a parse failure reports the thrown error's message, or "Invalid JSON format" for a non-`Error`; a parsed `null` reports the engine's `TypeError` text |
| `Validation.Check` | users-ws/src/middleware/validation.ts:8-22 | the guard chain on a non-null parsed value, in source order: missing or falsy `type`/`payload`, a `type` that is not one of the four tags, a missing or non-string `roomId`, and for chat a missing or non-string `message`; otherwise the command read off the value |
| `Validation.ValidateAcceptsExactly` | users-ws/src/middleware/validation.ts:8-22 | the validator accepts exactly the `Acceptable` values (an object whose `type` is one of the four tag strings and whose `payload` is an object with a non-empty string `roomId`, plus a non-empty string `message` for chat); the returned command is the parsed tag, `roomId`, `message` and `senderName`, unchanged |
| `Validation.FirstFailingGuardDecides` | users-ws/src/middleware/validation.ts:8-19 | each reject reason happens exactly when all earlier guards pass and its own guard fails; validity happens exactly when all guards pass |
| `Validation.RejectionReasonIsFixed` | users-ws/src/middleware/validation.ts:8-19 | a non-null parsed value that is rejected always gets one of the four fixed reasons |
| `Validation.FalsyTypeIsMissing` | users-ws/src/middleware/validation.ts:8-9 | a `type` of `""`, `0`, `false` or `null` gives "Missing type or payload" |
| `Validation.SenderNameIsNeverChecked` | users-ws/src/middleware/validation.ts:17-22 | a non-chat command passes with no `message` and with any JSON value as `senderName`, which is carried through |
| `Gateway.Occupied` | users-ws/src/index.ts:29 | whether `users[roomId]` is truthy: the id is a room of the registry or a name inherited from `Object.prototype` (also :37) |
| `Gateway.ErrorReply` | users-ws/src/index.ts:55-66 | the error frame the `catch` sends to the connection: the thrown `Error`'s message, or "Server error occurred" for any other value |
| `Gateway.Without` | users-ws/src/index.ts:71 | the entries of a room whose socket is not the closed one, in their order |
| `Gateway.Cleaned` | users-ws/src/index.ts:71 | the room with its entry list replaced by `Without` of it; the id is kept |
| `Gateway.ChatDeliveries` | users-ws/src/index.ts:45-53 | the frames the chat `forEach` sends, entry by entry in room order, skipping entries of the sender |
| `Gateway.Enter` | users-ws/src/index.ts:28-43 | `create`/`join`: make an empty room when `users[roomId]` is falsy; then an error frame "Username is not defined" for a falsy name; else a `TypeError` frame for an inherited id; else the new entry appended at the end of the room |
| `Gateway.Broadcast` | users-ws/src/index.ts:44-54 | `chat`: for a known room, `ChatDeliveries` of its entries with the payload's `message` and `senderName`; for an inherited id or an unknown id, one `TypeError` frame to the sender; the registry never changes |
| `Gateway.Dispatch` | users-ws/src/index.ts:26-54 | the branch on a validated command: `Enter` for `create` and `join`, `Broadcast` for `chat`, no change and no frame for `leave` |
| `Gateway.Handle` | users-ws/src/index.ts:12-67 | the whole `message` handler: a rejected frame gets one error frame with the validator's reason; an accepted one goes to `Dispatch` |
| `Gateway.CloseRegistry` | users-ws/src/index.ts:69-76 | the whole `close` handler: every room filtered by `Without`, and the rooms left with no entries dropped |
| `Gateway.Server.constructor` | users-ws/src/index.ts:7 | the registry starts empty and nothing has been sent |
| `Gateway.Server.OnMessage` | users-ws/src/index.ts:12-67 | the registry and the frames sent are exactly those of `Handle` on the old registry; each room stays keyed by its own id |
| `Gateway.Server.OnClose` | users-ws/src/index.ts:69-76 | after the loop over all room ids, the registry is `CloseRegistry` of the old one and nothing is sent |
| `Gateway.WithoutMembers` | users-ws/src/index.ts:71 | the filter keeps an entry exactly when it was in the room and its socket is not the closed one |
| `Gateway.WithoutAppend` | users-ws/src/index.ts:71 | the filter distributes over concatenation, so surviving entries keep their relative order |
| `Gateway.WithoutAbsent` | users-ws/src/index.ts:71 | a room with no entry of the socket is unchanged |
| `Gateway.WithoutCounts` | users-ws/src/index.ts:71 | every copy of an entry of the socket goes; every copy of any other entry stays |
| `Gateway.ChatDeliveriesFollowMembers` | users-ws/src/index.ts:45-53 | the chat loop sends one frame per entry whose socket is not the sender's, in room order: frame i goes to the i-th such entry |
| `Gateway.ChatRecipients` | users-ws/src/index.ts:45-53 | a socket gets a given frame exactly when it is the chat frame, the socket is listed in the room, and it is not the sender |
| `Gateway.RejectionRepliesToSenderOnly` | users-ws/src/index.ts:16-24 | a rejected frame gets exactly one error frame with the validator's reason, to the sender, and the registry is unchanged |
| `Gateway.CreateIsJoin` | users-ws/src/index.ts:28-43 | `create` and `join` have the same effect on every registry and payload |
| `Gateway.EnterAppends` | users-ws/src/index.ts:28-43 | a named create/join on an own key sends nothing; it adds the room id to the keys and sets that room to the old entries (none for a new room) plus the new entry at the end, with no dedup; every other room is unchanged |
| `Gateway.EnterWithoutName` | users-ws/src/index.ts:29-33 | a create/join with a falsy name sends exactly "Username is not defined" to the sender and appends nothing, yet a previously unknown room is left in place with no entries |
| `Gateway.EnterInheritedKey` | users-ws/src/index.ts:29-34 | a named create/join on an inherited id leaves the registry as it was and sends the sender the `TypeError` thrown by reading `push` off the missing `sockets` |
| `Gateway.ChatToKnownRoom` | users-ws/src/index.ts:44-54 | a chat to a known room leaves the registry unchanged; it sends one frame with the payload's message and sender name per entry of another socket, in order, and none to the sender |
| `Gateway.ChatToUnknownRoom` | users-ws/src/index.ts:44-66 | a chat to a room that is not in the registry leaves the registry unchanged and sends exactly one error frame to the sender (the engine's `TypeError` text for that read) |
| `Gateway.ChatStaysInRoom` | users-ws/src/index.ts:44-54 | a socket that is neither the sender nor listed in the addressed room gets nothing from a chat |
| `Gateway.LeaveDoesNothing` | users-ws/src/index.ts:26-54 | `leave` changes nothing and sends nothing |
| `Gateway.HandleKeepsWellKeyed` | users-ws/src/index.ts:28-43 | after any message, every room is still filed under its own id and no inherited name is a key |
| `Gateway.NamelessJoinLeavesEmptyRoom` | users-ws/src/index.ts:36-41 | one nameless join on an empty registry leaves exactly one, empty, room: no-empty-rooms does not survive a message |
| `Gateway.CloseCleansRegistry` | users-ws/src/index.ts:69-76 | after close: rooms keep their ids; no room is empty (rooms that were already empty are dropped too); no room lists the socket; a room survives exactly when it held an entry of another socket; its entries are exactly `Without` of its old entries, the other sockets' entries in their old order (so `WithoutAppend` and `WithoutCounts` apply to it) |
| `Gateway.RejoinStartsFresh` | users-ws/src/index.ts:69-76 | once the last member closes, the room is gone, and a later join of the same id creates a room holding only the new entry |
| `Relayer.Fanout` | relayer-ws/index.ts:14-23 | the deliveries of one `message` pass: each listed OPEN socket in order gets the bytes, until the first OPEN socket whose `send` throws, where the `catch` ends the pass; sockets that are not OPEN are skipped |
| `Relayer.RemoveFirst` | relayer-ws/index.ts:29-32 | the socket list without its first copy of the closed socket; unchanged when it is not listed |
| `Relayer.IndexOf` | relayer-ws/index.ts:29 | returns -1 exactly when the socket is absent; otherwise the position of its first copy |
| `Relayer.Relay.constructor` | relayer-ws/index.ts:5 | the socket list starts empty |
| `Relayer.Relay.OnConnection` | relayer-ws/index.ts:8 | the new socket is appended at the end; nothing is sent |
| `Relayer.Relay.OnMessage` | relayer-ws/index.ts:14-24 | the socket list is unchanged; the loop sends exactly `Fanout` of the list: OPEN sockets in order, until a `send` throws |
| `Relayer.Relay.OnClose` | relayer-ws/index.ts:26-33 | the list becomes `RemoveFirst` of the old list; nothing is sent |
| `Relayer.FanoutSendsIdenticalBytes` | relayer-ws/index.ts:16-19 | every delivery carries the inbound bytes unchanged, to a listed OPEN socket whose `send` did not throw |
| `Relayer.FanoutReachesEveryOpenSocket` | relayer-ws/index.ts:16-20 | when no `send` throws, each OPEN socket gets the message once per listing, and a socket that is not OPEN gets nothing |
| `Relayer.SenderGetsItsOwnMessage` | relayer-ws/index.ts:16-19 | when no `send` throws, the sending socket, if listed and OPEN, gets its own message back |
| `Relayer.FanoutAppend` | relayer-ws/index.ts:16-20 | a pass in which no `send` throws splits at any point of the list |
| `Relayer.FanoutStopsAtThrow` | relayer-ws/index.ts:15-23 | when the first throwing OPEN socket is at position k, only sockets before k are served; later ones receive nothing in that pass |
| `Relayer.RemoveFirstAt` | relayer-ws/index.ts:29-32 | the first copy of the socket is taken out at its position; the sockets before and after keep their order |
| `Relayer.RemoveFirstAbsent` | relayer-ws/index.ts:29-32 | closing a socket that is not listed leaves the list unchanged |
| `Relayer.RemoveFirstTakesOneCopy` | relayer-ws/index.ts:29-32 | close removes exactly one copy of the socket when there is one, and nothing else |
| `Scenarios.JoinTextIsAccepted` | users-ws/src/middleware/validation.ts:8-22 | a named join frame with a non-empty room id is accepted as exactly that join command |
| `Scenarios.ChatTextIsAccepted` | users-ws/src/middleware/validation.ts:8-22 | a chat frame with a non-empty room id and text is accepted as exactly that chat command |
| `Scenarios.JoinR1` | users-ws/src/index.ts:36-42 | a named join to "R1" appends its entry to that room (made if needed) and sends nothing |
| `Scenarios.PeerReceivesChat` | tests/index.test.ts:382-440 | A and B join "R1" and A says "hi": only B receives a frame, with message "hi" and sender name "A" |
| `Scenarios.RejoinAfterDisconnect` | tests/index.test.ts:316-380 | A joins "R1" and disconnects, which empties the registry; B then joins and chats with no error, and the room holds only B |
| `Scenarios.UnparsableTextGetsOneError` | tests/index.test.ts:257-274 | text that does not parse gets exactly one error frame to its sender, carrying the parse error's message, and the registry is unchanged |
| `Scenarios.TwoGatewaysShareMessages` | relayer-ws/index.ts:14-20 | with two OPEN gateway links, a message reaches both links, the sending one included |

## Left out

- JSON text and `JSON.parse`: the parse outcome is an input (`ParseOutcome`). Outbound frames are datatypes, not `JSON.stringify` output.
- Engine error texts: the messages of the `TypeError`s the engine throws, and of the parse errors, are opaque strings given as parameters.
- JSON numbers are `real`: `Infinity` is not modelled. `JSON.parse` gives it for a number literal too large to represent, such as `1e400`. `senderName` is never checked, so such a value is truthy and would be stored as an entry name and copied into chat frames, where `JSON.stringify` writes it as `null`. `JNum(real)` cannot represent that value.
- Socket state: OPEN-ness, and whether a relayer `send` throws, are given sets. `readyState` transitions are not modelled.
- Gateway sends: a gateway `send` is assumed not to throw. The `ws` library reports send failures on closing sockets asynchronously, so a frame to such a socket is still recorded in the outbox.
- Room-id order at close: `Object.keys` order is left open (`OnClose` picks ids in any order). The result does not depend on it.
- Transport and logging: server construction, ports, `console` output and the `error` event handlers are not modelled.
- The browser client and its hooks (`client/`) are not modelled.
- Relay bridge and reconnects: the gateway has no relay bridge, reconnect policy or strict-join option, so none is modelled.
- Concurrency: not modelled. Each callback is one atomic step.
