# Realtime hub of swapr.io, modelled in Dafny

This project models the socket server of the swapr.io skill-swap platform
(`backend/src/sockets/socketServer.js`). The server does three things. It
authenticates each connection from the `token` cookie in the handshake. It
keeps a table of room memberships, one room `swap-<swapId>` per swap
conversation. It relays presence, typing, message and swap-update events to
the other members of a room. A module-level `io` slot holds the server, and
REST code can push a `new_message` into a room through it.

The model is layered the way the code is:

- `wrappers.dfy` (`Wrappers`): `Option` and `Result`.
- `token_cookie.dfy` (`TokenCookie`): the scan `/token=([^;]+)/` does on the
  cookie header, as a function. It is characterised by lemmas: the token is
  the greedy run of non-`;` characters after the leftmost `token=` that is
  followed by such a character.
- `auth.dfy` (`Auth`): the handshake outcome. Signature checking is an
  oracle `string -> Option<UserId>`.
- `events.dfy` (`Events`): ids, room names, event kinds, payload shapes and
  deliveries.
- `rooms.dfy` (`Rooms`): the room table as `map<RoomName, set<ConnId>>`,
  with the transport's join, leave and disconnect cleanup. Emissions are sets
  of deliveries: `socket.to(room)` reaches every member but the sender, and
  `io.to(room)` reaches every member.
- `handlers.dfy` (`Handlers`): each event handler as one atomic step from
  a table to a new table plus its deliveries. User and swap lookups are
  parameters that hold a record, no record, or a thrown error.
- `socket_server.dfy` (`SocketServer`): the stateful part. Class `Hub` holds
  the room table and the authenticated user of each connection. Its methods
  mirror the handlers and are proved against the `Handlers` functions.
  `Hub.Broadcast` hands out one delivery per recipient. Class `SocketModule`
  is the module's `io` slot, with `initializeSocket`, `getIO` and
  `emitNewMessage`.

Behaviours of the code worth knowing, all modelled as written:

- `emitNewMessage` called before initialisation does nothing and raises
  nothing. Only `getIO` raises `Socket.io not initialized`.
- `initializeSocket` replaces `io` on every call, and nothing prevents a
  second call. The new hub starts with no rooms.
- `socket.to(room)` works from any connection, member or not.
  `Rooms.SenderMembershipIrrelevant` states that the sender is excluded
  either way.
- Only the swap fetches catch their errors. In `join_swap_room` and
  `leave_swap_room` a thrown user lookup is not caught: the membership
  change stands, nothing is sent, and the rejection escapes the handler
  (`Outcome.escaped`).
- The cookie scan is not anchored to a cookie name. `xtoken=abc` yields
  `abc`. A cookie such as `csrftoken=` placed before `token=` shadows it
  (`TokenCookie.UnanchoredMatch` with the prefix `csrf`).

## Model

| member | source | states |
|---|---|---|
| `TokenCookie.RunEnd` | backend/src/sockets/socketServer.js:25 | the greedy group `([^;]+)` stops at the first `;` or at the end of the header, and takes no `;` |
| `TokenCookie.FirstMatchFrom` | backend/src/sockets/socketServer.js:25 | the scan returns the leftmost matching position at or after its start, and None when no position matches |
| `TokenCookie.ExtractToken` | backend/src/sockets/socketServer.js:24-28 | no token exactly when no position has `token=` followed by a non-`;`; a token found is non-empty and has no `;` |
| `TokenCookie.RunEndUnique` | backend/src/sockets/socketServer.js:25 | the capture's end is determined: any end that stops at `;` or the end of the header after a `;`-free run is RunEnd's |
| `TokenCookie.ExtractTokenSound` | backend/src/sockets/socketServer.js:25-27 | a token found is the capture at the leftmost match position |
| `TokenCookie.ExtractTokenComplete` | backend/src/sockets/socketServer.js:25-27 | the capture at the leftmost match position is the token found |
| `TokenCookie.LeadingTokenCookie` | backend/src/routes/auth.js:55-57 | the `token=<jwt>` cookie the login flow sets yields `<jwt>` when it opens the header, whatever cookies follow |
| `TokenCookie.PrefixKeepsNoMatch` | backend/src/sockets/socketServer.js:25 | a prefix in which no match starts adds no match |
| `TokenCookie.PrefixKeepsFirstMatch` | backend/src/sockets/socketServer.js:25 | a prefix in which no match starts shifts the leftmost match by its length |
| `TokenCookie.PrefixWithoutMatch` | backend/src/sockets/socketServer.js:25 | cookies before the first qualifying `token=` do not change the token |
| `TokenCookie.UnanchoredMatch` | backend/src/sockets/socketServer.js:25 | any text without a `t` before `token=` is ignored, so a cookie named `xtoken` or `csrftoken` placed first is taken for the token |
| `TokenCookie.XTokenExample` | backend/src/sockets/socketServer.js:25 | `xtoken=abc` yields `abc` |
| `TokenCookie.EmptyTokenSkipped` | backend/src/sockets/socketServer.js:25 | an empty `token=;` is skipped and the rest of the header decides |
| `TokenCookie.EmptyTokenOnly` | backend/src/sockets/socketServer.js:25-33 | a header `token=` with nothing after it has no token |
| `Auth.Authenticate` | backend/src/sockets/socketServer.js:18-42 | accepted exactly when the header is present, a token is found and verifies; the user is the decoded id; every rejection is `Authentication error` |
| `Auth.NoTokenRejected` | backend/src/sockets/socketServer.js:21-33 | a missing header, or one without a qualifying `token=`, is rejected whatever the verifier says |
| `Auth.FailuresCollapse` | backend/src/sockets/socketServer.js:31-41 | any two rejections, whatever the header and the verifier, are the same outcome: a missing token and a failed verification are indistinguishable to the client |
| `Auth.LoginCookieAccepted` | backend/src/sockets/socketServer.js:25-37 | a header that opens with the login cookie authenticates as the user its token verifies to |
| `Events.SwapRoom` | backend/src/sockets/socketServer.js:49 | the room is `swap-` followed by the swap id, and the id can be read back from it |
| `Events.SwapRoomInjective` | backend/src/sockets/socketServer.js:49 | distinct swaps never share a room |
| `Rooms.AddMember` | backend/src/sockets/socketServer.js:49 | after a join the connection is a member; no other room changes; a repeated join leaves the table unchanged; well-formedness is kept |
| `Rooms.RemoveMember` | backend/src/sockets/socketServer.js:66 | after a leave the connection is not a member; no other room changes; leaving a room one is not in is a no-op; well-formedness is kept |
| `Rooms.RemoveEverywhere` | backend/src/sockets/socketServer.js:148-149 | on disconnect the connection leaves every room and nothing else changes |
| `Rooms.Emission` | backend/src/sockets/socketServer.js:54-58 | an emission reaches exactly the room members not excluded, each with the same event and payload |
| `Rooms.ToOthers` | backend/src/sockets/socketServer.js:83-87 | `socket.to(room)` reaches every member but the sender, and never the sender |
| `Rooms.ToAll` | backend/src/sockets/socketServer.js:165 | `io.to(room)` reaches every member of the room and nobody else |
| `Rooms.EmptyRoomSilent` | backend/src/sockets/socketServer.js:165 | an emission to an empty room delivers nothing |
| `Rooms.LeaveUndoesJoin` | backend/src/sockets/socketServer.js:49-66 | leaving a room right after first joining it restores the table |
| `Rooms.SenderMembershipIrrelevant` | backend/src/sockets/socketServer.js:83 | a relay reaches the same connections whether the sender is in the room or not |
| `Handlers.JoinStep` | backend/src/sockets/socketServer.js:47-61 | the sender joins whatever the lookup does; `user_joined` with the client's `{swapId, userId}` and the found name goes to the other members iff the user is found; a thrown lookup escapes |
| `Handlers.LeaveStep` | backend/src/sockets/socketServer.js:64-78 | the sender leaves whatever the lookup does; `user_left` goes only to the remaining members, iff the user is found; a thrown lookup escapes |
| `Handlers.TypingStep` | backend/src/sockets/socketServer.js:81-97 | `{swapId, userId, userName}` is forwarded unchanged to every other member; the table is unchanged |
| `Handlers.TaskStep` | backend/src/sockets/socketServer.js:100-133 | `swap_updated` with the fetched record goes to the other members iff the fetch returns a record; a miss or a thrown fetch sends nothing and raises nothing |
| `Handlers.SendMessageStep` | backend/src/sockets/socketServer.js:136-139 | the message is forwarded as `new_message` to every other member of the `swapId` room |
| `Handlers.SeenStep` | backend/src/sockets/socketServer.js:142-146 | `{swapId, userId}` is forwarded as `messages_seen` to every other member |
| `Handlers.DisconnectStep` | backend/src/sockets/socketServer.js:148-149 | disconnect sends nothing and drops the sender from every room |
| `Handlers.Step` | backend/src/sockets/socketServer.js:44-150 | each client event runs its handler; the two task events share `TaskStep`; only join and leave can escape; no handler delivers to its sender |
| `Handlers.StepKeepsWellFormed` | backend/src/sockets/socketServer.js:44-150 | every handler keeps rooms non-empty and made of live connections |
| `Handlers.StepDeliveries` | backend/src/sockets/socketServer.js:44-150 | no handler delivers to its sender; every delivery goes to a member of the event's room and has the payload shape of its kind |
| `Handlers.StepOnlyMovesSender` | backend/src/sockets/socketServer.js:44-150 | no handler changes the membership of any connection but the sender |
| `Handlers.OnlyMembershipEventsChangeTable` | backend/src/sockets/socketServer.js:81-146 | relays and swap refreshes never change the table and never raise |
| `Handlers.JoinTwice` | backend/src/sockets/socketServer.js:47-49 | a second join leaves the table as the first join left it |
| `Handlers.JoinWithUnknownUser` | backend/src/sockets/socketServer.js:47-61 | a user lookup miss still joins, sends nothing and raises nothing |
| `Handlers.JoinThenLeave` | backend/src/sockets/socketServer.js:47-78 | a join followed by a leave restores the table |
| `Handlers.TypingScenario` | backend/src/sockets/socketServer.js:81-88 | A and B in `swap-42`: A's `typing_start` reaches B exactly once with A's payload and never A |
| `Handlers.DeletedSwapScenario` | backend/src/sockets/socketServer.js:100-115 | `task_completed` for a deleted swap sends nothing, raises nothing and leaves the table |
| `SocketServer.Hub.constructor` | backend/src/sockets/socketServer.js:10-15 | a new server has no rooms and no connections |
| `SocketServer.Hub.Handshake` | backend/src/sockets/socketServer.js:18-42 | the outcome is `Authenticate`; only success records `socket.userId`; rooms are untouched |
| `SocketServer.Hub.Broadcast` | backend/src/sockets/socketServer.js:54 | the deliveries handed out are exactly the emission's, one per recipient |
| `SocketServer.Hub.OnJoinSwapRoom` | backend/src/sockets/socketServer.js:47-61 | the new table, the deliveries and the escape are those of `JoinStep`, each delivery once; users unchanged |
| `SocketServer.Hub.OnLeaveSwapRoom` | backend/src/sockets/socketServer.js:64-78 | the new table, the deliveries and the escape are those of `LeaveStep`, each delivery once |
| `SocketServer.Hub.OnTypingStart` | backend/src/sockets/socketServer.js:81-88 | the deliveries are those of `TypingStep`, each once |
| `SocketServer.Hub.OnTypingStop` | backend/src/sockets/socketServer.js:90-97 | the deliveries are those of `TypingStep`, each once |
| `SocketServer.Hub.OnTaskEvent` | backend/src/sockets/socketServer.js:100-133 | the deliveries are those of `TaskStep`, each once |
| `SocketServer.Hub.OnSendMessage` | backend/src/sockets/socketServer.js:136-139 | the deliveries are those of `SendMessageStep`, each once |
| `SocketServer.Hub.OnMessagesSeen` | backend/src/sockets/socketServer.js:142-146 | the deliveries are those of `SeenStep`, each once |
| `SocketServer.Hub.OnDisconnect` | backend/src/sockets/socketServer.js:148-149 | the connection is forgotten and leaves every room |
| `SocketServer.SocketModule.constructor` | backend/src/sockets/socketServer.js:7 | `io` starts uninitialised |
| `SocketServer.SocketModule.InitializeSocket` | backend/src/sockets/socketServer.js:9-15 | every call puts a new hub with no rooms in `io` |
| `SocketServer.SocketModule.GetIO` | backend/src/sockets/socketServer.js:155-160 | fails with `Socket.io not initialized` exactly when `io` is uninitialised, else returns it |
| `SocketServer.SocketModule.EmitNewMessage` | backend/src/sockets/socketServer.js:163-167 | uninitialised: no deliveries and no error; else `new_message` to every member of `swap-<message.swap>` once, sender not excluded |

## Left out

- JWT signature and expiry checking is an oracle. The shared secret and the token format are not modelled.
- Auth.Authenticate: the verifier yields the decoded `id` or nothing. A validly signed token without an `id` claim, which the code accepts with `userId` undefined, is not distinguished.
- The user and swap database lookups (`User.findById`, `Swap.findById().populate`) are parameters. The populated fields travel inside `SwapRecord` without being checked.
- Client payload fields are strings. Missing or non-string fields, which JavaScript turns into `undefined` or stringifies, are taken to be in string form already. Extra fields, which the handlers drop, are not represented. A `data` argument that is not an object, which makes destructuring throw, is not modelled.
- What an escaped rejection does to the process depends on the Node.js configuration. The model only records that it escapes.
- Each handler is one atomic step. Interleaving at the lookup `await`s and `console.error` logging are left out.
- The transport's own behaviour is reduced to the room table. Each socket's private room named after its id and the CORS options (lines 10-15) are not modelled. The order in which one emission reaches its recipients is not fixed: `Hub.Broadcast` promises each recipient once, in some order.
- Disconnect cleanup is done by the transport, not by the empty handler at lines 148-149. It is modelled as leaving every room.
- `Hub.Handshake` takes the connection id as fresh, as the transport assigns it.
