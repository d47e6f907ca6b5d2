/**
 * The socket server: a hub holding the room table and the authenticated user
 * of each live connection, with one method per event handler, and the
 * module that holds the hub in its mutable `io` slot.
 */
module SocketServer {
  import opened Wrappers
  import opened Events
  import opened Rooms
  import opened Auth
  import Handlers
  import TokenCookie

  const NotInitialized: string := "Socket.io not initialized"

  class Hub {
    /** The token verifier the middleware calls. */
    const verify: Verifier
    /** The transport's room table. */
    var rooms: Table
    /** `socket.userId` of every connection that passed the handshake. */
    var users: map<ConnId, UserId>

    ghost predicate Valid()
      reads this
    {
      WellFormed(rooms, users.Keys)
    }

    constructor (verify: Verifier)
      ensures Valid()
      ensures this.verify == verify && rooms == map[] && users == map[]
    {
      this.verify := verify;
      rooms := map[];
      users := map[];
    }

    /**
     * The authentication middleware for a new connection: on success the
     * decoded id becomes the connection's user; on failure no connection
     * is established. The room table is untouched either way.
     */
    method Handshake(conn: ConnId, cookie: Option<string>) returns (outcome: AuthOutcome)
      requires Valid() && conn !in users
      modifies this
      ensures Valid()
      ensures outcome == Authenticate(cookie, verify)
      ensures rooms == old(rooms)
      ensures users == if outcome.Accepted? then old(users)[conn := outcome.userId] else old(users)
    {
      outcome := Authenticate(cookie, verify);
      if outcome.Accepted? {
        users := users[conn := outcome.userId];
      }
    }

    /**
     * One emission to a room: one delivery to each member not in `except`,
     * handed out member by member.
     */
    method Broadcast(room: RoomName, except: set<ConnId>, event: EventKind, payload: Payload) returns (out: seq<Delivery>)
      ensures ExactlyOnce(out, Emission(rooms, room, except, event, payload))
    {
      var pending := Members(rooms, room) - except;
      out := [];
      while pending != {}
        invariant pending <= Members(rooms, room) - except
        invariant forall i :: 0 <= i < |out| ==>
          out[i] in Emission(rooms, room, except, event, payload) && out[i].to !in pending
        invariant forall c :: c in Members(rooms, room) && c !in except && c !in pending ==>
          Delivery(c, event, payload) in out
        invariant forall i, j :: 0 <= i < j < |out| ==> out[i].to != out[j].to
        decreases pending
      {
        var c :| c in pending;
        out := out + [Delivery(c, event, payload)];
        pending := pending - {c};
      }
    }

    /**
     * `join_swap_room`: the connection joins before the user lookup, so the
     * join stands whatever the lookup does; the notice carries the
     * client-supplied `userId`, not the authenticated one.
     */
    method OnJoinSwapRoom(sender: ConnId, swapId: string, userId: UserId, user: Handlers.Lookup<string>)
      returns (out: seq<Delivery>, escaped: bool)
      requires Valid() && sender in users
      modifies this
      ensures Valid() && users == old(users)
      ensures rooms == Handlers.JoinStep(old(rooms), sender, swapId, userId, user).table
      ensures ExactlyOnce(out, Handlers.JoinStep(old(rooms), sender, swapId, userId, user).deliveries)
      ensures escaped == Handlers.JoinStep(old(rooms), sender, swapId, userId, user).escaped
    {
      var room := SwapRoom(swapId);
      rooms := AddMember(rooms, room, sender);
      out := [];
      if user.Found? {
        out := Broadcast(room, {sender}, UserJoined, Presence(swapId, userId, user.value));
      }
      escaped := user.LookupError?;
    }

    /** `leave_swap_room`: leave first, then tell whoever remains. */
    method OnLeaveSwapRoom(sender: ConnId, swapId: string, userId: UserId, user: Handlers.Lookup<string>)
      returns (out: seq<Delivery>, escaped: bool)
      requires Valid() && sender in users
      modifies this
      ensures Valid() && users == old(users)
      ensures rooms == Handlers.LeaveStep(old(rooms), sender, swapId, userId, user).table
      ensures ExactlyOnce(out, Handlers.LeaveStep(old(rooms), sender, swapId, userId, user).deliveries)
      ensures escaped == Handlers.LeaveStep(old(rooms), sender, swapId, userId, user).escaped
    {
      var room := SwapRoom(swapId);
      rooms := RemoveMember(rooms, room, sender);
      out := [];
      if user.Found? {
        out := Broadcast(room, {sender}, UserLeft, Presence(swapId, userId, user.value));
      }
      escaped := user.LookupError?;
    }

    /** `typing_start`. */
    method OnTypingStart(sender: ConnId, swapId: string, userId: UserId, userName: string) returns (out: seq<Delivery>)
      ensures ExactlyOnce(out, Handlers.TypingStep(rooms, sender, TypingStart, swapId, userId, userName).deliveries)
    {
      out := Broadcast(SwapRoom(swapId), {sender}, TypingStart, Presence(swapId, userId, userName));
    }

    /** `typing_stop`. */
    method OnTypingStop(sender: ConnId, swapId: string, userId: UserId, userName: string) returns (out: seq<Delivery>)
      ensures ExactlyOnce(out, Handlers.TypingStep(rooms, sender, TypingStop, swapId, userId, userName).deliveries)
    {
      out := Broadcast(SwapRoom(swapId), {sender}, TypingStop, Presence(swapId, userId, userName));
    }

    /** `task_completed` and `task_approved` share this body; `swap` is the fetch's result. */
    method OnTaskEvent(sender: ConnId, swapId: string, swap: Handlers.Lookup<SwapRecord>) returns (out: seq<Delivery>)
      ensures ExactlyOnce(out, Handlers.TaskStep(rooms, sender, swapId, swap).deliveries)
    {
      out := [];
      if swap.Found? {
        out := Broadcast(SwapRoom(swapId), {sender}, SwapUpdated, SwapPayload(swap.value));
      }
    }

    /** `send_message`. */
    method OnSendMessage(sender: ConnId, swapId: string, message: Message) returns (out: seq<Delivery>)
      ensures ExactlyOnce(out, Handlers.SendMessageStep(rooms, sender, swapId, message).deliveries)
    {
      out := Broadcast(SwapRoom(swapId), {sender}, NewMessage, MessagePayload(message));
    }

    /** `messages_seen`. */
    method OnMessagesSeen(sender: ConnId, swapId: string, userId: UserId) returns (out: seq<Delivery>)
      ensures ExactlyOnce(out, Handlers.SeenStep(rooms, sender, swapId, userId).deliveries)
    {
      out := Broadcast(SwapRoom(swapId), {sender}, MessagesSeen, Seen(swapId, userId));
    }

    /** Disconnect: the transport forgets the connection and drops it from every room. */
    method OnDisconnect(sender: ConnId)
      requires Valid()
      modifies this
      ensures Valid()
      ensures users == old(users) - {sender}
      ensures rooms == Handlers.DisconnectStep(old(rooms), sender).table
    {
      rooms := RemoveEverywhere(rooms, sender);
      users := users - {sender};
    }
  }

  /** The module's state: the `io` slot, empty until the server is initialised. */
  class SocketModule {
    var io: Hub?

    ghost predicate Valid()
      reads this, io
    {
      io != null ==> io.Valid()
    }

    constructor ()
      ensures Valid() && io == null
    {
      io := null;
    }

    /** `initializeSocket`: every call replaces `io` with a new hub with no rooms. */
    method InitializeSocket(verify: Verifier) returns (hub: Hub)
      modifies this
      ensures Valid() && fresh(hub) && io == hub
      ensures hub.verify == verify && hub.rooms == map[] && hub.users == map[]
    {
      hub := new Hub(verify);
      io := hub;
    }

    /** `getIO`: the hub, or the not-initialised error. */
    method GetIO() returns (r: Result<Hub, string>)
      ensures r.Failure? <==> io == null
      ensures r.Failure? ==> r.error == NotInitialized
      ensures r.Success? ==> r.value == io
    {
      if io == null {
        r := Failure(NotInitialized);
      } else {
        r := Success(io);
      }
    }

    /**
     * `emitNewMessage`: before initialisation nothing happens and nothing is
     * raised; afterwards `new_message` goes to every member of the message's
     * swap room, with no sender to exclude.
     */
    method EmitNewMessage(message: Message) returns (out: seq<Delivery>)
      ensures io == null ==> out == []
      ensures io != null ==> ExactlyOnce(out, ToAll(io.rooms, SwapRoom(message.swap), NewMessage, MessagePayload(message)))
    {
      out := [];
      if io != null {
        out := io.Broadcast(SwapRoom(message.swap), {}, NewMessage, MessagePayload(message));
      }
    }
  }

  /**
   * The module's lifecycle: `getIO` fails before initialisation and
   * `emitNewMessage` is silently dropped; a second initialisation starts a
   * hub with empty rooms, so members of the first one no longer hear it.
   */
  method LifecycleScenario()
  {
    var m := new SocketModule();
    var got := m.GetIO();
    assert got == Failure(NotInitialized);
    var msg := Message("m1", "99", "u1", "hi");
    var out := m.EmitNewMessage(msg);
    assert out == [];

    var verify: Verifier := (t: string) => if t == "jwt" then Some("u1") else None;
    var hub := m.InitializeSocket(verify);
    LoginCookieAccepted("jwt", "", verify, "u1");
    assert TokenCookie.Key + "jwt" + "" == "token=jwt";
    var auth := hub.Handshake("c1", Some("token=jwt"));
    assert auth == Accepted("u1");
    var _, _ := hub.OnJoinSwapRoom("c1", "99", "u1", Handlers.NotFound);
    out := m.EmitNewMessage(msg);
    assert Delivery("c1", NewMessage, MessagePayload(msg)) in out;

    var hub2 := m.InitializeSocket(verify);
    out := m.EmitNewMessage(msg);
    EmptyRoomSilent(out, hub2.rooms, SwapRoom("99"), {}, NewMessage, MessagePayload(msg));
  }
}
