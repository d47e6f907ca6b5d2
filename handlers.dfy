/**
 * The per-event handlers of a connection, each one atomic step on the room
 * table that also yields the deliveries it causes. User and swap lookups are
 * parameters: a record, no record, or a thrown error.
 */
module Handlers {
  import opened Events
  import opened Rooms

  datatype Lookup<T> = Found(value: T) | NotFound | LookupError

  /** The events a client sends, with the fields each handler destructures. */
  datatype ClientEvent =
    | JoinSwapRoom(swapId: string, userId: UserId)
    | LeaveSwapRoom(swapId: string, userId: UserId)
    | StartTyping(swapId: string, userId: UserId, userName: string)
    | StopTyping(swapId: string, userId: UserId, userName: string)
    | CompleteTask(swapId: string, userId: UserId)
    | ApproveTask(swapId: string, userId: UserId)
    | SendMessage(swapId: string, message: Message)
    | MarkSeen(swapId: string, userId: UserId)
    | Disconnect

  /**
   * The new table, the deliveries, and whether an error escaped the handler
   * (a rejected promise nothing catches).
   */
  datatype Outcome = Outcome(table: Table, deliveries: set<Delivery>, escaped: bool)

  /** `join_swap_room`: join, then announce to the others if the user is found. */
  function JoinStep(t: Table, sender: ConnId, swapId: string, userId: UserId, user: Lookup<string>): (r: Outcome)
    ensures Members(r.table, SwapRoom(swapId)) == Members(t, SwapRoom(swapId)) + {sender}
    ensures forall room :: room != SwapRoom(swapId) ==> Members(r.table, room) == Members(t, room)
    ensures sender in Members(t, SwapRoom(swapId)) ==> r.table == t
    ensures !user.Found? ==> r.deliveries == {}
    ensures user.Found? ==> forall d :: d in r.deliveries <==>
      d.to in Members(t, SwapRoom(swapId)) && d.to != sender &&
      d.event == UserJoined && d.payload == Presence(swapId, userId, user.value)
    ensures r.escaped <==> user.LookupError?
  {
    var room := SwapRoom(swapId);
    var t' := AddMember(t, room, sender);
    var out := if user.Found? then ToOthers(t', room, sender, UserJoined, Presence(swapId, userId, user.value)) else {};
    Outcome(t', out, user.LookupError?)
  }

  /** `leave_swap_room`: leave, then tell the remaining members if the user is found. */
  function LeaveStep(t: Table, sender: ConnId, swapId: string, userId: UserId, user: Lookup<string>): (r: Outcome)
    ensures Members(r.table, SwapRoom(swapId)) == Members(t, SwapRoom(swapId)) - {sender}
    ensures forall room :: room != SwapRoom(swapId) ==> Members(r.table, room) == Members(t, room)
    ensures sender !in Members(t, SwapRoom(swapId)) ==> r.table == t
    ensures !user.Found? ==> r.deliveries == {}
    ensures user.Found? ==> forall d :: d in r.deliveries <==>
      d.to in Members(r.table, SwapRoom(swapId)) && d.to != sender &&
      d.event == UserLeft && d.payload == Presence(swapId, userId, user.value)
    ensures r.escaped <==> user.LookupError?
  {
    var room := SwapRoom(swapId);
    var t' := RemoveMember(t, room, sender);
    var out := if user.Found? then ToOthers(t', room, sender, UserLeft, Presence(swapId, userId, user.value)) else {};
    Outcome(t', out, user.LookupError?)
  }

  /** `typing_start` / `typing_stop`: forward the three fields to the others. */
  function TypingStep(t: Table, sender: ConnId, event: EventKind, swapId: string, userId: UserId, userName: string): (r: Outcome)
    requires event == TypingStart || event == TypingStop
    ensures r.table == t && !r.escaped
    ensures forall d :: d in r.deliveries <==>
      d.to in Members(t, SwapRoom(swapId)) && d.to != sender &&
      d.event == event && d.payload == Presence(swapId, userId, userName)
  {
    Outcome(t, ToOthers(t, SwapRoom(swapId), sender, event, Presence(swapId, userId, userName)), false)
  }

  /**
   * `task_completed` / `task_approved`: refetch the swap and send the record
   * to the others; a missing record or a failed fetch sends nothing and the
   * error is swallowed.
   */
  function TaskStep(t: Table, sender: ConnId, swapId: string, swap: Lookup<SwapRecord>): (r: Outcome)
    ensures r.table == t && !r.escaped
    ensures !swap.Found? ==> r.deliveries == {}
    ensures swap.Found? ==> forall d :: d in r.deliveries <==>
      d.to in Members(t, SwapRoom(swapId)) && d.to != sender &&
      d.event == SwapUpdated && d.payload == SwapPayload(swap.value)
  {
    var out := if swap.Found? then ToOthers(t, SwapRoom(swapId), sender, SwapUpdated, SwapPayload(swap.value)) else {};
    Outcome(t, out, false)
  }

  /** `send_message`: forward the message to the others as `new_message`. */
  function SendMessageStep(t: Table, sender: ConnId, swapId: string, message: Message): (r: Outcome)
    ensures r.table == t && !r.escaped
    ensures forall d :: d in r.deliveries <==>
      d.to in Members(t, SwapRoom(swapId)) && d.to != sender &&
      d.event == NewMessage && d.payload == MessagePayload(message)
  {
    Outcome(t, ToOthers(t, SwapRoom(swapId), sender, NewMessage, MessagePayload(message)), false)
  }

  /** `messages_seen`: forward `{swapId, userId}` to the others. */
  function SeenStep(t: Table, sender: ConnId, swapId: string, userId: UserId): (r: Outcome)
    ensures r.table == t && !r.escaped
    ensures forall d :: d in r.deliveries <==>
      d.to in Members(t, SwapRoom(swapId)) && d.to != sender &&
      d.event == MessagesSeen && d.payload == Seen(swapId, userId)
  {
    Outcome(t, ToOthers(t, SwapRoom(swapId), sender, MessagesSeen, Seen(swapId, userId)), false)
  }

  /** `disconnect`: the handler is empty; the transport drops the connection from every room. */
  function DisconnectStep(t: Table, sender: ConnId): (r: Outcome)
    ensures forall room :: Members(r.table, room) == Members(t, room) - {sender}
    ensures r.deliveries == {} && !r.escaped
  {
    Outcome(RemoveEverywhere(t, sender), {}, false)
  }

  /** The room an event is addressed to. */
  function EventRoom(ev: ClientEvent): RoomName
    requires !ev.Disconnect?
  {
    SwapRoom(ev.swapId)
  }

  /** The handler that runs for an event from `sender`. */
  function Step(t: Table, sender: ConnId, ev: ClientEvent, user: Lookup<string>, swap: Lookup<SwapRecord>): (r: Outcome)
    ensures ev.CompleteTask? || ev.ApproveTask? ==> r == TaskStep(t, sender, ev.swapId, swap)
    ensures r.escaped ==> (ev.JoinSwapRoom? || ev.LeaveSwapRoom?) && user.LookupError?
    ensures forall d :: d in r.deliveries ==> d.to != sender
  {
    match ev
    case JoinSwapRoom(swapId, userId) => JoinStep(t, sender, swapId, userId, user)
    case LeaveSwapRoom(swapId, userId) => LeaveStep(t, sender, swapId, userId, user)
    case StartTyping(swapId, userId, userName) => TypingStep(t, sender, TypingStart, swapId, userId, userName)
    case StopTyping(swapId, userId, userName) => TypingStep(t, sender, TypingStop, swapId, userId, userName)
    case CompleteTask(swapId, _) => TaskStep(t, sender, swapId, swap)
    case ApproveTask(swapId, _) => TaskStep(t, sender, swapId, swap)
    case SendMessage(swapId, message) => SendMessageStep(t, sender, swapId, message)
    case MarkSeen(swapId, userId) => SeenStep(t, sender, swapId, userId)
    case Disconnect => DisconnectStep(t, sender)
  }

  /**
   * Every handler keeps the table well formed: no empty rooms, and members
   * are live connections (the sender stops being one when it disconnects).
   */
  lemma StepKeepsWellFormed(t: Table, conns: set<ConnId>, sender: ConnId, ev: ClientEvent,
                            user: Lookup<string>, swap: Lookup<SwapRecord>)
    requires WellFormed(t, conns) && sender in conns
    ensures WellFormed(Step(t, sender, ev, user, swap).table, if ev.Disconnect? then conns - {sender} else conns)
  {
  }

  /**
   * Sender exclusion, room scoping and payload shapes: no handler delivers
   * to the sender, every delivery goes to a member of the event's room, and
   * every payload has the shape of its event kind.
   */
  lemma StepDeliveries(t: Table, sender: ConnId, ev: ClientEvent, user: Lookup<string>, swap: Lookup<SwapRecord>)
    ensures var r := Step(t, sender, ev, user, swap);
      (ev.Disconnect? ==> r.deliveries == {}) &&
      forall d :: d in r.deliveries ==>
        d.to != sender && ShapeFits(d.event, d.payload) &&
        d.to in Members(r.table, EventRoom(ev)) && d.to in Members(t, EventRoom(ev))
  {
  }

  /** A handler changes the membership of the sender and of nobody else. */
  lemma StepOnlyMovesSender(t: Table, sender: ConnId, ev: ClientEvent, user: Lookup<string>,
                            swap: Lookup<SwapRecord>, room: RoomName, c: ConnId)
    requires c != sender
    ensures c in Members(Step(t, sender, ev, user, swap).table, room) <==> c in Members(t, room)
  {
  }

  /** Only join and leave touch the table, and errors escape only from their lookups. */
  lemma OnlyMembershipEventsChangeTable(t: Table, sender: ConnId, ev: ClientEvent,
                                        user: Lookup<string>, swap: Lookup<SwapRecord>)
    requires !ev.JoinSwapRoom? && !ev.LeaveSwapRoom? && !ev.Disconnect?
    ensures Step(t, sender, ev, user, swap).table == t
    ensures !Step(t, sender, ev, user, swap).escaped
  {
  }

  /**
   * Idempotent join: a second join leaves the table as the first left it,
   * so a later emission reaches the connection once.
   */
  lemma JoinTwice(t: Table, sender: ConnId, swapId: string, userId: UserId, user: Lookup<string>)
    ensures var once := JoinStep(t, sender, swapId, userId, user);
      JoinStep(once.table, sender, swapId, userId, user).table == once.table
  {
  }

  /** A lookup miss does not stop the join and announces nothing. */
  lemma JoinWithUnknownUser(t: Table, sender: ConnId, swapId: string, userId: UserId)
    ensures var r := JoinStep(t, sender, swapId, userId, NotFound);
      sender in Members(r.table, SwapRoom(swapId)) && r.deliveries == {} && !r.escaped
  {
  }

  /** Leaving after a first join restores the table. */
  lemma {:induction false} JoinThenLeave(t: Table, conns: set<ConnId>, sender: ConnId, swapId: string,
                                         userId: UserId, u1: Lookup<string>, u2: Lookup<string>)
    requires WellFormed(t, conns) && sender !in Members(t, SwapRoom(swapId))
    ensures LeaveStep(JoinStep(t, sender, swapId, userId, u1).table, sender, swapId, userId, u2).table == t
  {
    LeaveUndoesJoin(t, conns, SwapRoom(swapId), sender);
  }

  /**
   * A and B join swap-42; A starts typing; B gets exactly the forwarded
   * payload and A gets nothing.
   */
  lemma TypingScenario()
    ensures var t1 := JoinStep(map[], "A", "42", "u1", Found("Alice")).table;
      var t2 := JoinStep(t1, "B", "42", "u2", Found("Bob")).table;
      Step(t2, "A", StartTyping("42", "u1", "Alice"), NotFound, NotFound).deliveries ==
        {Delivery("B", TypingStart, Presence("42", "u1", "Alice"))}
  {
    var t1 := JoinStep(map[], "A", "42", "u1", Found("Alice")).table;
    var t2 := JoinStep(t1, "B", "42", "u2", Found("Bob")).table;
    assert Members(t2, SwapRoom("42")) == {"A", "B"};
    var out := Step(t2, "A", StartTyping("42", "u1", "Alice"), NotFound, NotFound).deliveries;
    assert Delivery("B", TypingStart, Presence("42", "u1", "Alice")) in out;
    forall d | d in out ensures d == Delivery("B", TypingStart, Presence("42", "u1", "Alice")) {
      assert d.to in {"A", "B"} && d.to != "A";
    }
  }

  /** task_completed for a swap deleted meanwhile: nothing is sent, nothing escapes. */
  lemma DeletedSwapScenario(t: Table, sender: ConnId)
    ensures var r := Step(t, sender, CompleteTask("7", "u1"), NotFound, NotFound);
      r.deliveries == {} && !r.escaped && r.table == t
  {
  }
}
