/** Identities, room names, and the events the hub sends to clients. */
module Events {

  type ConnId = string
  type UserId = string
  type RoomName = string

  const RoomPrefix: string := "swap-"

  /** The room of a swap conversation, `swap-${swapId}`. */
  function SwapRoom(swapId: string): (room: RoomName)
    ensures |room| == |RoomPrefix| + |swapId|
    ensures room[..|RoomPrefix|] == RoomPrefix
    ensures room[|RoomPrefix|..] == swapId
  {
    RoomPrefix + swapId
  }

  /** Distinct swaps never share a room. */
  lemma SwapRoomInjective(a: string, b: string)
    requires SwapRoom(a) == SwapRoom(b)
    ensures a == b
  {
    assert a == SwapRoom(a)[|RoomPrefix|..];
  }

  /** A user as the swap record's populated `sender`/`receiver` shows it. */
  datatype UserSummary = UserSummary(id: UserId, name: string, avatar: string)

  /** A swap record with its parties populated; its other fields travel as-is. */
  datatype SwapRecord = SwapRecord(id: string, sender: UserSummary, receiver: UserSummary, details: string)

  /** A chat message record; `swap` is the id of the swap it belongs to. */
  datatype Message = Message(id: string, swap: string, sender: UserId, content: string)

  datatype EventKind =
    | UserJoined | UserLeft
    | TypingStart | TypingStop
    | SwapUpdated
    | NewMessage
    | MessagesSeen

  datatype Payload =
    | Presence(swapId: string, userId: UserId, userName: string)
    | Seen(swapId: string, userId: UserId)
    | SwapPayload(swap: SwapRecord)
    | MessagePayload(message: Message)

  /** One event handed to one connection. */
  datatype Delivery = Delivery(to: ConnId, event: EventKind, payload: Payload)

  /** The fixed payload shape of each event kind. */
  predicate ShapeFits(event: EventKind, payload: Payload)
  {
    match event
    case UserJoined | UserLeft | TypingStart | TypingStop => payload.Presence?
    case MessagesSeen => payload.Seen?
    case SwapUpdated => payload.SwapPayload?
    case NewMessage => payload.MessagePayload?
  }
}
