/**
 * The transport's room table: for each room name, the connections in it.
 * Rooms have set semantics, and a room disappears when its last member
 * leaves, so no room name maps to an empty set.
 */
module Rooms {
  import opened Events

  type Table = map<RoomName, set<ConnId>>

  function Members(t: Table, room: RoomName): set<ConnId>
  {
    if room in t then t[room] else {}
  }

  /** No empty rooms, and every member is one of the live connections. */
  predicate WellFormed(t: Table, conns: set<ConnId>)
  {
    forall room :: room in t ==> t[room] != {} && t[room] <= conns
  }

  /** `socket.join(room)`. */
  function AddMember(t: Table, room: RoomName, c: ConnId): (t': Table)
    ensures Members(t', room) == Members(t, room) + {c}
    ensures forall r :: r != room ==> Members(t', r) == Members(t, r)
    ensures c in Members(t, room) ==> t' == t
    ensures forall conns :: WellFormed(t, conns) && c in conns ==> WellFormed(t', conns)
  {
    if c in Members(t, room) then t else t[room := Members(t, room) + {c}]
  }

  /** `socket.leave(room)`. */
  function RemoveMember(t: Table, room: RoomName, c: ConnId): (t': Table)
    ensures Members(t', room) == Members(t, room) - {c}
    ensures forall r :: r != room ==> Members(t', r) == Members(t, r)
    ensures c !in Members(t, room) ==> t' == t
    ensures forall conns :: WellFormed(t, conns) ==> WellFormed(t', conns)
  {
    if c !in Members(t, room) then t
    else if t[room] == {c} then t - {room}
    else t[room := t[room] - {c}]
  }

  /** What the transport does on disconnect: the connection leaves every room. */
  function RemoveEverywhere(t: Table, c: ConnId): (t': Table)
    ensures forall r :: Members(t', r) == Members(t, r) - {c}
    ensures forall conns :: WellFormed(t, conns) ==> WellFormed(t', conns - {c})
  {
    map r | r in t && t[r] - {c} != {} :: t[r] - {c}
  }

  /**
   * The deliveries of one emission of (event, payload) to a room, skipping
   * the connections in `except`: one per remaining member, and nothing else.
   */
  function Emission(t: Table, room: RoomName, except: set<ConnId>, event: EventKind, payload: Payload): (out: set<Delivery>)
    ensures forall c :: Delivery(c, event, payload) in out <==> c in Members(t, room) && c !in except
    ensures forall d :: d in out ==> d.event == event && d.payload == payload
  {
    set c | c in Members(t, room) && c !in except :: Delivery(c, event, payload)
  }

  /** `socket.to(room).emit(...)`: every member but the sender. */
  function ToOthers(t: Table, room: RoomName, sender: ConnId, event: EventKind, payload: Payload): (out: set<Delivery>)
    ensures forall d :: d in out ==> d.to != sender && d.to in Members(t, room)
    ensures forall c :: c in Members(t, room) && c != sender ==> Delivery(c, event, payload) in out
    ensures forall d :: d in out ==> d.event == event && d.payload == payload
  {
    Emission(t, room, {sender}, event, payload)
  }

  /** `io.to(room).emit(...)`: every member. */
  function ToAll(t: Table, room: RoomName, event: EventKind, payload: Payload): (out: set<Delivery>)
    ensures forall d :: d in out ==> d.to in Members(t, room)
    ensures forall c :: c in Members(t, room) ==> Delivery(c, event, payload) in out
    ensures forall d :: d in out ==> d.event == event && d.payload == payload
  {
    Emission(t, room, {}, event, payload)
  }

  /** Each delivery of `expected` appears in `out`, and no connection gets two. */
  predicate ExactlyOnce(out: seq<Delivery>, expected: set<Delivery>)
  {
    (forall i :: 0 <= i < |out| ==> out[i] in expected) &&
    (forall d :: d in expected ==> d in out) &&
    (forall i, j :: 0 <= i < j < |out| ==> out[i].to != out[j].to)
  }

  /** An emission to an empty room is silent. */
  lemma EmptyRoomSilent(out: seq<Delivery>, t: Table, room: RoomName, except: set<ConnId>, event: EventKind, payload: Payload)
    requires Members(t, room) == {}
    requires ExactlyOnce(out, Emission(t, room, except, event, payload))
    ensures out == []
  {
    var e := Emission(t, room, except, event, payload);
    assert forall d :: d in e ==> d == Delivery(d.to, event, payload) && d.to in Members(t, room);
    assert e == {};
    HeadInSeq(out);
  }

  /** Proof helper for EmptyRoomSilent: names the first element of a non-empty sequence. */
  lemma HeadInSeq<T>(s: seq<T>)
    ensures |s| > 0 ==> s[0] in s
  {
  }

  /** Leaving undoes joining a room the connection was not in. */
  lemma LeaveUndoesJoin(t: Table, conns: set<ConnId>, room: RoomName, c: ConnId)
    requires WellFormed(t, conns) && c !in Members(t, room)
    ensures RemoveMember(AddMember(t, room, c), room, c) == t
  {
    var t' := RemoveMember(AddMember(t, room, c), room, c);
    forall r ensures r in t' <==> r in t {
      if r == room && room in t { assert t[room] != {}; }
    }
    forall r | r in t ensures t'[r] == t[r] {
      assert Members(t', r) == Members(t, r);
    }
  }

  /**
   * A sender is excluded whether or not it is in the room: relaying from a
   * member or from a connection outside the room reaches the same others.
   */
  lemma SenderMembershipIrrelevant(t: Table, room: RoomName, sender: ConnId, event: EventKind, payload: Payload)
    ensures ToOthers(AddMember(t, room, sender), room, sender, event, payload) ==
            ToOthers(RemoveMember(t, room, sender), room, sender, event, payload)
  {
    var a := ToOthers(AddMember(t, room, sender), room, sender, event, payload);
    var b := ToOthers(RemoveMember(t, room, sender), room, sender, event, payload);
    forall d ensures d in a <==> d in b {
      if d in a || d in b { assert d == Delivery(d.to, event, payload); }
    }
  }
}
