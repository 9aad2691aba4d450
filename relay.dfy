/** The realtime relay: a table from room name (a document id as the client sends it) to the
    sockets that joined it. `join-document` adds the socket to a room; `text-change` forwards
    the delta, uninterpreted, to every other socket in the room. */
module Relay {

  type SocketId = string
  type RoomName = string

  /** `socket.to(room)`: the members of the room other than the sender. */
  function Recipients(members: set<SocketId>, sender: SocketId): (r: set<SocketId>)
    ensures sender !in r
    ensures forall s :: s in r <==> s in members && s != sender
  {
    members - {sender}
  }

  /** The table after `socket.join(room)`; a room that did not exist is created. */
  function WithMember(table: map<RoomName, set<SocketId>>, room: RoomName, socket: SocketId)
    : map<RoomName, set<SocketId>>
  {
    table[room := (if room in table then table[room] else {}) + {socket}]
  }

  /** Joining is set insertion: it is idempotent and leaves every other room alone. */
  lemma JoinIdempotent(table: map<RoomName, set<SocketId>>, room: RoomName, socket: SocketId)
    ensures WithMember(WithMember(table, room, socket), room, socket) == WithMember(table, room, socket)
    ensures forall r :: r in table && r != room ==>
              r in WithMember(table, room, socket) && WithMember(table, room, socket)[r] == table[r]
  {
  }

  class Rooms {
    var table: map<RoomName, set<SocketId>>

    /** Rooms exist only while someone is in them. */
    ghost predicate Valid()
      reads this
    {
      forall r :: r in table ==> table[r] != {}
    }

    constructor ()
      ensures Valid() && table == map[]
    {
      table := map[];
    }

    function Members(room: RoomName): set<SocketId>
      reads this
    {
      if room in table then table[room] else {}
    }

    /** `join-document`: the socket becomes a member of the room, keeping its other rooms. */
    method Join(socket: SocketId, room: RoomName)
      requires Valid()
      modifies this
      ensures Valid() && table == WithMember(old(table), room, socket)
      ensures Members(room) == old(Members(room)) + {socket}
    {
      table := WithMember(table, room, socket);
    }

    /** `text-change`: one delivery of the very same delta to each member of the room except
        the sender; the room table is not touched. */
    method TextChange<D>(sender: SocketId, room: RoomName, delta: D) returns (sent: map<SocketId, D>)
      ensures sender !in sent
      ensures forall s :: s in sent <==> s in Members(room) && s != sender
      ensures forall s :: s in sent ==> sent[s] == delta
    {
      sent := map s | s in Recipients(Members(room), sender) :: delta;
    }

    /** On disconnect the handler only logs; the transport itself takes the socket out of
        every room and drops rooms left empty. */
    method Disconnect(socket: SocketId)
      requires Valid()
      modifies this
      ensures Valid()
      ensures forall r :: Members(r) == old(Members(r)) - {socket}
      ensures forall r :: r in table <==> r in old(table) && old(table)[r] != {socket}
    {
      table := map r | r in table && table[r] - {socket} != {} :: table[r] - {socket};
    }
  }

  /** Two sockets in one room: an edit by the first reaches the second once and never
      echoes back to the first. */
  method EditReachesOthersOnly<D>(c1: SocketId, c2: SocketId, room: RoomName, delta: D)
      returns (sent: map<SocketId, D>)
    requires c1 != c2
    ensures sent == map[c2 := delta]
  {
    var rooms := new Rooms();
    rooms.Join(c1, room);
    rooms.Join(c2, room);
    sent := rooms.TextChange(c1, room, delta);
  }

  /** A socket that has disconnected receives no later edit, in any room. */
  method DisconnectedReceivesNothing<D>(rooms: Rooms, gone: SocketId, sender: SocketId,
                                        room: RoomName, delta: D)
      returns (sent: map<SocketId, D>)
    requires rooms.Valid()
    modifies rooms
    ensures rooms.Valid() && gone !in sent
  {
    rooms.Disconnect(gone);
    sent := rooms.TextChange(sender, room, delta);
  }
}
