/** p2p-chat-app/server.js run in place: the global `rooms` registry is a
    field the handlers update with `set`, `add`, `delete` and `rooms.delete`,
    and every event they emit is appended to `outbox`. Each handler is proved
    against the function of the same name in `PrototypeSpec`. */
module Prototype {
  import opened Common
  import opened OrderedMap
  import opened PrototypeSpec

  class PrototypeServer {
    /** `const rooms = new Map()`: room id -> the `Set` of its usernames. */
    var rooms: seq<Entry<string, seq<string>>>
    var outbox: seq<Event>

    ghost function Abs(): Proto
      reads this
    {
      Proto(rooms, outbox)
    }

    ghost predicate Valid()
      reads this
    {
      ProtoInv(Abs())
    }

    constructor ()
      ensures Valid() && Abs() == Initial
    {
      rooms := [];
      outbox := [];
    }

    /** `joinRoom(socket, roomId, username)` on a registered room. */
    method JoinRoom(socketId: string, roomId: string, username: string)
      requires WellFormed(Abs()) && Get(rooms, roomId).Some?
      modifies this
      ensures Abs() == PrototypeSpec.JoinRoom(old(Abs()), socketId, roomId, username)
    {
      var members := Get(rooms, roomId).value;
      rooms := Set(rooms, roomId, SetAdd(members, username));
      outbox := outbox + [Emit(ToRoom(roomId), "user-joined", UserJoined(username, Get(rooms, roomId).value))];
      outbox := outbox + [Emit(ToSocket(socketId), "room-joined", RoomJoined(roomId, Get(rooms, roomId).value))];
    }

    /** `socket.on('create-room', ...)` */
    method CreateRoom(socketId: string, roomId: string, username: string)
      requires Valid()
      modifies this
      ensures Valid()
      ensures Abs() == PrototypeSpec.CreateRoom(old(Abs()), socketId, roomId, username)
    {
      if Get(rooms, roomId).None? {
        rooms := Set(rooms, roomId, []);
      }
      JoinRoom(socketId, roomId, username);
    }

    /** `socket.on('join-room', ...)` */
    method JoinRequest(socketId: string, roomId: string, username: string)
      requires Valid()
      modifies this
      ensures Valid()
      ensures Abs() == PrototypeSpec.JoinRequest(old(Abs()), socketId, roomId, username)
    {
      if Get(rooms, roomId).None? {
        outbox := outbox + [Emit(ToSocket(socketId), "room-not-found", NoPayload)];
        return;
      }
      JoinRoom(socketId, roomId, username);
    }

    /** `socket.on('leave-room', ...)` */
    method LeaveRoom(roomId: string, username: string)
      requires Valid()
      modifies this
      ensures Valid()
      ensures Abs() == PrototypeSpec.LeaveRoom(old(Abs()), roomId, username)
    {
      var found := Get(rooms, roomId);
      if found.None? {
        return;
      }
      rooms := Set(rooms, roomId, SetDelete(found.value, username));
      if |Get(rooms, roomId).value| == 0 {
        rooms := Delete(rooms, roomId);
      }
      outbox := outbox + [Emit(ToRoom(roomId), "user-left", UserLeft(username, MembersOrNone(rooms, roomId)))];
    }
  }
}
