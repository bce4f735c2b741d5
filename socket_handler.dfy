/** Sockethandler.js: the `SocketHandler` class over the registry it shares
    with the HTTP side. The registry holds `Room` objects updated in place;
    `Abs()` reads it, with the events emitted so far and the timer counter, as
    a `HubSpec.Hub`, and every handler is proved to move `Abs()` exactly as the
    `HubSpec` function of the same name does. */
module SocketHandlers {
  import opened Common
  import opened OrderedMap
  import opened RoomSpec
  import opened HubSpec
  import opened Rooms

  class SocketHandler {
    /** `this.rooms`: room id -> room, in insertion order. */
    var rooms: seq<Entry<string, Room>>
    /** Every event emitted through `socket.emit` or `io.emit`, in order. */
    var outbox: seq<Event>
    /** The handle the next `setTimeout` returns. */
    var nextTimer: Handle

    /** The state of each registered room, entry by entry; `Valid` ties it
        to the objects. */
    ghost var view: seq<Entry<string, RoomState>>

    ghost function Repr(): set<Room>
      reads this`rooms
    {
      set i | 0 <= i < |rooms| :: rooms[i].val
    }

    ghost function Abs(): Hub
      reads this
    {
      Hub(view, outbox, nextTimer)
    }

    /** `view` holds, entry by entry, the id and the state of each room object. */
    ghost predicate Mirrors()
      reads this`rooms, this`view, Repr()
    {
      |view| == |rooms| && forall i :: 0 <= i < |rooms| ==> view[i] == Entry(rooms[i].key, rooms[i].val.State())
    }

    /** Each id names its own room object, every room is valid and mirrored
        by `view`, which keeps the registry invariant. Outbox writes leave it
        alone. */
    ghost predicate Valid()
      reads this`rooms, this`view, this`nextTimer, Repr()
    {
      && Mirrors()
      && (forall i, j :: 0 <= i < j < |rooms| ==> rooms[i].val != rooms[j].val)
      && (forall i :: 0 <= i < |rooms| ==> rooms[i].val.Valid())
      && RegistryInv(view, nextTimer)
    }

    /** `new SocketHandler(io, rooms)` over a registry of rooms with no timer
        pending. */
    constructor (rooms: seq<Entry<string, Room>>)
      requires DistinctKeys(rooms)
      requires forall i, j :: 0 <= i < j < |rooms| ==> rooms[i].val != rooms[j].val
      requires forall i :: 0 <= i < |rooms| ==> rooms[i].val.Valid() && rooms[i].val.cleanupTimeout.None?
      ensures Valid()
      ensures this.rooms == rooms && outbox == [] && nextTimer == 0
    {
      this.rooms := rooms;
      outbox := [];
      nextTimer := 0;
      view := seq(|rooms|, i reads set j | 0 <= j < |rooms| :: rooms[j].val requires 0 <= i < |rooms| =>
        Entry(rooms[i].key, rooms[i].val.State()));
      new;
      assert Keys(view) == Keys(this.rooms);
      assert forall i, j :: 0 <= i < j < |view| ==> view[i].key != view[j].key;
    }

    /** `this.rooms.get(roomId)`: the position of its entry. */
    function Lookup(roomId: string): (found: Option<nat>)
      reads this`rooms, this`view, this`nextTimer, Repr()
      requires Valid()
      ensures found == Find(rooms, roomId) && found == Find(view, roomId)
      ensures found.None? <==> Get(view, roomId).None?
      ensures found.Some? ==> Get(view, roomId) == Some(rooms[found.value].val.State())
    {
      assert Keys(view) == Keys(rooms);
      FindByKeys(rooms, view, roomId);
      Find(rooms, roomId)
    }

    /** Only the room at entry `i` has changed, and `view` records its new state. */
    twostate lemma RoomChanged(i: nat)
      requires old(Valid()) && rooms == old(rooms) && i < |rooms|
      requires unchanged(Repr() - {rooms[i].val})
      requires view == old(view)[i := Entry(rooms[i].key, rooms[i].val.State())]
      requires rooms[i].val.Valid() && HubInv(Abs())
      ensures Valid()
    {
      assert forall j :: 0 <= j < |rooms| && j != i ==> rooms[j].val in Repr() - {rooms[i].val};
    }

    /** Only the outbox has changed. */
    twostate lemma OutboxOnly()
      requires old(Valid()) && unchanged(this`rooms, this`view, this`nextTimer) && unchanged(old(Repr()))
      ensures Valid()
    {
    }

    /** The entry at `i` was cut out of the registry. */
    twostate lemma RoomCut(i: nat)
      requires old(Valid()) && i < |old(rooms)| && rooms == old(rooms)[..i] + old(rooms)[i + 1..]
      requires view == old(view)[..i] + old(view)[i + 1..]
      requires unchanged(old(Repr()) - {old(rooms)[i].val})
      requires HubInv(Abs())
      ensures Valid() && Repr() <= old(Repr())
    {
      assert forall j :: 0 <= j < |rooms| ==> rooms[j] == old(rooms)[if j < i then j else j + 1];
      assert forall j :: 0 <= j < |rooms| ==> rooms[j].val in old(Repr()) - {old(rooms)[i].val};
    }

    /** Replacing entry `i`, the one `roomId` finds, is `map.set(roomId, st)`. */
    static lemma RoomUpdated(h: Hub, i: nat, roomId: string, st: RoomState)
      requires Find(h.rooms, roomId) == Some(i)
      ensures h.rooms[i := Entry(h.rooms[i].key, st)] == Set(h.rooms, roomId, st)
    {
    }

    method HandleJoinRoom(socketId: string, roomId: string, username: string, now: Time)
      requires Valid()
      modifies this, Repr()
      ensures Valid() && rooms == old(rooms)
      ensures Abs() == HubSpec.JoinRoom(old(Abs()), socketId, roomId, username, now)
    {
      ghost var h0 := Abs();
      var found := Lookup(roomId);
      if found.None? || !rooms[found.value].val.IsUserAuthorized(username) {
        outbox := outbox + [Emit(ToSocket(socketId), "error", ErrorInfo("Unauthorized"))];
        OutboxOnly();
        assert !CanJoin(h0, roomId, username);
        return;
      }
      JoinAt(found.value, socketId, roomId, username, now);
    }

    /** The accepted branch of `handleJoinRoom`: room `i` is the one asked
        for and it has authorized `username`. */
    method JoinAt(i: nat, socketId: string, roomId: string, username: string, now: Time)
      requires Valid() && Find(rooms, roomId) == Some(i) && CanJoin(Abs(), roomId, username)
      modifies this, Repr()
      ensures Valid() && rooms == old(rooms)
      ensures Abs() == HubSpec.JoinRoom(old(Abs()), socketId, roomId, username, now)
    {
      ghost var h0 := Abs();
      var _ := Lookup(roomId);
      var room := rooms[i].val;
      var _ := room.AddUser(socketId, username, now);
      var names := room.GetAllUsers();
      outbox := outbox + [Emit(ToSocket(socketId), "room-joined", RoomJoined(roomId, names, room.GetMessages())),
                          Emit(ToRoom(roomId), "user-joined", UserJoined(username, names))];
      ghost var st := room.State();
      view := view[i := Entry(roomId, st)];
      RoomUpdated(h0, i, roomId, st);
      assert st == RoomSpec.AddUser(Get(h0.rooms, roomId).value, socketId, username, now).0;
      assert Abs() == Hub(Set(h0.rooms, roomId, st), h0.outbox + [Emit(ToSocket(socketId), "room-joined", RoomJoined(roomId, Usernames(st.users), st.messages)),
                          Emit(ToRoom(roomId), "user-joined", UserJoined(username, Usernames(st.users)))], h0.nextTimer);
      RoomChanged(i);
    }

    /** `handleLeaveRoom(socket, { roomId, username })` */
    method HandleLeaveRoom(socketId: string, roomId: string, username: string, now: Time)
      requires Valid()
      modifies this, Repr()
      ensures Valid() && rooms == old(rooms)
      ensures Abs() == HubSpec.LeaveRoom(old(Abs()), socketId, roomId, username, now)
    {
      var found := Lookup(roomId);
      if found.None? {
        return;
      }
      LeaveRoom(rooms[found.value].val, roomId, socketId, username, now);
    }

    /** `leaveRoom(socket, room, roomId, username)`, `room` being the one
        registered under `roomId`. */
    method LeaveRoom(room: Room, roomId: string, socketId: string, username: string, now: Time)
      requires Valid() && Find(rooms, roomId).Some? && rooms[Find(rooms, roomId).value].val == room
      modifies this, Repr()
      ensures Valid() && rooms == old(rooms)
      ensures Abs() == HubSpec.LeaveRoom(old(Abs()), socketId, roomId, username, now)
    {
      ghost var h0 := Abs();
      var found := Lookup(roomId);
      var i := found.value;
      var _ := room.RemoveUser(socketId, now);
      outbox := outbox + [Emit(ToRoom(roomId), "user-left", UserLeft(username, room.GetAllUsers())),
                          Emit(ToSocket(socketId), "room-left", NoPayload)];
      ArmIfEmpty(room);
      ghost var st := room.State();
      view := view[i := Entry(roomId, st)];
      RoomUpdated(h0, i, roomId, st);
      assert Abs() == Hub(Set(h0.rooms, roomId, st),
        h0.outbox + [Emit(ToRoom(roomId), "user-left", UserLeft(username, Usernames(st.users))),
                     Emit(ToSocket(socketId), "room-left", NoPayload)],
        nextTimer);
      assert Abs() == HubSpec.LeaveRoom(h0, socketId, roomId, username, now);
      RoomChanged(i);
    }

    /** `handleChatMessage(socket, { roomId, message, username })` */
    method HandleChatMessage(roomId: string, message: string, username: string, now: Time)
      requires Valid()
      modifies this, Repr()
      ensures Valid() && rooms == old(rooms)
      ensures Abs() == HubSpec.ChatMessage(old(Abs()), roomId, message, username, now)
    {
      ghost var h0 := Abs();
      var found := Lookup(roomId);
      if found.None? || !rooms[found.value].val.IsUserAuthorized(username) {
        assert !CanJoin(h0, roomId, username);
        return;
      }
      assert CanJoin(h0, roomId, username);
      PostAt(found.value, roomId, Text(message, username, now), "chat message", now);
    }

    /** `room.addMessage(record)` followed by `io.to(roomId).emit(event, record)`. */
    method PostAt(i: nat, roomId: string, record: Message, event: string, now: Time)
      requires Valid() && Find(rooms, roomId) == Some(i)
      modifies this, Repr()
      ensures Valid() && rooms == old(rooms)
      ensures Abs() == Post(old(Abs()), roomId, record, event, now)
    {
      ghost var h0 := Abs();
      var _ := Lookup(roomId);
      var room := rooms[i].val;
      room.AddMessage(record, now);
      outbox := outbox + [Emit(ToRoom(roomId), event, Record(record))];
      ghost var st := room.State();
      view := view[i := Entry(roomId, st)];
      RoomUpdated(h0, i, roomId, st);
      assert Abs() == Post(h0, roomId, record, event, now);
      RoomChanged(i);
    }

    /** `handleDisconnect(socket)`: every registered room, in registry order. */
    method HandleDisconnect(socketId: string, now: Time)
      requires Valid()
      modifies this, Repr()
      ensures Valid() && rooms == old(rooms)
      ensures Abs() == HubSpec.Disconnect(old(Abs()), socketId, now)
    {
      ghost var h0 := Abs();
      ghost var ids := Keys(h0.rooms);
      var i := 0;
      while i < |rooms|
        invariant 0 <= i <= |rooms| == |ids|
        invariant rooms == old(rooms) && Valid()
        invariant forall j :: 0 <= j < |rooms| ==> rooms[j].key == ids[j]
        invariant Abs() == DisconnectAll(h0, socketId, ids[..i], now)
      {
        DisconnectAllSnoc(h0, socketId, ids, i, now);
        DisconnectStep(socketId, i, now);
        i := i + 1;
      }
      assert ids[..i] == ids;
      assert Abs() == DisconnectAll(h0, socketId, Keys(h0.rooms), now);
    }

    /** One pass of the `handleDisconnect` loop, over entry `i`. */
    method DisconnectStep(socketId: string, i: nat, now: Time)
      requires Valid() && i < |rooms|
      modifies this, Repr()
      ensures Valid() && rooms == old(rooms)
      ensures Abs() == DisconnectFrom(old(Abs()), socketId, rooms[i].key, now)
    {
      ghost var h1 := Abs();
      var roomId := rooms[i].key;
      var room := rooms[i].val;
      FindAt(h1.rooms, i);
      var _ := Lookup(roomId);
      var username := room.GetUsername(socketId);
      if username.None? || username.value == "" {
        assert !Affected(h1.rooms, socketId, roomId);
        return;
      }
      LeaveOnDisconnect(i, socketId, roomId, now);
    }

    /** The body of the `handleDisconnect` loop on a room where the socket
        has a name: `removeUser`, `user-left`, and the timer if it emptied. */
    method LeaveOnDisconnect(i: nat, socketId: string, roomId: string, now: Time)
      requires Valid() && Find(rooms, roomId) == Some(i) && Affected(Abs().rooms, socketId, roomId)
      modifies this, Repr()
      ensures Valid() && rooms == old(rooms)
      ensures Abs() == DisconnectFrom(old(Abs()), socketId, roomId, now)
    {
      ghost var h1 := Abs();
      var _ := Lookup(roomId);
      DisconnectFromAt(h1, socketId, roomId, i, now);
      var room := rooms[i].val;
      var username := room.RemoveUser(socketId, now);
      outbox := outbox + [Emit(ToRoom(roomId), "user-left", UserLeft(username.value, room.GetAllUsers()))];
      ArmIfEmpty(room);
      view := view[i := Entry(roomId, room.State())];
      assert Abs() == DisconnectFrom(h1, socketId, roomId, now);
      RoomChanged(i);
    }

    /** `if (room.users.size === 0) room.startCleanupTimer(...)`: a room
        left empty arms a timer under the next handle. */
    method ArmIfEmpty(room: Room)
      requires room.Valid()
      modifies room, this`nextTimer
      ensures room.Valid() && room.log == old(room.log)
      ensures room.State() == if old(room.users) == [] then StartCleanupTimer(old(room.State()), old(nextTimer)) else old(room.State())
      ensures nextTimer == if old(room.users) == [] then old(nextTimer) + 1 else old(nextTimer)
    {
      if room.GetUserCount() == 0 {
        room.StartCleanupTimer(nextTimer);
        nextTimer := nextTimer + 1;
      }
    }

    /** `cleanupRoom(roomId)` */
    method CleanupRoom(roomId: string)
      requires Valid()
      modifies this, Repr()
      ensures Valid() && Repr() <= old(Repr())
      ensures Abs() == HubSpec.CleanupRoom(old(Abs()), roomId)
    {
      ghost var h0 := Abs();
      var found := Lookup(roomId);
      if found.None? {
        return;
      }
      var i := found.value;
      var room := rooms[i].val;
      room.ClearCleanupTimeout();
      rooms := Delete(rooms, roomId);
      view := Delete(view, roomId);
      outbox := outbox + [Emit(ToAll, "room-deleted", RoomDeleted(roomId))];
      assert Abs() == HubSpec.CleanupRoom(h0, roomId);
      RoomCut(i);
    }

    /** Timer `t` of the room registered under `roomId` elapses; its callback
        is `() => this.cleanupRoom(roomId)`. */
    method FireTimer(roomId: string, t: Handle)
      requires Valid()
      modifies this, Repr()
      ensures Valid() && Repr() <= old(Repr())
      ensures Abs() == HubSpec.FireTimer(old(Abs()), roomId, t)
    {
      ghost var h0 := Abs();
      var found := Lookup(roomId);
      if found.None? {
        return;
      }
      var i := found.value;
      var room := rooms[i].val;
      var callback := room.Fire(t);
      ghost var st := room.State();
      view := view[i := Entry(roomId, st)];
      RoomUpdated(h0, i, roomId, st);
      HubInvGet(h0, roomId);
      HubInvSet(h0, roomId, st, h0.nextTimer);
      assert Abs() == h0.(rooms := Set(h0.rooms, roomId, st));
      RoomChanged(i);
      if callback.Some? {
        CleanupRoom(roomId);
      }
    }
  }
}
