/** server.js in place: its `Room` class and the global `rooms` map with the
    socket handlers around it. Each method is proved against the function of
    the same name in `LegacySpec`. */
module LegacyServer {
  import opened Common
  import opened OrderedMap
  import opened History
  import opened LegacySpec

  /** server.js's `Room` (lines 32-103). */
  class LegacyRoom {
    const id: string
    const createdAt: Time
    var users: seq<Entry<string, string>>
    var messages: seq<Record>
    var lastActivity: Time
    var cleanupTimeout: Option<Handle>

    /** Every record `addMessage` stored since construction. */
    ghost var log: seq<Record>

    ghost function State(): LRoom
      reads this
    {
      LRoom(id, users, messages, createdAt, lastActivity, cleanupTimeout)
    }

    /** The room invariant, and the history is the last 50 records stored. */
    ghost predicate Valid()
      reads this
    {
      RoomInv(State()) && messages == LastN(log, LegacyCap)
    }

    /** `new Room(id)` */
    constructor (id: string, now: Time)
      ensures Valid() && log == []
      ensures State() == NewRoom(id, now)
    {
      this.id := id;
      createdAt := now;
      users := [];
      messages := [];
      lastActivity := now;
      cleanupTimeout := None;
      log := [];
    }

    method AddUser(socketId: string, username: string, now: Time)
      requires Valid()
      modifies this
      ensures Valid() && log == old(log)
      ensures State() == LegacySpec.AddUser(old(State()), socketId, username, now)
    {
      users := Set(users, socketId, username);
      lastActivity := now;
      if cleanupTimeout.Some? {
        cleanupTimeout := None;
      }
    }

    method RemoveUser(socketId: string, now: Time) returns (username: Option<string>)
      requires Valid()
      modifies this
      ensures Valid() && log == old(log)
      ensures (State(), username) == LegacySpec.RemoveUser(old(State()), socketId, now)
    {
      username := Get(users, socketId);
      users := Delete(users, socketId);
      lastActivity := now;
    }

    /** `getUsername(socketId)` */
    function GetUsername(socketId: string): (r: Option<string>)
      reads this
      ensures r.Some? <==> exists i :: 0 <= i < |users| && users[i].key == socketId
      ensures Valid() ==> forall i :: 0 <= i < |users| && users[i].key == socketId ==> r == Some(users[i].val)
    {
      Get(users, socketId)
    }

    /** `getUserCount()`: as many members as `getAllUsers()` lists. */
    function GetUserCount(): (n: nat)
      reads this
      ensures n == |GetAllUsers()|
    {
      |users|
    }

    /** `getAllUsers()` */
    function GetAllUsers(): (r: seq<string>)
      reads this
      ensures r == AllUsers(users)
    {
      Values(users)
    }

    method AddMessage(message: Record, now: Time)
      requires Valid()
      modifies this
      ensures Valid() && log == old(log) + [message]
      ensures State() == LegacySpec.AddMessage(old(State()), message, now)
    {
      PushKeepsWindow(log, message, LegacyCap);
      messages := messages + [message];
      lastActivity := now;
      if |messages| > LegacyCap {
        messages := messages[1..];
      }
      log := log + [message];
    }

    /** `getRecentMessages()`: the last 50 records stored, oldest first. */
    function GetRecentMessages(): (r: seq<Record>)
      reads this
      ensures Valid() ==> r == LastN(log, LegacyCap) && |r| <= LegacyCap
    {
      messages
    }

    /** `startCleanupTimer(callback)`, `h` being what `setTimeout` returns. */
    method StartCleanupTimer(h: Handle)
      requires Valid()
      modifies this
      ensures Valid() && log == old(log)
      ensures State() == LegacySpec.StartCleanupTimer(old(State()), h)
    {
      cleanupTimeout := Some(h);
    }

    /** Timer `h` elapses; the result is the id the callback is invoked with. */
    method Fire(h: Handle) returns (callback: Option<string>)
      requires Valid()
      modifies this
      ensures Valid() && log == old(log)
      ensures (State(), callback) == LegacySpec.Fire(old(State()), h)
    {
      if cleanupTimeout != Some(h) {
        return None;
      }
      cleanupTimeout := None;
      if |users| == 0 {
        return Some(id);
      }
      return None;
    }

    method Cleanup()
      modifies this
      ensures log == old(log)
      ensures State() == LegacySpec.Cleanup(old(State()))
    {
      if cleanupTimeout.Some? {
        cleanupTimeout := None;
      }
    }
  }

  /** The global `rooms` map and the `io.on('connection')` handlers. */
  class ChatServer {
    var rooms: seq<Entry<string, LegacyRoom>>
    var outbox: seq<Event>
    var nextTimer: Handle

    /** The state of each registered room, entry by entry; `Valid` ties it
        to the objects. */
    ghost var view: seq<Entry<string, LRoom>>

    ghost function Repr(): set<LegacyRoom>
      reads this`rooms
    {
      set i | 0 <= i < |rooms| :: rooms[i].val
    }

    ghost function Abs(): Server
      reads this
    {
      Server(view, outbox, nextTimer)
    }

    /** `view` holds, entry by entry, the id and the state of each room object. */
    ghost predicate Mirrors()
      reads this`rooms, this`view, Repr()
    {
      |view| == |rooms| && forall i :: 0 <= i < |rooms| ==> view[i] == Entry(rooms[i].key, rooms[i].val.State())
    }

    /** Distinct room objects, each valid, mirrored by `view`, which keeps the
        registry invariant. Outbox writes leave it alone. */
    ghost predicate Valid()
      reads this`rooms, this`view, this`nextTimer, Repr()
    {
      && Mirrors()
      && (forall i, j :: 0 <= i < j < |rooms| ==> rooms[i].val != rooms[j].val)
      && (forall i :: 0 <= i < |rooms| ==> rooms[i].val.Valid())
      && RegistryInv(view, nextTimer)
    }

    /** `const rooms = new Map()` */
    constructor ()
      ensures Valid() && rooms == [] && outbox == [] && nextTimer == 0
    {
      rooms := [];
      outbox := [];
      nextTimer := 0;
      view := [];
    }

    /** `rooms.get(roomId)`: the position of its entry. */
    function Lookup(roomId: string): (found: Option<nat>)
      reads this`rooms, this`view, this`nextTimer, Repr()
      requires Valid()
      ensures found == Find(rooms, roomId) && found == Find(view, roomId)
      ensures found.None? <==> Get(view, roomId).None?
      ensures found.Some? ==> Get(view, roomId) == Some(rooms[found.value].val.State())
    {
      assert Keys(view) == Keys(rooms);
      FindByKeys(rooms, view, roomId);
      Find(rooms, roomId)
    }

    /** Only the room at entry `i` has changed, and `view` records its new state. */
    twostate lemma RoomChanged(i: nat)
      requires old(Valid()) && rooms == old(rooms) && i < |rooms|
      requires unchanged(Repr() - {rooms[i].val})
      requires view == old(view)[i := Entry(rooms[i].key, rooms[i].val.State())]
      requires rooms[i].val.Valid() && ServerInv(Abs())
      ensures Valid()
    {
      assert forall j :: 0 <= j < |rooms| && j != i ==> rooms[j].val in Repr() - {rooms[i].val};
    }

    /** Only the outbox has changed. */
    twostate lemma OutboxOnly()
      requires old(Valid()) && unchanged(this`rooms, this`view, this`nextTimer) && unchanged(old(Repr()))
      ensures Valid()
    {
    }

    /** A fresh room was registered at the end. */
    twostate lemma RoomAppended(k: string, new added: LegacyRoom)
      requires old(Valid()) && fresh(added) && added.Valid()
      requires rooms == old(rooms) + [Entry(k, added)]
      requires view == old(view) + [Entry(k, added.State())]
      requires unchanged(old(Repr())) && nextTimer == old(nextTimer)
      requires Get(old(view), k).None? && RoomOk(k, added.State(), nextTimer)
      ensures Valid() && Repr() == old(Repr()) + {added} && fresh(Repr() - old(Repr()))
    {
      RegistryAppend(old(view), k, added.State(), nextTimer);
      assert forall j :: 0 <= j < |old(rooms)| ==> rooms[j] == old(rooms)[j];
      assert rooms[|old(rooms)|].val == added;
    }

    /** The entry at `i` was cut out of the registry. */
    twostate lemma RoomCut(i: nat)
      requires old(Valid()) && i < |old(rooms)| && rooms == old(rooms)[..i] + old(rooms)[i + 1..]
      requires view == old(view)[..i] + old(view)[i + 1..]
      requires unchanged(old(Repr()) - {old(rooms)[i].val})
      requires ServerInv(Abs())
      ensures Valid() && Repr() <= old(Repr())
    {
      assert forall j :: 0 <= j < |rooms| ==> rooms[j] == old(rooms)[if j < i then j else j + 1];
      assert forall j :: 0 <= j < |rooms| ==> rooms[j].val in old(Repr()) - {old(rooms)[i].val};
    }

    static lemma RoomUpdated(s: Server, i: nat, roomId: string, st: LRoom)
      requires Find(s.rooms, roomId) == Some(i)
      ensures s.rooms[i := Entry(s.rooms[i].key, st)] == Set(s.rooms, roomId, st)
    {
    }

    /** `handleJoinRoom(socket, roomId, username)` */
    method HandleJoinRoom(socketId: string, roomId: string, username: string, now: Time)
      requires Valid()
      modifies this, Repr()
      ensures Valid() && rooms == old(rooms)
      ensures Abs() == LegacySpec.HandleJoinRoom(old(Abs()), socketId, roomId, username, now)
    {
      var found := Lookup(roomId);
      if found.None? {
        return;
      }
      JoinAt(found.value, socketId, roomId, username, now);
    }

    /** The body of `handleJoinRoom` once `roomId` is found at entry `i`. */
    method JoinAt(i: nat, socketId: string, roomId: string, username: string, now: Time)
      requires Valid() && Find(rooms, roomId) == Some(i)
      modifies this, Repr()
      ensures Valid() && rooms == old(rooms)
      ensures Abs() == LegacySpec.HandleJoinRoom(old(Abs()), socketId, roomId, username, now)
    {
      ghost var s0 := Abs();
      var _ := Lookup(roomId);
      var room := rooms[i].val;
      room.AddUser(socketId, username, now);
      var recent := room.GetRecentMessages();
      var names := room.GetAllUsers();
      outbox := outbox + [Emit(ToSocket(socketId), "recent messages", RecentMessages(recent))];
      outbox := outbox + [Emit(ToRoom(roomId), "user-joined", UserJoined(username, names))];
      outbox := outbox + [Emit(ToSocket(socketId), "room-joined", RoomJoined(roomId, names))];
      ghost var st := room.State();
      view := view[i := Entry(roomId, st)];
      RoomUpdated(s0, i, roomId, st);
      assert Abs() == LegacySpec.HandleJoinRoom(s0, socketId, roomId, username, now);
      RoomChanged(i);
    }

    /** `create-room { roomId, username }` */
    method CreateRoom(socketId: string, roomId: string, username: string, now: Time)
      requires Valid()
      modifies this, Repr()
      ensures Valid() && fresh(Repr() - old(Repr()))
      ensures Abs() == LegacySpec.CreateRoom(old(Abs()), socketId, roomId, username, now)
    {
      ghost var s0 := Abs();
      if roomId == [] || JsString.Trim(roomId) == JsString.Trim(username) {
        assert CreateError(s0, roomId, username) == Some("Please enter a valid room ID different from your username");
        Refuse(socketId, "Please enter a valid room ID different from your username");
        return;
      }
      var found := Lookup(roomId);
      if found.Some? {
        assert CreateError(s0, roomId, username) == Some("Room ID already exists");
        Refuse(socketId, "Room ID already exists");
        return;
      }
      assert CreateError(s0, roomId, username).None?;
      CreateAndJoin(socketId, roomId, username, now);
    }

    /** A refused `create-room`: `socket.emit('creation-error', { message })`. */
    method Refuse(socketId: string, message: string)
      requires Valid()
      modifies this
      ensures Valid() && rooms == old(rooms)
      ensures Abs() == old(Abs()).(outbox := old(outbox) + [Emit(ToSocket(socketId), "creation-error", CreationError(message))])
    {
      outbox := outbox + [Emit(ToSocket(socketId), "creation-error", CreationError(message))];
      OutboxOnly();
    }

    /** The accepted path of `create-room`. */
    method CreateAndJoin(socketId: string, roomId: string, username: string, now: Time)
      requires Valid() && Get(view, roomId).None?
      modifies this, Repr()
      ensures Valid() && fresh(Repr() - old(Repr()))
      ensures Abs() == LegacySpec.CreateAndJoin(old(Abs()), socketId, roomId, username, now)
    {
      ghost var s0 := Abs();
      SetAbsent(view, roomId, NewRoom(roomId, now));
      AddRoom(roomId, now);
      ghost var s1 := Abs();
      ghost var rooms1 := rooms;
      HandleJoinRoom(socketId, roomId, username, now);
      assert rooms == rooms1;
      assert LegacySpec.CreateAndJoin(s0, socketId, roomId, username, now) == LegacySpec.HandleJoinRoom(s1, socketId, roomId, username, now);
    }

    /** `rooms.set(roomId, new Room(roomId))` for an id not yet registered. */
    method AddRoom(roomId: string, now: Time)
      requires Valid() && Get(view, roomId).None?
      modifies this
      ensures Valid() && fresh(Repr() - old(Repr()))
      ensures Abs() == old(Abs()).(rooms := old(view) + [Entry(roomId, NewRoom(roomId, now))])
    {
      var room := new LegacyRoom(roomId, now);
      // `map.set` on a key not present appends the entry.
      rooms := rooms + [Entry(roomId, room)];
      view := view + [Entry(roomId, room.State())];
      RoomAppended(roomId, room);
    }

    /** `join-room { roomId, username }` */
    method JoinRoom(socketId: string, roomId: string, username: string, now: Time)
      requires Valid()
      modifies this, Repr()
      ensures Valid() && rooms == old(rooms)
      ensures Abs() == LegacySpec.JoinRoom(old(Abs()), socketId, roomId, username, now)
    {
      var found := Lookup(roomId);
      if found.None? {
        outbox := outbox + [Emit(ToSocket(socketId), "room-not-found", NoPayload)];
        OutboxOnly();
        return;
      }
      JoinAt(found.value, socketId, roomId, username, now);
    }

    /** `leave-room { roomId, username }`, that is `handleLeaveRoom`. */
    method HandleLeaveRoom(socketId: string, roomId: string, username: string, now: Time)
      requires Valid()
      modifies this, Repr()
      ensures Valid() && rooms == old(rooms)
      ensures Abs() == LegacySpec.HandleLeaveRoom(old(Abs()), socketId, roomId, username, now)
    {
      var found := Lookup(roomId);
      if found.None? || username == "" {
        return;
      }
      LeaveAt(found.value, socketId, roomId, username, now);
    }

    /** The body of `handleLeaveRoom` once `roomId` is found at entry `i`. */
    method LeaveAt(i: nat, socketId: string, roomId: string, username: string, now: Time)
      requires Valid() && Find(rooms, roomId) == Some(i) && username != ""
      modifies this, Repr()
      ensures Valid() && rooms == old(rooms)
      ensures Abs() == LegacySpec.HandleLeaveRoom(old(Abs()), socketId, roomId, username, now)
    {
      ghost var s0 := Abs();
      var _ := Lookup(roomId);
      var room := rooms[i].val;
      ghost var before := room.State();
      outbox := outbox + [Emit(ToRoom(roomId), "user-left", UserLeft(username, room.GetAllUsers()))];
      if room.GetUserCount() == 0 {
        room.StartCleanupTimer(nextTimer);
        nextTimer := nextTimer + 1;
      }
      outbox := outbox + [Emit(ToSocket(socketId), "room-left", NoPayload)];
      ghost var st := room.State();
      view := view[i := Entry(roomId, st)];
      RoomUpdated(s0, i, roomId, st);
      assert Abs() == Server(Set(s0.rooms, roomId, st), s0.outbox + [
        Emit(ToRoom(roomId), "user-left", UserLeft(username, AllUsers(before.users))),
        Emit(ToSocket(socketId), "room-left", NoPayload)], nextTimer);
      assert Abs() == LegacySpec.HandleLeaveRoom(s0, socketId, roomId, username, now);
      RoomChanged(i);
    }

    /** `chat message { roomId, message }` */
    method ChatMessage(socketId: string, roomId: string, message: string, now: Time)
      requires Valid()
      modifies this, Repr()
      ensures Valid() && rooms == old(rooms)
      ensures Abs() == LegacySpec.ChatMessage(old(Abs()), socketId, roomId, message, now)
    {
      ghost var s0 := Abs();
      var found := Lookup(roomId);
      if found.None? {
        return;
      }
      var i := found.value;
      var room := rooms[i].val;
      var record := Chat(message, room.GetUsername(socketId), now);
      room.AddMessage(record, now);
      outbox := outbox + [Emit(ToRoom(roomId), "chat message", ChatRecord(record))];
      ghost var st := room.State();
      view := view[i := Entry(roomId, st)];
      RoomUpdated(s0, i, roomId, st);
      assert Abs() == LegacySpec.ChatMessage(s0, socketId, roomId, message, now);
      RoomChanged(i);
    }

    /** `disconnect`: `socketRooms` is what `socket.rooms` holds at that moment. */
    method Disconnect(socketId: string, socketRooms: seq<string>, now: Time)
      requires Valid()
      modifies this, Repr()
      ensures Valid() && rooms == old(rooms)
      ensures Abs() == LegacySpec.Disconnect(old(Abs()), socketId, socketRooms, now)
    {
      ghost var s0 := Abs();
      var n := 0;
      while n < |socketRooms|
        invariant 0 <= n <= |socketRooms|
        invariant rooms == old(rooms) && Valid()
        invariant Abs() == LegacySpec.Disconnect(s0, socketId, socketRooms[..n], now)
      {
        DisconnectFrom(socketId, socketRooms[n], now);
        assert socketRooms[..n + 1][..n] == socketRooms[..n] && socketRooms[..n + 1][n] == socketRooms[n];
        assert LegacySpec.Disconnect(s0, socketId, socketRooms[..n + 1], now)
          == LegacySpec.DisconnectFrom(LegacySpec.Disconnect(s0, socketId, socketRooms[..n], now), socketId, socketRooms[n], now);
        n := n + 1;
      }
      assert socketRooms[..n] == socketRooms;
    }

    /** One pass of the `socket.rooms.forEach` in `disconnect`. */
    method DisconnectFrom(socketId: string, roomId: string, now: Time)
      requires Valid()
      modifies this, Repr()
      ensures Valid() && rooms == old(rooms)
      ensures Abs() == LegacySpec.DisconnectFrom(old(Abs()), socketId, roomId, now)
    {
      ghost var s0 := Abs();
      var found := Lookup(roomId);
      if found.None? {
        return;
      }
      DisconnectAt(found.value, socketId, roomId, now);
    }

    /** One pass of `disconnect` on the room found at entry `i`. */
    method DisconnectAt(i: nat, socketId: string, roomId: string, now: Time)
      requires Valid() && Find(rooms, roomId) == Some(i)
      modifies this, Repr()
      ensures Valid() && rooms == old(rooms)
      ensures Abs() == LegacySpec.DisconnectFrom(old(Abs()), socketId, roomId, now)
    {
      ghost var s0 := Abs();
      var _ := Lookup(roomId);
      var room := rooms[i].val;
      var username := room.RemoveUser(socketId, now);
      if username.Some? && username.value != "" {
        outbox := outbox + [Emit(ToRoom(roomId), "user-left", UserLeft(username.value, room.GetAllUsers()))];
        if room.GetUserCount() == 0 {
          room.StartCleanupTimer(nextTimer);
          nextTimer := nextTimer + 1;
        }
      }
      ghost var st := room.State();
      view := view[i := Entry(roomId, st)];
      RoomUpdated(s0, i, roomId, st);
      assert Abs() == Server(Set(s0.rooms, roomId, st),
        s0.outbox + (if username.Some? && username.value != "" then
          [Emit(ToRoom(roomId), "user-left", UserLeft(username.value, AllUsers(st.users)))] else []),
        nextTimer);
      assert Abs() == LegacySpec.DisconnectFrom(s0, socketId, roomId, now);
      RoomChanged(i);
    }

    /** `cleanupRoom(roomId)` */
    method CleanupRoom(roomId: string)
      requires Valid()
      modifies this, Repr()
      ensures Valid() && Repr() <= old(Repr())
      ensures Abs() == LegacySpec.CleanupRoom(old(Abs()), roomId)
    {
      ghost var s0 := Abs();
      var found := Lookup(roomId);
      if found.None? {
        return;
      }
      var i := found.value;
      var room := rooms[i].val;
      room.Cleanup();
      rooms := Delete(rooms, roomId);
      view := Delete(view, roomId);
      outbox := outbox + [Emit(ToAll, "room-deleted", RoomDeleted(roomId))];
      assert Abs() == LegacySpec.CleanupRoom(s0, roomId);
      RoomCut(i);
    }

    /** Timer `t` of the room registered under `roomId` elapses; its callback
        is `cleanupRoom`, given `this.id`. */
    method FireTimer(roomId: string, t: Handle)
      requires Valid()
      modifies this, Repr()
      ensures Valid() && Repr() <= old(Repr())
      ensures Abs() == LegacySpec.FireTimer(old(Abs()), roomId, t)
    {
      ghost var s0 := Abs();
      var found := Lookup(roomId);
      if found.None? || rooms[found.value].val.cleanupTimeout != Some(t) {
        return;
      }
      var i := found.value;
      var room := rooms[i].val;
      var callback := room.Fire(t);
      ghost var st := room.State();
      view := view[i := Entry(roomId, st)];
      RoomUpdated(s0, i, roomId, st);
      ServerInvGet(s0, roomId);
      ServerInvSet(s0, roomId, st, s0.nextTimer);
      assert Abs() == s0.(rooms := Set(s0.rooms, roomId, st));
      RoomChanged(i);
      if callback.Some? {
        CleanupRoom(callback.value);
      }
    }

    /** The `/upload` route after multer; the result says whether a response
        (`{ success: true }`) is sent. */
    method Upload(file: Option<LFile>, roomId: string, now: Time) returns (responded: bool)
      requires Valid()
      modifies this, Repr()
      ensures Valid() && rooms == old(rooms)
      ensures (Abs(), responded) == LegacySpec.Upload(old(Abs()), file, roomId, now)
    {
      if file.None? {
        return false;
      }
      var found := Lookup(roomId);
      if found.Some? {
        ShareFile(found.value, file.value, roomId, now);
      }
      return true;
    }

    method ShareFile(i: nat, file: LFile, roomId: string, now: Time)
      requires Valid() && Find(rooms, roomId) == Some(i)
      modifies this, Repr()
      ensures Valid() && rooms == old(rooms)
      ensures Abs() == LegacySpec.Upload(old(Abs()), Some(file), roomId, now).0
    {
      ghost var s0 := Abs();
      var _ := Lookup(roomId);
      var room := rooms[i].val;
      var path := "/uploads/" + file.filename;
      room.AddMessage(SharedFile(file.filename, file.originalname, path, now), now);
      outbox := outbox + [Emit(ToRoom(roomId), "file-shared", FileShared(file.filename, file.originalname, path, now))];
      ghost var st := room.State();
      view := view[i := Entry(roomId, st)];
      RoomUpdated(s0, i, roomId, st);
      assert Abs() == Server(Set(s0.rooms, roomId, st),
        s0.outbox + [Emit(ToRoom(roomId), "file-shared", FileShared(file.filename, file.originalname, path, now))], s0.nextTimer);
      assert Abs() == LegacySpec.Upload(s0, Some(file), roomId, now).0;
      RoomChanged(i);
    }
  }
}
