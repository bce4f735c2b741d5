/** Sockethandler.js as a function of values: the registry (`rooms`, a `Map`
    from room id to room, insertion ordered), the outbound events emitted so
    far, and the next timer handle. Every inbound event is a function from one
    `Hub` to the next; module `SocketHandlers` runs the same steps in place. */
module HubSpec {
  import opened Common
  import opened OrderedMap
  import opened RoomSpec

  /** The payloads Sockethandler.js emits. */
  datatype Payload =
    | ErrorInfo(message: string)                                               // 'error'
    | RoomJoined(roomId: string, users: seq<string>, messages: seq<Message>)  // 'room-joined'
    | UserJoined(username: string, users: seq<string>)                         // 'user-joined'
    | UserLeft(username: string, users: seq<string>)                           // 'user-left'
    | NoPayload                                                                // 'room-left'
    | Record(record: Message)                                                  // 'chat message', 'file-shared'
    | RoomDeleted(roomId: string)                                              // 'room-deleted'

  type Event = Emit<Payload>

  datatype Hub = Hub(rooms: seq<Entry<string, RoomState>>, outbox: seq<Event>, nextTimer: Handle)

  /** A registered room keeps the room invariant, and a pending cleanup timer
      means the room is empty and the handle was issued before. */
  predicate RoomOk(st: RoomState, nextTimer: Handle)
  {
    Inv(st) && (st.cleanup.Some? ==> st.users == [] && st.cleanup.value < nextTimer)
  }

  /** What every reachable registry satisfies, given the next timer handle. */
  predicate RegistryInv(rooms: seq<Entry<string, RoomState>>, nextTimer: Handle)
  {
    DistinctKeys(rooms) && forall i :: 0 <= i < |rooms| ==> RoomOk(rooms[i].val, nextTimer)
  }

  predicate HubInv(h: Hub)
  {
    RegistryInv(h.rooms, h.nextTimer)
  }

  /** `RoomOk` holds of every room `get` can return. */
  lemma HubInvGet(h: Hub, k: string)
    ensures HubInv(h) && Get(h.rooms, k).Some? ==> RoomOk(Get(h.rooms, k).value, h.nextTimer)
  {
    if Get(h.rooms, k).Some? {
      var i := Find(h.rooms, k).value;
      assert h.rooms[i].val == Get(h.rooms, k).value;
    }
  }

  /** Replacing one room of a valid hub by a value that keeps `RoomOk`, and not
      moving the handle counter back, keeps the hub invariant. */
  lemma HubInvSet(h: Hub, k: string, st: RoomState, nextTimer: Handle)
    ensures HubInv(h) && RoomOk(st, nextTimer) && h.nextTimer <= nextTimer ==>
      HubInv(Hub(Set(h.rooms, k, st), h.outbox, nextTimer))
  {
    if HubInv(h) && RoomOk(st, nextTimer) && h.nextTimer <= nextTimer {
      var rooms := Set(h.rooms, k, st);
      forall i | 0 <= i < |rooms| ensures RoomOk(rooms[i].val, nextTimer) {
        GetIsMembership(rooms, rooms[i].key, rooms[i].val);
        if rooms[i].key != k {
          GetIsMembership(h.rooms, rooms[i].key, rooms[i].val);
          var j :| 0 <= j < |h.rooms| && h.rooms[j] == rooms[i];
        }
      }
    }
  }

  /** Removing a room from a valid hub keeps the hub invariant. */
  lemma HubInvDelete(h: Hub, k: string)
    ensures HubInv(h) ==> HubInv(h.(rooms := Delete(h.rooms, k)))
  {
    var rooms := Delete(h.rooms, k);
    assert forall i :: 0 <= i < |rooms| ==> rooms[i] in h.rooms;
  }

  /** Whether `join-room` is accepted: the room exists and has authorized the name. */
  predicate CanJoin(h: Hub, roomId: string, username: string)
  {
    Get(h.rooms, roomId).Some? && username in Get(h.rooms, roomId).value.authorized
  }

  /** `handleJoinRoom(socket, { roomId, username })` */
  function JoinRoom(h: Hub, socketId: string, roomId: string, username: string, now: Time): (r: Hub)
    ensures !CanJoin(h, roomId, username) ==>
      r == h.(outbox := h.outbox + [Emit(ToSocket(socketId), "error", ErrorInfo("Unauthorized"))])
    ensures CanJoin(h, roomId, username) ==>
      && Get(r.rooms, roomId).Some?
      && var st := Get(r.rooms, roomId).value;
      && st == AddUser(Get(h.rooms, roomId).value, socketId, username, now).0
      && GetUsername(st, socketId) == Some(username)
      && st.cleanup == None
      && (forall k :: k != roomId ==> Get(r.rooms, k) == Get(h.rooms, k))
      && r.outbox == h.outbox + [
           Emit(ToSocket(socketId), "room-joined", RoomJoined(roomId, Usernames(st.users), st.messages)),
           Emit(ToRoom(roomId), "user-joined", UserJoined(username, Usernames(st.users)))]
    ensures Keys(r.rooms) == Keys(h.rooms) && r.nextTimer == h.nextTimer
    ensures HubInv(h) ==> HubInv(r)
  {
    if !CanJoin(h, roomId, username) then
      h.(outbox := h.outbox + [Emit(ToSocket(socketId), "error", ErrorInfo("Unauthorized"))])
    else
      var st := AddUser(Get(h.rooms, roomId).value, socketId, username, now).0;
      var names := Usernames(st.users);
      HubInvGet(h, roomId);
      HubInvSet(h, roomId, st, h.nextTimer);
      Hub(Set(h.rooms, roomId, st),
          h.outbox + [Emit(ToSocket(socketId), "room-joined", RoomJoined(roomId, names, st.messages)),
                      Emit(ToRoom(roomId), "user-joined", UserJoined(username, names))],
          h.nextTimer)
  }

  /** `handleLeaveRoom(socket, { roomId, username })` and the `leaveRoom` it
      calls. The `user-left` notice carries the name from the payload. */
  function LeaveRoom(h: Hub, socketId: string, roomId: string, username: string, now: Time): (r: Hub)
    ensures Get(h.rooms, roomId).None? ==> r == h
    ensures Get(h.rooms, roomId).Some? ==>
      && Get(r.rooms, roomId).Some?
      && var before := Get(h.rooms, roomId).value;
      && var st := Get(r.rooms, roomId).value;
      && st.users == RemoveUser(before, socketId, now).0.users
      && st == before.(users := st.users, lastActivity := now, cleanup := st.cleanup)
      && (st.users == [] ==> st.cleanup == Some(h.nextTimer) && r.nextTimer == h.nextTimer + 1)
      && (st.users != [] ==> st.cleanup == before.cleanup && r.nextTimer == h.nextTimer)
      && (HubInv(h) ==> GetUsername(st, socketId).None? && (st.cleanup.Some? <==> st.users == []))
      && (forall k :: k != roomId ==> Get(r.rooms, k) == Get(h.rooms, k))
      && r.outbox == h.outbox + [
           Emit(ToRoom(roomId), "user-left", UserLeft(username, Usernames(st.users))),
           Emit(ToSocket(socketId), "room-left", NoPayload)]
    ensures Keys(r.rooms) == Keys(h.rooms)
    ensures HubInv(h) ==> HubInv(r)
  {
    match Get(h.rooms, roomId)
    case None => h
    case Some(before) =>
      var st := RemoveUser(before, socketId, now).0;
      var empty := |st.users| == 0;
      var st' := if empty then StartCleanupTimer(st, h.nextTimer) else st;
      var t := if empty then h.nextTimer + 1 else h.nextTimer;
      HubInvGet(h, roomId);
      HubInvSet(h, roomId, st', t);
      Hub(Set(h.rooms, roomId, st'),
          h.outbox + [Emit(ToRoom(roomId), "user-left", UserLeft(username, Usernames(st'.users))),
                      Emit(ToSocket(socketId), "room-left", NoPayload)],
          t)
  }

  /** `handleChatMessage(socket, { roomId, message, username })`: accepted only
      from a name the room has authorized; the record stored is the record
      broadcast. */
  function ChatMessage(h: Hub, roomId: string, message: string, username: string, now: Time): (r: Hub)
    ensures !CanJoin(h, roomId, username) ==> r == h
    ensures CanJoin(h, roomId, username) ==>
      && Get(r.rooms, roomId).Some?
      && var before := Get(h.rooms, roomId).value;
      && var st := Get(r.rooms, roomId).value;
      && st == AddMessage(before, Text(message, username, now), now)
      && (HubInv(h) ==> st.messages == History.LastN(before.messages + [Text(message, username, now)], HistoryCap))
      && (forall k :: k != roomId ==> Get(r.rooms, k) == Get(h.rooms, k))
      && r.outbox == h.outbox + [Emit(ToRoom(roomId), "chat message", Record(Text(message, username, now)))]
    ensures Keys(r.rooms) == Keys(h.rooms) && r.nextTimer == h.nextTimer
    ensures HubInv(h) ==> HubInv(r)
  {
    if !CanJoin(h, roomId, username) then h
    else Post(h, roomId, Text(message, username, now), "chat message", now)
  }

  /** What an accepted chat message and an accepted upload share: `record`
      is added to the room's history and broadcast to the room as `event`. */
  function Post(h: Hub, roomId: string, record: Message, event: string, now: Time): (r: Hub)
    requires Get(h.rooms, roomId).Some?
    ensures Get(r.rooms, roomId) == Some(AddMessage(Get(h.rooms, roomId).value, record, now))
    ensures forall k :: k != roomId ==> Get(r.rooms, k) == Get(h.rooms, k)
    ensures Keys(r.rooms) == Keys(h.rooms) && r.nextTimer == h.nextTimer
    ensures r.outbox == h.outbox + [Emit(ToRoom(roomId), event, Record(record))]
    ensures HubInv(h) ==> HubInv(r)
  {
    var st := AddMessage(Get(h.rooms, roomId).value, record, now);
    HubInvGet(h, roomId);
    HubInvSet(h, roomId, st, h.nextTimer);
    Hub(Set(h.rooms, roomId, st), h.outbox + [Emit(ToRoom(roomId), event, Record(record))], h.nextTimer)
  }

  /** `if (username)`: a name is present and not empty. */
  predicate Truthy(name: Option<string>)
  {
    name.Some? && name.value != ""
  }

  /** Whether a disconnect of `socketId` touches room `k`: `getUsername` gives a name. */
  predicate Affected(rooms: seq<Entry<string, RoomState>>, socketId: string, k: string)
  {
    Get(rooms, k).Some? && Truthy(GetUsername(Get(rooms, k).value, socketId))
  }

  /** What leaving does to a room the socket was a member of. */
  predicate LeftRoom(before: RoomState, after: RoomState, socketId: string, now: Time)
  {
    && after.users == Delete(before.users, socketId)
    && GetUsername(after, socketId).None?
    && (after.cleanup.Some? <==> after.users == [])
    && after == before.(users := after.users, lastActivity := now, cleanup := after.cleanup)
  }

  /** One pass of the `handleDisconnect` loop, over the entry for `roomId`. */
  function DisconnectFrom(h: Hub, socketId: string, roomId: string, now: Time): (r: Hub)
    ensures !Affected(h.rooms, socketId, roomId) ==> r == h
    ensures Affected(h.rooms, socketId, roomId) ==>
      && Get(r.rooms, roomId).Some?
      && (HubInv(h) ==> LeftRoom(Get(h.rooms, roomId).value, Get(r.rooms, roomId).value, socketId, now))
      && (forall k :: k != roomId ==> Get(r.rooms, k) == Get(h.rooms, k))
      && r.outbox == h.outbox + [Notice(h, r, socketId, roomId)]
    ensures Keys(r.rooms) == Keys(h.rooms) && r.nextTimer >= h.nextTimer
    ensures HubInv(h) ==> HubInv(r)
  {
    if !Affected(h.rooms, socketId, roomId) then h
    else
      var before := Get(h.rooms, roomId).value;
      var st := RemoveUser(before, socketId, now).0;
      var empty := |st.users| == 0;
      var st' := if empty then StartCleanupTimer(st, h.nextTimer) else st;
      var t := if empty then h.nextTimer + 1 else h.nextTimer;
      HubInvGet(h, roomId);
      HubInvSet(h, roomId, st', t);
      Hub(Set(h.rooms, roomId, st'),
          h.outbox + [Emit(ToRoom(roomId), "user-left", UserLeft(GetUsername(before, socketId).value, Usernames(st'.users)))],
          t)
  }

  /** `DisconnectFrom` on a touched room, read at the room's position `i`. */
  lemma DisconnectFromAt(h: Hub, socketId: string, roomId: string, i: nat, now: Time)
    requires Find(h.rooms, roomId) == Some(i) && Affected(h.rooms, socketId, roomId)
    ensures var before := h.rooms[i].val;
      var st := RemoveUser(before, socketId, now).0;
      var empty := |st.users| == 0;
      var st' := if empty then StartCleanupTimer(st, h.nextTimer) else st;
      DisconnectFrom(h, socketId, roomId, now)
        == Hub(h.rooms[i := Entry(roomId, st')],
               h.outbox + [Emit(ToRoom(roomId), "user-left", UserLeft(GetUsername(before, socketId).value, Usernames(st.users)))],
               if empty then h.nextTimer + 1 else h.nextTimer)
  {
  }

  /** The `user-left` notice for room `k`: the name the socket had there
      before, and the members remaining after. */
  function Notice(before: Hub, after: Hub, socketId: string, k: string): Event
  {
    var name := match Get(before.rooms, k)
      case None => ""
      case Some(st) => match GetUsername(st, socketId) case None => "" case Some(n) => n;
    var users := match Get(after.rooms, k)
      case None => []
      case Some(st) => Usernames(st.users);
    Emit(ToRoom(k), "user-left", UserLeft(name, users))
  }

  /** The rooms among `ids` that a disconnect of `socketId` touches, in order. */
  function AffectedRooms(rooms: seq<Entry<string, RoomState>>, socketId: string, ids: seq<string>): (a: seq<string>)
    ensures forall k :: k in a <==> k in ids && Affected(rooms, socketId, k)
    decreases |ids|
  {
    if ids == [] then []
    else
      var last := ids[|ids| - 1];
      AffectedRooms(rooms, socketId, ids[..|ids| - 1]) + (if Affected(rooms, socketId, last) then [last] else [])
  }

  function Notices(before: Hub, after: Hub, socketId: string, ks: seq<string>): seq<Event>
  {
    seq(|ks|, j requires 0 <= j < |ks| => Notice(before, after, socketId, ks[j]))
  }

  /** The `handleDisconnect` loop over the registry entries `ids`, in order. */
  function DisconnectAll(h: Hub, socketId: string, ids: seq<string>, now: Time): (r: Hub)
    ensures Keys(r.rooms) == Keys(h.rooms) && r.nextTimer >= h.nextTimer
    ensures forall k :: k !in ids ==> Get(r.rooms, k) == Get(h.rooms, k)
    ensures h.outbox <= r.outbox
    ensures HubInv(h) ==> HubInv(r)
    decreases |ids|
  {
    if ids == [] then h
    else DisconnectFrom(DisconnectAll(h, socketId, ids[..|ids| - 1], now), socketId, ids[|ids| - 1], now)
  }

  /** One more pass of the loop, on `ids[i]`. */
  lemma DisconnectAllSnoc(h: Hub, socketId: string, ids: seq<string>, i: nat, now: Time)
    requires i < |ids|
    ensures DisconnectAll(h, socketId, ids[..i + 1], now)
         == DisconnectFrom(DisconnectAll(h, socketId, ids[..i], now), socketId, ids[i], now)
  {
    assert ids[..i + 1][..i] == ids[..i];
  }

  /** What the loop over `ids` has done to the rooms of `h`, giving `r`: the
      socket is out of every touched room, and every other room is as it was. */
  ghost predicate RoomsAfter(h: Hub, r: Hub, socketId: string, ids: seq<string>, now: Time)
  {
    && (forall k :: k !in ids || !Affected(h.rooms, socketId, k) ==> Get(r.rooms, k) == Get(h.rooms, k))
    && (forall k :: k in ids && Affected(h.rooms, socketId, k) ==>
          Get(r.rooms, k).Some? && LeftRoom(Get(h.rooms, k).value, Get(r.rooms, k).value, socketId, now))
  }

  /** The loop over distinct ids takes the socket out of every touched room,
      leaves every other room as it was, and emits one `user-left` per touched
      room, in the order of `ids`. */
  lemma {:induction false} DisconnectAllSpec(h: Hub, socketId: string, ids: seq<string>, now: Time)
    requires HubInv(h)
    requires forall i, j :: 0 <= i < j < |ids| ==> ids[i] != ids[j]
    ensures var r := DisconnectAll(h, socketId, ids, now);
      && HubInv(r) && Keys(r.rooms) == Keys(h.rooms)
      && RoomsAfter(h, r, socketId, ids, now)
      && r.outbox == h.outbox + Notices(h, r, socketId, AffectedRooms(h.rooms, socketId, ids))
    decreases |ids|
  {
    if ids != [] {
      var pre := ids[..|ids| - 1];
      var k := ids[|ids| - 1];
      assert forall x :: x in pre ==> x != k;
      DisconnectAllSpec(h, socketId, pre, now);
      var d := DisconnectAll(h, socketId, pre, now);
      DisconnectStepRooms(h, d, socketId, ids, now);
      assert Get(d.rooms, k) == Get(h.rooms, k);
      var r := DisconnectFrom(d, socketId, k, now);
      var a := AffectedRooms(h.rooms, socketId, pre);
      assert AffectedRooms(h.rooms, socketId, ids) == a + (if Affected(h.rooms, socketId, k) then [k] else []);
      assert r.outbox == d.outbox + (if Affected(d.rooms, socketId, k) then [Notice(d, r, socketId, k)] else []);
      DisconnectStepOutbox(h, d, r, socketId, a, k);
    }
  }

  lemma DisconnectStepRooms(h: Hub, d: Hub, socketId: string, ids: seq<string>, now: Time)
    requires ids != [] && ids[|ids| - 1] !in ids[..|ids| - 1]
    requires HubInv(d) && RoomsAfter(h, d, socketId, ids[..|ids| - 1], now)
    ensures RoomsAfter(h, DisconnectFrom(d, socketId, ids[|ids| - 1], now), socketId, ids, now)
  {
    var pre, k := ids[..|ids| - 1], ids[|ids| - 1];
    assert Get(d.rooms, k) == Get(h.rooms, k);
    assert forall x :: x in ids <==> x in pre || x == k;
  }

  /** The notices after one more pass: the earlier ones unchanged, then the
      new room's when the pass touches it. */
  lemma DisconnectStepOutbox(h: Hub, d: Hub, r: Hub, socketId: string, a: seq<string>, k: string)
    requires forall x :: x in a ==> Get(r.rooms, x) == Get(d.rooms, x)
    requires Get(d.rooms, k) == Get(h.rooms, k)
    requires d.outbox == h.outbox + Notices(h, d, socketId, a)
    requires r.outbox == d.outbox + (if Affected(d.rooms, socketId, k) then [Notice(d, r, socketId, k)] else [])
    ensures r.outbox == h.outbox + Notices(h, r, socketId, a + (if Affected(h.rooms, socketId, k) then [k] else []))
  {
    NoticesExtend(h, d, r, socketId, a, k);
    if Affected(h.rooms, socketId, k) {
      assert r.outbox == h.outbox + (Notices(h, d, socketId, a) + [Notice(d, r, socketId, k)]);
    } else {
      assert a + [] == a;
    }
  }

  /** Notices about rooms the last step did not touch read the same before
      and after it. */
  lemma NoticesExtend(h: Hub, d: Hub, r: Hub, socketId: string, a: seq<string>, k: string)
    requires forall x :: x in a ==> Get(r.rooms, x) == Get(d.rooms, x)
    requires Get(d.rooms, k) == Get(h.rooms, k)
    ensures Notices(h, d, socketId, a) == Notices(h, r, socketId, a)
    ensures Notices(h, d, socketId, a) + [Notice(d, r, socketId, k)] == Notices(h, r, socketId, a + [k])
  {
  }

  /** `handleDisconnect(socket)` */
  function Disconnect(h: Hub, socketId: string, now: Time): (r: Hub)
    ensures HubInv(h) ==>
      && HubInv(r) && Keys(r.rooms) == Keys(h.rooms)
      && (forall k :: Get(r.rooms, k).Some? ==> GetUsername(Get(r.rooms, k).value, socketId).None?)
      && (forall k :: !Affected(h.rooms, socketId, k) ==> Get(r.rooms, k) == Get(h.rooms, k))
      && (forall k :: Affected(h.rooms, socketId, k) ==>
            Get(r.rooms, k).Some? && LeftRoom(Get(h.rooms, k).value, Get(r.rooms, k).value, socketId, now))
      && r.outbox == h.outbox + Notices(h, r, socketId, AffectedRooms(h.rooms, socketId, Keys(h.rooms)))
  {
    var r := DisconnectAll(h, socketId, Keys(h.rooms), now);
    if HubInv(h) then
      DisconnectAllSpec(h, socketId, Keys(h.rooms), now);
      DisconnectLeavesNoMembership(h, r, socketId);
      r
    else r
  }

  /** After the loop, no registered room lists the socket. */
  lemma DisconnectLeavesNoMembership(h: Hub, r: Hub, socketId: string)
    requires HubInv(h) && Keys(r.rooms) == Keys(h.rooms)
    requires forall k :: k !in Keys(h.rooms) || !Affected(h.rooms, socketId, k) ==> Get(r.rooms, k) == Get(h.rooms, k)
    requires forall k :: k in Keys(h.rooms) && Affected(h.rooms, socketId, k) ==>
      Get(r.rooms, k).Some? && GetUsername(Get(r.rooms, k).value, socketId).None?
    ensures forall k :: Get(r.rooms, k).Some? ==> GetUsername(Get(r.rooms, k).value, socketId).None?
  {
    forall k | Get(r.rooms, k).Some? ensures GetUsername(Get(r.rooms, k).value, socketId).None? {
      var i := Find(r.rooms, k).value;
      assert Keys(r.rooms)[i] == k;
      assert k in Keys(h.rooms);
      if !Affected(h.rooms, socketId, k) {
        HubInvGet(h, k);
      }
    }
  }

  /** `cleanupRoom(roomId)` */
  function CleanupRoom(h: Hub, roomId: string): (r: Hub)
    ensures Get(h.rooms, roomId).None? ==> r == h
    ensures Get(h.rooms, roomId).Some? ==>
      && r.rooms == Delete(h.rooms, roomId)
      && r.outbox == h.outbox + [Emit(ToAll, "room-deleted", RoomDeleted(roomId))]
    ensures r.nextTimer == h.nextTimer
    ensures HubInv(h) ==>
      && HubInv(r) && Get(r.rooms, roomId).None?
      && (forall k :: k != roomId ==> Get(r.rooms, k) == Get(h.rooms, k))
  {
    match Get(h.rooms, roomId)
    case None => h
    case Some(_) =>
      HubInvDelete(h, roomId);
      Hub(Delete(h.rooms, roomId), h.outbox + [Emit(ToAll, "room-deleted", RoomDeleted(roomId))], h.nextTimer)
  }

  /** Whether timer `t` is the one pending on room `roomId` while it is empty. */
  predicate Expires(h: Hub, roomId: string, t: Handle)
  {
    Get(h.rooms, roomId).Some? && Get(h.rooms, roomId).value.cleanup == Some(t)
      && Get(h.rooms, roomId).value.users == []
  }

  /** Timer `t`, armed by `startCleanupTimer(() => this.cleanupRoom(roomId))`,
      elapses: the room is deleted exactly when `t` is still its pending timer
      and it is still empty. */
  function FireTimer(h: Hub, roomId: string, t: Handle): (r: Hub)
    ensures Expires(h, roomId, t) ==>
      && r.rooms == Delete(Set(h.rooms, roomId, Get(h.rooms, roomId).value.(cleanup := None)), roomId)
      && r.outbox == h.outbox + [Emit(ToAll, "room-deleted", RoomDeleted(roomId))]
    ensures !Expires(h, roomId, t) ==> r.outbox == h.outbox && Keys(r.rooms) == Keys(h.rooms)
    ensures !Expires(h, roomId, t) ==> forall k :: k != roomId ==> Get(r.rooms, k) == Get(h.rooms, k)
    ensures Get(h.rooms, roomId).None? || Get(h.rooms, roomId).value.cleanup != Some(t) ==> r == h
    ensures HubInv(h) && !Expires(h, roomId, t) ==> r == h
    ensures r.nextTimer == h.nextTimer
    ensures HubInv(h) ==> HubInv(r)
    ensures HubInv(h) ==> (Get(r.rooms, roomId).None? <==> Get(h.rooms, roomId).None? || Expires(h, roomId, t))
  {
    match Get(h.rooms, roomId)
    case None => h
    case Some(st) =>
      var (st', callback) := Fire(st, t);
      HubInvGet(h, roomId);
      HubInvSet(h, roomId, st', h.nextTimer);
      var h' := h.(rooms := Set(h.rooms, roomId, st'));
      if callback.Some? then CleanupRoom(h', roomId) else h'
  }

  /** A member joining before the timer elapses cancels it: whatever handle
      fires, the room survives and nothing is emitted. */
  lemma JoinCancelsCleanup(h: Hub, socketId: string, roomId: string, username: string, now: Time, t: Handle)
    requires CanJoin(h, roomId, username)
    ensures var j := JoinRoom(h, socketId, roomId, username, now);
      FireTimer(j, roomId, t).outbox == j.outbox && Get(FireTimer(j, roomId, t).rooms, roomId).Some?
  {
    var j := JoinRoom(h, socketId, roomId, username, now);
    assert !Expires(j, roomId, t);
    assert roomId in Keys(j.rooms) by {
      var i := Find(j.rooms, roomId).value;
      assert Keys(j.rooms)[i] == roomId;
    }
    var f := FireTimer(j, roomId, t);
    assert roomId in Keys(f.rooms);
  }

  /** When the last member leaves, a timer is armed; if it elapses before
      anyone joins, the room is deleted and every connection is told. */
  lemma LastLeaveThenTimerDeletes(h: Hub, socketId: string, roomId: string, username: string, now: Time)
    requires HubInv(h) && Get(h.rooms, roomId).Some?
    requires Keys(Get(h.rooms, roomId).value.users) == [socketId]
    ensures var l := LeaveRoom(h, socketId, roomId, username, now);
      && Get(l.rooms, roomId).value.cleanup == Some(h.nextTimer)
      && var f := FireTimer(l, roomId, h.nextTimer);
      && Get(f.rooms, roomId).None?
      && f.outbox == l.outbox + [Emit(ToAll, "room-deleted", RoomDeleted(roomId))]
  {
    var before := Get(h.rooms, roomId).value;
    HubInvGet(h, roomId);
    assert Keys(before.users)[0] == socketId;
    assert |before.users| == 1 && before.users[0].key == socketId;
    assert Get(before.users, socketId).Some?;
    var l := LeaveRoom(h, socketId, roomId, username, now);
    assert |Get(l.rooms, roomId).value.users| == 0;
    assert Expires(l, roomId, h.nextTimer);
  }

  /** The same name may be joined from two sockets; disconnecting one leaves
      the other a member under that name. */
  lemma SecondDeviceSurvivesDisconnect(h: Hub, roomId: string, username: string, s1: string, s2: string, now: Time)
    requires HubInv(h) && CanJoin(h, roomId, username) && s1 != s2
    ensures var h2 := JoinRoom(JoinRoom(h, s1, roomId, username, now), s2, roomId, username, now);
      var h3 := Disconnect(h2, s1, now);
      && Get(h3.rooms, roomId).Some?
      && GetUsername(Get(h3.rooms, roomId).value, s1).None?
      && GetUsername(Get(h3.rooms, roomId).value, s2) == Some(username)
      && username in Get(h3.rooms, roomId).value.authorized
  {
    TwoSocketsJoined(h, roomId, username, s1, s2, now);
    var h2 := JoinRoom(JoinRoom(h, s1, roomId, username, now), s2, roomId, username, now);
    var st2 := Get(h2.rooms, roomId).value;
    var st3 := Get(Disconnect(h2, s1, now).rooms, roomId).value;
    assert st3.users == Delete(st2.users, s1);
    assert Get(st3.users, s2) == Get(st2.users, s2);
  }

  /** Both sockets joined under the same name: the first is one a disconnect
      touches, the second is listed under the name. */
  lemma TwoSocketsJoined(h: Hub, roomId: string, username: string, s1: string, s2: string, now: Time)
    requires HubInv(h) && CanJoin(h, roomId, username) && s1 != s2
    ensures var h2 := JoinRoom(JoinRoom(h, s1, roomId, username, now), s2, roomId, username, now);
      && HubInv(h2) && Affected(h2.rooms, s1, roomId)
      && GetUsername(Get(h2.rooms, roomId).value, s2) == Some(username)
      && username in Get(h2.rooms, roomId).value.authorized
  {
    var h1 := JoinRoom(h, s1, roomId, username, now);
    assert CanJoin(h1, roomId, username);
  }

  /** A room "alpha" that "alice" created: alice is authorized, nobody else. */
  function Alpha(now: Time): RoomState
  {
    RoomState("alpha", "alice", [], {"alice"}, [], now, now, None)
  }

  /** The hub holding only room "alpha", before anyone joins. */
  function AlphaHub(now: Time): Hub
  {
    Hub([Entry("alpha", Alpha(now))], [], 0)
  }

  /** Alice, who created "alpha", joins it: she is its one member and is
      sent the member list ["alice"] with an empty history. */
  lemma AliceJoins(now: Time)
    ensures var h1 := JoinRoom(AlphaHub(now), "s-alice", "alpha", "alice", now);
      && Get(h1.rooms, "alpha").Some?
      && Get(h1.rooms, "alpha").value.authorized == {"alice"}
      && Usernames(Get(h1.rooms, "alpha").value.users) == ["alice"]
      && h1.outbox[0] == Emit(ToSocket("s-alice"), "room-joined", RoomJoined("alpha", ["alice"], []))
  {
    var h0 := AlphaHub(now);
    assert CanJoin(h0, "alpha", "alice");
    var h1 := JoinRoom(h0, "s-alice", "alpha", "alice", now);
    var users := Get(h1.rooms, "alpha").value.users;
    assert Keys(users) == ["s-alice"];
    assert users[0].key == "s-alice";
    assert users == [Entry("s-alice", User("alice"))];
  }

  /** Alice joins and gets the member list ["alice"] and an empty history;
      Bob, who never gave the password, is told "Unauthorized" and the member
      list stays ["alice"]. */
  lemma AliceJoinsBobRefused(now: Time)
    ensures var h1 := JoinRoom(AlphaHub(now), "s-alice", "alpha", "alice", now);
      var h2 := JoinRoom(h1, "s-bob", "alpha", "bob", now);
      && h1.outbox[0] == Emit(ToSocket("s-alice"), "room-joined", RoomJoined("alpha", ["alice"], []))
      && h2.outbox == h1.outbox + [Emit(ToSocket("s-bob"), "error", ErrorInfo("Unauthorized"))]
      && Usernames(Get(h2.rooms, "alpha").value.users) == ["alice"]
  {
    AliceJoins(now);
    var h1 := JoinRoom(AlphaHub(now), "s-alice", "alpha", "alice", now);
    assert "bob" !in {"alice"};
    assert !CanJoin(h1, "alpha", "bob");
  }
}
