/** The fields of one Room.js `Room` as a value, and each of the class's
    operations as a function of that value. The class itself, with the same
    fields updated in place, is module `Rooms`; the event router builds its
    specification from these functions. */
module RoomSpec {
  import opened Common
  import opened OrderedMap
  import opened History

  /** The value a socket's entry in `users` holds: `{ username }`. */
  datatype User = User(username: string)

  /** A history record. `addMessage` stores a copy whose `timestamp` is its own
      clock reading (`{ ...message, timestamp: new Date() }`). */
  datatype Message =
    | Text(content: string, username: string, timestamp: Time)  // type: 'message'
    | File(filename: string, originalname: string, path: string,
           mimeType: string, size: nat, username: string, timestamp: Time)  // type: 'file'

  /** The history keeps the 100 most recent records. */
  const HistoryCap: nat := 100

  datatype RoomState = RoomState(
    id: string,
    createdBy: string,
    users: seq<Entry<string, User>>,  // socket id -> { username }, in join order
    authorized: set<string>,          // authorizedUsers
    messages: seq<Message>,           // oldest first
    createdAt: Time,
    lastActivity: Time,
    cleanup: Option<Handle>)          // the pending cleanup timer, if any

  /** What every room keeps true: one entry per socket, the empty name is never
      authorized, every member's name is authorized, and the history is bounded. */
  predicate Inv(st: RoomState)
  {
    && DistinctKeys(st.users)
    && "" !in st.authorized
    && (forall i :: 0 <= i < |st.users| ==> st.users[i].val.username in st.authorized)
    && |st.messages| <= HistoryCap
  }

  /** The fields a room never changes after construction. */
  predicate SameRoom(a: RoomState, b: RoomState)
  {
    a.id == b.id && a.createdBy == b.createdBy && a.createdAt == b.createdAt
  }

  /** The members' usernames in join order: `getAllUsers()`, and the `users`
      list every membership event carries. */
  function Usernames(users: seq<Entry<string, User>>): seq<string>
  {
    seq(|users|, i requires 0 <= i < |users| => users[i].val.username)
  }

  /** `authorizeUser(username)` */
  function AuthorizeUser(st: RoomState, username: string): (r: (RoomState, bool))
    ensures r.1 <==> username != ""
    ensures r.1 ==> r.0.authorized == st.authorized + {username}
    ensures !r.1 ==> r.0 == st
    ensures r.0 == st.(authorized := r.0.authorized)
    ensures Inv(st) ==> Inv(r.0)
  {
    if username == "" then (st, false)
    else (st.(authorized := st.authorized + {username}), true)
  }

  /** `addUser(socketId, username)` */
  function AddUser(st: RoomState, socketId: string, username: string, now: Time): (r: (RoomState, bool))
    ensures r.1 <==> username in st.authorized
    ensures !r.1 ==> r.0 == st
    ensures r.1 ==>
      && Get(r.0.users, socketId) == Some(User(username))
      && (forall s :: s != socketId ==> Get(r.0.users, s) == Get(st.users, s))
      && Keys(r.0.users) == (if Get(st.users, socketId).Some? then Keys(st.users) else Keys(st.users) + [socketId])
      && r.0.cleanup == None
      && r.0.lastActivity == now
      && r.0 == st.(users := r.0.users, lastActivity := now, cleanup := None)
    ensures Inv(st) ==> Inv(r.0)
  {
    if username !in st.authorized then (st, false)
    else
      var users := Set(st.users, socketId, User(username));
      assert Inv(st) ==> forall i :: 0 <= i < |users| ==> users[i].val.username in st.authorized by {
        if Inv(st) {
          forall i | 0 <= i < |users| ensures users[i].val.username in st.authorized {
            GetIsMembership(users, users[i].key, users[i].val);
            if users[i].key != socketId {
              GetIsMembership(st.users, users[i].key, users[i].val);
            }
          }
        }
      }
      (st.(users := users, lastActivity := now, cleanup := None), true)
  }

  /** `getUsername(socketId)` */
  function GetUsername(st: RoomState, socketId: string): (r: Option<string>)
    ensures r.Some? <==> Get(st.users, socketId).Some?
    ensures r.Some? ==> Get(st.users, socketId) == Some(User(r.value))
    ensures Inv(st) && r.Some? ==> r.value in st.authorized && r.value != ""
  {
    match Get(st.users, socketId)
    case None => None
    case Some(u) => Some(u.username)
  }

  /** `removeUser(socketId)` */
  function RemoveUser(st: RoomState, socketId: string, now: Time): (r: (RoomState, Option<string>))
    ensures r.1 == GetUsername(st, socketId)
    ensures |r.0.users| == |st.users| - (if r.1.Some? then 1 else 0)
    ensures Inv(st) ==> Get(r.0.users, socketId).None?
    ensures Inv(st) ==> forall s :: s != socketId ==> Get(r.0.users, s) == Get(st.users, s)
    ensures r.0 == st.(users := r.0.users, lastActivity := now)
    ensures Inv(st) ==> Inv(r.0)
  {
    var users := Delete(st.users, socketId);
    assert forall i :: 0 <= i < |users| ==> users[i] in st.users;
    (st.(users := users, lastActivity := now), GetUsername(st, socketId))
  }

  /** The copy of `message` that `addMessage` stores. */
  function Stamp(message: Message, now: Time): Message
  {
    message.(timestamp := now)
  }

  /** `addMessage(message)` */
  function AddMessage(st: RoomState, message: Message, now: Time): (r: RoomState)
    ensures |st.messages| <= HistoryCap ==> r.messages == LastN(st.messages + [Stamp(message, now)], HistoryCap)
    ensures r.messages != [] && r.messages[|r.messages| - 1] == Stamp(message, now)
    ensures r == st.(messages := r.messages, lastActivity := now)
    ensures Inv(st) ==> Inv(r)
  {
    PushKeepsWindow(st.messages, Stamp(message, now), HistoryCap);
    st.(messages := Push(st.messages, Stamp(message, now), HistoryCap), lastActivity := now)
  }

  /** `clearCleanupTimeout()` */
  function ClearCleanupTimeout(st: RoomState): (r: RoomState)
    ensures r.cleanup.None? && r == st.(cleanup := r.cleanup)
    ensures forall h :: Fire(r, h) == (r, None)
    ensures Inv(st) ==> Inv(r)
  {
    st.(cleanup := None)
  }

  /** `startCleanupTimer(callback)`, where `h` is the handle `setTimeout` returns. */
  function StartCleanupTimer(st: RoomState, h: Handle): (r: RoomState)
    ensures r == st.(cleanup := r.cleanup)
    ensures Fire(r, h).1.Some? <==> st.users == []
    ensures forall g :: g != h ==> Fire(r, g) == (r, None)
    ensures Inv(st) ==> Inv(r)
  {
    st.(cleanup := Some(h))
  }

  /** Timer `h` elapses. Only the pending timer can fire: one that was cleared or
      replaced never runs. The result names the room id the callback is invoked
      with, which happens only when the room has no members. */
  function Fire(st: RoomState, h: Handle): (r: (RoomState, Option<string>))
    ensures r.1.Some? <==> st.cleanup == Some(h) && st.users == []
    ensures r.1.Some? ==> r.1.value == st.id
    ensures r.0.cleanup == (if st.cleanup == Some(h) then None else st.cleanup)
    ensures r.0 == st.(cleanup := r.0.cleanup)
    ensures Inv(st) ==> Inv(r.0)
  {
    if st.cleanup != Some(h) then (st, None)
    else (st.(cleanup := None), if |st.users| == 0 then Some(st.id) else None)
  }

  /** `cleanup()` */
  function Cleanup(st: RoomState): (r: RoomState)
    ensures r.users == [] && r.messages == [] && r.authorized == {} && r.cleanup == None
    ensures SameRoom(st, r) && r.lastActivity == st.lastActivity
    ensures Inv(r)
  {
    st.(users := [], messages := [], authorized := {}, cleanup := None)
  }

  /** Authorizing a name twice is the same as authorizing it once. */
  lemma AuthorizeIdempotent(st: RoomState, username: string)
    ensures AuthorizeUser(AuthorizeUser(st, username).0, username) == AuthorizeUser(st, username)
  {
  }

  /** Re-joining on the same socket overwrites its entry: the member count and
      the join order stay as they were. */
  lemma RejoinOverwrites(st: RoomState, socketId: string, username: string, now: Time)
    requires Inv(st) && username in st.authorized && Get(st.users, socketId).Some?
    ensures |AddUser(st, socketId, username, now).0.users| == |st.users|
    ensures Keys(AddUser(st, socketId, username, now).0.users) == Keys(st.users)
  {
    var users := AddUser(st, socketId, username, now).0.users;
    assert |Keys(users)| == |users|;
  }

  /** Arming a timer cancels any earlier one: after `StartCleanupTimer(st, h)`
      no other handle can fire. */
  lemma AtMostOneTimer(st: RoomState, h: Handle, g: Handle)
    requires g != h
    ensures Fire(StartCleanupTimer(st, h), g) == (StartCleanupTimer(st, h), None)
  {
  }

  /** A member joining cancels the pending timer: whatever handle elapses
      afterwards, the callback is not invoked. */
  lemma JoinCancelsTimer(st: RoomState, socketId: string, username: string, now: Time, h: Handle)
    requires username in st.authorized
    ensures Fire(AddUser(st, socketId, username, now).0, h).1 == None
  {
  }
}
