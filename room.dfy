/** Room.js: the `Room` class, its fields updated in place. Each method is
    proved against the function of the same name in `RoomSpec`; `Valid()` is
    the room invariant plus the history window over the ghost `log`. */
module Rooms {
  import opened Common
  import opened OrderedMap
  import opened History
  import opened RoomSpec

  class Room {
    const id: string
    const createdBy: string
    const createdAt: Time
    var users: seq<Entry<string, User>>
    var authorizedUsers: set<string>
    var messages: seq<Message>
    var lastActivity: Time
    var cleanupTimeout: Option<Handle>

    /** Every record `addMessage` stored since construction or the last `cleanup`. */
    ghost var log: seq<Message>

    ghost function State(): RoomState
      reads this
    {
      RoomState(id, createdBy, users, authorizedUsers, messages, createdAt, lastActivity, cleanupTimeout)
    }

    /** The room invariant, and the history is the last 100 records stored. */
    ghost predicate Valid()
      reads this
    {
      Inv(State()) && messages == LastN(log, HistoryCap)
    }

    /** `new Room(id, password, createdBy)`; the password hash is not modelled. */
    constructor (id: string, createdBy: string, now: Time)
      ensures Valid() && log == []
      ensures State() == RoomState(id, createdBy, [], {}, [], now, now, None)
    {
      this.id := id;
      this.createdBy := createdBy;
      this.createdAt := now;
      users := [];
      authorizedUsers := {};
      messages := [];
      lastActivity := now;
      cleanupTimeout := None;
      log := [];
    }

    method AuthorizeUser(username: string) returns (ok: bool)
      requires Valid()
      modifies this
      ensures Valid() && log == old(log)
      ensures (State(), ok) == RoomSpec.AuthorizeUser(old(State()), username)
    {
      if username == "" {
        return false;
      }
      authorizedUsers := authorizedUsers + {username};
      return true;
    }

    /** `isUserAuthorized(username)`; the empty name is never authorized. */
    function IsUserAuthorized(username: string): (b: bool)
      reads this
      ensures b <==> username in State().authorized
      ensures Valid() && b ==> username != ""
    {
      username in authorizedUsers
    }

    method AddUser(socketId: string, username: string, now: Time) returns (ok: bool)
      requires Valid()
      modifies this
      ensures Valid() && log == old(log)
      ensures (State(), ok) == RoomSpec.AddUser(old(State()), socketId, username, now)
    {
      if !IsUserAuthorized(username) {
        return false;
      }
      users := Set(users, socketId, User(username));
      lastActivity := now;
      ClearCleanupTimeout();
      return true;
    }

    method RemoveUser(socketId: string, now: Time) returns (username: Option<string>)
      requires Valid()
      modifies this
      ensures Valid() && log == old(log)
      ensures (State(), username) == RoomSpec.RemoveUser(old(State()), socketId, now)
    {
      username := GetUsername(socketId);
      users := Delete(users, socketId);
      lastActivity := now;
    }

    /** `getUsername(socketId)`: a name it returns is an authorized, non-empty one. */
    function GetUsername(socketId: string): (r: Option<string>)
      reads this
      ensures r.Some? <==> Get(users, socketId).Some?
      ensures r.Some? ==> Get(users, socketId) == Some(User(r.value))
      ensures Valid() && r.Some? ==> r.value in authorizedUsers && r.value != ""
      ensures r == RoomSpec.GetUsername(State(), socketId)
    {
      match Get(users, socketId)
      case None => None
      case Some(u) => Some(u.username)
    }

    method AddMessage(message: Message, now: Time)
      requires Valid()
      modifies this
      ensures Valid() && log == old(log) + [Stamp(message, now)]
      ensures State() == RoomSpec.AddMessage(old(State()), message, now)
    {
      PushKeepsWindow(log, Stamp(message, now), HistoryCap);
      messages := Push(messages, Stamp(message, now), HistoryCap);
      lastActivity := now;
      log := log + [Stamp(message, now)];
    }

    /** `getMessages()`: the last 100 records stored, oldest first. */
    function GetMessages(): (r: seq<Message>)
      reads this
      ensures Valid() ==> r == LastN(log, HistoryCap) && |r| <= HistoryCap
    {
      messages
    }

    /** `getUserCount()`: as many members as `getAllUsers()` lists. */
    function GetUserCount(): (n: nat)
      reads this
      ensures n == |GetAllUsers()|
    {
      |users|
    }

    /** `getAllUsers()`: one name per member socket, in join order. */
    function GetAllUsers(): (r: seq<string>)
      reads this
      ensures |r| == |users|
      ensures forall i :: 0 <= i < |users| ==> r[i] == users[i].val.username
      ensures Valid() ==> forall name :: name in r ==> name in authorizedUsers
    {
      Usernames(users)
    }

    method ClearCleanupTimeout()
      modifies this
      ensures State() == RoomSpec.ClearCleanupTimeout(old(State()))
      ensures log == old(log)
    {
      if cleanupTimeout.Some? {
        cleanupTimeout := None;
      }
    }

    /** `startCleanupTimer(callback)`, `h` being what `setTimeout` returns. */
    method StartCleanupTimer(h: Handle)
      requires Valid()
      modifies this
      ensures Valid() && log == old(log)
      ensures State() == RoomSpec.StartCleanupTimer(old(State()), h)
    {
      ClearCleanupTimeout();
      cleanupTimeout := Some(h);
    }

    /** Timer `h` elapses; the result is the id the callback is invoked with. */
    method Fire(h: Handle) returns (callback: Option<string>)
      requires Valid()
      modifies this
      ensures Valid() && log == old(log)
      ensures (State(), callback) == RoomSpec.Fire(old(State()), h)
    {
      if cleanupTimeout != Some(h) {
        return None;
      }
      cleanupTimeout := None;
      if |users| == 0 {
        return Some(id);
      }
      return None;
    }

    method Cleanup()
      modifies this
      ensures Valid() && log == []
      ensures State() == RoomSpec.Cleanup(old(State()))
    {
      ClearCleanupTimeout();
      users := [];
      messages := [];
      authorizedUsers := {};
      log := [];
    }
  }
}
