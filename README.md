# PeerConnect chat server, modelled in Dafny

PeerConnect is a Node.js room-based chat server built on socket.io. This project models the
server's state-changing core in three generations:

- The current server. `Room.js` holds one room: its members by socket, the names authorized by
  password, a history of the last 100 records, and a pending cleanup timer. `Sockethandler.js`
  holds the socket event handlers over the registry of rooms. `FileService.js` holds the upload
  endpoint's handler with multer's type filter and size limit.
- The earlier single-file `server.js`. Its own `Room` class keeps a history of 50 and has no
  authorization. It has the global `rooms` map and its handlers, and the `/upload` route.
- The prototype `p2p-chat-app/server.js`. Its only state is a `Map` from room id to a `Set` of
  usernames.

Each source file is modelled twice:

- A module of pure functions over values (`RoomSpec`, `HubSpec`, `UploadSpec`, `LegacySpec`,
  `PrototypeSpec`). One function per handler or operation. Each contract states its error cases,
  the exact new state, the events emitted in their order, and the invariant it keeps.
- A module of classes whose fields are updated in place, as in the source (`Rooms`,
  `SocketHandlers`, `FileServices`, `LegacyServer`, `Prototype`). Each method is proved to move the
  object's abstract value exactly as the function of the same name does.

The lemmas about those functions state what the source promises across calls:
- the 100/50-record window after any sequence of messages;
- at most one pending timer;
- a join cancels the cleanup;
- the last leave, then the timer, deletes the room;
- what a disconnect touches;
- idempotence of `create-room` in the prototype;
- nonempty rooms after any sequence of prototype events.

Shared vocabulary:

- A JavaScript `Map` keeps insertion order, and so does a `Set`. Both are association lists: module
  `OrderedMap`, and `SetAdd`/`SetDelete` in `PrototypeSpec`. So member lists in payloads and the
  order of the disconnect loop are exact.
- Every `socket.emit`, `io.to(room).emit` and `io.emit` appends an `Emit(target, name, payload)` to
  an outbox.
- A timer is the handle that `setTimeout` returned, taken from a counter. Firing a handle acts only
  if it is still the room's pending one.
- The clock is a `now` parameter of every handler.
- `String.prototype.trim`, used by `create-room` in `server.js`, is modelled by `JsString`. It
  follows the white space and line terminator code points of sections 12.2 and 12.3 of ECMA-262.

Behaviour of the code as written that the model keeps:

- `server.js`'s `handleLeaveRoom` never removes the user from `room.users`. `user-left` still lists
  the leaver. A cleanup timer is armed only when the room was already empty.
- `Sockethandler.js` emits `user-left` with the name from the request, not the name the socket
  joined under.
- `FileService.js` answers 401 for any name the room has not authorized. Membership is not consulted.
- `server.js`'s `/upload` sends no response when no file is present. It sends `{ success: true }`
  even when the room does not exist.

## Model

| member | source | states |
|---|---|---|
| OrderedMap.Get | Room.js:45 | `map.get(k)`: absent exactly when no entry has key `k`; with distinct keys, the value of the entry with key `k` |
| OrderedMap.Set | Room.js:38 | `map.set(k, v)`: `k` then maps to `v`, every other key keeps its value, distinct keys are kept, a present key keeps its place and a new key is appended |
| OrderedMap.Delete | Room.js:46 | `map.delete(k)`: one entry fewer exactly when `k` was present, `k` is then absent, all other keys keep their values, no entry is invented |
| OrderedMap.FindByKeys | Sockethandler.js:20 | a lookup in the registry of objects finds the same position as in its abstract view, since both have the same keys in the same order |
| OrderedMap.SetPresent | p2p-chat-app/server.js:59-61 | setting a key to the value it already holds changes nothing |
| History.LastN | Room.js:62 | the window holds at most `n` records, all of them if there are no more, and is a suffix of the log |
| History.Push | Room.js:59-63 | with a non-zero cap the pushed record is the newest; on a history within the cap the result is the last `cap` records of that history extended by the record |
| History.PushAll | server.js:75-81 | records pushed in turn onto a history within the cap keep it within the cap, and with a non-zero cap the last one pushed is the newest; `History.PushAllIsWindow` gives the whole window |
| History.PushKeepsWindow | Room.js:59-63 | one push-then-shift on the window of a log is the window of the log extended by that record |
| History.PushAllIsWindow | Room.js:59-63 | after any sequence of pushes the history is the last `cap` records pushed, in arrival order |
| History.PushAllFromEmpty | Room.js:59-63 | from an empty history, any sequence of pushes leaves at most `cap` records, the most recent ones |
| RoomSpec.AuthorizeUser | Room.js:26-30 | the empty name is refused and nothing changes; any other name is added to `authorizedUsers` and nothing else changes; the invariant is kept |
| RoomSpec.AddUser | Room.js:36-42 | an unauthorized name is refused with no change; an authorized one maps the socket to `{ username }`, overwriting an earlier entry in place or appending, leaves other sockets as they were, stamps the activity time and clears the cleanup timer |
| RoomSpec.GetUsername | Room.js:51-53 | a name exactly when the socket is a member, and then the very name the socket maps to, authorized and non-empty |
| RoomSpec.RemoveUser | Room.js:44-49 | returns the socket's prior name; exactly that socket's entry is gone, all others are unchanged; the member count drops by one exactly when it was a member |
| RoomSpec.AddMessage | Room.js:59-63 | the history becomes the last 100 of the old history plus the record restamped with the current time; the newest record is last; nothing else but the activity time changes |
| RoomSpec.ClearCleanupTimeout | Room.js:77-82 | afterwards no timer is pending and no elapsing handle acts; every other field, and the invariant, are kept |
| RoomSpec.StartCleanupTimer | Room.js:84-89 | only the timer changes; the new handle invokes the callback exactly when the room has no members, and any earlier handle no longer acts |
| RoomSpec.Fire | Room.js:84-89 | only the pending handle acts, and it is consumed; the callback gets the room id exactly when that handle fires while `users` is empty |
| RoomSpec.Cleanup | Room.js:91-96 | members, history and authorized names are empty, no timer is pending, id and creation data are kept, and the invariant holds |
| RoomSpec.AuthorizeIdempotent | Room.js:26-30 | authorizing a name twice is the same as authorizing it once |
| RoomSpec.RejoinOverwrites | Room.js:38 | re-joining on the same socket keeps the member count and the join order |
| RoomSpec.AtMostOneTimer | Room.js:84-89 | after arming handle `h`, no other handle can fire |
| RoomSpec.JoinCancelsTimer | Room.js:36-42 | after an accepted `addUser`, no handle invokes the callback |
| Rooms.Room.constructor | Room.js:4-16 | a room with no members, no authorized names, an empty history, no timer, created and active now |
| Rooms.Room.AuthorizeUser | Room.js:26-30 | the fields change exactly as `RoomSpec.AuthorizeUser` says, and the result is its answer |
| Rooms.Room.IsUserAuthorized | Room.js:32-34 | true exactly when the name is in the authorized set; an authorized name is never the empty one |
| Rooms.Room.AddUser | Room.js:36-42 | the fields change exactly as `RoomSpec.AddUser` says, and the result is its answer |
| Rooms.Room.RemoveUser | Room.js:44-49 | the fields change exactly as `RoomSpec.RemoveUser` says, and it returns the prior name |
| Rooms.Room.GetUsername | Room.js:51-53 | a name exactly when the socket is a member, the very name the socket maps to, authorized and non-empty |
| Rooms.Room.AddMessage | Room.js:59-63 | the stamped record is added to the log and the history stays the last 100 records of the log |
| Rooms.Room.GetMessages | Room.js:65-67 | the last 100 records stored, at most 100 |
| Rooms.Room.GetUserCount | Room.js:69-71 | as many as `getAllUsers()` lists |
| Rooms.Room.GetAllUsers | Room.js:73-75 | one name per member socket in join order, every one of them authorized |
| Rooms.Room.ClearCleanupTimeout | Room.js:77-82 | no timer is pending afterwards and nothing else changes |
| Rooms.Room.StartCleanupTimer | Room.js:84-89 | the earlier timer is cleared and the new handle is the only one pending |
| Rooms.Room.Fire | Room.js:86-88 | the fields change as `RoomSpec.Fire` says, and it returns the id the callback gets |
| Rooms.Room.Cleanup | Room.js:91-96 | members, history, authorized names and timer are all cleared together |
| HubSpec.JoinRoom | Sockethandler.js:19-38 | a missing room or an unauthorized name gets only `error { Unauthorized }` with no state change; otherwise the socket becomes a member under that name, the timer is cancelled, and `room-joined` (members, history), then `user-joined` (members) are emitted; other rooms are untouched |
| HubSpec.LeaveRoom | Sockethandler.js:84-97 | a missing room is a no-op; otherwise the socket's membership is removed, `user-left` with the payload name and the remaining members goes to the room, then `room-left` to the socket; a timer is armed exactly when the room is now empty; apart from the members, the activity time and the timer, the room record is unchanged |
| HubSpec.ChatMessage | Sockethandler.js:47-60 | an unknown room or an unauthorized name changes nothing and emits nothing; otherwise exactly one text record is appended to the window of 100, and the same record is broadcast as `chat message` |
| HubSpec.Post | Sockethandler.js:58-59 | on a registered room: the record joins its history, it alone is broadcast to the room under the given event name, other rooms and the timer counter are untouched, the invariant is kept |
| HubSpec.DisconnectFrom | Sockethandler.js:64-79 | a room where the socket has no name is untouched; otherwise the socket is removed, `user-left` with its former name goes to the room, and a timer is armed exactly when the room is now empty |
| HubSpec.AffectedRooms | Sockethandler.js:64-66 | exactly the registry ids whose room has the socket as a named member, in registry order |
| HubSpec.DisconnectAll | Sockethandler.js:64-80 | the loop over `ids` keeps the registry's keys, changes no room outside `ids`, only appends events, never moves the timer counter back, and keeps the invariant |
| HubSpec.DisconnectAllSpec | Sockethandler.js:62-82 | the loop over distinct ids removes the socket from every touched room and leaves the others as they were; it emits one `user-left` per touched room, in registry order, and keeps the invariant |
| HubSpec.Disconnect | Sockethandler.js:62-82 | afterwards the socket is in no room; the rooms where it had a name have each lost it, with a timer exactly when now empty; the other rooms are unchanged; the notices follow registry order |
| HubSpec.DisconnectLeavesNoMembership | Sockethandler.js:62-82 | after the loop no registered room lists the socket |
| HubSpec.CleanupRoom | Sockethandler.js:99-106 | an absent id changes nothing; a present one is removed from the registry and `room-deleted { roomId }` goes to everyone |
| HubSpec.FireTimer | Sockethandler.js:94-96 | the room is deleted, with `room-deleted` to all, exactly when the handle is its pending timer and it is still empty; otherwise no event is emitted and the registry keeps its keys; a handle that is not the room's pending timer, or (under the invariant) any handle that does not expire it, changes nothing at all |
| HubSpec.JoinCancelsCleanup | Sockethandler.js:19-38 | after an accepted join, no timer deletes the room and nothing is emitted when one elapses |
| HubSpec.LastLeaveThenTimerDeletes | Sockethandler.js:84-106 | when the only member leaves, a timer is armed; when it elapses the room is deleted and `room-deleted` is broadcast |
| HubSpec.SecondDeviceSurvivesDisconnect | Sockethandler.js:62-82 | with one name joined from two sockets, disconnecting one leaves the other a member under that name |
| HubSpec.TwoSocketsJoined | Sockethandler.js:19-38 | after two sockets join under one authorized name, the first is touched by a disconnect and the second is listed under the name |
| HubSpec.AliceJoinsBobRefused | Sockethandler.js:19-38 | concretely: the authorized creator joins and gets `["alice"]` and an empty history; an unauthorized name gets `Unauthorized` and the member list is unchanged |
| HubSpec.AliceJoins | Sockethandler.js:19-38 | concretely: the creator of `alpha` joins it, is its one member, and is sent `room-joined` with `["alice"]` and an empty history |
| SocketHandlers.SocketHandler.constructor | Sockethandler.js:2-6 | the handler works over the given registry with no event emitted |
| SocketHandlers.SocketHandler.Lookup | Sockethandler.js:20 | the position of the room's entry, found exactly when the abstract registry has the id, with that room's state |
| SocketHandlers.SocketHandler.HandleJoinRoom | Sockethandler.js:19-38 | the registry and its rooms move exactly as `HubSpec.JoinRoom` says |
| SocketHandlers.SocketHandler.JoinAt | Sockethandler.js:25-37 | on the found room with an authorized name, the state moves exactly as `HubSpec.JoinRoom` says |
| SocketHandlers.SocketHandler.HandleLeaveRoom | Sockethandler.js:40-45 | the registry and its rooms move exactly as `HubSpec.LeaveRoom` says |
| SocketHandlers.SocketHandler.LeaveRoom | Sockethandler.js:84-97 | on the found room, the state moves exactly as `HubSpec.LeaveRoom` says |
| SocketHandlers.SocketHandler.ArmIfEmpty | Sockethandler.js:94-96 | a room with no members gets a timer under the next handle, and the counter moves on; a room with members is left as it was |
| SocketHandlers.SocketHandler.HandleChatMessage | Sockethandler.js:47-60 | the state moves exactly as `HubSpec.ChatMessage` says |
| SocketHandlers.SocketHandler.PostAt | Sockethandler.js:58-59 | on the found room, the state moves exactly as `HubSpec.Post` says |
| SocketHandlers.SocketHandler.HandleDisconnect | Sockethandler.js:62-82 | the loop over the registry's entries moves the state exactly as `HubSpec.Disconnect` says |
| SocketHandlers.SocketHandler.DisconnectStep | Sockethandler.js:65-79 | one pass of the loop moves the state as `HubSpec.DisconnectFrom` says on that entry |
| SocketHandlers.SocketHandler.LeaveOnDisconnect | Sockethandler.js:67-78 | on a found room where the socket has a name, the state moves exactly as `HubSpec.DisconnectFrom` says |
| SocketHandlers.SocketHandler.CleanupRoom | Sockethandler.js:99-106 | the state moves exactly as `HubSpec.CleanupRoom` says |
| SocketHandlers.SocketHandler.FireTimer | Sockethandler.js:94-96 | the state moves exactly as `HubSpec.FireTimer` says |
| UploadSpec.Includes | FileService.js:30 | `includes` is list membership |
| UploadSpec.FileFilter | FileService.js:28-31 | accepts exactly image/jpeg, image/png, image/gif, application/pdf and text/plain |
| UploadSpec.Receive | FileService.js:26-33 | a refused type leaves `req.file` unset; a kept file over 5242880 bytes is the limit error; otherwise the file passes unchanged |
| UploadSpec.FileRecord | FileService.js:46-55 | a `file` record with the upload's fields, path `/uploads/` + filename, the requester's name and the current time |
| UploadSpec.Upload | FileService.js:36-60 | no file gives 400 `No file uploaded` and a missing room or unauthorized name gives 401 `Unauthorized`, both without a state change; otherwise exactly one file record is appended and broadcast as `file-shared`, and the answer is 200 with that record |
| UploadSpec.SharedFilesAdmitted | FileService.js:26-60 | a file that reaches a room through multer has an allowed type and is within the limit, and the record answered is the record broadcast |
| FileServices.HandleUpload | FileService.js:36-60 | the registry and the response are exactly those of `UploadSpec.Upload` |
| FileServices.ShareFile | FileService.js:46-59 | the accepted path: the state and the response are those of `UploadSpec.Upload` |
| JsString.Trim | server.js:161 | a contiguous piece of the string with no white space at either end, everything outside it white space |
| JsString.TrimUnique | server.js:161 | any piece with no white space at either end and only white space around it is the trim |
| JsString.TrimOfTrimmed | server.js:161 | a string with no white space at its ends is its own trim |
| JsString.TrimIdempotent | server.js:161 | trimming twice is trimming once |
| JsString.TrimIgnoresPadding | server.js:161 | a space on each side does not change the trimmed value |
| LegacySpec.NewRoom | server.js:33-40 | no members, no history, no timer |
| LegacySpec.AddUser | server.js:42-50 | unconditionally maps the socket to the name, in place or appended, leaves others alone, and cancels the timer |
| LegacySpec.RemoveUser | server.js:52-57 | returns the prior name and removes exactly that socket |
| LegacySpec.AddMessage | server.js:75-81 | the history becomes the last 50 of the old history plus the record, which is stored unchanged |
| LegacySpec.StartCleanupTimer | server.js:87-96 | only the timer changes; the new handle calls back exactly when the room has no members, and any earlier handle is cancelled |
| LegacySpec.Fire | server.js:87-96 | only the pending handle acts; the callback gets the id exactly when the room is empty |
| LegacySpec.Cleanup | server.js:98-102 | only the pending timer is cancelled |
| LegacySpec.AllUsers | server.js:71-73 | the members' names in join order |
| LegacySpec.HandleJoinRoom | server.js:226-244 | an unknown room changes nothing; otherwise the socket joins, the timer is cancelled, and `recent messages`, `user-joined`, `room-joined` are emitted in that order |
| LegacySpec.CreateError | server.js:159-169 | refuses exactly an empty id, an id equal to the name after trimming both, or an existing id |
| LegacySpec.CreateRoom | server.js:159-174 | a refused id emits one `creation-error` with its message and changes nothing else; otherwise a new room with the creator as sole member is appended and the three join events follow |
| LegacySpec.CreateAndJoin | server.js:171-173 | for a fresh id: the registry gains that one key, last, holding a room whose only member is the creator; other rooms are untouched; `recent messages` (empty), `user-joined` and `room-joined` with `[username]` follow; the invariant is kept |
| LegacySpec.JoinNewRoom | server.js:226-244 | joining a just-created room makes the joiner its only user, with an empty history and no timer |
| LegacySpec.JoinRoom | server.js:176-182 | an unknown id gets `room-not-found` and nothing else changes; otherwise it acts as `handleJoinRoom` |
| LegacySpec.HandleLeaveRoom | server.js:246-265 | an unknown room or empty name changes nothing; otherwise no member is removed, `user-left` lists the current members, a timer is armed only if the room was empty, then `room-left` |
| LegacySpec.ChatMessage | server.js:188-201 | an unknown room changes nothing; otherwise the record with the socket's name, if any, goes into the window of 50 and is broadcast |
| LegacySpec.DisconnectFrom | server.js:206-220 | the socket is removed from a registered room and nothing else in its record changes but the activity time and the timer; `user-left` and, when it is now empty, a timer only if it had a non-empty name; the timer counter advances by exactly the timers armed |
| LegacySpec.DisconnectFromSpec | server.js:206-220 | one pass leaves the socket out of that room, no other room changes, and only `user-left` events are appended |
| LegacySpec.Disconnect | server.js:203-223 | the forEach over the socket's rooms keeps the keys and the invariant; its exact result is stated by `LegacySpec.DisconnectExact` |
| LegacySpec.DisconnectSpec | server.js:203-223 | afterwards the socket is in none of the listed rooms, unlisted rooms are untouched, and only `user-left` events were emitted |
| LegacySpec.DisconnectExact | server.js:203-223 | over the socket's distinct rooms, each room the socket was named in loses it and is armed exactly when it empties, the timer counter advances by the rooms armed, and the `user-left` notices appear in the order of the socket's rooms |
| LegacySpec.NotifiedRooms | server.js:206-214 | exactly the listed registered rooms where the socket has a non-empty name |
| LegacySpec.ArmedRooms | server.js:215-219 | exactly the notified rooms that the socket's removal empties |
| LegacySpec.CleanupRoom | server.js:146-154 | an absent id changes nothing; a present one is removed and `room-deleted` goes to all |
| LegacySpec.FireTimer | server.js:91-95 | the room is removed exactly when the handle is pending on it, since it is then empty, and every other room, the outbox and the timer counter are kept; otherwise nothing changes |
| LegacySpec.Upload | server.js:124-143 | no file: no response and no change; a file: `{ success: true }`, and the record is stored and broadcast as `file-shared` only when the room exists |
| LegacySpec.LeaveKeepsMember | server.js:246-265 | a sole member who leaves is still a member, is listed in `user-left`, and no timer is armed |
| LegacySpec.CreatedThenLeftPersists | server.js:159-265 | a room created and then left by its creator with `leave-room` has no timer armed: whatever handle fires next, the room stays registered |
| LegacySpec.CreatorDisconnectThenTimerDeletes | server.js:159-223 | taken over the rooms the socket was in, a room whose creator disconnects is empty with its cleanup pending on the next handle, and that handle's firing deletes it |
| LegacySpec.DisconnectEventKeepsRoom | server.js:203-223 | with the empty `socket.rooms` that socket.io 3 and later hand to `disconnect`, the creator's disconnect changes nothing: the new room keeps its creator, no `user-left` is sent, and no handle deletes it |
| LegacyServer.LegacyRoom.constructor | server.js:33-40 | the state is `NewRoom` |
| LegacyServer.LegacyRoom.AddUser | server.js:42-50 | the fields move as `LegacySpec.AddUser` says |
| LegacyServer.LegacyRoom.RemoveUser | server.js:52-57 | the fields move as `LegacySpec.RemoveUser` says, returning the prior name |
| LegacyServer.LegacyRoom.GetUsername | server.js:63-65 | the name the socket is mapped to, if any |
| LegacyServer.LegacyRoom.GetUserCount | server.js:67-69 | as many as `getAllUsers()` lists |
| LegacyServer.LegacyRoom.GetAllUsers | server.js:71-73 | the members' names in join order |
| LegacyServer.LegacyRoom.AddMessage | server.js:75-81 | the history stays the last 50 records of the log |
| LegacyServer.LegacyRoom.GetRecentMessages | server.js:83-85 | the last 50 records stored |
| LegacyServer.LegacyRoom.StartCleanupTimer | server.js:87-96 | the new handle is the only one pending |
| LegacyServer.LegacyRoom.Fire | server.js:91-95 | the fields move as `LegacySpec.Fire` says, returning the callback's id |
| LegacyServer.LegacyRoom.Cleanup | server.js:98-102 | the pending timer is cancelled and nothing else changes |
| LegacyServer.ChatServer.constructor | server.js:106 | an empty registry and no events |
| LegacyServer.ChatServer.Lookup | server.js:227 | the position of the room's entry, found exactly when the abstract registry has the id |
| LegacyServer.ChatServer.HandleJoinRoom | server.js:226-244 | the state moves as `LegacySpec.HandleJoinRoom` says |
| LegacyServer.ChatServer.JoinAt | server.js:230-243 | on the found room, the state moves as `LegacySpec.HandleJoinRoom` says |
| LegacyServer.ChatServer.CreateRoom | server.js:159-174 | the state moves as `LegacySpec.CreateRoom` says, the new room being a fresh object |
| LegacyServer.ChatServer.Refuse | server.js:161-169 | one `creation-error` with the given message goes to the socket; rooms, timers and the invariant are unchanged |
| LegacyServer.ChatServer.CreateAndJoin | server.js:171-173 | for a fresh id, the state moves as `LegacySpec.CreateAndJoin` says, the new room being a fresh object |
| LegacyServer.ChatServer.AddRoom | server.js:171-172 | a fresh `new Room(roomId)` is appended to the registry, nothing else changes, and the invariant is kept |
| LegacyServer.ChatServer.JoinRoom | server.js:176-182 | the state moves as `LegacySpec.JoinRoom` says |
| LegacyServer.ChatServer.HandleLeaveRoom | server.js:246-265 | the state moves as `LegacySpec.HandleLeaveRoom` says |
| LegacyServer.ChatServer.LeaveAt | server.js:252-264 | on the found room, the state moves as `LegacySpec.HandleLeaveRoom` says |
| LegacyServer.ChatServer.ChatMessage | server.js:188-201 | the state moves as `LegacySpec.ChatMessage` says |
| LegacyServer.ChatServer.Disconnect | server.js:203-223 | the loop over the socket's rooms moves the state as `LegacySpec.Disconnect` says |
| LegacyServer.ChatServer.DisconnectFrom | server.js:206-220 | one pass moves the state as `LegacySpec.DisconnectFrom` says |
| LegacyServer.ChatServer.DisconnectAt | server.js:207-219 | on the found room, the state moves as `LegacySpec.DisconnectFrom` says |
| LegacyServer.ChatServer.CleanupRoom | server.js:146-154 | the state moves as `LegacySpec.CleanupRoom` says |
| LegacyServer.ChatServer.FireTimer | server.js:91-95 | the state moves as `LegacySpec.FireTimer` says |
| LegacyServer.ChatServer.Upload | server.js:124-143 | the state and the answer are those of `LegacySpec.Upload` |
| LegacyServer.ChatServer.ShareFile | server.js:134-140 | a file for a registered room is stored and broadcast as `LegacySpec.Upload` says |
| PrototypeSpec.SetAdd | p2p-chat-app/server.js:75 | `set.add`: the name is present afterwards, the other members are those before, a present name changes nothing, and no duplicate appears |
| PrototypeSpec.SetDelete | p2p-chat-app/server.js:101 | `set.delete`: the name is absent afterwards, every other member stays, and one element fewer exactly when it was present |
| PrototypeSpec.JoinRoom | p2p-chat-app/server.js:73-88 | the name is added with set semantics and other rooms are untouched; `user-joined` to the room and `room-joined` to the socket both carry the set's contents; well-formedness and the invariant are kept |
| PrototypeSpec.CreateRoom | p2p-chat-app/server.js:58-63 | an existing room keeps its members and gains the name; a new id is appended with the name as sole member; other rooms are untouched; `user-joined` with the name and the members goes to the room, then `room-joined` with the id and the members to the socket; the invariant is kept |
| PrototypeSpec.JoinRequest | p2p-chat-app/server.js:65-71 | an unknown id gets only `room-not-found` with the registry unchanged; otherwise it is `joinRoom` |
| PrototypeSpec.LeaveRoom | p2p-chat-app/server.js:98-110 | an unknown id changes nothing and emits nothing; otherwise the name is removed, the room is unregistered exactly when no other name was in it, and `user-left` carries what remains, or an empty list |
| PrototypeSpec.Step | p2p-chat-app/server.js:58-110 | one create, join or leave event changes no room but its own, only appends events, at most two, and keeps the invariant |
| PrototypeSpec.Run | p2p-chat-app/server.js:58-110 | events in arrival order change no room that none of them names, and only append events, at most two per event |
| PrototypeSpec.RunKeepsInv | p2p-chat-app/server.js:58-110 | after any sequence of create, join and leave events, every registered room has a nonempty set without duplicates |
| PrototypeSpec.EveryRoomOccupied | p2p-chat-app/server.js:58-110 | from start-up, whatever the events, no registry entry is an empty set |
| PrototypeSpec.CreateIdempotent | p2p-chat-app/server.js:58-63 | repeating `create-room` with the same name changes the registry no further |
| PrototypeSpec.RejoinAddsNoDuplicate | p2p-chat-app/server.js:75 | a name already in the set is not added again |
| PrototypeSpec.CreatorLeavesDeletes | p2p-chat-app/server.js:98-104 | the creator of a new room leaving it alone unregisters the room |
| Prototype.PrototypeServer.constructor | p2p-chat-app/server.js:25 | an empty registry and no events |
| Prototype.PrototypeServer.JoinRoom | p2p-chat-app/server.js:73-88 | the state moves as `PrototypeSpec.JoinRoom` says |
| Prototype.PrototypeServer.CreateRoom | p2p-chat-app/server.js:58-63 | the state moves as `PrototypeSpec.CreateRoom` says and the invariant is kept |
| Prototype.PrototypeServer.JoinRequest | p2p-chat-app/server.js:65-71 | the state moves as `PrototypeSpec.JoinRequest` says |
| Prototype.PrototypeServer.LeaveRoom | p2p-chat-app/server.js:98-110 | the state moves as `PrototypeSpec.LeaveRoom` says and the invariant is kept |

## Left out

- The Express app, static file serving, `http.listen`, and the `/api/rooms` listings of both servers. These are HTTP plumbing. How rooms reach the `Sockethandler.js` registry is outside its file, so `SocketHandler` is built over a given registry with no timer pending.
- socket.io transport: `socket.join`, `socket.leave`, and the delivery of `io.to(room)` to the group. Only the emitted events are modelled, as the outbox.
- `server.js`'s `disconnect` iterates over `socket.rooms`, which is transport state. It is a parameter of `Disconnect`, a sequence: the rooms the socket was in. `LegacySpec.DisconnectExact` takes it to list each room once, as a `Set` does. What the `disconnect` event itself sees is under "## Findings".
- bcrypt: `setPassword` and `verifyPassword` (Room.js:18-24). It is a foreign asynchronous library, and nothing in the modelled core reads the hash. `AuthorizeUser` is modelled; the password check that precedes it elsewhere is not.
- Real `setTimeout`/`clearTimeout` timing and the 1 hour / 1 minute delays. A timer is its handle, and firing is an explicit `Fire`/`FireTimer` step with that handle. `clearTimeout` is represented by the handle no longer being pending.
- RoomSpec.Fire: after the callback runs, JavaScript leaves the spent handle in `cleanupTimeout`, whereas the model clears it. No later step can fire that handle again, so no later behaviour differs.
- `Date` readings are the `now` parameter, and one handler sees one instant. `toISOString` and `toLocaleTimeString` formatting is not modelled: a timestamp is a `Time`.
- JavaScript `undefined` and non-string payload fields are not modelled. Payload fields are strings, and `""` is the only falsy one. `server.js` calls `username.trim()` without a guard, so a missing name would throw; that case is not modelled.
- multer disk storage, the uploads directory creation (`fs.mkdirSync`), and filename generation from `Date.now()` and `Math.random()`. The stored filename is a given string.
- multer's size-limit error is passed to Express's error handler, whose answer is not in the source. `UploadSpec.Receive` reports `LimitExceeded`, and `handleUpload` is not reached.
- `server.js` creates a room at `create-room` and arms its cleanup timer only on a leave or disconnect that empties it. Its `leave-room` handler leaves the member in place, so a room whose creator leaves it with `leave-room` gets no timer and stays registered (`LegacySpec.CreatedThenLeftPersists`); its `disconnect` handler reads `socket.rooms` after socket.io has emptied it, so as written the creator's disconnect leaves the new room listed with its creator and with no timer, and no handle deletes it (`LegacySpec.DisconnectEventKeepsRoom`, under "## Findings"). Over the rooms the socket was in, the creator's disconnect does empty the room and arm the timer, whose firing deletes it (`LegacySpec.CreatorDisconnectThenTimerDeletes`).
- LegacySpec.CreatorDisconnectThenTimerDeletes: its `socketRooms` is `[roomId]`, the rooms the socket was in as the `disconnecting` event would see them, not the empty `socket.rooms` that the `disconnect` handler reads under socket.io 3 and later; that case is `LegacySpec.DisconnectEventKeepsRoom`.
- `console.log` calls. They have no effect on state.
- The p2p prototype's `chat message` relay, its `/upload` route and its `disconnect` logging. They touch no state: the relay and `/upload` only forward their input to the room, and `disconnect` only logs.
- Prototype: the member `Set` objects inside the prototype's map are held as values in the registry field. No other reference to them exists, so updating them in place and replacing them agree.

## Findings

| source | as written | input that shows it | evidently intended | confidence | as-written member | corrected member |
|---|---|---|---|---|---|---|
| server.js:203-223 | the cleanup runs in the `disconnect` handler over `socket.rooms`; the `cors` option (server.js:4-9) and `Set.forEach` are socket.io 3 and later, which empty `socket.rooms` before `disconnect` fires, so the loop visits no room | `create-room` by one socket, then that socket disconnects: the room keeps its creator, no `user-left` is sent, no timer is armed, and no handle that fires afterwards deletes the room | the loop runs over the rooms the socket was in, as the `disconnecting` event sees them, so the last member's disconnect arms the cleanup timer | medium: rests on socket.io's documented event order, which is not part of this model; not executed | LegacySpec.DisconnectEventKeepsRoom | LegacySpec.CreatorDisconnectThenTimerDeletes |
