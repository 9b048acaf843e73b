# Room registry and join protocol of a party-game session server

This project models the in-memory room layer of a small real-time party-game
backend written in TypeScript (Express plus socket.io). It proves properties of
that model in Dafny.

- **Room service** (`RoomService`, `room_service.dfy`). A module-level `Map` from
  room id to room. `createRoom` draws random six-character codes until it finds
  one that no stored room uses. It also has `getRoomById`, `getRoomByCode`,
  `addPlayerToRoom` and `removePlayerFromRoom`. The map is modelled with its
  insertion order (`Registry`), because `getRoomByCode` returns the *first*
  room in `values()` order that has the code.
- **Room store** (`RoomStore`, `room_store.dfy`). A separate singleton map with
  `create`, `get`, `exists` and `update`. `update` merges a partial room
  (`Partial<Room>`, modelled as `Patch`) into the stored room.
- **Socket handlers** (`GameSocket`, `SocketIndex`, with the shared vocabulary in
  `Session`). Two variants of the `joinRoom` decision over the room store:
  - the one the server wires in (`GameSocket`), which re-syncs a returning member;
  - an alternative (`SocketIndex`), which ignores a returning member and announces
    each new player with `playerJoined`.

  A handler's effect is a `Reaction`: the emissions, each to the sender or to
  the room's broadcast group, whether the socket subscribed to the room
  (`socket.join`), and the resulting store.
- **Shared room model** (`Rooms`, `rooms.dfy`). The `Room` record, the capacity
  guard, and the player-list operations `indexOf` and `splice`. `Wrappers`
  holds the `Option` type.

The service's map and the room store are two different registries in the
source. The sockets and the HTTP routes use the store. The controller uses the
service. No room passes between the two. The model keeps them apart as well.

All operations are pure functions that return a result and the new registry.
The exceptions are `CreateRoom` and its retry loop `DrawFreeCode`: they are
methods, and the `while` loop mirrors the source's.

The following are parameters of the model:
- the random code generator: a finite sequence of drawn codes;
- `uuidv4`: the `roomId` argument;
- `new Date().toISOString()`: the `createdAt` argument.

## Model

| member | source | states |
|---|---|---|
| Rooms.IndexOf | src/services/room.service.ts:83-86 | the result is -1 exactly when the user is absent; otherwise it is a position holding the user with no earlier occurrence |
| Rooms.RemoveAt | src/services/room.service.ts:88 | `splice(i, 1)` shortens the list by one; positions before `i` keep their player and later ones move down by one |
| Rooms.Without | src/services/room.service.ts:83-88 | an absent user leaves the list as it was; for a present one, the first occurrence is cut out and the rest keeps its order: the length drops by one, the multiset loses one copy, and every other user stays |
| Rooms.WithoutIsErase | src/services/room.service.ts:88 | on a duplicate-free list, removing the first occurrence equals the independent definition that drops every occurrence and keeps the others in order |
| Rooms.WithoutKeepsNoDuplicates | src/services/room.service.ts:88 | removing from a duplicate-free list leaves a duplicate-free list without that user |
| Rooms.AppendKeepsNoDuplicates | src/services/room.service.ts:71-74 | appending a user not yet listed keeps the list duplicate-free |
| Rooms.WithoutAppended | src/services/room.service.ts:74-88 | removing a user just pushed onto a list that did not hold them gives back the list as it was |
| RoomService.Put | src/services/room.service.ts:51 | `Map.set` stores the room under the key; an existing key keeps its place in iteration order, a new key goes last |
| RoomService.Values | src/services/room.service.ts:34 | `[...rooms.values()]` has one entry per position of the insertion order, holding the room stored under that key |
| RoomService.ValuesListsEveryRoom | src/services/room.service.ts:34 | the spread lists every stored room, with exactly as many entries as stored keys |
| RoomService.SomeHasCode | src/services/room.service.ts:34 | `some` is true exactly when some room in the list has the code |
| RoomService.FindByCode | src/services/room.service.ts:61 | `find` returns none exactly when no room has the code; otherwise the first room in order that has it |
| RoomService.SomeHasCodeIffInUse | src/services/room.service.ts:34 | scanning `values()` sees exactly the codes stored in the map |
| RoomService.DrawFreeCode | src/services/room.service.ts:32-36 | the retry loop keeps the first draw no stored room uses; every earlier draw collided with a stored code |
| RoomService.CreateRoom | src/services/room.service.ts:31-53 | the new room's code is the first draw no stored room uses, so it differs from every existing code; the room has players exactly `[hostUserId]`, status waiting, and the given id, timestamp and capacity (8 when none is given); the entry under `roomId` becomes the new room (added last when the id is new, overwritten in place when it is stored) and every other entry is unchanged |
| RoomService.GetRoomById | src/services/room.service.ts:56-58 | defined exactly when the id is stored, and then it is the stored room |
| RoomService.GetRoomByIdAfterPut | src/services/room.service.ts:51-57 | after `rooms.set(roomId, room)`, `getRoomById(roomId)` is that room and every other id reads as before |
| RoomService.GetRoomByCode | src/services/room.service.ts:60-62 | the result has the queried code; it is none exactly when no stored room has that code; among several matches it is the first inserted |
| RoomService.GetRoomByCodeFindsOwner | src/services/room.service.ts:60-62 | when codes are unique, a stored room's code looks up that very room |
| RoomService.CreatedRoomFoundByCode | src/services/room.service.ts:32-36 | once created, a room is what `getRoomByCode` returns for its code |
| RoomService.CreateKeepsUniqueness | src/services/room.service.ts:41-51 | whatever the capacity, creation keeps each room keyed by its id, no player listed twice, and codes unique |
| RoomService.CreateKeepsInvariant | src/services/room.service.ts:41-51 | creation preserves the invariant when the capacity admits the host: each room keyed by its id, within capacity, no duplicates, codes unique |
| RoomService.CreateBelowOneBreaksCapacity | src/services/room.service.ts:45-46 | a capacity below one puts the new room over its bound at once, so the capacity part of the invariant needs `maxPlayers >= 1` |
| RoomService.AddPlayerToRoom | src/services/room.service.ts:68-77 | null for an unknown room; null with nothing written when the room is full; the room unchanged when the user is already listed; otherwise the user appended last and written back; only that room's players can change |
| RoomService.AddPlayerKeepsUniqueness | src/services/room.service.ts:71-75 | whatever the capacities, adding a player keeps rooms keyed by id, free of duplicates, with unique codes |
| RoomService.AddPlayerKeepsInvariant | src/services/room.service.ts:71-76 | adding a player preserves the capacity bound, the absence of duplicates and code uniqueness |
| RoomService.AddPlayerIdempotent | src/services/room.service.ts:68-77 | for every input, a second identical add returns the same reply as the first and changes nothing more |
| RoomService.RemovePlayerFromRoom | src/services/room.service.ts:80-91 | null for an unknown room; the room unchanged for a non-member; otherwise the user's first occurrence is cut out, the others keep their order, and the room is written back; no other field (host included) and no other room changes |
| RoomService.RemovePlayerKeepsUniqueness | src/services/room.service.ts:80-91 | whatever the capacities, removing a player keeps rooms keyed by id, free of duplicates, with unique codes |
| RoomService.RemovePlayerKeepsInvariant | src/services/room.service.ts:80-91 | removing a player preserves the registry invariant |
| RoomService.RemoveUndoesAdd | src/services/room.service.ts:68-91 | removing a user just added to a room with space restores the registry exactly |
| RoomService.RemovePlayerKeepsOrder | src/services/room.service.ts:83-88 | on a duplicate-free list, removal keeps the other players in their order and drops the user |
| RoomService.RemovalCanOrphanHost | src/services/room.service.ts:80-91 | removing the only player (the host) leaves an empty room that is still stored and still names that host |
| RoomStore.PlayersOnly | src/sockets/game.socket.ts:50 | merging the partial room `{ players }` replaces a room's players and leaves every other field as it was |
| RoomStore.Merge | src/store/roomStore.ts:34 | each field present in the patch takes the new value; each absent field keeps the old one |
| RoomStore.Create | src/store/roomStore.ts:18-21 | the room is stored under its own id and returned, replacing any prior entry; other entries are unchanged |
| RoomStore.Get | src/store/roomStore.ts:23-25 | defined exactly when the id is stored, and then it is the stored room |
| RoomStore.Exists | src/store/roomStore.ts:27-29 | true exactly when `get` is defined |
| RoomStore.Update | src/store/roomStore.ts:31-37 | null and no change for an unknown id; otherwise the merged room, stored under the same id, with the key set and all other entries unchanged |
| RoomStore.GetAfterCreate | src/store/roomStore.ts:18-25 | `get` after `create` returns the created room |
| RoomStore.CreateOverwrites | src/store/roomStore.ts:18-21 | creating twice under one id leaves the store a single create of the second room would leave |
| RoomStore.MergeIdempotent | src/store/roomStore.ts:34 | merging the same patch twice equals merging it once |
| RoomStore.MergeNoFields | src/store/roomStore.ts:34 | merging the empty patch changes nothing |
| RoomStore.UpdateIdempotent | src/store/roomStore.ts:31-37 | a second identical update returns the same room and leaves the same store |
| RoomStore.UpdateKeepsKeysMatch | src/store/roomStore.ts:31-37 | rooms stay keyed by their own id after an update exactly when the patch does not set `roomId` to a different value |
| Session.Refs | src/sockets/game.socket.ts:57 | the broadcast list has one `{ userId }` entry per player, in order |
| Session.UserIdsOfRefs | src/sockets/game.socket.ts:55-58 | reading the ids back from a broadcast list gives the player list exactly |
| GameSocket.JoinRoom | src/sockets/game.socket.ts:15-61 | unknown room: error to the sender, no change; returning member: subscribed and sent the ids, no change; full room: "Room pleine" to the sender, no change; otherwise the user is appended once, stored via `update`, subscribed, and the full ordered list is broadcast; only that room's players can change |
| GameSocket.Disconnect | src/sockets/game.socket.ts:64-66 | the disconnect handler changes no room and emits nothing |
| GameSocket.JoinEmitsOnce | src/sockets/game.socket.ts:15-61 | every join emits exactly one event; it goes to the room group exactly when the store changed, and to the sender otherwise |
| GameSocket.JoinKeepsWellFormed | src/sockets/game.socket.ts:40-50 | a join keeps every room within capacity and free of duplicates |
| GameSocket.ReplayKeepsWellFormed | src/sockets/game.socket.ts:15-61 | any sequence of joins keeps every room within capacity and free of duplicates |
| GameSocket.JoinAgainResyncs | src/sockets/game.socket.ts:33-37 | joining again after a successful join re-syncs the sender with the same list and leaves the store unchanged |
| GameSocket.JoinAgreesWithAddPlayer | src/sockets/game.socket.ts:33-50 | the handler admits a user exactly when the service's `addPlayerToRoom` would, and leaves the same room |
| GameSocket.CapacityScenario | src/sockets/game.socket.ts:40-50 | in a room for two holding its host, a second user joins and a third gets "Room pleine" with nothing changed |
| SocketIndex.JoinRoom | src/sockets/index.ts:9-39 | unknown room: error to the sender, no change; returning member: nothing emitted, no subscription, no change; full room: "Room pleine", no change; otherwise the user is appended, stored via `update`, subscribed, and the room gets the list then `playerJoined` |
| SocketIndex.SameStoreAsGameSocket | src/sockets/index.ts:21-31 | for every request, both handlers leave the same store |
| SocketIndex.EmissionsAgainstGameSocket | src/sockets/index.ts:21-39 | a returning member gets silence here and one re-sync from the other handler; a successful join emits the other handler's broadcast plus `playerJoined` |
| SocketIndex.JoinAgainSilent | src/sockets/index.ts:21 | joining again after a successful join emits nothing and changes nothing |
| SocketIndex.JoinKeepsWellFormed | src/sockets/index.ts:23-31 | a join keeps every room within capacity and free of duplicates |

## Left out

- Code generation (`generateRoomCode`, `Math.random`), `uuidv4` and `new Date()`. They are parameters: a sequence of drawn codes, the room id and the timestamp.
- CreateRoom: the retry loop has no cap in the source, so the model requires one of the supplied draws to be unused. It does not model a generator that never produces a free code.
- `maxPlayers` is a JavaScript number. Only integers are modelled. With a fractional capacity such as 2.5, the `>=` guard admits a third player, so the capacity bound would not hold. The routes (`src/routes/room.routes.ts:10`, `:17`) store `req.body.maxPlayers` unchecked in the room store. If it is `undefined`, `length >= undefined` is always false and the room is never full. If it is `null`, it compares as 0 and the room is always full. Neither value is modelled.
- The controller (`src/controllers/room.controller.ts:6-8`) accepts any nonzero number, negative ones included. A capacity below one is modelled (`CreateBelowOneBreaksCapacity`). The uniqueness lemmas (`*KeepsUniqueness`) hold for any capacity; only the capacity bound needs `maxPlayers >= 1`.
- RoomStore.Merge: a field given explicitly as `undefined` in a partial room overwrites the stored value with `undefined`. That is not modelled: a patch field is either present with a value or absent. Fields the store's room type does not declare (`phase`, `currentMeme`, set by the HTTP route) are not modelled.
- The status type: the service's room type spells the middle state `active`, the store's spells it `playing`. One `Status` type holds both spellings.
- Object aliasing: the service returns the stored object itself, and the socket handlers `push` onto the stored array before calling `update`. The model is functional; the values it computes are the same.
- Join payloads are assumed to be objects with string `userId` and `roomId`. A missing or `null` payload throws in the destructuring at `src/sockets/game.socket.ts:16` and `src/sockets/index.ts:9` before any check runs. A non-string `userId` would be pushed as it is, and a non-string `roomId` matches no stored key. Socket.io does not enforce the payload type, but the model's string parameters cannot express these cases.
- Socket.io transport (`socket.join`, `emit`, `io.to`, connection callbacks) and logging. Each handler's effect is an abstract `Reaction`.
- HTTP routes and controllers: request parsing and responses. The route's own code generation (`src/routes/room.routes.ts:15`) has no collision check, so code uniqueness is proved for `createRoom` only. The route at `src/routes/room.routes.ts:63` calls `roomStore.getByCode`, which the store does not define; it is not modelled.
- MySQL content access (`db.ts`, `meme.service.ts`, `meme.routes.ts`) and the server bootstrap.
- Host migration, eviction of a stale connection, deleting empty rooms on disconnect, and starting a round. The server code has none of these. Removing a player does not touch the host and does not delete an empty room, and `RemovalCanOrphanHost` shows it. So the model proves no "host is a member" invariant.
- Concurrency: the handlers run one at a time on the event loop, so they are modelled as sequential transitions.
