/** The room store: a singleton map from room id to room that the socket
    handlers and the HTTP routes share, with insertion, lookup, a presence test
    and a partial-field update. Nothing iterates it, so its key order is not
    modelled. */
module RoomStore {
  import opened Wrappers
  import opened Rooms

  type Store = map<RoomId, Room>

  /** `Partial<Room>`: each declared field is either present with a new value
      or absent. */
  datatype Patch = Patch(
    roomId: Option<RoomId>,
    roomCode: Option<RoomCode>,
    hostUserId: Option<UserId>,
    maxPlayers: Option<int>,
    players: Option<seq<UserId>>,
    status: Option<Status>,
    createdAt: Option<string>)

  /** The empty partial room `{}`. */
  const NoFields := Patch(None, None, None, None, None, None, None)

  /** `{ players }`: a patch that carries only a player list; merging it
      replaces a room's players and nothing else. */
  function PlayersOnly(players: seq<UserId>): (p: Patch)
    ensures forall room :: Merge(room, p) == room.(players := players)
  {
    Patch(None, None, None, None, Some(players), None, None)
  }

  /** `{ ...room, ...data }`: the fields present in `patch` win, the others keep
      the room's values. */
  function Merge(room: Room, patch: Patch): (r: Room)
    ensures patch.roomId.Some? ==> r.roomId == patch.roomId.value
    ensures patch.roomId.None? ==> r.roomId == room.roomId
    ensures patch.roomCode.Some? ==> r.roomCode == patch.roomCode.value
    ensures patch.roomCode.None? ==> r.roomCode == room.roomCode
    ensures patch.hostUserId.Some? ==> r.hostUserId == patch.hostUserId.value
    ensures patch.hostUserId.None? ==> r.hostUserId == room.hostUserId
    ensures patch.maxPlayers.Some? ==> r.maxPlayers == patch.maxPlayers.value
    ensures patch.maxPlayers.None? ==> r.maxPlayers == room.maxPlayers
    ensures patch.players.Some? ==> r.players == patch.players.value
    ensures patch.players.None? ==> r.players == room.players
    ensures patch.status.Some? ==> r.status == patch.status.value
    ensures patch.status.None? ==> r.status == room.status
    ensures patch.createdAt.Some? ==> r.createdAt == patch.createdAt.value
    ensures patch.createdAt.None? ==> r.createdAt == room.createdAt
  {
    Room(
      patch.roomId.GetOr(room.roomId),
      patch.roomCode.GetOr(room.roomCode),
      patch.hostUserId.GetOr(room.hostUserId),
      patch.maxPlayers.GetOr(room.maxPlayers),
      patch.players.GetOr(room.players),
      patch.status.GetOr(room.status),
      patch.createdAt.GetOr(room.createdAt))
  }

  /** The result of `create`: the room it was given and the new store. */
  datatype Created = Created(room: Room, store: Store)

  /** The result of `update`: the merged room or null, and the new store. */
  datatype Updated = Updated(room: Option<Room>, store: Store)

  /** `create(room)`: stores `room` under its own id, replacing whatever was
      stored there, and returns it. */
  function Create(store: Store, room: Room): (r: Created)
    ensures r.room == room
    ensures r.store.Keys == store.Keys + {room.roomId}
    ensures room.roomId in r.store && r.store[room.roomId] == room
    ensures forall id :: id in store && id != room.roomId ==> r.store[id] == store[id]
  {
    Created(room, store[room.roomId := room])
  }

  /** `get(roomId)`. */
  function Get(store: Store, roomId: RoomId): (r: Option<Room>)
    ensures r.Some? <==> roomId in store
    ensures r.Some? ==> r.value == store[roomId]
  {
    if roomId in store then Some(store[roomId]) else None
  }

  /** `exists(roomId)`: true exactly when `get(roomId)` finds a room. */
  function Exists(store: Store, roomId: RoomId): (b: bool)
    ensures b <==> Get(store, roomId).Some?
  {
    roomId in store
  }

  /** `update(roomId, data)`: null and no change for an unknown id; otherwise
      the merged room, stored under the same id, every other entry untouched. */
  function Update(store: Store, roomId: RoomId, patch: Patch): (r: Updated)
    ensures roomId !in store ==> r.room.None? && r.store == store
    ensures roomId in store ==> r.room == Some(Merge(store[roomId], patch))
    ensures r.store.Keys == store.Keys
    ensures forall id :: id in store && id != roomId ==> r.store[id] == store[id]
    ensures r.room.Some? ==> r.store[roomId] == r.room.value
  {
    match Get(store, roomId)
    case None => Updated(None, store)
    case Some(room) =>
      var updated := Merge(room, patch);
      Updated(Some(updated), store[roomId := updated])
  }

  /** A room read back after `create` is the room created. */
  lemma GetAfterCreate(store: Store, room: Room)
    ensures Get(Create(store, room).store, room.roomId) == Some(room)
  {
  }

  /** `create` overwrites: creating twice under one id keeps only the second
      room, and the store is as if the first create had not happened. */
  lemma CreateOverwrites(store: Store, first: Room, second: Room)
    requires first.roomId == second.roomId
    ensures Create(Create(store, first).store, second).store == Create(store, second).store
  {
  }

  /** Merging the same fields twice is merging once. */
  lemma MergeIdempotent(room: Room, patch: Patch)
    ensures Merge(Merge(room, patch), patch) == Merge(room, patch)
  {
  }

  /** Merging the empty patch changes nothing. */
  lemma MergeNoFields(room: Room)
    ensures Merge(room, NoFields) == room
  {
  }

  /** `update` is idempotent: a second identical update returns the same room
      and leaves the same store. */
  lemma UpdateIdempotent(store: Store, roomId: RoomId, patch: Patch)
    ensures var once := Update(store, roomId, patch);
            Update(once.store, roomId, patch) == once
  {
  }

  /** Every room stored under its own id. */
  ghost predicate KeysMatch(store: Store)
  {
    forall id :: id in store ==> store[id].roomId == id
  }

  /** `create` keys a room by its own id, but `update` does not re-key: a patch
      that sets `roomId` to another value leaves the room under its old key. */
  lemma UpdateKeepsKeysMatch(store: Store, roomId: RoomId, patch: Patch)
    requires KeysMatch(store)
    ensures KeysMatch(Update(store, roomId, patch).store)
            <==> roomId !in store || patch.roomId.None? || patch.roomId.value == roomId
  {
  }
}
