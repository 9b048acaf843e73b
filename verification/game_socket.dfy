/** The socket handlers wired into the server: `joinRoom` against the room
    store, and `disconnect`, which only logs. */
module GameSocket {
  import opened Wrappers
  import opened Rooms
  import opened RoomStore
  import opened Session
  import RoomService

  const JoinFailedMessage := "Impossible de rejoindre la room"
  const RoomFullMessage := "Room pleine"

  /** `joinRoom({ userId, roomId })`: an unknown room is reported to the sender;
      a returning member is subscribed and sent the current ids; a full room is
      reported to the sender; otherwise the user is appended, the new list is
      written with `update`, the socket subscribed and the list broadcast to
      the room. Only the joined room's `players` can change. */
  function JoinRoom(store: Store, userId: UserId, roomId: RoomId): (r: Reaction)
    ensures r.store.Keys == store.Keys
    ensures forall id :: id in store && id != roomId ==> r.store[id] == store[id]
    ensures roomId in store ==> r.store[roomId] == store[roomId].(players := r.store[roomId].players)
    ensures roomId !in store ==>
      r == Reaction([Emission(Sender, ErrorMessage(JoinFailedMessage))], false, store)
    ensures roomId in store && userId in store[roomId].players ==>
      r == Reaction([Emission(Sender, RoomPlayerIds(store[roomId].players))], true, store)
    ensures roomId in store && userId !in store[roomId].players && IsFull(store[roomId]) ==>
      r == Reaction([Emission(Sender, ErrorMessage(RoomFullMessage))], false, store)
    ensures roomId in store && userId !in store[roomId].players && !IsFull(store[roomId]) ==>
      && r.store[roomId].players == store[roomId].players + [userId]
      && r.subscribed
      && r.emitted == [Emission(Group(roomId), RoomData(Refs(r.store[roomId].players)))]
  {
    match Get(store, roomId)
    case None => Reaction([Emission(Sender, ErrorMessage(JoinFailedMessage))], false, store)
    case Some(room) =>
      if userId in room.players then
        Reaction([Emission(Sender, RoomPlayerIds(room.players))], true, store)
      else if IsFull(room) then
        Reaction([Emission(Sender, ErrorMessage(RoomFullMessage))], false, store)
      else
        var players := room.players + [userId];
        var updated := Update(store, roomId, PlayersOnly(players));
        Reaction([Emission(Group(roomId), RoomData(Refs(players)))], true, updated.store)
  }

  /** `disconnect`: the handler only logs, so no room changes and nothing is
      emitted. */
  function Disconnect(store: Store): (r: Reaction)
    ensures r.store == store && r.emitted == [] && !r.subscribed
  {
    Reaction([], false, store)
  }

  /** Errors and re-syncs go to the sender alone; only a successful join
      broadcasts, and only to the joined room. */
  lemma JoinEmitsOnce(store: Store, userId: UserId, roomId: RoomId)
    ensures var r := JoinRoom(store, userId, roomId);
            && |r.emitted| == 1
            && (r.emitted[0].target == Sender || r.emitted[0].target == Group(roomId))
            && (r.emitted[0].target == Group(roomId) <==> r.store != store)
  {
  }

  /** A join keeps the joined room within capacity and free of duplicates. */
  lemma JoinKeepsWellFormed(store: Store, userId: UserId, roomId: RoomId)
    requires AllWellFormed(store)
    ensures AllWellFormed(JoinRoom(store, userId, roomId).store)
  {
  }

  /** The store after handling `requests` one after another. */
  function Replay(store: Store, requests: seq<JoinRequest>): (r: Store)
    ensures r.Keys == store.Keys
    decreases |requests|
  {
    if |requests| == 0 then store
    else Replay(JoinRoom(store, requests[0].userId, requests[0].roomId).store, requests[1..])
  }

  /** However many joins arrive, every room stays within capacity and free of
      duplicates. */
  lemma {:induction false} ReplayKeepsWellFormed(store: Store, requests: seq<JoinRequest>)
    requires AllWellFormed(store)
    ensures AllWellFormed(Replay(store, requests))
    decreases |requests|
  {
    if |requests| > 0 {
      JoinKeepsWellFormed(store, requests[0].userId, requests[0].roomId);
      ReplayKeepsWellFormed(JoinRoom(store, requests[0].userId, requests[0].roomId).store, requests[1..]);
    }
  }

  /** Joining again after a successful join does not duplicate the entry: the
      user is re-synced with the same list and the store stays as it was. */
  lemma JoinAgainResyncs(store: Store, userId: UserId, roomId: RoomId)
    requires JoinRoom(store, userId, roomId).subscribed
    ensures var once := JoinRoom(store, userId, roomId);
            var twice := JoinRoom(once.store, userId, roomId);
            && twice.store == once.store
            && twice.emitted == [Emission(Sender, RoomPlayerIds(once.store[roomId].players))]
  {
  }

  /** The handler's membership decision is the service's `addPlayerToRoom`
      decision on the same room: it admits the user exactly when the service
      would, and leaves the same player list. */
  lemma JoinAgreesWithAddPlayer(store: Store, userId: UserId, roomId: RoomId)
    requires roomId in store
    ensures var room := store[roomId];
            var service := RoomService.AddPlayerToRoom(RoomService.Put(RoomService.Empty, roomId, room), roomId, userId);
            var r := JoinRoom(store, userId, roomId);
            && (service.room.Some? <==> r.subscribed)
            && (service.room.Some? ==> service.room.value == r.store[roomId])
  {
  }

  /** A room for two that holds its host admits one more user and then turns
      the next one away with "Room pleine", its players unchanged. */
  lemma CapacityScenario()
    ensures var store := map["r" := Room("r", "C", "H", 2, ["H"], Waiting, "t")];
            var first := JoinRoom(store, "A", "r");
            var second := JoinRoom(first.store, "B", "r");
            && first.store["r"].players == ["H", "A"]
            && second.emitted == [Emission(Sender, ErrorMessage(RoomFullMessage))]
            && second.store == first.store
  {
  }
}
