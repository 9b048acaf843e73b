/** The alternative `joinRoom` handler (not the one the server wires in): silent
    on a re-join, and announces a successful join with an extra
    `playerJoined` event after the broadcast list. */
module SocketIndex {
  import opened Wrappers
  import opened Rooms
  import opened RoomStore
  import opened Session
  import GameSocket

  const JoinFailedMessage := "Impossible de rejoindre la room (inexistante ou pleine)"
  const RoomFullMessage := "Room pleine"

  /** `joinRoom({ userId, roomId })`: an unknown room is reported to the sender;
      a returning member gets nothing at all; a full room is reported to the
      sender; otherwise the user is appended and written with `update`, the
      socket subscribed, and the room receives the list then `playerJoined`. */
  function JoinRoom(store: Store, userId: UserId, roomId: RoomId): (r: Reaction)
    ensures r.store.Keys == store.Keys
    ensures forall id :: id in store && id != roomId ==> r.store[id] == store[id]
    ensures roomId in store ==> r.store[roomId] == store[roomId].(players := r.store[roomId].players)
    ensures roomId !in store ==>
      r == Reaction([Emission(Sender, ErrorMessage(JoinFailedMessage))], false, store)
    ensures roomId in store && userId in store[roomId].players ==>
      r == Reaction([], false, store)
    ensures roomId in store && userId !in store[roomId].players && IsFull(store[roomId]) ==>
      r == Reaction([Emission(Sender, ErrorMessage(RoomFullMessage))], false, store)
    ensures roomId in store && userId !in store[roomId].players && !IsFull(store[roomId]) ==>
      && r.store[roomId].players == store[roomId].players + [userId]
      && r.subscribed
      && r.emitted == [Emission(Group(roomId), RoomData(Refs(r.store[roomId].players))),
                       Emission(Group(roomId), PlayerJoined(userId))]
  {
    match Get(store, roomId)
    case None => Reaction([Emission(Sender, ErrorMessage(JoinFailedMessage))], false, store)
    case Some(room) =>
      if userId in room.players then Reaction([], false, store)
      else if IsFull(room) then
        Reaction([Emission(Sender, ErrorMessage(RoomFullMessage))], false, store)
      else
        var players := room.players + [userId];
        var updated := Update(store, roomId, PlayersOnly(players));
        Reaction([Emission(Group(roomId), RoomData(Refs(players))),
                  Emission(Group(roomId), PlayerJoined(userId))], true, updated.store)
  }

  /** Both handlers make the same change to the store for every request; they
      differ only in what they emit. */
  lemma SameStoreAsGameSocket(store: Store, userId: UserId, roomId: RoomId)
    ensures JoinRoom(store, userId, roomId).store == GameSocket.JoinRoom(store, userId, roomId).store
  {
  }

  /** On a successful join this handler emits the other handler's broadcast
      followed by `playerJoined`; on a re-join it stays silent where the other
      re-syncs. */
  lemma EmissionsAgainstGameSocket(store: Store, userId: UserId, roomId: RoomId)
    requires roomId in store
    ensures var mine := JoinRoom(store, userId, roomId);
            var theirs := GameSocket.JoinRoom(store, userId, roomId);
            && (userId in store[roomId].players ==> mine.emitted == [] && |theirs.emitted| == 1)
            && (mine.subscribed ==>
                  mine.emitted == theirs.emitted + [Emission(Group(roomId), PlayerJoined(userId))])
  {
  }

  /** A re-join after a successful join is silent and changes nothing. */
  lemma JoinAgainSilent(store: Store, userId: UserId, roomId: RoomId)
    requires JoinRoom(store, userId, roomId).subscribed
    ensures var once := JoinRoom(store, userId, roomId);
            JoinRoom(once.store, userId, roomId) == Reaction([], false, once.store)
  {
  }

  /** A join keeps every room within capacity and free of duplicates. */
  lemma JoinKeepsWellFormed(store: Store, userId: UserId, roomId: RoomId)
    requires AllWellFormed(store)
    ensures AllWellFormed(JoinRoom(store, userId, roomId).store)
  {
  }
}
