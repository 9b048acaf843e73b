/** What a socket handler does, seen from outside: the events it emits, to the
    requesting socket or to a room's broadcast group, whether it subscribes the
    socket to the room's group (`socket.join`), and the room store it leaves. */
module Session {
  import opened Rooms
  import RoomStore

  /** One entry of a broadcast player list: `{ userId }`. */
  datatype PlayerRef = PlayerRef(userId: UserId)

  /** `players.map(p => ({ userId: p }))`. */
  function Refs(ids: seq<UserId>): (r: seq<PlayerRef>)
    ensures |r| == |ids|
    ensures forall i :: 0 <= i < |r| ==> r[i].userId == ids[i]
  {
    seq(|ids|, i requires 0 <= i < |ids| => PlayerRef(ids[i]))
  }

  /** A client reading the user ids back out of a broadcast player list. */
  function UserIds(refs: seq<PlayerRef>): (r: seq<UserId>)
    ensures |r| == |refs|
  {
    if |refs| == 0 then [] else [refs[0].userId] + UserIds(refs[1..])
  }

  /** A broadcast player list carries exactly the ids, in order. */
  lemma {:induction false} UserIdsOfRefs(ids: seq<UserId>)
    ensures UserIds(Refs(ids)) == ids
  {
    if |ids| > 0 {
      assert Refs(ids)[1..] == Refs(ids[1..]);
      UserIdsOfRefs(ids[1..]);
      assert ids == [ids[0]] + ids[1..];
    }
  }

  /** Where an event goes: the requesting socket only, or every socket in the
      room's group (`io.to(roomId)`). */
  datatype Target = Sender | Group(roomId: RoomId)

  /** The events the handlers emit. `roomData` travels in two shapes: a bare
      list of ids (the re-sync to a returning member) and a list of
      `{ userId }` entries (the broadcast after a join). */
  datatype Event =
    | ErrorMessage(message: string)
    | RoomPlayerIds(ids: seq<UserId>)
    | RoomData(players: seq<PlayerRef>)
    | PlayerJoined(userId: UserId)

  datatype Emission = Emission(target: Target, event: Event)

  /** A handler's effect: emissions in order, whether the socket joined the
      room's group, and the store afterwards. */
  datatype Reaction = Reaction(emitted: seq<Emission>, subscribed: bool, store: RoomStore.Store)

  /** Every room in the store respects its capacity and lists nobody twice. */
  ghost predicate AllWellFormed(store: RoomStore.Store)
  {
    forall id :: id in store ==> WellFormed(store[id])
  }

  /** A `joinRoom` request's payload. */
  datatype JoinRequest = JoinRequest(userId: UserId, roomId: RoomId)
}
