/** The room service: a module-level registry of rooms keyed by room id, room
    creation with a retry loop that keeps room codes unique, lookups by id and
    by code, and adding or removing one player. */
module RoomService {
  import opened Wrappers
  import opened Rooms

  /** The capacity `createRoom` uses when the caller gives none. */
  const DefaultMaxPlayers := 8

  /** A JavaScript `Map` from room id to room: the map itself plus the order in
      which its keys were first inserted, which is the order `values()` visits. */
  datatype Entries = Entries(order: seq<RoomId>, rooms: map<RoomId, Room>) {
    predicate Valid()
    {
      && (forall i, j :: 0 <= i < j < |order| ==> order[i] != order[j])
      && (forall i :: 0 <= i < |order| ==> order[i] in rooms)
      && (forall id :: id in rooms ==> id in order)
    }
  }

  type Registry = e: Entries | e.Valid() witness Entries([], map[])

  /** The registry with no rooms, as the module starts. */
  const Empty: Registry := Entries([], map[])

  /** `rooms.set(id, room)`: an existing key keeps its place in the iteration
      order, a new key goes last. */
  function Put(reg: Registry, id: RoomId, room: Room): (r: Registry)
    ensures r.rooms == reg.rooms[id := room]
    ensures id in reg.rooms ==> r.order == reg.order
    ensures id !in reg.rooms ==> r.order == reg.order + [id]
  {
    if id in reg.rooms then Entries(reg.order, reg.rooms[id := room])
    else
      var e := Entries(reg.order + [id], reg.rooms[id := room]);
      assert e.Valid() by {
        forall i, j | 0 <= i < j < |e.order| ensures e.order[i] != e.order[j] {
          if j == |reg.order| { assert e.order[i] == reg.order[i]; }
        }
      }
      e
  }

  /** `[...rooms.values()]`: the stored rooms in iteration order. */
  function Values(reg: Registry): (vs: seq<Room>)
    ensures |vs| == |reg.order|
    ensures forall i :: 0 <= i < |vs| ==> vs[i] == reg.rooms[reg.order[i]]
  {
    seq(|reg.order|, i requires 0 <= i < |reg.order| => reg.rooms[reg.order[i]])
  }

  /** A duplicate-free sequence has as many elements as the set of its elements. */
  lemma {:induction false} DistinctCardinality(s: seq<RoomId>)
    requires forall i, j :: 0 <= i < j < |s| ==> s[i] != s[j]
    ensures |set x | x in s| == |s|
  {
    if |s| > 0 {
      var t := s[..|s| - 1];
      var last := s[|s| - 1];
      assert forall i, j :: 0 <= i < j < |t| ==> t[i] != t[j] by {
        forall i, j | 0 <= i < j < |t| ensures t[i] != t[j] {
          assert t[i] == s[i] && t[j] == s[j];
        }
      }
      DistinctCardinality(t);
      assert last !in t by {
        forall i | 0 <= i < |t| ensures t[i] != last {
          assert t[i] == s[i];
        }
      }
      assert (set x | x in s) == (set x | x in t) + {last} by {
        assert s == t + [last];
      }
    }
  }

  /** `[...rooms.values()]` lists every stored room, one entry per stored key. */
  lemma ValuesListsEveryRoom(reg: Registry)
    ensures |Values(reg)| == |reg.rooms|
    ensures forall id :: id in reg.rooms ==> reg.rooms[id] in Values(reg)
  {
    DistinctCardinality(reg.order);
    assert (set x | x in reg.order) == reg.rooms.Keys;
    var vs := Values(reg);
    forall id | id in reg.rooms ensures reg.rooms[id] in vs {
      var i :| 0 <= i < |reg.order| && reg.order[i] == id;
      assert vs[i] == reg.rooms[id];
    }
  }

  /** Some stored room carries `code`. */
  ghost predicate CodeInUse(reg: Registry, code: RoomCode)
  {
    exists id :: id in reg.rooms && reg.rooms[id].roomCode == code
  }

  /** No two stored rooms share a code. */
  ghost predicate CodesUnique(reg: Registry)
  {
    forall a, b :: a in reg.rooms && b in reg.rooms && reg.rooms[a].roomCode == reg.rooms[b].roomCode ==> a == b
  }

  /** Every room is stored under its own id. */
  ghost predicate KeyedById(reg: Registry)
  {
    forall id :: id in reg.rooms ==> reg.rooms[id].roomId == id
  }

  /** No room lists a player twice. */
  ghost predicate AllNoDuplicates(reg: Registry)
  {
    forall id :: id in reg.rooms ==> NoDuplicates(reg.rooms[id].players)
  }

  /** Every room holds at most `maxPlayers` players. */
  ghost predicate AllWithinCapacity(reg: Registry)
  {
    forall id :: id in reg.rooms ==> |reg.rooms[id].players| <= reg.rooms[id].maxPlayers
  }

  /** The properties that hold whatever capacities the callers pass. */
  ghost predicate Uniqueness(reg: Registry)
  {
    KeyedById(reg) && AllNoDuplicates(reg) && CodesUnique(reg)
  }

  /** What the registry is meant to keep: the uniqueness properties and, in
      addition, every room within its capacity. */
  ghost predicate Invariant(reg: Registry)
  {
    Uniqueness(reg) && AllWithinCapacity(reg)
  }

  /** `vs.some(r => r.roomCode === code)`. */
  function SomeHasCode(vs: seq<Room>, code: RoomCode): (b: bool)
    ensures b <==> exists i :: 0 <= i < |vs| && vs[i].roomCode == code
  {
    if |vs| == 0 then false
    else if vs[0].roomCode == code then true
    else
      var b := SomeHasCode(vs[1..], code);
      assert b ==> exists i :: 0 <= i < |vs| && vs[i].roomCode == code by {
        if b {
          var i :| 0 <= i < |vs[1..]| && vs[1..][i].roomCode == code;
          assert vs[i + 1].roomCode == code;
        }
      }
      assert !b ==> forall i :: 0 < i < |vs| ==> vs[i].roomCode != code by {
        if !b {
          forall i | 0 < i < |vs| ensures vs[i].roomCode != code {
            assert vs[i] == vs[1..][i - 1];
          }
        }
      }
      b
  }

  /** `vs.find(r => r.roomCode === code)`: the first room in iteration order
      that carries `code`, or none when no room does. */
  function FindByCode(vs: seq<Room>, code: RoomCode): (r: Option<Room>)
    ensures r.None? <==> !SomeHasCode(vs, code)
    ensures r.Some? ==> exists i :: 0 <= i < |vs| && vs[i] == r.value && r.value.roomCode == code
                                    && forall j :: 0 <= j < i ==> vs[j].roomCode != code
  {
    if |vs| == 0 then None
    else if vs[0].roomCode == code then Some(vs[0])
    else
      var r := FindByCode(vs[1..], code);
      assert r.Some? ==> exists i :: 0 <= i < |vs| && vs[i] == r.value && r.value.roomCode == code
                                     && forall j :: 0 <= j < i ==> vs[j].roomCode != code by {
        if r.Some? {
          var i :| 0 <= i < |vs[1..]| && vs[1..][i] == r.value && r.value.roomCode == code
                   && forall j :: 0 <= j < i ==> vs[1..][j].roomCode != code;
          forall j | 0 <= j < i + 1 ensures vs[j].roomCode != code {
            if j > 0 { assert vs[j] == vs[1..][j - 1]; }
          }
          assert vs[i + 1] == r.value;
        }
      }
      r
  }

  /** The order-based scan sees exactly the codes the map holds. */
  lemma SomeHasCodeIffInUse(reg: Registry, code: RoomCode)
    ensures SomeHasCode(Values(reg), code) <==> CodeInUse(reg, code)
  {
  }

  /** The retry loop of `createRoom`: keep drawing while some stored room
      already has the drawn code. `draws` is the sequence of codes the random
      generator yields; the source places no cap on the loop, so the model asks
      that some draw be unused. The result is the position of the draw kept. */
  method DrawFreeCode(reg: Registry, draws: seq<RoomCode>) returns (k: nat)
    requires exists i :: 0 <= i < |draws| && !CodeInUse(reg, draws[i])
    ensures k < |draws| && !CodeInUse(reg, draws[k])
    ensures forall j :: 0 <= j < k ==> CodeInUse(reg, draws[j])
  {
    ghost var free :| 0 <= free < |draws| && !CodeInUse(reg, draws[free]);
    SomeHasCodeIffInUse(reg, draws[free]);
    var vs := Values(reg);
    k := 0;
    while SomeHasCode(vs, draws[k])
      invariant k <= free
      invariant forall j :: 0 <= j < k ==> SomeHasCode(vs, draws[j])
      decreases free - k
    {
      k := k + 1;
    }
    SomeHasCodeIffInUse(reg, draws[k]);
    forall j | 0 <= j < k ensures CodeInUse(reg, draws[j]) {
      SomeHasCodeIffInUse(reg, draws[j]);
    }
  }

  /** `createRoom(hostUserId, maxPlayers = 8)`. Randomness is a parameter:
      `draws` stands for the code generator, `roomId` for the fresh id and
      `createdAt` for the timestamp. */
  method CreateRoom(reg: Registry, hostUserId: UserId, draws: seq<RoomCode>, roomId: RoomId,
                    createdAt: string, maxPlayers: int := DefaultMaxPlayers)
    returns (room: Room, reg': Registry)
    requires exists k :: 0 <= k < |draws| && !CodeInUse(reg, draws[k])
    ensures room.roomId == roomId && room.hostUserId == hostUserId && room.maxPlayers == maxPlayers
    ensures room.players == [hostUserId] && room.status == Waiting && room.createdAt == createdAt
    ensures !CodeInUse(reg, room.roomCode)
    ensures exists k :: 0 <= k < |draws| && draws[k] == room.roomCode
                        && forall j :: 0 <= j < k ==> CodeInUse(reg, draws[j])
    ensures reg'.rooms == reg.rooms[roomId := room]
    ensures reg'.order == if roomId in reg.rooms then reg.order else reg.order + [roomId]
  {
    var k := DrawFreeCode(reg, draws);
    room := Room(roomId, draws[k], hostUserId, maxPlayers, [hostUserId], Waiting, createdAt);
    reg' := Put(reg, roomId, room);
  }

  /** `getRoomById(roomId)`. */
  function GetRoomById(reg: Registry, roomId: RoomId): (r: Option<Room>)
    ensures r.Some? <==> roomId in reg.rooms
    ensures r.Some? ==> r.value == reg.rooms[roomId]
  {
    if roomId in reg.rooms then Some(reg.rooms[roomId]) else None
  }

  /** `getRoomByCode(code)`: a stored room with that code, none exactly when no
      stored room has it; among several, the first one inserted. */
  function GetRoomByCode(reg: Registry, code: RoomCode): (r: Option<Room>)
    ensures r.None? <==> !CodeInUse(reg, code)
    ensures r.Some? ==> r.value.roomCode == code
    ensures r.Some? ==> exists i :: 0 <= i < |reg.order| && reg.rooms[reg.order[i]] == r.value
                                    && forall j :: 0 <= j < i ==> reg.rooms[reg.order[j]].roomCode != code
  {
    SomeHasCodeIffInUse(reg, code);
    FindByCode(Values(reg), code)
  }

  /** When codes are unique, looking up a stored room's code yields that room. */
  lemma GetRoomByCodeFindsOwner(reg: Registry, id: RoomId)
    requires CodesUnique(reg) && id in reg.rooms
    ensures GetRoomByCode(reg, reg.rooms[id].roomCode) == Some(reg.rooms[id])
  {
  }

  /** The result of an operation that returns `Room | null` and may write the
      registry. */
  datatype Reply = Reply(room: Option<Room>, registry: Registry)

  /** `addPlayerToRoom(roomId, userId)`: null for an unknown room; the room
      unchanged when the user is already listed; null when the room is full;
      otherwise the room with `userId` appended, written back. */
  function AddPlayerToRoom(reg: Registry, roomId: RoomId, userId: UserId): (r: Reply)
    ensures r.room.Some? <==> roomId in reg.rooms && (userId in reg.rooms[roomId].players || !IsFull(reg.rooms[roomId]))
    ensures r.room.None? ==> r.registry == reg
    ensures r.room.Some? ==> userId in r.room.value.players && r.registry.rooms == reg.rooms[roomId := r.room.value]
    ensures r.registry.order == reg.order
    ensures r.room.Some? ==> var old_ := reg.rooms[roomId];
      && r.room.value == old_.(players := r.room.value.players)
      && r.room.value.players == (if userId in old_.players then old_.players else old_.players + [userId])
  {
    if roomId !in reg.rooms then Reply(None, reg)
    else
      var room := reg.rooms[roomId];
      if userId in room.players then Reply(Some(room), reg)
      else if IsFull(room) then Reply(None, reg)
      else
        var room' := room.(players := room.players + [userId]);
        Reply(Some(room'), Put(reg, roomId, room'))
  }

  /** `removePlayerFromRoom(roomId, userId)`: null for an unknown room; the room
      unchanged when the user is not listed; otherwise the room with the first
      occurrence of `userId` deleted, written back. `hostUserId` is never
      touched and a room left empty stays registered. */
  function RemovePlayerFromRoom(reg: Registry, roomId: RoomId, userId: UserId): (r: Reply)
    ensures r.room.Some? <==> roomId in reg.rooms
    ensures r.room.None? ==> r.registry == reg
    ensures r.room.Some? ==> r.registry.rooms == reg.rooms[roomId := r.room.value]
    ensures r.registry.order == reg.order
    ensures r.room.Some? ==> var old_ := reg.rooms[roomId];
      && r.room.value == old_.(players := r.room.value.players)
      && (userId !in old_.players ==> r.room.value.players == old_.players)
      && (userId in old_.players ==>
            |r.room.value.players| == |old_.players| - 1
            && multiset(r.room.value.players) == multiset(old_.players) - multiset{userId})
      && (userId in old_.players ==>
            exists i :: 0 <= i < |old_.players| && old_.players[i] == userId
                        && (forall j :: 0 <= j < i ==> old_.players[j] != userId)
                        && r.room.value.players == old_.players[..i] + old_.players[i + 1..])
  {
    if roomId !in reg.rooms then Reply(None, reg)
    else
      var room := reg.rooms[roomId];
      if IndexOf(room.players, userId) == -1 then Reply(Some(room), reg)
      else
        var room' := room.(players := Without(room.players, userId));
        Reply(Some(room'), Put(reg, roomId, room'))
  }

  /** Creating a room, with any capacity at all, keeps rooms keyed by id, free
      of duplicates and with codes of their own. The code is fresh, so codes
      stay unique even if the id was already taken and its old room is
      overwritten. */
  lemma CreateKeepsUniqueness(reg: Registry, roomId: RoomId, room: Room)
    requires Uniqueness(reg)
    requires room.roomId == roomId && room.players == [room.hostUserId]
    requires !CodeInUse(reg, room.roomCode)
    ensures Uniqueness(Put(reg, roomId, room))
  {
    var rooms := Put(reg, roomId, room).rooms;
    forall a, b | a in rooms && b in rooms && rooms[a].roomCode == rooms[b].roomCode ensures a == b {
      if a != roomId && b != roomId {
        assert rooms[a] == reg.rooms[a] && rooms[b] == reg.rooms[b];
      }
    }
  }

  /** Creating a room keeps the whole invariant when its capacity admits the
      host. */
  lemma CreateKeepsInvariant(reg: Registry, roomId: RoomId, room: Room)
    requires Invariant(reg)
    requires room.roomId == roomId && room.players == [room.hostUserId] && room.maxPlayers >= 1
    requires !CodeInUse(reg, room.roomCode)
    ensures Invariant(Put(reg, roomId, room))
  {
    CreateKeepsUniqueness(reg, roomId, room);
  }

  /** A capacity below one, which `createRoom` accepts, puts the new room over
      its bound at once. */
  lemma CreateBelowOneBreaksCapacity(reg: Registry, roomId: RoomId, room: Room)
    requires room.players == [room.hostUserId] && room.maxPlayers < 1
    ensures !AllWithinCapacity(Put(reg, roomId, room))
  {
    assert roomId in Put(reg, roomId, room).rooms;
  }

  /** `getRoomById` after a write under `roomId` sees the written room there and
      the old rooms everywhere else. */
  lemma GetRoomByIdAfterPut(reg: Registry, roomId: RoomId, room: Room, id: RoomId)
    ensures GetRoomById(Put(reg, roomId, room), id) == if id == roomId then Some(room) else GetRoomById(reg, id)
  {
  }

  /** When every room in `vs` with `code` is `room`, and one has it, `find`
      returns `room`. */
  lemma FindByCodeOnlyMatch(vs: seq<Room>, code: RoomCode, room: Room)
    requires SomeHasCode(vs, code)
    requires forall i :: 0 <= i < |vs| && vs[i].roomCode == code ==> vs[i] == room
    ensures FindByCode(vs, code) == Some(room)
  {
  }

  /** A newly created room is found again by its code, whatever else is stored. */
  lemma CreatedRoomFoundByCode(reg: Registry, roomId: RoomId, room: Room)
    requires !CodeInUse(reg, room.roomCode)
    ensures GetRoomByCode(Put(reg, roomId, room), room.roomCode) == Some(room)
  {
    var reg' := Put(reg, roomId, room);
    var vs := Values(reg');
    assert CodeInUse(reg', room.roomCode) by {
      assert reg'.rooms[roomId] == room;
    }
    SomeHasCodeIffInUse(reg', room.roomCode);
    forall id | id in reg'.rooms && id != roomId ensures reg'.rooms[id].roomCode != room.roomCode {
      assert reg'.rooms[id] == reg.rooms[id];
    }
    FindByCodeOnlyMatch(vs, room.roomCode, room);
  }

  /** Adding a player keeps rooms keyed by id, free of duplicates and with
      codes of their own, whatever the capacities: a listed user is never
      appended again. */
  lemma AddPlayerKeepsUniqueness(reg: Registry, roomId: RoomId, userId: UserId)
    requires Uniqueness(reg)
    ensures Uniqueness(AddPlayerToRoom(reg, roomId, userId).registry)
  {
    var r := AddPlayerToRoom(reg, roomId, userId);
    if r.room.Some? && userId !in reg.rooms[roomId].players {
      AppendKeepsNoDuplicates(reg.rooms[roomId].players, userId);
    }
  }

  /** Adding a player keeps the invariant: in addition, the capacity guard
      stops at `maxPlayers`. */
  lemma AddPlayerKeepsInvariant(reg: Registry, roomId: RoomId, userId: UserId)
    requires Invariant(reg)
    ensures Invariant(AddPlayerToRoom(reg, roomId, userId).registry)
  {
    AddPlayerKeepsUniqueness(reg, roomId, userId);
  }

  /** Removing a player keeps rooms keyed by id, free of duplicates and with
      codes of their own, whatever the capacities. */
  lemma RemovePlayerKeepsUniqueness(reg: Registry, roomId: RoomId, userId: UserId)
    requires Uniqueness(reg)
    ensures Uniqueness(RemovePlayerFromRoom(reg, roomId, userId).registry)
  {
    if roomId in reg.rooms {
      WithoutKeepsNoDuplicates(reg.rooms[roomId].players, userId);
    }
  }

  /** Removing a player keeps the invariant. */
  lemma RemovePlayerKeepsInvariant(reg: Registry, roomId: RoomId, userId: UserId)
    requires Invariant(reg)
    ensures Invariant(RemovePlayerFromRoom(reg, roomId, userId).registry)
  {
    RemovePlayerKeepsUniqueness(reg, roomId, userId);
  }

  /** Adding a player twice is adding once: the second call finds the user
      listed and changes nothing. */
  lemma AddPlayerIdempotent(reg: Registry, roomId: RoomId, userId: UserId)
    ensures var once := AddPlayerToRoom(reg, roomId, userId);
            AddPlayerToRoom(once.registry, roomId, userId) == once
  {
  }

  /** A second write under a key hides the first. */
  lemma UpdateTwice<K, V>(m: map<K, V>, k: K, a: V, b: V)
    ensures m[k := a][k := b] == m[k := b]
  {
  }

  /** Writing back the value already stored changes nothing. */
  lemma UpdateUnchanged<K, V>(m: map<K, V>, k: K)
    requires k in m
    ensures m[k := m[k]] == m
  {
  }

  /** Removing a player from a room whose list ends with that player's only
      entry writes back the room with the list before the append. */
  lemma RemoveAppendedPlayer(reg: Registry, roomId: RoomId, userId: UserId, room: Room)
    requires roomId in reg.rooms && userId !in room.players
    requires reg.rooms[roomId] == room.(players := room.players + [userId])
    ensures RemovePlayerFromRoom(reg, roomId, userId).room == Some(room)
    ensures RemovePlayerFromRoom(reg, roomId, userId).registry.rooms == reg.rooms[roomId := room]
  {
    WithoutAppended(room.players, userId);
  }

  /** Removing a player who was just added restores the room's player list. */
  lemma RemoveUndoesAdd(reg: Registry, roomId: RoomId, userId: UserId)
    requires roomId in reg.rooms && userId !in reg.rooms[roomId].players
    requires !IsFull(reg.rooms[roomId])
    ensures var added := AddPlayerToRoom(reg, roomId, userId);
            RemovePlayerFromRoom(added.registry, roomId, userId).registry == reg
  {
    var old_ := reg.rooms[roomId];
    var grown := old_.(players := old_.players + [userId]);
    var added := AddPlayerToRoom(reg, roomId, userId).registry;
    assert added.rooms == reg.rooms[roomId := grown];
    RemoveAppendedPlayer(added, roomId, userId, old_);
    var removed := RemovePlayerFromRoom(added, roomId, userId).registry;
    assert removed.order == reg.order;
    UpdateTwice(reg.rooms, roomId, grown, old_);
    UpdateUnchanged(reg.rooms, roomId);
  }

  /** On a duplicate-free list, removal keeps the other players in their
      original relative order and drops the user entirely. */
  lemma RemovePlayerKeepsOrder(reg: Registry, roomId: RoomId, userId: UserId)
    requires roomId in reg.rooms && NoDuplicates(reg.rooms[roomId].players)
    ensures var r := RemovePlayerFromRoom(reg, roomId, userId);
            r.room.Some? && r.room.value.players == Erase(reg.rooms[roomId].players, userId)
  {
    var s := reg.rooms[roomId].players;
    WithoutIsErase(s, userId);
    if userId !in s { EraseAbsent(s, userId); }
  }

  /** Removal can take the host out of the player list, and can empty a room
      without unregistering it: the service keeps no host-membership invariant. */
  lemma RemovalCanOrphanHost()
    ensures var room := Room("r", "ABC123", "h", 2, ["h"], Waiting, "t");
            var reg := Put(Empty, "r", room);
            var after := RemovePlayerFromRoom(reg, "r", "h");
            && after.room == Some(room.(players := []))
            && "r" in after.registry.rooms
            && after.registry.rooms["r"].hostUserId == "h"
            && "h" !in after.registry.rooms["r"].players
  {
  }
}
