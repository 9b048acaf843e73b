/** The room record shared by the room service and the room store, and the
    operations on a room's ordered player list that both of them use. */
module Rooms {

  type RoomId = string
  type RoomCode = string
  type UserId = string

  /** Coarse lifecycle status. The service's room type names the middle state
      `active`, the store's room type names it `playing`; both spellings are kept
      so that either type can be represented. Nothing in the room service,
      the room store or the socket handlers leaves `Waiting` except a partial
      update that sets `status`. */
  datatype Status = Waiting | Active | Playing | Finished

  /** A room. `maxPlayers` is a JavaScript number; only its integral values are
      modelled. `players` is in join order. */
  datatype Room = Room(
    roomId: RoomId,
    roomCode: RoomCode,
    hostUserId: UserId,
    maxPlayers: int,
    players: seq<UserId>,
    status: Status,
    createdAt: string)

  predicate NoDuplicates(s: seq<UserId>)
  {
    forall i, j :: 0 <= i < j < |s| ==> s[i] != s[j]
  }

  /** The capacity guard the source applies before appending a player:
      `players.length >= maxPlayers`. */
  predicate IsFull(room: Room)
  {
    |room.players| >= room.maxPlayers
  }

  /** The invariants a room is meant to keep: no more players than its capacity
      and no player listed twice. */
  predicate WellFormed(room: Room)
  {
    |room.players| <= room.maxPlayers && NoDuplicates(room.players)
  }

  /** `Array.prototype.indexOf`: the position of the first occurrence of `x`,
      or -1 when `x` does not occur. */
  function IndexOf(s: seq<UserId>, x: UserId): (i: int)
    ensures -1 <= i < |s|
    ensures i == -1 <==> x !in s
    ensures 0 <= i ==> s[i] == x && forall j :: 0 <= j < i ==> s[j] != x
  {
    if |s| == 0 then -1
    else if s[0] == x then 0
    else
      var k := IndexOf(s[1..], x);
      if k == -1 then -1 else k + 1
  }

  /** `splice(i, 1)`: the list with position `i` deleted. */
  function RemoveAt(s: seq<UserId>, i: int): (r: seq<UserId>)
    requires 0 <= i < |s|
    ensures |r| == |s| - 1
    ensures forall j :: 0 <= j < |r| ==> r[j] == s[if j < i then j else j + 1]
  {
    s[..i] + s[i + 1..]
  }

  /** Deleting position `i` loses one copy of the player there and keeps every
      other player. */
  lemma RemoveAtContents(s: seq<UserId>, i: int)
    requires 0 <= i < |s|
    ensures multiset(RemoveAt(s, i)) == multiset(s) - multiset{s[i]}
    ensures forall y :: y != s[i] ==> (y in RemoveAt(s, i) <==> y in s)
  {
    var r := RemoveAt(s, i);
    assert s == s[..i] + [s[i]] + s[i + 1..];
    forall y | y != s[i] && y in s ensures y in r {
      var j :| 0 <= j < |s| && s[j] == y;
      if j < i { assert r[j] == y; } else { assert r[j - 1] == y; }
    }
  }

  /** The list left by `splice(indexOf(x), 1)` when `x` occurs, and the list
      itself when it does not: the first occurrence of `x` is deleted. */
  function Without(s: seq<UserId>, x: UserId): (r: seq<UserId>)
    ensures x !in s ==> r == s
    ensures x in s ==> |r| == |s| - 1 && multiset(r) == multiset(s) - multiset{x}
    ensures x in s ==> exists i :: 0 <= i < |s| && s[i] == x && (forall j :: 0 <= j < i ==> s[j] != x)
                                   && r == s[..i] + s[i + 1..]
    ensures forall y :: y != x ==> (y in r <==> y in s)
  {
    var i := IndexOf(s, x);
    if i == -1 then s
    else
      RemoveAtContents(s, i);
      RemoveAt(s, i)
  }

  /** Reference definition of "every occurrence of `x` deleted, the others kept
      in order", written independently of `IndexOf`. */
  function Erase(s: seq<UserId>, x: UserId): (r: seq<UserId>)
  {
    if |s| == 0 then []
    else if s[0] == x then Erase(s[1..], x)
    else [s[0]] + Erase(s[1..], x)
  }

  /** Erasing a member that does not occur changes nothing. */
  lemma {:induction false} EraseAbsent(s: seq<UserId>, x: UserId)
    requires x !in s
    ensures Erase(s, x) == s
  {
    if |s| > 0 {
      assert s == [s[0]] + s[1..];
      EraseAbsent(s[1..], x);
    }
  }

  /** Deleting from a list whose head is another player keeps the head. */
  lemma WithoutCons(s: seq<UserId>, x: UserId)
    requires |s| > 0 && s[0] != x
    ensures Without(s, x) == [s[0]] + Without(s[1..], x)
  {
    var t := s[1..];
    if x in s {
      assert x in t;
      var k := IndexOf(t, x);
      assert IndexOf(s, x) == k + 1;
      var r := RemoveAt(s, k + 1);
      var q := [s[0]] + RemoveAt(t, k);
      assert |r| == |q|;
      forall j | 0 <= j < |r| ensures r[j] == q[j] {
        if j > 0 { assert q[j] == RemoveAt(t, k)[j - 1]; }
      }
    } else {
      assert x !in t;
      assert s == [s[0]] + t;
    }
  }

  /** On a list without duplicates, deleting the first occurrence is deleting
      every occurrence: the other players keep their relative order. */
  lemma {:induction false} WithoutIsErase(s: seq<UserId>, x: UserId)
    requires NoDuplicates(s)
    ensures Without(s, x) == Erase(s, x)
  {
    if |s| == 0 {
    } else if s[0] == x {
      forall j | 0 <= j < |s[1..]| ensures s[1..][j] != x {
        assert s[1..][j] == s[j + 1];
      }
      EraseAbsent(s[1..], x);
      assert IndexOf(s, x) == 0;
      assert RemoveAt(s, 0) == s[1..];
    } else {
      var t := s[1..];
      assert NoDuplicates(t) by {
        forall i, j | 0 <= i < j < |t| ensures t[i] != t[j] {
          assert t[i] == s[i + 1] && t[j] == s[j + 1];
        }
      }
      WithoutIsErase(t, x);
      WithoutCons(s, x);
    }
  }

  /** Deleting a player from a duplicate-free list leaves a duplicate-free list
      that no longer holds that player. */
  lemma WithoutKeepsNoDuplicates(s: seq<UserId>, x: UserId)
    requires NoDuplicates(s)
    ensures NoDuplicates(Without(s, x))
    ensures x !in Without(s, x)
  {
  }

  /** Removing a player who was just appended, and was not listed before,
      gives back the list as it was. */
  lemma WithoutAppended(s: seq<UserId>, x: UserId)
    requires x !in s
    ensures Without(s + [x], x) == s
  {
    assert IndexOf(s + [x], x) == |s|;
    assert RemoveAt(s + [x], |s|) == s;
  }

  /** Appending a player who is not yet listed keeps the list duplicate-free. */
  lemma AppendKeepsNoDuplicates(s: seq<UserId>, x: UserId)
    requires NoDuplicates(s) && x !in s
    ensures NoDuplicates(s + [x])
  {
  }
}
