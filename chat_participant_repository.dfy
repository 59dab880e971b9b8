/**
  ChatParticipantRepository: the participant-table queries the chat service relies on, and the
  JPQL look-up that decides when an existing private room is reused.
*/
module ChatParticipantRepository {
  import opened Wrappers
  import opened ChatEntities

  /** `findByChatRoom`: the room's participant rows, in table order. */
  function FindByChatRoom(ps: seq<ChatParticipant>, roomId: int): (r: seq<ChatParticipant>)
    ensures forall p :: p in r <==> p in ps && p.roomId == roomId
    ensures |r| <= |ps|
  {
    if ps == [] then []
    else
      var last := ps[|ps| - 1];
      FindByChatRoom(ps[..|ps| - 1], roomId) + (if last.roomId == roomId then [last] else [])
  }

  /** `findAllByMember`: the member's participant rows, in table order. */
  function FindAllByMember(ps: seq<ChatParticipant>, memberId: int): (r: seq<ChatParticipant>)
    ensures forall p :: p in r <==> p in ps && p.memberId == memberId
  {
    if ps == [] then []
    else
      var last := ps[|ps| - 1];
      FindAllByMember(ps[..|ps| - 1], memberId) + (if last.memberId == memberId then [last] else [])
  }

  /** `findByChatRoomAndMember`: the position of the (room, member) row, if there is one. */
  function FindByChatRoomAndMember(ps: seq<ChatParticipant>, roomId: int, memberId: int): (r: Option<nat>)
    ensures r.Some? ==> r.value < |ps| && ps[r.value] == ChatParticipant(roomId, memberId)
    ensures r.None? <==> ChatParticipant(roomId, memberId) !in ps
  {
    if ps == [] then None
    else if ps[|ps| - 1] == ChatParticipant(roomId, memberId) then Some(|ps| - 1)
    else FindByChatRoomAndMember(ps[..|ps| - 1], roomId, memberId)
  }

  /** No (room, member) pair has two rows. */
  ghost predicate UniquePairs(ps: seq<ChatParticipant>) {
    forall i, j :: 0 <= i < j < |ps| ==> ps[i] != ps[j]
  }

  /** With pairs unique, `findByChatRoomAndMember` has at most one row to return. */
  lemma {:induction false} AtMostOneRowPerPair(ps: seq<ChatParticipant>, p: ChatParticipant)
    requires UniquePairs(ps)
    ensures multiset(ps)[p] <= 1
  {
    if ps != [] {
      var init := ps[..|ps| - 1];
      assert ps == init + [ps[|ps| - 1]];
      AtMostOneRowPerPair(init, p);
      if ps[|ps| - 1] == p {
        assert p !in init;
      }
    }
  }

  /** Deleting one row of a table with unique pairs removes exactly that pair. */
  lemma DeleteRow(ps: seq<ChatParticipant>, idx: nat)
    requires UniquePairs(ps) && idx < |ps|
    ensures UniquePairs(ps[..idx] + ps[idx + 1..])
    ensures |ps[..idx] + ps[idx + 1..]| == |ps| - 1
    ensures forall p :: p in ps[..idx] + ps[idx + 1..] <==> p in ps && p != ps[idx]
  {
    var ps' := ps[..idx] + ps[idx + 1..];
    assert forall k :: 0 <= k < |ps'| ==> ps'[k] == if k < idx then ps[k] else ps[k + 1];
    forall p | p in ps && p != ps[idx]
      ensures p in ps'
    {
      var j :| 0 <= j < |ps| && ps[j] == p;
      if j < idx { assert ps'[j] == p; } else { assert ps'[j - 1] == p; }
    }
  }

  /** The members of a room according to the participant table. */
  function MembersOf(ps: seq<ChatParticipant>, roomId: int): (s: set<int>)
    ensures forall m :: m in s <==> ChatParticipant(roomId, m) in ps
  {
    set p | p in ps && p.roomId == roomId :: p.memberId
  }

  /** With pairs unique, a room has exactly one participant row per member. */
  lemma {:induction false} RoomRowsAreMembers(ps: seq<ChatParticipant>, roomId: int)
    requires UniquePairs(ps)
    ensures |FindByChatRoom(ps, roomId)| == |MembersOf(ps, roomId)|
  {
    if ps == [] {
      assert MembersOf(ps, roomId) == {};
    } else {
      var init := ps[..|ps| - 1];
      var last := ps[|ps| - 1];
      UniquePairsSplit(ps);
      RoomRowsAreMembers(init, roomId);
      MembersOfAppend(init, last, roomId);
      var mi := MembersOf(init, roomId);
      if last.roomId == roomId {
        assert last.memberId !in mi;
        assert |mi + {last.memberId}| == |mi| + 1;
      }
    }
  }

  /** The rows before the last still have unique pairs, and the last row's pair is not among them. */
  lemma UniquePairsSplit(ps: seq<ChatParticipant>)
    requires UniquePairs(ps) && ps != []
    ensures UniquePairs(ps[..|ps| - 1])
    ensures ps[|ps| - 1] !in ps[..|ps| - 1]
    ensures ps == ps[..|ps| - 1] + [ps[|ps| - 1]]
  {
    var init := ps[..|ps| - 1];
    forall i | 0 <= i < |init|
      ensures init[i] != ps[|ps| - 1]
    {
      assert init[i] == ps[i];
    }
  }

  lemma MembersOfAppend(ps: seq<ChatParticipant>, p: ChatParticipant, roomId: int)
    ensures MembersOf(ps + [p], roomId) ==
              if p.roomId == roomId then MembersOf(ps, roomId) + {p.memberId} else MembersOf(ps, roomId)
  {
    assert forall q :: q in ps + [p] <==> q in ps || q == p;
  }

  /**
    The JPQL subquery: the room's rows whose member is `myId` or `otherMemberId`, grouped by room,
    `HAVING COUNT(DISTINCT member.id) = 2`.
  */
  predicate InPairSubquery(ps: seq<ChatParticipant>, roomId: int, myId: int, otherMemberId: int) {
    |MembersOf(ps, roomId) * {myId, otherMemberId}| == 2
  }

  /** Both members, distinct, have a row in the room. */
  predicate HasPair(ps: seq<ChatParticipant>, roomId: int, a: int, b: int) {
    a != b && ChatParticipant(roomId, a) in ps && ChatParticipant(roomId, b) in ps
  }

  /** The distinct-count condition holds exactly when the two ids differ and both take part. */
  lemma InPairSubqueryIff(ps: seq<ChatParticipant>, roomId: int, a: int, b: int)
    ensures InPairSubquery(ps, roomId, a, b) <==> HasPair(ps, roomId, a, b)
  {
    var s := MembersOf(ps, roomId) * {a, b};
    if a == b {
      assert s <= {a};
      assert |s| <= 1 by {
        if a in s { assert s == {a}; } else { assert s == {}; }
      }
    } else if a in s && b in s {
      assert s == {a, b};
    } else if a in s {
      assert s == {a};
    } else if b in s {
      assert s == {b};
    } else {
      assert s == {};
    }
  }

  /**
    The query's result rows: `SELECT cp1.chatRoom FROM ChatParticipant cp1` gives one row per
    participant row `cp1` of the table `ps` whose room is a private room in the subquery.
    `cps` is the part of the table scanned so far.
  */
  function PrivateRoomRows(rooms: map<int, ChatRoom>, ps: seq<ChatParticipant>, cps: seq<ChatParticipant>,
                           myId: int, otherMemberId: int): (rows: seq<int>)
    ensures forall x :: x in rows <==>
              IsPrivate(rooms, x) && InPairSubquery(ps, x, myId, otherMemberId) && exists p :: p in cps && p.roomId == x
  {
    if cps == [] then []
    else
      var cp1 := cps[|cps| - 1];
      var rest := PrivateRoomRows(rooms, ps, cps[..|cps| - 1], myId, otherMemberId);
      var rows := rest + (if IsPrivate(rooms, cp1.roomId) && InPairSubquery(ps, cp1.roomId, myId, otherMemberId) then [cp1.roomId] else []);
      assert forall p :: p in cps ==> p in cps[..|cps| - 1] || p == cp1 by {
        assert cps == cps[..|cps| - 1] + [cp1];
      }
      rows
  }

  datatype PrivateRoomLookup = NoRoom | Found(roomId: int) | NotUnique

  /**
    A single-result query read into an `Optional`: empty when there is no row, the room when
    every row is that same room, and an exception when the rows name two different rooms.
  */
  function UniqueRoom(rows: seq<int>): (r: PrivateRoomLookup)
    ensures r == NoRoom <==> rows == []
    ensures r.Found? ==> r.roomId in rows && forall x :: x in rows ==> x == r.roomId
    ensures r == NotUnique <==> exists i, j :: 0 <= i < |rows| && 0 <= j < |rows| && rows[i] != rows[j]
  {
    if rows == [] then NoRoom
    else if forall i :: 0 <= i < |rows| ==> rows[i] == rows[0] then Found(rows[0])
    else NotUnique
  }

  /** `findExistingPrivateRoom(myId, otherMemberId)`. */
  function FindExistingPrivateRoom(rooms: map<int, ChatRoom>, ps: seq<ChatParticipant>, myId: int, otherMemberId: int): PrivateRoomLookup
  {
    UniqueRoom(PrivateRoomRows(rooms, ps, ps, myId, otherMemberId))
  }

  /** A room reported by the look-up is a private room in which both members, distinct, take part. */
  lemma FoundIsPrivatePair(rooms: map<int, ChatRoom>, ps: seq<ChatParticipant>, a: int, b: int)
    ensures FindExistingPrivateRoom(rooms, ps, a, b).Found? ==>
              var r := FindExistingPrivateRoom(rooms, ps, a, b).roomId;
              IsPrivate(rooms, r) && HasPair(ps, r, a, b)
  {
    var look := FindExistingPrivateRoom(rooms, ps, a, b);
    if look.Found? {
      InPairSubqueryIff(ps, look.roomId, a, b);
    }
  }

  /** Swapping the two ids does not change the look-up. */
  lemma {:induction false} LookupSymmetric(rooms: map<int, ChatRoom>, ps: seq<ChatParticipant>, a: int, b: int)
    ensures FindExistingPrivateRoom(rooms, ps, a, b) == FindExistingPrivateRoom(rooms, ps, b, a)
  {
    assert {a, b} == {b, a};
    RowsSymmetric(rooms, ps, ps, a, b);
  }

  lemma {:induction false} RowsSymmetric(rooms: map<int, ChatRoom>, ps: seq<ChatParticipant>, cps: seq<ChatParticipant>, a: int, b: int)
    ensures PrivateRoomRows(rooms, ps, cps, a, b) == PrivateRoomRows(rooms, ps, cps, b, a)
  {
    assert {a, b} == {b, a};
    if cps != [] {
      RowsSymmetric(rooms, ps, cps[..|cps| - 1], a, b);
    }
  }

  /** One id alone never gives two distinct members, so a member finds no private room with itself. */
  lemma SelfPairFindsNothing(rooms: map<int, ChatRoom>, ps: seq<ChatParticipant>, a: int)
    ensures FindExistingPrivateRoom(rooms, ps, a, a) == NoRoom
  {
    var rows := PrivateRoomRows(rooms, ps, ps, a, a);
    if rows != [] {
      InPairSubqueryIff(ps, rows[0], a, a);
    }
  }

  /** The store invariant: no two private rooms share the same pair of distinct members. */
  ghost predicate PrivatePairsUnique(rooms: map<int, ChatRoom>, ps: seq<ChatParticipant>) {
    forall r1, r2, a, b {:trigger HasPair(ps, r1, a, b), HasPair(ps, r2, a, b)} ::
      IsPrivate(rooms, r1) && IsPrivate(rooms, r2) && HasPair(ps, r1, a, b) && HasPair(ps, r2, a, b) ==> r1 == r2
  }

  /**
    Under the store invariant the look-up never fails, and it reports exactly the private room
    shared by the two members (or none).
  */
  lemma LookupExact(rooms: map<int, ChatRoom>, ps: seq<ChatParticipant>, a: int, b: int)
    requires PrivatePairsUnique(rooms, ps)
    ensures FindExistingPrivateRoom(rooms, ps, a, b) != NotUnique
    ensures forall r :: FindExistingPrivateRoom(rooms, ps, a, b) == Found(r) <==> IsPrivate(rooms, r) && HasPair(ps, r, a, b)
    ensures FindExistingPrivateRoom(rooms, ps, a, b) == NoRoom <==>
              forall r :: !(IsPrivate(rooms, r) && HasPair(ps, r, a, b))
  {
    var rows := PrivateRoomRows(rooms, ps, ps, a, b);
    forall x | x in rows
      ensures IsPrivate(rooms, x) && HasPair(ps, x, a, b)
    {
      InPairSubqueryIff(ps, x, a, b);
    }
    forall i, j | 0 <= i < |rows| && 0 <= j < |rows|
      ensures rows[i] == rows[j]
    {
      assert HasPair(ps, rows[i], a, b) && HasPair(ps, rows[j], a, b);
    }
    forall r | IsPrivate(rooms, r) && HasPair(ps, r, a, b)
      ensures r in rows
    {
      InPairSubqueryIff(ps, r, a, b);
      assert ChatParticipant(r, a) in ps;
    }
  }

  /** The private-room rule depends only on the private rooms and their members. */
  lemma PrivatePairsFrame(rooms: map<int, ChatRoom>, ps: seq<ChatParticipant>, rooms': map<int, ChatRoom>, ps': seq<ChatParticipant>)
    requires PrivatePairsUnique(rooms, ps)
    requires forall r :: IsPrivate(rooms', r) ==> IsPrivate(rooms, r)
    requires forall r, m {:trigger ChatParticipant(r, m) in ps'} :: IsPrivate(rooms', r) ==>
               (ChatParticipant(r, m) in ps' <==> ChatParticipant(r, m) in ps)
    ensures PrivatePairsUnique(rooms', ps')
  {
    forall r1, r2, a, b | IsPrivate(rooms', r1) && IsPrivate(rooms', r2) && HasPair(ps', r1, a, b) && HasPair(ps', r2, a, b)
      ensures r1 == r2
    {
      assert HasPair(ps, r1, a, b) && HasPair(ps, r2, a, b);
    }
  }

  /** Deleting a row of a room that is not private, and perhaps that room too, keeps the private-room rule. */
  lemma LeaveKeepsPrivatePairs(rooms: map<int, ChatRoom>, ps: seq<ChatParticipant>, idx: nat, rooms': map<int, ChatRoom>)
    requires PrivatePairsUnique(rooms, ps) && idx < |ps|
    requires !IsPrivate(rooms, ps[idx].roomId)
    requires rooms' == rooms || rooms' == rooms - {ps[idx].roomId}
    ensures PrivatePairsUnique(rooms', ps[..idx] + ps[idx + 1..])
  {
    var rest := ps[..idx] + ps[idx + 1..];
    forall r, m | IsPrivate(rooms', r)
      ensures ChatParticipant(r, m) in rest <==> ChatParticipant(r, m) in ps
    {
      var p := ChatParticipant(r, m);
      if p in ps {
        var j :| 0 <= j < |ps| && ps[j] == p;
        assert j != idx;
        if j < idx { assert rest[j] == p; } else { assert rest[j - 1] == p; }
      }
      if p in rest {
        var j :| 0 <= j < |rest| && rest[j] == p;
        if j < idx { assert ps[j] == p; } else { assert ps[j + 1] == p; }
      }
    }
    PrivatePairsFrame(rooms, ps, rooms', rest);
  }
}
