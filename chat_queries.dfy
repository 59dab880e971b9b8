/**
  The queries of ChatRoomRepository, ChatMessageRepository and ReadStatusRepository that the
  chat service calls: rooms by kind, a room's messages in creation order, and read-status counts.
*/
module ChatQueries {
  import opened ChatEntities

  /**
    `findByIsGroupChat(flag)`: the ids of the rooms with that flag, in ascending id order, among
    the ids below `bound`.
  */
  function FindByIsGroupChat(rooms: map<int, ChatRoom>, flag: string, bound: nat): (ids: seq<int>)
    ensures forall id :: id in ids <==> 0 <= id < bound && id in rooms && rooms[id].isGroupChat == flag
    ensures forall i, j :: 0 <= i < j < |ids| ==> ids[i] < ids[j]
    ensures forall i :: 0 <= i < |ids| ==> ids[i] < bound
  {
    if bound == 0 then []
    else
      var id := bound - 1;
      var below := FindByIsGroupChat(rooms, flag, id);
      var here := if id in rooms && rooms[id].isGroupChat == flag then [id] else [];
      assert forall k :: 0 <= k < |below| ==> (below + here)[k] == below[k];
      below + here
  }

  /** The messages of one room, in table (id) order. */
  function MessagesOf(messages: seq<ChatMessage>, roomId: int): (r: seq<ChatMessage>)
    ensures forall m :: m in r <==> m in messages && m.roomId == roomId
    ensures multiset(r) <= multiset(messages)
  {
    if messages == [] then []
    else
      var last := messages[|messages| - 1];
      assert messages == messages[..|messages| - 1] + [last];
      MessagesOf(messages[..|messages| - 1], roomId) + (if last.roomId == roomId then [last] else [])
  }

  ghost predicate SortedByTime(s: seq<ChatMessage>) {
    forall i, j :: 0 <= i < j < |s| ==> s[i].createdTime <= s[j].createdTime
  }

  /** Places `m` after every message of the sorted `s` that is not newer than it. */
  function InsertByTime(m: ChatMessage, s: seq<ChatMessage>): (r: seq<ChatMessage>)
  {
    if s == [] || s[|s| - 1].createdTime <= m.createdTime then s + [m]
    else InsertByTime(m, s[..|s| - 1]) + [s[|s| - 1]]
  }

  lemma {:induction false} InsertByTimeElements(m: ChatMessage, s: seq<ChatMessage>)
    ensures multiset(InsertByTime(m, s)) == multiset(s) + multiset{m}
    ensures |InsertByTime(m, s)| == |s| + 1
  {
    if s != [] && s[|s| - 1].createdTime > m.createdTime {
      var init := s[..|s| - 1];
      assert s == init + [s[|s| - 1]];
      InsertByTimeElements(m, init);
    }
  }

  lemma {:induction false} InsertByTimeSorted(m: ChatMessage, s: seq<ChatMessage>)
    requires SortedByTime(s)
    ensures SortedByTime(InsertByTime(m, s))
  {
    if s != [] && s[|s| - 1].createdTime > m.createdTime {
      var init := s[..|s| - 1];
      var last := s[|s| - 1];
      assert SortedByTime(init);
      InsertByTimeSorted(m, init);
      NotNewerThanLast(m, s);
    }
  }

  /** When `m` is older than the last message of sorted `s`, nothing inserted before that last message is newer than it. */
  lemma NotNewerThanLast(m: ChatMessage, s: seq<ChatMessage>)
    requires SortedByTime(s) && s != [] && s[|s| - 1].createdTime > m.createdTime
    ensures forall x :: x in InsertByTime(m, s[..|s| - 1]) ==> x.createdTime <= s[|s| - 1].createdTime
  {
    var init := s[..|s| - 1];
    InsertByTimeElements(m, init);
    forall x | x in InsertByTime(m, init)
      ensures x.createdTime <= s[|s| - 1].createdTime
    {
      assert x in multiset(InsertByTime(m, init));
      if x != m {
        assert x in multiset(init);
        var k :| 0 <= k < |init| && init[k] == x;
        assert s[k] == x;
      }
    }
  }

  /**
    `findByChatRoomOrderByCreatedTimeAsc`: the room's messages by ascending creation time;
    messages created at the same time keep their table order.
  */
  function OrderByCreatedTime(s: seq<ChatMessage>): (r: seq<ChatMessage>)
  {
    if s == [] then [] else InsertByTime(s[|s| - 1], OrderByCreatedTime(s[..|s| - 1]))
  }

  /** The ordering sorts by creation time and keeps every message exactly once. */
  lemma {:induction false} OrderByCreatedTimeCorrect(s: seq<ChatMessage>)
    ensures SortedByTime(OrderByCreatedTime(s))
    ensures multiset(OrderByCreatedTime(s)) == multiset(s)
    ensures |OrderByCreatedTime(s)| == |s|
  {
    if s != [] {
      var init := s[..|s| - 1];
      assert s == init + [s[|s| - 1]];
      OrderByCreatedTimeCorrect(init);
      InsertByTimeElements(s[|s| - 1], OrderByCreatedTime(init));
      InsertByTimeSorted(s[|s| - 1], OrderByCreatedTime(init));
    }
  }

  /** The history of a room: exactly the room's messages, oldest first. */
  function FindByChatRoomOrderByCreatedTimeAsc(messages: seq<ChatMessage>, roomId: int): (r: seq<ChatMessage>)
    ensures SortedByTime(r)
    ensures forall m :: m in r <==> m in messages && m.roomId == roomId
    ensures multiset(r) == multiset(MessagesOf(messages, roomId))
  {
    var own := MessagesOf(messages, roomId);
    OrderByCreatedTimeCorrect(own);
    assert forall m :: m in OrderByCreatedTime(own) <==> m in multiset(own);
    OrderByCreatedTime(own)
  }

  /** The number of read-status rows created for one message. */
  function CountForMessage(rs: seq<ReadStatus>, messageId: int): nat
  {
    if rs == [] then 0
    else CountForMessage(rs[..|rs| - 1], messageId) + (if rs[|rs| - 1].messageId == messageId then 1 else 0)
  }

  lemma {:induction false} CountForMessageAppend(a: seq<ReadStatus>, b: seq<ReadStatus>, messageId: int)
    ensures CountForMessage(a + b, messageId) == CountForMessage(a, messageId) + CountForMessage(b, messageId)
  {
    if b != [] {
      assert (a + b)[..|a + b| - 1] == a + b[..|b| - 1];
      CountForMessageAppend(a, b[..|b| - 1], messageId);
    } else {
      assert a + b == a;
    }
  }

  /** Counts every row when all rows are the message's, and none when no row is. */
  lemma {:induction false} CountForMessageExtremes(rs: seq<ReadStatus>, messageId: int)
    ensures (forall r :: r in rs ==> r.messageId == messageId) ==> CountForMessage(rs, messageId) == |rs|
    ensures (forall r :: r in rs ==> r.messageId != messageId) ==> CountForMessage(rs, messageId) == 0
  {
    if rs != [] {
      CountForMessageExtremes(rs[..|rs| - 1], messageId);
    }
  }

  /** Rows appended for a message whose id no earlier row carries are all the rows it has. */
  lemma CountForNewMessage(rs: seq<ReadStatus>, added: seq<ReadStatus>, messageId: int)
    requires forall r :: r in rs ==> r.messageId != messageId
    requires forall k :: 0 <= k < |added| ==> added[k].messageId == messageId
    ensures CountForMessage(rs + added, messageId) == |added|
  {
    CountForMessageAppend(rs, added, messageId);
    CountForMessageExtremes(rs, messageId);
    CountForMessageExtremes(added, messageId);
  }

  /** `countByChatRoomAndMemberAndIsReadFalse`. */
  function UnreadCount(rs: seq<ReadStatus>, roomId: int, memberId: int): nat
  {
    if rs == [] then 0
    else
      var last := rs[|rs| - 1];
      UnreadCount(rs[..|rs| - 1], roomId, memberId) + (if last.roomId == roomId && last.memberId == memberId && !last.isRead then 1 else 0)
  }

  /** The unread count is zero exactly when every row of (room, member) is read. */
  lemma {:induction false} UnreadCountZeroIff(rs: seq<ReadStatus>, roomId: int, memberId: int)
    ensures UnreadCount(rs, roomId, memberId) == 0 <==>
            forall i :: 0 <= i < |rs| && rs[i].roomId == roomId && rs[i].memberId == memberId ==> rs[i].isRead
  {
    if rs != [] {
      var init := rs[..|rs| - 1];
      UnreadCountZeroIff(init, roomId, memberId);
      assert forall i :: 0 <= i < |init| ==> init[i] == rs[i];
    }
  }

  /** Rows that agree on the (room, member) rows give the same unread count. */
  lemma {:induction false} UnreadCountFrame(rs: seq<ReadStatus>, rs': seq<ReadStatus>, roomId: int, memberId: int)
    requires |rs| == |rs'|
    requires forall i :: 0 <= i < |rs| && ((rs[i].roomId == roomId && rs[i].memberId == memberId) || (rs'[i].roomId == roomId && rs'[i].memberId == memberId)) ==> rs[i] == rs'[i]
    ensures UnreadCount(rs, roomId, memberId) == UnreadCount(rs', roomId, memberId)
  {
    if rs != [] {
      UnreadCountFrame(rs[..|rs| - 1], rs'[..|rs| - 1], roomId, memberId);
    }
  }
}
