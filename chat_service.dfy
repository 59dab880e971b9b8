/**
  ChatService: the chat-room service over the room, participant, message and read-status
  tables. Each public method of the source is a method of `ChatService` that checks its error
  conditions in the source's order and then updates the tables in place.

  The logged-in user, which the source reads from the security context, is the explicit
  parameter `callerEmail`; the clock that stamps a message is the parameter `now`.
*/
module Chat {
  import opened Wrappers
  import opened ChatEntities
  import opened ChatParticipantRepository
  import opened ChatQueries
  import LoginMembers

  /** The four chat tables and the next generated ids, for stating "nothing changed". */
  datatype Tables = Tables(rooms: map<int, ChatRoom>, participants: seq<ChatParticipant>,
                           messages: seq<ChatMessage>, readStatuses: seq<ReadStatus>,
                           nextRoomId: nat, nextMessageId: nat)

  /** The effect of `updateIsRead(true)` on the rows `findByChatRoomAndMember` returns. */
  function MarkRead(r: ReadStatus, roomId: int, memberId: int): (r': ReadStatus)
    ensures r'.roomId == r.roomId && r'.memberId == r.memberId && r'.messageId == r.messageId
    ensures r'.isRead == (r.isRead || (r.roomId == roomId && r.memberId == memberId))
  {
    if r.roomId == roomId && r.memberId == memberId then r.(isRead := true) else r
  }

  /**
    The read-status rows `saveMessage` creates for message `messageId`: one per given participant
    row, in order, read exactly when the participant is the sender.
  */
  function ReadRowsFor(roomPs: seq<ChatParticipant>, messageId: int, senderId: int): (rows: seq<ReadStatus>)
    ensures |rows| == |roomPs|
  {
    if roomPs == [] then []
    else
      var last := roomPs[|roomPs| - 1];
      ReadRowsFor(roomPs[..|roomPs| - 1], messageId, senderId) + [ReadStatus(last.roomId, last.memberId, messageId, last.memberId == senderId)]
  }

  /** Row k is the read status of participant row k for the message. */
  lemma {:induction false} ReadRowsForAt(roomPs: seq<ChatParticipant>, messageId: int, senderId: int)
    ensures var rows := ReadRowsFor(roomPs, messageId, senderId);
            forall k :: 0 <= k < |rows| ==>
              rows[k] == ReadStatus(roomPs[k].roomId, roomPs[k].memberId, messageId, roomPs[k].memberId == senderId)
  {
    if roomPs != [] {
      ReadRowsForAt(roomPs[..|roomPs| - 1], messageId, senderId);
    }
  }

  /** Appending rows of a message whose id is below `bound` keeps every row's message id below it. */
  lemma MessageIdsBelow(rs: seq<ReadStatus>, added: seq<ReadStatus>, messageId: int, bound: int)
    requires forall r :: r in rs ==> r.messageId < bound
    requires forall k :: 0 <= k < |added| ==> added[k].messageId == messageId
    requires messageId < bound
    ensures forall r :: r in rs + added ==> r.messageId < bound
  {
    forall r | r in rs + added
      ensures r.messageId < bound
    {
      if r !in rs {
        var k :| 0 <= k < |added| && added[k] == r;
      }
    }
  }

  /**
    The rows `saveMessage` creates cover each current participant of the room exactly once: one
    row per member of the room, and a row for a member exactly when the member is in the room.
  */
  lemma ReadRowsCoverRoom(ps: seq<ChatParticipant>, roomId: int, messageId: int, senderId: int)
    requires UniquePairs(ps)
    ensures var rows := ReadRowsFor(FindByChatRoom(ps, roomId), messageId, senderId);
            && |rows| == |MembersOf(ps, roomId)|
            && forall m :: (exists k :: 0 <= k < |rows| && rows[k].memberId == m) <==> m in MembersOf(ps, roomId)
  {
    var roomPs := FindByChatRoom(ps, roomId);
    RoomRowsAreMembers(ps, roomId);
    ReadRowsMembers(roomPs, roomId, messageId, senderId);
  }

  /** The rows made from participant rows of one room name exactly the members of those rows. */
  lemma ReadRowsMembers(roomPs: seq<ChatParticipant>, roomId: int, messageId: int, senderId: int)
    requires forall p :: p in roomPs ==> p.roomId == roomId
    ensures var rows := ReadRowsFor(roomPs, messageId, senderId);
            forall m :: (exists k :: 0 <= k < |rows| && rows[k].memberId == m) <==> ChatParticipant(roomId, m) in roomPs
  {
    var rows := ReadRowsFor(roomPs, messageId, senderId);
    ReadRowsForAt(roomPs, messageId, senderId);
    forall m | ChatParticipant(roomId, m) in roomPs
      ensures exists k :: 0 <= k < |rows| && rows[k].memberId == m
    {
      var k :| 0 <= k < |roomPs| && roomPs[k] == ChatParticipant(roomId, m);
      assert rows[k].memberId == m;
    }
    forall k | 0 <= k < |rows|
      ensures ChatParticipant(roomId, rows[k].memberId) in roomPs
    {
      assert roomPs[k] in roomPs;
      assert roomPs[k] == ChatParticipant(roomId, rows[k].memberId);
    }
  }

  /** Every row `saveMessage` creates belongs to the room and the message, and only the sender's is read. */
  lemma ReadRowsShape(ps: seq<ChatParticipant>, roomId: int, messageId: int, senderId: int)
    ensures forall x :: x in ReadRowsFor(FindByChatRoom(ps, roomId), messageId, senderId) ==>
              x.roomId == roomId && x.messageId == messageId && (x.isRead <==> x.memberId == senderId)
  {
    var roomPs := FindByChatRoom(ps, roomId);
    var rows := ReadRowsFor(roomPs, messageId, senderId);
    ReadRowsForAt(roomPs, messageId, senderId);
    forall x | x in rows
      ensures x.roomId == roomId && x.messageId == messageId && (x.isRead <==> x.memberId == senderId)
    {
      var k :| 0 <= k < |rows| && rows[k] == x;
      assert roomPs[k] in roomPs;
    }
  }

  /** Both new pairs of a fresh private room are unique when the look-up found no shared room. */
  lemma NewPrivateRoomKeepsPairsUnique(rooms: map<int, ChatRoom>, ps: seq<ChatParticipant>,
                                       newId: int, name: string, a: int, b: int)
    requires PrivatePairsUnique(rooms, ps)
    requires newId !in rooms
    requires forall p :: p in ps ==> p.roomId in rooms
    requires forall r :: !(IsPrivate(rooms, r) && HasPair(ps, r, a, b))
    ensures PrivatePairsUnique(rooms[newId := ChatRoom(name, PrivateFlag)],
                               ps + [ChatParticipant(newId, a)] + (if a != b then [ChatParticipant(newId, b)] else []))
    ensures a != b ==> FindExistingPrivateRoom(rooms[newId := ChatRoom(name, PrivateFlag)],
                                               ps + [ChatParticipant(newId, a)] + (if a != b then [ChatParticipant(newId, b)] else []),
                                               a, b) == Found(newId)
  {
    var rooms' := rooms[newId := ChatRoom(name, PrivateFlag)];
    var ps' := ps + [ChatParticipant(newId, a)] + (if a != b then [ChatParticipant(newId, b)] else []);
    forall r, m | r != newId
      ensures ChatParticipant(r, m) in ps' <==> ChatParticipant(r, m) in ps
    {
    }
    forall m
      ensures ChatParticipant(newId, m) in ps' <==> m == a || m == b
    {
      assert ChatParticipant(newId, m) !in ps;
    }
    forall r1, r2, x, y | IsPrivate(rooms', r1) && IsPrivate(rooms', r2) && HasPair(ps', r1, x, y) && HasPair(ps', r2, x, y)
      ensures r1 == r2
    {
      if r1 != newId && r2 != newId {
        assert HasPair(ps, r1, x, y) && HasPair(ps, r2, x, y);
      } else if r1 != newId {
        assert HasPair(ps, r1, a, b);
      } else if r2 != newId {
        assert HasPair(ps, r2, a, b);
      }
    }
    if a != b {
      assert HasPair(ps', newId, a, b);
      LookupExact(rooms', ps', a, b);
    }
  }

  class ChatService {
    /** The member table; the chat service only reads it. */
    const members: seq<LoginMembers.Member>
    /** The room table, keyed by room id. */
    var rooms: map<int, ChatRoom>
    var participants: seq<ChatParticipant>
    var messages: seq<ChatMessage>
    var readStatuses: seq<ReadStatus>
    /** The next generated room / message id. */
    var nextRoomId: nat
    var nextMessageId: nat

    ghost function Snapshot(): Tables
      reads this
    {
      Tables(rooms, participants, messages, readStatuses, nextRoomId, nextMessageId)
    }

    /** Referential integrity and generated ids, without the private-room rule. */
    ghost predicate TablesValid()
      reads this
    {
      && (forall id :: id in rooms ==> 0 <= id < nextRoomId)
      && (forall p :: p in participants ==> p.roomId in rooms)
      && UniquePairs(participants)
      && (forall m :: m in messages ==> m.id < nextMessageId)
      && (forall r :: r in readStatuses ==> r.messageId < nextMessageId)
    }

    /** The store invariant: integrity, plus at most one private room per pair of members. */
    ghost predicate Valid()
      reads this
    {
      TablesValid() && PrivatePairsUnique(rooms, participants)
    }

    constructor (members: seq<LoginMembers.Member>)
      ensures Valid()
      ensures this.members == members
      ensures Snapshot() == Tables(map[], [], [], [], 1, 1)
    {
      this.members := members;
      rooms := map[];
      participants := [];
      messages := [];
      readStatuses := [];
      nextRoomId := 1;
      nextMessageId := 1;
    }

    /**
      `saveMessage`: stores the message, then one read-status row per participant of the room,
      read only for the sender.
    */
    method SaveMessage(roomId: int, dto: ChatMessageDto, now: int) returns (r: Outcome<ChatError>)
      requires Valid()
      modifies this
      ensures Valid()
      ensures roomId !in old(rooms) ==> r == Fail(RoomNotFound) && Snapshot() == old(Snapshot())
      ensures roomId in old(rooms) && LoginMembers.FindByEmail(members, dto.senderEmail).None? ==>
                r == Fail(MemberNotFound) && Snapshot() == old(Snapshot())
      ensures roomId in old(rooms) && LoginMembers.FindByEmail(members, dto.senderEmail).Some? ==>
                var sender := LoginMembers.FindByEmail(members, dto.senderEmail).value;
                && r == Pass
                && messages == old(messages) + [ChatMessage(old(nextMessageId), roomId, sender, dto.message, now)]
                && nextMessageId == old(nextMessageId) + 1
                && rooms == old(rooms) && participants == old(participants) && nextRoomId == old(nextRoomId)
                && readStatuses == old(readStatuses) + ReadRowsFor(FindByChatRoom(old(participants), roomId), old(nextMessageId), sender.id)
                && CountForMessage(readStatuses, old(nextMessageId)) == |MembersOf(old(participants), roomId)|
    {
      if roomId !in rooms {
        return Fail(RoomNotFound);
      }
      var found := LoginMembers.FindByEmail(members, dto.senderEmail);
      if found.None? {
        return Fail(MemberNotFound);
      }
      var sender := found.value;
      var msgId := nextMessageId;
      messages := messages + [ChatMessage(msgId, roomId, sender, dto.message, now)];
      nextMessageId := nextMessageId + 1;
      var roomPs := FindByChatRoom(participants, roomId);
      AddReadStatuses(roomPs, msgId, sender.id);
      ReadRowsForAt(roomPs, msgId, sender.id);
      CountForNewMessage(old(readStatuses), ReadRowsFor(roomPs, msgId, sender.id), msgId);
      MessageIdsBelow(old(readStatuses), ReadRowsFor(roomPs, msgId, sender.id), msgId, nextMessageId);
      RoomRowsAreMembers(participants, roomId);
      r := Pass;
    }

    /** The loop of `saveMessage`: one read-status row per given participant row, in order. */
    method AddReadStatuses(roomPs: seq<ChatParticipant>, messageId: int, senderId: int)
      modifies this
      ensures readStatuses == old(readStatuses) + ReadRowsFor(roomPs, messageId, senderId)
      ensures rooms == old(rooms) && participants == old(participants) && messages == old(messages)
      ensures nextRoomId == old(nextRoomId) && nextMessageId == old(nextMessageId)
    {
      var i := 0;
      while i < |roomPs|
        invariant 0 <= i <= |roomPs|
        invariant readStatuses == old(readStatuses) + ReadRowsFor(roomPs[..i], messageId, senderId)
        invariant rooms == old(rooms) && participants == old(participants) && messages == old(messages)
        invariant nextRoomId == old(nextRoomId) && nextMessageId == old(nextMessageId)
      {
        assert roomPs[..i + 1][..i] == roomPs[..i];
        readStatuses := readStatuses + [ReadStatus(roomPs[i].roomId, roomPs[i].memberId, messageId, roomPs[i].memberId == senderId)];
        i := i + 1;
      }
      assert roomPs[..i] == roomPs;
    }

    /** `createGroupRoom`: a new "Y" room whose only participant is the caller. */
    method CreateGroupRoom(chatRoomName: string, callerEmail: string) returns (r: Outcome<ChatError>)
      requires Valid()
      modifies this
      ensures Valid()
      ensures LoginMembers.FindByEmail(members, callerEmail).None? ==>
                r == Fail(MemberNotFound) && Snapshot() == old(Snapshot())
      ensures LoginMembers.FindByEmail(members, callerEmail).Some? ==>
                var creator := LoginMembers.FindByEmail(members, callerEmail).value;
                && r == Pass
                && old(nextRoomId) !in old(rooms)
                && rooms == old(rooms)[old(nextRoomId) := ChatRoom(chatRoomName, GroupFlag)]
                && participants == old(participants) + [ChatParticipant(old(nextRoomId), creator.id)]
                && MembersOf(participants, old(nextRoomId)) == {creator.id}
                && nextRoomId == old(nextRoomId) + 1
                && messages == old(messages) && readStatuses == old(readStatuses) && nextMessageId == old(nextMessageId)
    {
      var found := LoginMembers.FindByEmail(members, callerEmail);
      if found.None? {
        return Fail(MemberNotFound);
      }
      var creator := found.value;
      var id := nextRoomId;
      rooms := rooms[id := ChatRoom(chatRoomName, GroupFlag)];
      nextRoomId := nextRoomId + 1;
      assert forall m :: ChatParticipant(id, m) !in participants;
      participants := participants + [ChatParticipant(id, creator.id)];
      PrivatePairsFrame(old(rooms), old(participants), rooms, participants);
      r := Pass;
    }

    /** `getGroupchatRooms`: (id, name) of every "Y" room, in ascending id order. */
    method GetGroupchatRooms() returns (dtos: seq<ChatRoomListResDto>)
      requires Valid()
      ensures forall id :: (exists k :: 0 <= k < |dtos| && dtos[k].roomId == id) <==> id in rooms && rooms[id].isGroupChat == GroupFlag
      ensures forall k :: 0 <= k < |dtos| ==> dtos[k].roomId in rooms && dtos[k].roomName == rooms[dtos[k].roomId].name
      ensures forall i, j :: 0 <= i < j < |dtos| ==> dtos[i].roomId < dtos[j].roomId
    {
      var ids := FindByIsGroupChat(rooms, GroupFlag, nextRoomId);
      dtos := [];
      var i := 0;
      while i < |ids|
        invariant 0 <= i <= |ids|
        invariant |dtos| == i
        invariant forall k :: 0 <= k < i ==> dtos[k].roomId == ids[k] && dtos[k].roomName == rooms[ids[k]].name
      {
        dtos := dtos + [ChatRoomListResDto(ids[i], rooms[ids[i]].name)];
        i := i + 1;
      }
      forall id | id in rooms && rooms[id].isGroupChat == GroupFlag
        ensures exists k :: 0 <= k < |dtos| && dtos[k].roomId == id
      {
        assert id in ids;
        var k :| 0 <= k < |ids| && ids[k] == id;
        assert dtos[k].roomId == id;
      }
    }

    /**
      `addParticipantToRoom`: adds the (room, member) row unless it is there already. It keeps
      only the integrity part of the invariant: a private room gets its second member through it.
    */
    method AddParticipantToRoom(roomId: int, memberId: int)
      requires TablesValid() && roomId in rooms
      modifies this
      ensures TablesValid()
      ensures participants == if ChatParticipant(roomId, memberId) in old(participants) then old(participants)
                              else old(participants) + [ChatParticipant(roomId, memberId)]
      ensures rooms == old(rooms) && messages == old(messages) && readStatuses == old(readStatuses)
      ensures nextRoomId == old(nextRoomId) && nextMessageId == old(nextMessageId)
    {
      if FindByChatRoomAndMember(participants, roomId, memberId).Some? {
        return;
      }
      participants := participants + [ChatParticipant(roomId, memberId)];
    }

    /**
      `addParticipantToGroupChat`: unknown room, then unknown caller, then a private room are
      refused; an existing participant is left as is; otherwise one row is added.
    */
    method AddParticipantToGroupChat(roomId: int, callerEmail: string) returns (r: Outcome<ChatError>)
      requires Valid()
      modifies this
      ensures Valid()
      ensures roomId !in old(rooms) ==> r == Fail(RoomNotFound) && Snapshot() == old(Snapshot())
      ensures roomId in old(rooms) && LoginMembers.FindByEmail(members, callerEmail).None? ==>
                r == Fail(MemberNotFound) && Snapshot() == old(Snapshot())
      ensures roomId in old(rooms) && LoginMembers.FindByEmail(members, callerEmail).Some? &&
              old(rooms)[roomId].isGroupChat == PrivateFlag ==>
                r == Fail(NotGroupChat) && Snapshot() == old(Snapshot())
      ensures roomId in old(rooms) && LoginMembers.FindByEmail(members, callerEmail).Some? &&
              old(rooms)[roomId].isGroupChat != PrivateFlag ==>
                var joiner := ChatParticipant(roomId, LoginMembers.FindByEmail(members, callerEmail).value.id);
                && r == Pass
                && joiner in participants
                && participants == (if joiner in old(participants) then old(participants) else old(participants) + [joiner])
                && rooms == old(rooms) && messages == old(messages) && readStatuses == old(readStatuses)
                && nextRoomId == old(nextRoomId) && nextMessageId == old(nextMessageId)
    {
      if roomId !in rooms {
        return Fail(RoomNotFound);
      }
      var found := LoginMembers.FindByEmail(members, callerEmail);
      if found.None? {
        return Fail(MemberNotFound);
      }
      if rooms[roomId].isGroupChat == PrivateFlag {
        return Fail(NotGroupChat);
      }
      if FindByChatRoomAndMember(participants, roomId, found.value.id).None? {
        AddParticipantToRoom(roomId, found.value.id);
        PrivatePairsFrame(old(rooms), old(participants), rooms, participants);
      }
      r := Pass;
    }

    /**
      `getChatHistory`: for a participant, the room's messages oldest first as
      (content, sender e-mail), with no room id.
    */
    method GetChatHistory(roomId: int, callerEmail: string) returns (r: Result<seq<ChatMessageDto>, ChatError>)
      ensures roomId !in rooms ==> r == Failure(RoomNotFound)
      ensures roomId in rooms && LoginMembers.FindByEmail(members, callerEmail).None? ==> r == Failure(MemberNotFound)
      ensures roomId in rooms && LoginMembers.FindByEmail(members, callerEmail).Some? ==>
                var caller := LoginMembers.FindByEmail(members, callerEmail).value;
                && (ChatParticipant(roomId, caller.id) !in participants ==> r == Failure(NotRoomParticipant))
                && (ChatParticipant(roomId, caller.id) in participants ==>
                      var history := FindByChatRoomOrderByCreatedTimeAsc(messages, roomId);
                      && r.Success?
                      && |r.value| == |history|
                      && forall k :: 0 <= k < |history| ==>
                           r.value[k] == ChatMessageDto(None, history[k].content, history[k].sender.email))
    {
      if roomId !in rooms {
        return Failure(RoomNotFound);
      }
      var found := LoginMembers.FindByEmail(members, callerEmail);
      if found.None? {
        return Failure(MemberNotFound);
      }
      var isParticipant := IsMemberOf(FindByChatRoom(participants, roomId), found.value.id);
      if !isParticipant {
        return Failure(NotRoomParticipant);
      }
      var history := FindByChatRoomOrderByCreatedTimeAsc(messages, roomId);
      var dtos: seq<ChatMessageDto> := [];
      var i := 0;
      while i < |history|
        invariant 0 <= i <= |history|
        invariant |dtos| == i
        invariant forall k :: 0 <= k < i ==> dtos[k] == ChatMessageDto(None, history[k].content, history[k].sender.email)
      {
        dtos := dtos + [ChatMessageDto(None, history[i].content, history[i].sender.email)];
        i := i + 1;
      }
      r := Success(dtos);
    }

    /** `isRoomPaticipant`: whether the member with this e-mail has a row in the room. */
    method IsRoomParticipant(email: string, roomId: int) returns (r: Result<bool, ChatError>)
      ensures roomId !in rooms ==> r == Failure(RoomNotFound)
      ensures roomId in rooms && LoginMembers.FindByEmail(members, email).None? ==> r == Failure(MemberNotFound)
      ensures roomId in rooms && LoginMembers.FindByEmail(members, email).Some? ==>
                r == Success(ChatParticipant(roomId, LoginMembers.FindByEmail(members, email).value.id) in participants)
    {
      if roomId !in rooms {
        return Failure(RoomNotFound);
      }
      var found := LoginMembers.FindByEmail(members, email);
      if found.None? {
        return Failure(MemberNotFound);
      }
      var isParticipant := IsMemberOf(FindByChatRoom(participants, roomId), found.value.id);
      r := Success(isParticipant);
    }

    /** `messageRead`: every read-status row of (room, caller) becomes read; no other row changes. */
    method MessageRead(roomId: int, callerEmail: string) returns (r: Outcome<ChatError>)
      requires Valid()
      modifies this
      ensures Valid()
      ensures roomId !in old(rooms) ==> r == Fail(RoomNotFound) && Snapshot() == old(Snapshot())
      ensures roomId in old(rooms) && LoginMembers.FindByEmail(members, callerEmail).None? ==>
                r == Fail(MemberNotFound) && Snapshot() == old(Snapshot())
      ensures roomId in old(rooms) && LoginMembers.FindByEmail(members, callerEmail).Some? ==>
                var caller := LoginMembers.FindByEmail(members, callerEmail).value;
                && r == Pass
                && |readStatuses| == |old(readStatuses)|
                && (forall k :: 0 <= k < |readStatuses| ==> readStatuses[k] == MarkRead(old(readStatuses)[k], roomId, caller.id))
                && UnreadCount(readStatuses, roomId, caller.id) == 0
                && rooms == old(rooms) && participants == old(participants) && messages == old(messages)
                && nextRoomId == old(nextRoomId) && nextMessageId == old(nextMessageId)
    {
      if roomId !in rooms {
        return Fail(RoomNotFound);
      }
      var found := LoginMembers.FindByEmail(members, callerEmail);
      if found.None? {
        return Fail(MemberNotFound);
      }
      var memberId := found.value.id;
      var i := 0;
      while i < |readStatuses|
        invariant 0 <= i <= |readStatuses| == |old(readStatuses)|
        invariant forall k :: 0 <= k < i ==> readStatuses[k] == MarkRead(old(readStatuses)[k], roomId, memberId)
        invariant forall k :: i <= k < |readStatuses| ==> readStatuses[k] == old(readStatuses)[k]
        invariant rooms == old(rooms) && participants == old(participants) && messages == old(messages)
        invariant nextRoomId == old(nextRoomId) && nextMessageId == old(nextMessageId)
      {
        if readStatuses[i].roomId == roomId && readStatuses[i].memberId == memberId {
          readStatuses := readStatuses[i := readStatuses[i].(isRead := true)];
        }
        i := i + 1;
      }
      forall x | x in readStatuses
        ensures x.messageId < nextMessageId
      {
        var k :| 0 <= k < |readStatuses| && readStatuses[k] == x;
        assert old(readStatuses)[k] in old(readStatuses);
      }
      UnreadCountZeroIff(readStatuses, roomId, memberId);
      r := Pass;
    }

    /** `getMyChatRooms`: each room of the caller with its kind and the caller's unread count. */
    method GetMyChatRooms(callerEmail: string) returns (r: Result<seq<MyChatListResDto>, ChatError>)
      requires Valid()
      ensures LoginMembers.FindByEmail(members, callerEmail).None? ==> r == Failure(MemberNotFound)
      ensures LoginMembers.FindByEmail(members, callerEmail).Some? ==>
                var caller := LoginMembers.FindByEmail(members, callerEmail).value;
                var own := FindAllByMember(participants, caller.id);
                && r.Success?
                && |r.value| == |own|
                && forall k :: 0 <= k < |own| ==>
                     && own[k].roomId in rooms
                     && r.value[k] == MyChatListResDto(own[k].roomId, rooms[own[k].roomId].name, rooms[own[k].roomId].isGroupChat,
                                                       UnreadCount(readStatuses, own[k].roomId, caller.id))
    {
      var found := LoginMembers.FindByEmail(members, callerEmail);
      if found.None? {
        return Failure(MemberNotFound);
      }
      var memberId := found.value.id;
      var own := FindAllByMember(participants, memberId);
      var dtos: seq<MyChatListResDto> := [];
      var i := 0;
      while i < |own|
        invariant 0 <= i <= |own|
        invariant |dtos| == i
        invariant forall k :: 0 <= k < i ==>
                    own[k].roomId in rooms &&
                    dtos[k] == MyChatListResDto(own[k].roomId, rooms[own[k].roomId].name, rooms[own[k].roomId].isGroupChat,
                                                UnreadCount(readStatuses, own[k].roomId, memberId))
      {
        var room := rooms[own[i].roomId];
        var count := UnreadCount(readStatuses, own[i].roomId, memberId);
        dtos := dtos + [MyChatListResDto(own[i].roomId, room.name, room.isGroupChat, count)];
        i := i + 1;
      }
      r := Success(dtos);
    }

    /**
      `leaveGroupChatRoom`: removes the caller's row from a group room, and the room itself once
      no participant is left; messages and read-status rows stay.
    */
    method LeaveGroupChatRoom(roomId: int, callerEmail: string) returns (r: Outcome<ChatError>)
      requires Valid()
      modifies this
      ensures Valid()
      ensures roomId !in old(rooms) ==> r == Fail(RoomNotFound) && Snapshot() == old(Snapshot())
      ensures roomId in old(rooms) && LoginMembers.FindByEmail(members, callerEmail).None? ==>
                r == Fail(MemberNotFound) && Snapshot() == old(Snapshot())
      ensures roomId in old(rooms) && LoginMembers.FindByEmail(members, callerEmail).Some? &&
              old(rooms)[roomId].isGroupChat == PrivateFlag ==>
                r == Fail(NotGroupChat) && Snapshot() == old(Snapshot())
      ensures roomId in old(rooms) && LoginMembers.FindByEmail(members, callerEmail).Some? &&
              old(rooms)[roomId].isGroupChat != PrivateFlag ==>
                var leaver := ChatParticipant(roomId, LoginMembers.FindByEmail(members, callerEmail).value.id);
                && (leaver !in old(participants) ==> r == Fail(ParticipantNotFound) && Snapshot() == old(Snapshot()))
                && (leaver in old(participants) ==>
                      && r == Pass
                      && |participants| == |old(participants)| - 1
                      && (forall p :: p in participants <==> p in old(participants) && p != leaver)
                      && rooms == (if MembersOf(participants, roomId) == {} then old(rooms) - {roomId} else old(rooms))
                      && messages == old(messages) && readStatuses == old(readStatuses)
                      && nextRoomId == old(nextRoomId) && nextMessageId == old(nextMessageId))
    {
      if roomId !in rooms {
        return Fail(RoomNotFound);
      }
      var found := LoginMembers.FindByEmail(members, callerEmail);
      if found.None? {
        return Fail(MemberNotFound);
      }
      if rooms[roomId].isGroupChat == PrivateFlag {
        return Fail(NotGroupChat);
      }
      var idx := FindByChatRoomAndMember(participants, roomId, found.value.id);
      if idx.None? {
        return Fail(ParticipantNotFound);
      }
      DeleteRow(participants, idx.value);
      LeaveKeepsPrivatePairs(rooms, participants, idx.value, rooms);
      LeaveKeepsPrivatePairs(rooms, participants, idx.value, rooms - {roomId});
      participants := participants[..idx.value] + participants[idx.value + 1..];
      var remaining := FindByChatRoom(participants, roomId);
      if remaining == [] {
        assert MembersOf(participants, roomId) == {};
        rooms := rooms - {roomId};
      } else {
        assert remaining[0].memberId in MembersOf(participants, roomId);
      }
      r := Pass;
    }

    /**
      The creating half of `getOrCreatePrivateRoom`: a new "N" room named after both members,
      then both members added through `addParticipantToRoom`.
    */
    method OpenPrivateRoom(me: LoginMembers.Member, other: LoginMembers.Member) returns (id: int)
      requires Valid()
      requires FindExistingPrivateRoom(rooms, participants, me.id, other.id) == NoRoom
      modifies this
      ensures Valid()
      ensures id == old(nextRoomId) && id !in old(rooms)
      ensures rooms == old(rooms)[id := ChatRoom(me.name + "-" + other.name, PrivateFlag)]
      ensures participants == old(participants) + [ChatParticipant(id, me.id)] +
                              (if me.id != other.id then [ChatParticipant(id, other.id)] else [])
      ensures nextRoomId == old(nextRoomId) + 1
      ensures messages == old(messages) && readStatuses == old(readStatuses) && nextMessageId == old(nextMessageId)
      ensures me.id != other.id ==> FindExistingPrivateRoom(rooms, participants, me.id, other.id) == Found(id)
    {
      LookupExact(rooms, participants, me.id, other.id);
      id := nextRoomId;
      NewPrivateRoomKeepsPairsUnique(rooms, participants, id, me.name + "-" + other.name, me.id, other.id);
      rooms := rooms[id := ChatRoom(me.name + "-" + other.name, PrivateFlag)];
      nextRoomId := nextRoomId + 1;
      assert forall m :: ChatParticipant(id, m) !in participants;
      AddParticipantToRoom(id, me.id);
      AddParticipantToRoom(id, other.id);
      assert participants == old(participants) + [ChatParticipant(id, me.id)] +
                             (if me.id != other.id then [ChatParticipant(id, other.id)] else []);
    }

    /**
      `getOrCreatePrivateRoom`: the private room the caller already shares with the other member,
      or a new "N" room named after both, with both as participants.
    */
    method GetOrCreatePrivateRoom(callerEmail: string, otherMemberId: int) returns (r: Result<int, ChatError>)
      requires Valid()
      modifies this
      ensures Valid()
      ensures LoginMembers.FindByEmail(members, callerEmail).None? ==>
                r == Failure(MemberNotFound) && Snapshot() == old(Snapshot())
      ensures LoginMembers.FindByEmail(members, callerEmail).Some? && LoginMembers.FindById(members, otherMemberId).None? ==>
                r == Failure(MemberNotFound) && Snapshot() == old(Snapshot())
      ensures LoginMembers.FindByEmail(members, callerEmail).Some? && LoginMembers.FindById(members, otherMemberId).Some? ==>
                var me := LoginMembers.FindByEmail(members, callerEmail).value;
                var other := LoginMembers.FindById(members, otherMemberId).value;
                var before := old(FindExistingPrivateRoom(rooms, participants, me.id, other.id));
                && r.Success?
                && IsPrivate(rooms, r.value)
                && before != NotUnique
                && (before.Found? ==> r.value == before.roomId && Snapshot() == old(Snapshot()))
                && (before == NoRoom ==>
                      && r.value == old(nextRoomId) && r.value !in old(rooms)
                      && rooms == old(rooms)[r.value := ChatRoom(me.name + "-" + other.name, PrivateFlag)]
                      && participants == old(participants) + [ChatParticipant(r.value, me.id)] +
                                         (if me.id != other.id then [ChatParticipant(r.value, other.id)] else [])
                      && nextRoomId == old(nextRoomId) + 1
                      && messages == old(messages) && readStatuses == old(readStatuses) && nextMessageId == old(nextMessageId))
                && (me.id != other.id ==> FindExistingPrivateRoom(rooms, participants, me.id, other.id) == Found(r.value))
    {
      var foundMe := LoginMembers.FindByEmail(members, callerEmail);
      if foundMe.None? {
        return Failure(MemberNotFound);
      }
      var foundOther := LoginMembers.FindById(members, otherMemberId);
      if foundOther.None? {
        return Failure(MemberNotFound);
      }
      var me := foundMe.value;
      var other := foundOther.value;
      var look := FindExistingPrivateRoom(rooms, participants, me.id, other.id);
      LookupExact(rooms, participants, me.id, other.id);
      if look.Found? {
        return Success(look.roomId);
      }
      var id := OpenPrivateRoom(me, other);
      r := Success(id);
    }
  }

  /** `stream().anyMatch(cp -> cp.getMember().equals(member))` over a room's rows. */
  function IsMemberOf(roomPs: seq<ChatParticipant>, memberId: int): (b: bool)
    ensures b <==> exists p :: p in roomPs && p.memberId == memberId
  {
    if roomPs == [] then false
    else roomPs[|roomPs| - 1].memberId == memberId || IsMemberOf(roomPs[..|roomPs| - 1], memberId)
  }
}
