/**
  The rows of the chat tables and the data records the chat service returns.
  A room is keyed by its id in the room table, so `ChatRoom` carries only its columns.
*/
module ChatEntities {
  import opened Wrappers
  import LoginMembers

  type Member = LoginMembers.Member

  /** `isGroupChat` is the text column of the source: "Y" for a group room, "N" for a private one. */
  datatype ChatRoom = ChatRoom(name: string, isGroupChat: string)

  /** Membership of one member in one room. */
  datatype ChatParticipant = ChatParticipant(roomId: int, memberId: int)

  /** A saved message; it keeps the sender's member row, as the entity keeps a reference to it. */
  datatype ChatMessage = ChatMessage(id: int, roomId: int, sender: Member, content: string, createdTime: int)

  /** One row per (message, participant at send time). */
  datatype ReadStatus = ReadStatus(roomId: int, memberId: int, messageId: int, isRead: bool)

  /** The message frame / history entry; `roomId` is null in history entries. */
  datatype ChatMessageDto = ChatMessageDto(roomId: Option<int>, message: string, senderEmail: string)

  datatype ChatRoomListResDto = ChatRoomListResDto(roomId: int, roomName: string)

  datatype MyChatListResDto = MyChatListResDto(roomId: int, roomName: string, isGroupChat: string, unReadCount: nat)

  datatype ChatError =
      /** EntityNotFoundException "room cannot be found". */
    | RoomNotFound
      /** EntityNotFoundException "member cannot be found". */
    | MemberNotFound
      /** IllegalArgumentException: the room is a private ("N") room. */
    | NotGroupChat
      /** EntityNotFoundException: the caller has no participant row in the room. */
    | ParticipantNotFound
      /** IllegalArgumentException: history of a room the caller does not belong to. */
    | NotRoomParticipant
      /** A single-result query found more than one distinct row. */
    | NonUniqueResult

  const GroupFlag: string := "Y"
  const PrivateFlag: string := "N"

  /** A room that exists and is a private ("N") room. */
  predicate IsPrivate(rooms: map<int, ChatRoom>, roomId: int) {
    roomId in rooms && rooms[roomId].isGroupChat == PrivateFlag
  }
}
