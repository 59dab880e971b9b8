# jwt_login core in Dafny

A Dafny model of the server-side core of the jwt_login repository. It also models one front-end component, the Timer.
The model covers six parts:

- **Chat service.** The chat-room service (`ChatService`) over its four tables: rooms, participants, messages and read-status rows.
  - The repository queries it uses are modelled as functions, including the JPQL look-up of an existing one-to-one room.
  - The service is a class whose methods update the tables in place.
  - The store invariant is that at most one private ("N") room exists per pair of members.
  - Every method that changes the tables is proved to keep that invariant.
  - The look-up is proved to return exactly that shared room, or none. Hibernate's "more than one result" failure therefore never happens.
- **WebSocket handler.** `SimpleWebSocketHandler` holds its registry of sessions per room.
  - It parses the connect query the way Java's `String.split` and `Long.parseLong` do.
  - It registers a session only when it has both a room id and a token that verifies.
  - It saves each incoming message through the chat service and sends it to the open sessions of the room.
  - It unregisters a session on close, and never leaves an empty room set behind.
- **E-mail verification.** `EmailVerificationService`:
  - A six-digit zero-padded code is drawn from `[0, 999999)`.
  - A check accepts a code only against the newest record of the e-mail, only if that record is unused, and only within 180 seconds of its creation.
  - A code is accepted at most once.
- **JWT filter.** `JwtTokenFilter`:
  - The `Authorization` header must start with the exact "Bearer " scheme of section 2.1 of RFC 6750.
  - The authority it installs is "ROLE_" followed by the role claim.
  - Every failure gives 401 "invalid token", including an exception thrown further down the chain.
- **Upload naming.** `FileController.getUploadUrl`:
  - The extension is taken from the last dot, and only when that dot is not the first character.
  - The storage name is the path, then the UUID, then the extension, so it keeps the file's type.
- **Member services.** The two `MemberServiceImpl` services, login and shopit:
  - Sign-up checks for a duplicate e-mail first, then a duplicate phone number.
  - Login fails on an unknown e-mail, then on a password mismatch.
  - Member look-ups by e-mail, id and social id.
  - `createOauth` checks only the e-mail, so two members can share a social account. The look-up by social account then fails as a query with more than one result.
  - A member's creation time is the `now` of its save, and `getMemberInfoByEmail` returns it.
- **Timer component.** The front-end `Timer`:
  - `formatTime` follows JavaScript's `String`, `%` and `padStart`.
  - The count goes down by one per tick, stops at zero and calls `onTimeout` there.
  - The count is reset while inactive, and drawn in the danger colour at or below `colorChangeSec`.

Some values come from outside the program. They are parameters of the model:

- The logged-in user (Spring's security context): a `callerEmail` parameter.
- The clock: `now`, in whole seconds.
- `Random` and `UUID.randomUUID`: a draw and a uuid.
- The password encoder: `encode` and `matches` functions.
- JWT signature verification and JSON decoding: oracle functions.

Modules:

| module | models |
|---|---|
| `Wrappers` | Option and Result |
| `Decimal` | decimal digit strings |
| `JavaText` | `startsWith`, `split` and `Long.parseLong` |
| `LoginMembers`, `ShopitMembers` | the member services |
| `ChatEntities` | the chat entities |
| `ChatParticipantRepository` | the participant queries |
| `ChatQueries` | the room, message and read-status queries |
| `Chat` | the chat service |
| `WebSocket` | the handler |
| `Verification` | e-mail codes |
| `JwtFilter` | the filter |
| `FileNaming` | upload names |
| `Timer` | the component |

`EmailVerificationService` calls `setData` and `changeVerified`, but the `EmailVerification` entity does not declare them. The model treats them as the evident setters.

`getOrCreatePrivateRoom` with the caller's own id finds no room, because the query needs two distinct members. Each such call therefore creates a new one-member room. The model keeps this behaviour: `Chat.ChatService.GetOrCreatePrivateRoom` promises a repeated call returns the same room only for two distinct members.

## Model

| member | source | states |
|---|---|---|
| Decimal.NatToStringValue | front/src/components/Timer.jsx:30-31 | the decimal text of n reads back as n |
| Decimal.PaddedValue | front/src/components/Timer.jsx:30-31 | padding a number's text with leading '0's keeps it all digits and keeps its value |
| Decimal.LeadingZerosValue | back/src/main/java/com/kh/login/service/EmailVerificationService.java:21 | leading zeros do not change a digit string's value |
| Decimal.ZerosValue | back/src/main/java/com/kh/login/service/EmailVerificationService.java:21 | a run of '0's is all digits and has value 0 |
| Decimal.DigitCharValue | back/src/main/java/com/kh/login/service/EmailVerificationService.java:21 | a digit's character reads back as the digit |
| Decimal.NatToStringLength | back/src/main/java/com/kh/login/service/EmailVerificationService.java:21 | a number below 10^k has at most k digits |
| Decimal.PadStart | front/src/components/Timer.jsx:30-31 | `padStart`: the result has length max(|s|, width), ends with s, and is filled with the pad character before it |
| Decimal.Repeat | front/src/components/Timer.jsx:30-31 | k copies of one character |
| Decimal.NatToString | front/src/components/Timer.jsx:30-31 | the text is non-empty, all digits, and has no leading zero unless n is 0 |
| JavaText.StartsWith | back/src/main/java/com/kh/login/config/SimpleWebSocketHandler.java:47-49 | `startsWith`: the text begins with the prefix (definition) |
| JavaText.SplitAll | back/src/main/java/com/kh/login/config/SimpleWebSocketHandler.java:45 | the pieces between separators: at least one, none containing the separator |
| JavaText.JoinSplitAll | back/src/main/java/com/kh/login/config/SimpleWebSocketHandler.java:45 | joining the pieces with the separator gives back the text |
| JavaText.NoSeparatorOnePiece | back/src/main/java/com/kh/login/config/SimpleWebSocketHandler.java:45 | a text without the separator splits into itself alone |
| JavaText.DropTrailingEmpty | back/src/main/java/com/kh/login/config/SimpleWebSocketHandler.java:45 | Java drops exactly the trailing empty pieces: a prefix whose last piece is non-empty, and only "" after it |
| JavaText.JavaSplit | back/src/main/java/com/kh/login/config/SimpleWebSocketHandler.java:45 | `split("&")`: the full split without its trailing empty pieces (definition; JavaSplitIsPrefix states its shape) |
| JavaText.JavaSplitIsPrefix | back/src/main/java/com/kh/login/config/SimpleWebSocketHandler.java:45 | `split` gives a prefix of the full split, and everything cut off is "" |
| JavaText.SignedValue | back/src/main/java/com/kh/login/config/SimpleWebSocketHandler.java:48 | the value of an optional sign followed by digits (definition) |
| JavaText.ParseLong | back/src/main/java/com/kh/login/config/SimpleWebSocketHandler.java:48 | `Long.parseLong`: parses exactly when the text after an optional sign is a non-empty run of digits whose signed value is in the 64-bit range, and then gives that value; otherwise NumberFormatException (None) |
| JavaText.ParseLongAccepts | back/src/main/java/com/kh/login/config/SimpleWebSocketHandler.java:48 | "+5", "007" and "-12" parse to 5, 7 and -12 |
| JavaText.ParseLongRejects | back/src/main/java/com/kh/login/config/SimpleWebSocketHandler.java:48 | "", "-" and "1a" throw NumberFormatException |
| JavaText.ParseLongToString | back/src/main/java/com/kh/login/config/SimpleWebSocketHandler.java:48 | every 64-bit value's decimal text parses back to it |
| JavaText.LongToString | back/src/main/java/com/kh/login/config/SimpleWebSocketHandler.java:48 | the decimal text of a room id as `Long.toString` prints it (definition; ParseLongToString parses it back) |
| LoginMembers.FindByEmail | back/src/main/java/com/kh/login/repository/MemberRepository.java:9 | the member with that e-mail, and None exactly when no member has it |
| LoginMembers.FindById | back/src/main/java/com/kh/login/service/ChatService.java:287-288 | the member with that id, and None exactly when no member has it |
| LoginMembers.Login | back/src/main/java/com/kh/login/service/MemberServiceImpl.java:51-62 | success gives a stored member with the e-mail whose password matches; an unknown e-mail fails with UnknownEmail, and only then; every failure is InvalidCredentials |
| LoginMembers.LoginSucceedsIff | back/src/main/java/com/kh/login/service/MemberServiceImpl.java:51-62 | with unique e-mails, login succeeds exactly when a member with the e-mail has a matching password |
| LoginMembers.GetMemberInfoByEmail | back/src/main/java/com/kh/login/service/MemberServiceImpl.java:64-69 | fails with UserNotFound exactly when no member has the e-mail, else the response built from a stored member with that e-mail |
| LoginMembers.ResponseOf | back/src/main/java/com/kh/login/dto/member/MemberResponseDto.java:23-32 | `MemberResponseDto.from`: id, name, e-mail, phone number, role and creation time of the member (definition; read back by CreateThenGetInfo) |
| LoginMembers.CreateThenGetInfo | back/src/main/java/com/kh/login/service/MemberServiceImpl.java:64-69 | a member just saved with a new e-mail reads back with all six fields, its creation time included |
| LoginMembers.HasSocial | back/src/main/java/com/kh/login/repository/MemberRepository.java:11 | the `socialId = ? AND socialType = ?` condition (definition) |
| LoginMembers.GetMemberBySocialId | back/src/main/java/com/kh/login/service/MemberServiceImpl.java:71-75 | no matching row gives None (null); exactly one gives that member; two or more rows fail with IncorrectResultSize, exactly when two members share the social account |
| LoginMembers.CreateOauthThenFind | back/src/main/java/com/kh/login/service/MemberServiceImpl.java:71-89 | when the look-up found nobody, the member `createOauth` then saves is the one the next look-up returns |
| LoginMembers.ExistsByEmail | back/src/main/java/com/kh/login/repository/MemberRepository.java:12 | `existsByEmail`: some row has the e-mail (definition; FindByEmail is None exactly when it is false) |
| LoginMembers.ExistsByPhoneNumber | back/src/main/java/com/kh/login/repository/MemberRepository.java:13 | `existsByPhoneNumber`: some row has the phone number, a null argument matching rows without one (definition) |
| LoginMembers.MemberServiceImpl.constructor | back/src/main/java/com/kh/login/service/MemberServiceImpl.java:25-28 | an empty member table that satisfies the invariant |
| LoginMembers.MemberServiceImpl.Create | back/src/main/java/com/kh/login/service/MemberServiceImpl.java:30-49 | a duplicate e-mail is refused first, then a duplicate phone number, and nothing is saved; otherwise a USER member with the encoded password, created `now`, is appended with the next id; unique e-mails, ids and phone numbers are kept |
| LoginMembers.MemberServiceImpl.CreateOauth | back/src/main/java/com/kh/login/service/MemberServiceImpl.java:77-89 | a social member with an empty password and no phone, created `now`, is appended; an existing e-mail breaks the unique column, and nothing is saved |
| LoginMembers.CreateThenLogin | back/src/main/java/com/kh/login/service/MemberServiceImpl.java:30-62 | a member just signed up logs in with the password it gave |
| LoginMembers.FindByEmailAppend | back/src/main/java/com/kh/login/service/MemberServiceImpl.java:47 | a saved member with a new e-mail is found by it |
| ShopitMembers.FindByEmail | back/src/main/java/com/kh/shopit/repository/MemberRepository.java:8 | the member with that e-mail, and None exactly when no member has it |
| ShopitMembers.ExistsByEmail | back/src/main/java/com/kh/shopit/repository/MemberRepository.java:10 | `existsByEmail`: some row has the e-mail (definition; FindByEmail is None exactly when it is false) |
| ShopitMembers.ExistsByPhoneNumber | back/src/main/java/com/kh/shopit/repository/MemberRepository.java:11 | `existsByPhoneNumber`: some row has the phone number, a null argument matching rows without one (definition) |
| ShopitMembers.Login | back/src/main/java/com/kh/shopit/service/MemberServiceImpl.java:49-60 | success gives a stored member with the e-mail whose password matches; an unknown e-mail fails with UnknownEmail, and only then |
| ShopitMembers.LoginFailsIff | back/src/main/java/com/kh/shopit/service/MemberServiceImpl.java:49-60 | with unique e-mails, login fails on the password exactly when the member with the e-mail has a non-matching password |
| ShopitMembers.GetMemberInfo | back/src/main/java/com/kh/shopit/service/MemberServiceImpl.java:62-67 | fails with UserNotFound exactly when no member has the id, else ResponseOf that member |
| ShopitMembers.ResponseOf | back/src/main/java/com/kh/shopit/service/MemberServiceImpl.java:66 | `MemberResponseDto.from`: id, name, e-mail, phone number, role and creation time of the member (definition; read back by SaveThenGetInfo) |
| ShopitMembers.SaveThenGetInfo | back/src/main/java/com/kh/shopit/service/MemberServiceImpl.java:62-67 | a member saved with an id no stored member has is found by `getMemberInfo` with every field |
| ShopitMembers.MemberServiceImpl.constructor | back/src/main/java/com/kh/shopit/service/MemberServiceImpl.java:23-26 | an empty member table that satisfies the invariant |
| ShopitMembers.MemberServiceImpl.Create | back/src/main/java/com/kh/shopit/service/MemberServiceImpl.java:28-47 | a duplicate e-mail is refused first, then a duplicate phone number, and nothing is saved; otherwise the member with the encoded password, role USER and creation time `now` is appended with the next id |
| ChatParticipantRepository.FindByChatRoom | back/src/main/java/com/kh/login/repository/chat/ChatParticipantRepository.java:16 | exactly the rows of the room, never more rows than the table has |
| ChatParticipantRepository.FindAllByMember | back/src/main/java/com/kh/login/repository/chat/ChatParticipantRepository.java:18 | exactly the rows of the member |
| ChatParticipantRepository.FindByChatRoomAndMember | back/src/main/java/com/kh/login/repository/chat/ChatParticipantRepository.java:17 | the position of the (room, member) row, and None exactly when there is no such row |
| ChatParticipantRepository.AtMostOneRowPerPair | back/src/main/java/com/kh/login/repository/chat/ChatParticipantRepository.java:17 | with unique pairs a (room, member) row occurs at most once, so the Optional result is well defined |
| ChatParticipantRepository.DeleteRow | back/src/main/java/com/kh/login/service/ChatService.java:269 | deleting one row keeps pairs unique, removes exactly that row, and shortens the table by one |
| ChatParticipantRepository.MembersOf | back/src/main/java/com/kh/login/repository/chat/ChatParticipantRepository.java:16 | a member is in the set exactly when it has a row in the room |
| ChatParticipantRepository.RoomRowsAreMembers | back/src/main/java/com/kh/login/repository/chat/ChatParticipantRepository.java:16 | with unique pairs, a room has as many rows as members |
| ChatParticipantRepository.UniquePairsSplit | back/src/main/java/com/kh/login/repository/chat/ChatParticipantRepository.java:16 | the rows before the last have unique pairs, and the last row is not among them |
| ChatParticipantRepository.MembersOfAppend | back/src/main/java/com/kh/login/service/ChatService.java:147-157 | appending a row adds its member to its own room only |
| ChatParticipantRepository.InPairSubqueryIff | back/src/main/java/com/kh/login/repository/chat/ChatParticipantRepository.java:20 | `HAVING COUNT(DISTINCT member) = 2` over the two ids holds exactly when they differ and both have a row in the room |
| ChatParticipantRepository.PrivateRoomRows | back/src/main/java/com/kh/login/repository/chat/ChatParticipantRepository.java:20 | the JPQL result rows: a room appears exactly when it is "N", passes the subquery and has a participant row |
| ChatParticipantRepository.UniqueRoom | back/src/main/java/com/kh/login/repository/chat/ChatParticipantRepository.java:21 | an Optional result: empty for no rows, the room when every row is the same room, and non-unique exactly when two rows differ |
| ChatParticipantRepository.FindExistingPrivateRoom | back/src/main/java/com/kh/login/repository/chat/ChatParticipantRepository.java:20-21 | the JPQL result rows reduced by the single-result rule of an `Optional` query (definition; LookupExact and FoundIsPrivatePair state its meaning) |
| ChatParticipantRepository.FoundIsPrivatePair | back/src/main/java/com/kh/login/repository/chat/ChatParticipantRepository.java:20-21 | a found room is private and holds both, distinct, members |
| ChatParticipantRepository.LookupSymmetric | back/src/main/java/com/kh/login/repository/chat/ChatParticipantRepository.java:20-21 | the look-up gives the same answer with the two members swapped |
| ChatParticipantRepository.RowsSymmetric | back/src/main/java/com/kh/login/repository/chat/ChatParticipantRepository.java:20 | the result rows are the same with the two members swapped |
| ChatParticipantRepository.SelfPairFindsNothing | back/src/main/java/com/kh/login/repository/chat/ChatParticipantRepository.java:20 | a member paired with itself never finds a room |
| ChatParticipantRepository.LookupExact | back/src/main/java/com/kh/login/repository/chat/ChatParticipantRepository.java:20-21 | with at most one private room per pair, the look-up never fails; it finds a room exactly when that room is private and holds both members, and it finds none exactly when no such room exists |
| ChatParticipantRepository.PrivatePairsFrame | back/src/main/java/com/kh/login/service/ChatService.java:256-276 | the one-room-per-pair rule survives any change that adds no private room and keeps every private room's members |
| ChatParticipantRepository.LeaveKeepsPrivatePairs | back/src/main/java/com/kh/login/service/ChatService.java:263-275 | removing a row of a group room, and possibly that room, keeps the one-room-per-pair rule |
| ChatQueries.FindByIsGroupChat | back/src/main/java/com/kh/login/repository/chat/ChatRoomRepository.java:10 | exactly the room ids with the flag, in strictly ascending order |
| ChatQueries.MessagesOf | back/src/main/java/com/kh/login/service/ChatService.java:181 | exactly the messages of the room, drawn from the table |
| ChatQueries.InsertByTimeElements | back/src/main/java/com/kh/login/service/ChatService.java:181 | inserting a message adds it once and drops nothing |
| ChatQueries.InsertByTimeSorted | back/src/main/java/com/kh/login/service/ChatService.java:181 | inserting into a time-sorted list keeps it sorted |
| ChatQueries.NotNewerThanLast | back/src/main/java/com/kh/login/service/ChatService.java:181 | inserting an older message into the sorted prefix puts nothing after the last message's time |
| ChatQueries.OrderByCreatedTime | back/src/main/java/com/kh/login/service/ChatService.java:181 | `ORDER BY createdTime ASC` as an insertion sort (definition; OrderByCreatedTimeCorrect states it sorts and permutes) |
| ChatQueries.OrderByCreatedTimeCorrect | back/src/main/java/com/kh/login/service/ChatService.java:181 | `ORDER BY createdTime ASC`: sorted by time, and a permutation of its input |
| ChatQueries.FindByChatRoomOrderByCreatedTimeAsc | back/src/main/java/com/kh/login/service/ChatService.java:181 | the room's messages, each exactly once, oldest first |
| ChatQueries.CountForMessageAppend | back/src/main/java/com/kh/login/service/ChatService.java:61-69 | the number of rows for a message adds up over concatenated tables |
| ChatQueries.CountForMessageExtremes | back/src/main/java/com/kh/login/service/ChatService.java:61-69 | all rows for the message count in full; no rows for it count zero |
| ChatQueries.CountForNewMessage | back/src/main/java/com/kh/login/service/ChatService.java:61-69 | after appending the rows of a new message, it has exactly those rows |
| ChatQueries.UnreadCount | back/src/main/java/com/kh/login/repository/chat/ReadStatusRepository.java:13 | `countByChatRoomAndMemberAndIsReadFalse` (definition; UnreadCountZeroIff and UnreadCountFrame state its meaning) |
| ChatQueries.UnreadCountZeroIff | back/src/main/java/com/kh/login/repository/chat/ReadStatusRepository.java:13 | `countBy...IsReadFalse` is 0 exactly when every row of (room, member) is read |
| ChatQueries.UnreadCountFrame | back/src/main/java/com/kh/login/repository/chat/ReadStatusRepository.java:13 | the unread count of (room, member) depends only on that pair's rows |
| Chat.MarkRead | back/src/main/java/com/kh/login/service/ChatService.java:219-222 | only a row of (room, member) becomes read; ids are unchanged and a read row stays read |
| Chat.ReadRowsFor | back/src/main/java/com/kh/login/service/ChatService.java:61-69 | one read-status row per participant row |
| Chat.ReadRowsForAt | back/src/main/java/com/kh/login/service/ChatService.java:61-69 | row k belongs to participant row k's room and member and to the message, and is read exactly for the sender |
| Chat.MessageIdsBelow | back/src/main/java/com/kh/login/service/ChatService.java:55-69 | rows of a message with a fresh id keep every row's message id below the next id |
| Chat.ReadRowsCoverRoom | back/src/main/java/com/kh/login/service/ChatService.java:60-69 | the rows cover each member of the room exactly once: as many rows as members, and a row for a member exactly when the member is in the room |
| Chat.ReadRowsMembers | back/src/main/java/com/kh/login/service/ChatService.java:61-69 | the rows name exactly the members of the given participant rows |
| Chat.ReadRowsShape | back/src/main/java/com/kh/login/service/ChatService.java:61-69 | every new row has the room and the message, and only the sender's row is read |
| Chat.NewPrivateRoomKeepsPairsUnique | back/src/main/java/com/kh/login/service/ChatService.java:295-306 | a fresh private room for a pair without one keeps the one-room-per-pair rule, and the look-up then finds it |
| Chat.IsMemberOf | back/src/main/java/com/kh/login/service/ChatService.java:174-175 | `anyMatch`: true exactly when a row of the member is among the room's rows |
| Chat.ChatService.constructor | back/src/main/java/com/kh/login/service/ChatService.java:28-36 | empty tables, ids starting at 1, and the store invariant holds |
| Chat.ChatService.SaveMessage | back/src/main/java/com/kh/login/service/ChatService.java:42-70 | an unknown room is refused first, then an unknown sender, and nothing changes; otherwise the message is appended with the next id and the time, with one read-status row per room participant, read only for the sender, so the message has exactly as many rows as the room has members; nothing else changes and the invariant holds |
| Chat.ChatService.AddReadStatuses | back/src/main/java/com/kh/login/service/ChatService.java:61-69 | the loop appends the rows for the given participants in order and changes no other table |
| Chat.ChatService.CreateGroupRoom | back/src/main/java/com/kh/login/service/ChatService.java:77-95 | an unknown caller changes nothing; otherwise a new "Y" room under a fresh id whose only member is the caller |
| Chat.ChatService.GetGroupchatRooms | back/src/main/java/com/kh/login/service/ChatService.java:101-114 | (id, name) of exactly the "Y" rooms, ascending by id |
| Chat.ChatService.AddParticipantToRoom | back/src/main/java/com/kh/login/service/ChatService.java:147-157 | adds the (room, member) row unless it is there already; keeps referential integrity |
| Chat.ChatService.AddParticipantToGroupChat | back/src/main/java/com/kh/login/service/ChatService.java:121-140 | unknown room, then unknown caller, then a private room are refused without change; otherwise the caller is a participant afterwards, added once; the invariant holds |
| Chat.ChatService.GetChatHistory | back/src/main/java/com/kh/login/service/ChatService.java:164-192 | unknown room, then unknown caller, then a non-participant are refused; otherwise (content, sender e-mail) of the room's messages, oldest first |
| Chat.ChatService.IsRoomParticipant | back/src/main/java/com/kh/login/service/ChatService.java:197-206 | unknown room, then unknown member are refused; otherwise whether the member has a row in the room |
| Chat.ChatService.MessageRead | back/src/main/java/com/kh/login/service/ChatService.java:212-223 | unknown room, then unknown caller change nothing; otherwise every row of (room, caller) is read, so its unread count is 0, and no other row or table changes |
| Chat.ChatService.GetMyChatRooms | back/src/main/java/com/kh/login/service/ChatService.java:230-249 | an unknown caller is refused; otherwise one entry per row of the caller, with the room's id, name and kind and the caller's unread count there |
| Chat.ChatService.LeaveGroupChatRoom | back/src/main/java/com/kh/login/service/ChatService.java:256-276 | unknown room, unknown caller, a private room, then a non-participant are refused without change; otherwise exactly the caller's row goes, the room goes once it has no member, messages and read rows stay, and the invariant holds |
| Chat.ChatService.OpenPrivateRoom | back/src/main/java/com/kh/login/service/ChatService.java:295-306 | a new "N" room named "me-other" under a fresh id, with both members added; the look-up then finds it for two distinct members |
| Chat.ChatService.GetOrCreatePrivateRoom | back/src/main/java/com/kh/login/service/ChatService.java:283-307 | unknown caller or other member change nothing; otherwise the look-up never fails, an existing shared room is returned unchanged, or a new private room is made; for distinct members the look-up afterwards finds the returned room, so a repeated call returns it |
| WebSocket.ScanFailureSticks | back/src/main/java/com/kh/login/config/SimpleWebSocketHandler.java:46-52 | once `parseLong` has thrown, later parameters do not matter |
| WebSocket.ScanFailureIff | back/src/main/java/com/kh/login/config/SimpleWebSocketHandler.java:46-52 | the parse fails exactly when some roomId parameter is not a long, and then with InvalidRoomId |
| WebSocket.ParamKindsDisjoint | back/src/main/java/com/kh/login/config/SimpleWebSocketHandler.java:47-50 | no parameter is both a roomId and a token |
| WebSocket.ScanParams | back/src/main/java/com/kh/login/config/SimpleWebSocketHandler.java:46-52 | the parse loop over the parameters as a fold (definition; the Scan lemmas state its meaning) |
| WebSocket.IsRoomIdParam | back/src/main/java/com/kh/login/config/SimpleWebSocketHandler.java:47 | the `startsWith("roomId=")` test (definition; ParamKindsDisjoint) |
| WebSocket.IsTokenParam | back/src/main/java/com/kh/login/config/SimpleWebSocketHandler.java:49 | the `startsWith("token=")` test (definition; ParamKindsDisjoint) |
| WebSocket.ApplyParam | back/src/main/java/com/kh/login/config/SimpleWebSocketHandler.java:47-51 | one pass of the loop: fails with InvalidRoomId exactly on a roomId parameter whose value is not a long; a parameter of neither kind changes nothing |
| WebSocket.ParseQueryText | back/src/main/java/com/kh/login/config/SimpleWebSocketHandler.java:41-53 | a null query gives neither parameter; otherwise the scan of the `split` pieces (definition) |
| WebSocket.LastWithPrefix | back/src/main/java/com/kh/login/config/SimpleWebSocketHandler.java:46-52 | the last parameter with a prefix, and None exactly when none has it |
| WebSocket.ScanTokenIsLast | back/src/main/java/com/kh/login/config/SimpleWebSocketHandler.java:49-50 | the token is the text after "token=" of the last token parameter, or absent |
| WebSocket.ScanRoomIdIsLast | back/src/main/java/com/kh/login/config/SimpleWebSocketHandler.java:47-48 | the room id is the parse of the last roomId parameter, or absent |
| WebSocket.ScanStep | back/src/main/java/com/kh/login/config/SimpleWebSocketHandler.java:46-52 | one more parameter extends the scan by one step of the loop |
| WebSocket.ParseQuery | back/src/main/java/com/kh/login/config/SimpleWebSocketHandler.java:41-53 | the loop computes the query's parse |
| WebSocket.Register | back/src/main/java/com/kh/login/config/SimpleWebSocketHandler.java:68 | `computeIfAbsent(...).add`: the room's set gains the session, created if absent; other rooms are untouched |
| WebSocket.Unregister | back/src/main/java/com/kh/login/config/SimpleWebSocketHandler.java:91-99 | the room's set loses the session and is removed when empty; other rooms are untouched |
| WebSocket.RegistryUpdatesKeepNoEmptyRoom | back/src/main/java/com/kh/login/config/SimpleWebSocketHandler.java:67-99 | neither update leaves an empty set in the registry |
| WebSocket.RegisterIdempotent | back/src/main/java/com/kh/login/config/SimpleWebSocketHandler.java:68 | registering a session twice is the same as once |
| WebSocket.UnregisterUndoesRegister | back/src/main/java/com/kh/login/config/SimpleWebSocketHandler.java:67-99 | closing a newly registered session restores the registry |
| WebSocket.WsSession.constructor | back/src/main/java/com/kh/login/config/SimpleWebSocketHandler.java:39 | a new session is open, with no room attribute and nothing sent |
| WebSocket.WsSession.Close | back/src/main/java/com/kh/login/config/SimpleWebSocketHandler.java:55 | the session is closed; nothing else changes |
| WebSocket.WsSession.Send | back/src/main/java/com/kh/login/config/SimpleWebSocketHandler.java:83 | one frame is appended to what the session sent |
| WebSocket.Broadcast | back/src/main/java/com/kh/login/config/SimpleWebSocketHandler.java:79-86 | each open target gets the payload once; closed targets get nothing |
| WebSocket.SimpleWebSocketHandler.constructor | back/src/main/java/com/kh/login/config/SimpleWebSocketHandler.java:25-36 | an empty registry over the given chat service |
| WebSocket.SimpleWebSocketHandler.SessionsOf | back/src/main/java/com/kh/login/config/SimpleWebSocketHandler.java:79 | the room's sessions, or none |
| WebSocket.SimpleWebSocketHandler.AfterConnectionEstablished | back/src/main/java/com/kh/login/config/SimpleWebSocketHandler.java:39-70 | a bad roomId fails with nothing changed; a missing room id or token, or a token that does not verify, closes the session; otherwise the session gets the room attribute and is registered under the room |
| WebSocket.SimpleWebSocketHandler.Audience | back/src/main/java/com/kh/login/config/SimpleWebSocketHandler.java:78-79 | the sessions registered under the frame's room, none for an undecodable frame or a null room id (definition) |
| WebSocket.SimpleWebSocketHandler.HandleTextMessage | back/src/main/java/com/kh/login/config/SimpleWebSocketHandler.java:73-87 | an undecodable payload, a null room id or a failing save leaves the tables and the registry as they were and sends nothing; a save succeeds exactly for a known room and sender, and then, as `saveMessage` promises, the message is appended with the sender and `now`, one read-status row per room participant is added, rooms and participants are unchanged, and every open session of the room gets the payload |
| WebSocket.SimpleWebSocketHandler.AfterConnectionClosed | back/src/main/java/com/kh/login/config/SimpleWebSocketHandler.java:90-100 | a session with a room attribute is unregistered from it; otherwise nothing changes |
| Verification.Code | back/src/main/java/com/kh/login/service/EmailVerificationService.java:21 | `%06d`: six digits that read back as the draw |
| Verification.SixDigitBound | back/src/main/java/com/kh/login/service/EmailVerificationService.java:21 | 10^6 is 1000000, the bound the six digits can hold |
| Verification.CodeInjective | back/src/main/java/com/kh/login/service/EmailVerificationService.java:21 | different draws give different codes |
| Verification.Latest | back/src/main/java/com/kh/login/service/EmailVerificationService.java:36 | a record of the e-mail no older than any other of it, and None exactly when the e-mail has no record |
| Verification.LatestIgnoresVerified | back/src/main/java/com/kh/login/service/EmailVerificationService.java:36 | the newest record does not depend on the verified flags |
| Verification.Accepted | back/src/main/java/com/kh/login/service/EmailVerificationService.java:36-43 | the three conditions on the newest record (definition; AcceptedMeaning states it over the table) |
| Verification.AcceptedMeaning | back/src/main/java/com/kh/login/service/EmailVerificationService.java:35-49 | an accepted code is an unused record of the e-mail, created less than 180 s ago, that no record of the e-mail is newer than; an e-mail without records is never accepted |
| Verification.MarkLatestVerified | back/src/main/java/com/kh/login/service/EmailVerificationService.java:44-45 | only the newest record is changed, and only its flag, which becomes verified |
| Verification.VerifyIsOneShot | back/src/main/java/com/kh/login/service/EmailVerificationService.java:41-46 | after an accepted check, no code is accepted for the e-mail at any time |
| Verification.SavedRecordIsLatest | back/src/main/java/com/kh/login/service/EmailVerificationService.java:24-25 | with a clock that does not run backwards, a saved record is its e-mail's newest |
| Verification.SendThenVerify | back/src/main/java/com/kh/login/service/EmailVerificationService.java:20-49 | after sending, a check is accepted exactly for the sent code within 180 s |
| Verification.EmailVerificationService.constructor | back/src/main/java/com/kh/login/service/EmailVerificationService.java:15-18 | an empty verification table |
| Verification.EmailVerificationService.SendVerificationCode | back/src/main/java/com/kh/login/service/EmailVerificationService.java:20-25 | the code of the draw is returned, and an unused record of it is saved at `now` |
| Verification.EmailVerificationService.VerifyCode | back/src/main/java/com/kh/login/service/EmailVerificationService.java:35-49 | the answer is whether the newest record accepts the code; on success exactly that record becomes verified, otherwise nothing changes |
| JwtFilter.BearerToken | back/src/main/java/com/kh/login/auth/JwtTokenFilter.java:61-66 | a token exactly when the header starts with "Bearer ", and the header is "Bearer " + token |
| JwtFilter.BearerTokenRoundTrip | back/src/main/java/com/kh/login/auth/JwtTokenFilter.java:61-66 | a token sent as "Bearer " + t is read back as t |
| JwtFilter.BearerSchemeIsExact | back/src/main/java/com/kh/login/auth/JwtTokenFilter.java:61 | "bearer " and a bare "Bearer" are refused |
| JwtFilter.Authority | back/src/main/java/com/kh/login/auth/JwtTokenFilter.java:76-77 | "ROLE_" followed by the role, or "null" when the claim is missing |
| JwtFilter.UsableSubject | back/src/main/java/com/kh/login/auth/JwtTokenFilter.java:80 | `new User(subject, ...)` accepts only a present, non-empty subject (definition; Decide authenticates only with one) |
| JwtFilter.Decide | back/src/main/java/com/kh/login/auth/JwtTokenFilter.java:56-86 | anonymous exactly without a header; authenticated exactly when the scheme, the signature and a non-empty subject all hold, with that subject, the token and the one authority; otherwise rejected |
| JwtFilter.PresentHeaderAuthenticatesOrRejects | back/src/main/java/com/kh/login/auth/JwtTokenFilter.java:59-66 | a present header never passes unauthenticated, and one shorter than the scheme is rejected |
| JwtFilter.FilterExchange.constructor | back/src/main/java/com/kh/login/auth/JwtTokenFilter.java:52-53 | a request with no authentication and an untouched response |
| JwtFilter.FilterExchange.DoFilter | back/src/main/java/com/kh/login/auth/JwtTokenFilter.java:56-98 | the authentication is installed when authenticated; the chain runs unless rejected; a rejection or a throwing chain gives 401, JSON and "invalid token"; otherwise the response is untouched |
| FileNaming.LastIndexOf | back/src/main/java/com/kh/login/controller/FileController.java:25 | the last position of the character, with none after it, or -1 |
| FileNaming.LastIndexOfAppend | back/src/main/java/com/kh/login/controller/FileController.java:25 | a character in the tail has its last position in the tail |
| FileNaming.Extension | back/src/main/java/com/kh/login/controller/FileController.java:23-28 | the text from the last '.' when that '.' is past the first character, else "" (definition; ExtensionShape states its meaning) |
| FileNaming.ExtensionShape | back/src/main/java/com/kh/login/controller/FileController.java:24-28 | the extension is a proper suffix starting with its only '.', and it is empty exactly when no '.' follows the first character |
| FileNaming.ExtensionExamples | back/src/main/java/com/kh/login/controller/FileController.java:24-28 | ".bashrc" and "noext" have no extension; "a.tar.gz" has ".gz" |
| FileNaming.ChangeName | back/src/main/java/com/kh/login/controller/FileController.java:31 | the path, then the uuid, then the extension, each at its position |
| FileNaming.ChangeNameKeepsExtension | back/src/main/java/com/kh/login/controller/FileController.java:24-31 | the storage name has the same extension as the file name |
| FileNaming.UploadInfo | back/src/main/java/com/kh/login/controller/FileController.java:20-35 | the saved row keeps the original name and content type; its storage name starts with the path ("" when absent) and ends with the extension |
| Timer.JsRem | front/src/components/Timer.jsx:31 | JavaScript `%`: strictly between -b and b, and the Euclidean remainder for a >= 0 |
| Timer.IntToString | front/src/components/Timer.jsx:30-31 | JavaScript `String(n)`: non-empty, with a leading '-' exactly for a negative n |
| Timer.FormatTime | front/src/components/Timer.jsx:29-33 | `formatTime` (definition; FormatTimeReadsBack states its meaning) |
| Timer.FormatTimeReadsBack | front/src/components/Timer.jsx:29-33 | for a non-negative count the text is at least two minute digits, ':' and two second digits, reading back as floor(sec/60) and sec%60 |
| Timer.FormatTimeNonNegative | front/src/components/Timer.jsx:29-33 | for a non-negative count neither part has a sign |
| Timer.ColonSplit | front/src/components/Timer.jsx:32 | "mm:ss" splits back at the colon |
| Timer.SixtyHasTwoDigits | front/src/components/Timer.jsx:31 | seconds below 60 take at most two digits |
| Timer.FormatTimeThreeMinutes | front/src/components/Timer.jsx:12 | the default 180 seconds shows as "03:00" |
| Timer.FormatTimeNegative | front/src/components/Timer.jsx:29-33 | -5 shows as "-1:-5" |
| Timer.TimerState.constructor | front/src/components/Timer.jsx:13 | the count starts at `seconds`, with no timeout called |
| Timer.TimerState.Tick | front/src/components/Timer.jsx:16-23 | active and positive: down by one; active at zero: onTimeout is called when given and the count stays 0; otherwise nothing changes; a non-negative count stays non-negative, and an active tick from it is one step of CountDown |
| Timer.TimerState.SyncInactive | front/src/components/Timer.jsx:25-27 | inactive resets the count to `seconds`; active leaves it |
| Timer.TimerState.Danger | front/src/components/Timer.jsx:36 | the danger colour: the count is at or below `colorChangeSec` (definition) |
| Timer.TimerState.Display | front/src/components/Timer.jsx:37 | the text shown is `formatTime(time)` (definition; FormatTimeReadsBack) |
| Timer.CountDown | front/src/components/Timer.jsx:16-23 | k active ticks from t (definition; CountDownValue gives its closed form and Tick is one step of it) |
| Timer.CountDownValue | front/src/components/Timer.jsx:16-23 | after k ticks from t the count is t - k, or 0 once k reaches t |
| Timer.DangerStaysOn | front/src/components/Timer.jsx:36 | once in the danger colour, every later count stays in it |

## Left out

- Concurrency, transactions, and JPA's flush and dirty checking. Each method runs alone and its effect is immediate.
- The security context. The logged-in user's e-mail is a parameter.
- JWT parsing and signature checking. They are an oracle from token text to claims, or to a yes/no in the WebSocket handler.
- JSON (de)serialisation. It is an oracle from payload to DTO.
- Mail sending, S3 presigned URLs, and saving the file row. These are external calls with no observable result in the core.
- Logging (`System.out.println`, `printStackTrace`).
- JavaText.ParseLong: `Long.parseLong` also accepts non-ASCII Unicode digits; the model accepts ASCII '0'-'9' only.
- WebSocket.SimpleWebSocketHandler.AfterConnectionEstablished: a NumberFormatException propagates to the framework, which closes the session. The model returns the failure and does not model that close.
- WebSocket.SimpleWebSocketHandler.HandleTextMessage: a frame Jackson cannot read, a null room id, or a refused `saveMessage` throws out of the handler. The framework then closes the sender's session, and `afterConnectionClosed` unregisters it. The model returns the failure and leaves the sender's session open and registered.
- WebSocket.WsSession.Send: an IOException from `sendMessage`, which would stop the broadcast part-way, is not modelled.
- `findAll` in the login MemberServiceImpl, and `getDownloadUrl` and `getAllFiles` in FileController: read-only listings outside the core.
- ChatQueries.FindByIsGroupChat: `findByIsGroupChat` has no ORDER BY, so the database's order is unspecified. The model returns ascending ids, and Chat.ChatService.GetGroupchatRooms inherits that order.
- Chat.ChatService.GetMyChatRooms: `findAllByMember` has no ORDER BY, so the database's order is unspecified. The model lists the caller's rooms in the order of the participant table.
- ShopitMembers.GetMemberInfo: the shopit `Member` entity and `MemberResponseDto` are not part of this model. The model assumes they have the login package's fields without the social-login ones: id, name, e-mail, password, phone number, role (always USER) and creation time. `member.getRole()` at shopit MemberController.java:42 is consistent with that.
- Verification.Latest: the database's order among records created at the same instant is unspecified. The model picks the one saved last.
- ChatQueries.OrderByCreatedTimeCorrect: the order among messages with equal `createdTime` is unspecified in the database. The model keeps table order.
- Verification.EmailVerificationService.SendVerificationCode: `@PrePersist` overwrites `createdAt` with the persist time. The model uses the one `now` parameter for both.
- Verification.ValidFor: timestamps are whole seconds, so the sub-second precision of `LocalDateTime` is not modelled.
- JwtFilter.BearerToken: section 2.1 of RFC 7235 makes the scheme name case-insensitive. The source, and so the model, accepts only "Bearer " exactly.
- Chat.ChatService: the member table is read-only. Member sign-up is modelled in `LoginMembers`, not through the chat service.
- Chat.ChatService.AddParticipantToRoom: it keeps only referential integrity, not the one-private-room-per-pair rule, because `getOrCreatePrivateRoom` adds a private room's members one at a time. `OpenPrivateRoom` restores the rule.
- Orphan rows. Deleting a room leaves its messages and read-status rows, as in the source. The model does not reason about cascades.
- Timer.TimerState.Tick: the one-second delay, `clearTimeout` on re-render, and React's effect scheduling are not modelled. Each tick is one effect run followed by its timeout firing.
- Timer.TimerState.Display: styling and colours are not modelled beyond the `Danger` predicate.
