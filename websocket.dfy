/**
  SimpleWebSocketHandler: the registry of live sessions per room, the reading of `roomId` and
  `token` from the connection's query string, and the broadcast of each incoming frame to the
  open sessions of its room after the message is saved.

  The JWT check is the parameter `tokenValid` (whether `parseClaims` returns without throwing),
  the JSON reading of a frame is the parameter `decode` (None when Jackson throws), and the
  clock is the parameter `now`.
*/
module WebSocket {
  import opened Wrappers
  import opened JavaText
  import opened ChatEntities
  import opened ChatParticipantRepository
  import Chat
  import LoginMembers

  datatype WsError =
      /** NumberFormatException from `Long.parseLong` on the roomId parameter. */
    | InvalidRoomId
      /** The frame is not a ChatMessageDto in JSON. */
    | MalformedPayload
      /** The frame has no roomId, so the room look-up by id is refused. */
    | NullRoomId
      /** `saveMessage` threw. */
    | SaveFailed(error: ChatError)

  /** The two query parameters; None where the query did not set one (Java null). */
  datatype QueryParams = QueryParams(roomId: Option<int>, token: Option<string>)

  predicate IsRoomIdParam(param: string) {
    StartsWith(param, "roomId=")
  }

  predicate IsTokenParam(param: string) {
    StartsWith(param, "token=")
  }

  /** One step of the parse loop: a roomId parameter is parsed, a token parameter is taken as is. */
  function ApplyParam(acc: QueryParams, param: string): (r: Result<QueryParams, WsError>)
    ensures r.Failure? <==> IsRoomIdParam(param) && ParseLong(param[7..]).None?
    ensures r.Failure? ==> r.error == InvalidRoomId
    ensures !IsRoomIdParam(param) && !IsTokenParam(param) ==> r == Success(acc)
  {
    if IsRoomIdParam(param) then
      match ParseLong(param[7..])
      case None => Failure(InvalidRoomId)
      case Some(v) => Success(acc.(roomId := Some(v)))
    else if IsTokenParam(param) then Success(acc.(token := Some(param[6..])))
    else Success(acc)
  }

  /** The parse loop over the parameters in order, stopping at the first exception. */
  function ScanParams(params: seq<string>): Result<QueryParams, WsError>
  {
    if params == [] then Success(QueryParams(None, None))
    else
      match ScanParams(params[..|params| - 1])
      case Failure(e) => Failure(e)
      case Success(acc) => ApplyParam(acc, params[|params| - 1])
  }

  /** A null query sets neither parameter; otherwise the parameters are the pieces between '&'. */
  function ParseQueryText(query: Option<string>): Result<QueryParams, WsError>
  {
    match query
    case None => Success(QueryParams(None, None))
    case Some(q) => ScanParams(JavaSplit(q, '&'))
  }

  /** Once a roomId fails to parse, later parameters do not matter. */
  lemma {:induction false} ScanFailureSticks(a: seq<string>, b: seq<string>)
    requires ScanParams(a).Failure?
    ensures ScanParams(a + b) == ScanParams(a)
  {
    if b != [] {
      assert (a + b)[..|a + b| - 1] == a + b[..|b| - 1];
      ScanFailureSticks(a, b[..|b| - 1]);
    } else {
      assert a + b == a;
    }
  }

  /** Parsing fails exactly when some roomId parameter does not hold a long. */
  lemma {:induction false} ScanFailureIff(params: seq<string>)
    ensures ScanParams(params).Failure? <==>
            exists i :: 0 <= i < |params| && IsRoomIdParam(params[i]) && ParseLong(params[i][7..]).None?
    ensures ScanParams(params).Failure? ==> ScanParams(params).error == InvalidRoomId
  {
    if params != [] {
      var init := params[..|params| - 1];
      var last := params[|params| - 1];
      ScanFailureIff(init);
      assert forall i :: 0 <= i < |init| ==> init[i] == params[i];
      if ScanParams(init).Success? {
        assert ScanParams(params) == ApplyParam(ScanParams(init).value, last);
        assert ApplyParam(ScanParams(init).value, last).Failure? <==> IsRoomIdParam(last) && ParseLong(last[7..]).None?;
      }
    }
  }

  /** A parameter cannot be both a roomId and a token parameter. */
  lemma ParamKindsDisjoint(param: string)
    ensures !(IsRoomIdParam(param) && IsTokenParam(param))
  {
    if IsRoomIdParam(param) {
      assert param[0] == 'r';
    }
  }

  /** The position of the last parameter that starts with `prefix`, if any. */
  function LastWithPrefix(params: seq<string>, prefix: string): (r: Option<nat>)
    ensures r.Some? ==> r.value < |params| && StartsWith(params[r.value], prefix) &&
                        forall j :: r.value < j < |params| ==> !StartsWith(params[j], prefix)
    ensures r.None? <==> forall i :: 0 <= i < |params| ==> !StartsWith(params[i], prefix)
  {
    if params == [] then None
    else if StartsWith(params[|params| - 1], prefix) then Some(|params| - 1)
    else LastWithPrefix(params[..|params| - 1], prefix)
  }

  /** The token is the text after "token=" of the last token parameter, and is unset if there is none. */
  lemma {:induction false} ScanTokenIsLast(params: seq<string>)
    requires ScanParams(params).Success?
    ensures ScanParams(params).value.token ==
              match LastWithPrefix(params, "token=")
              case None => None
              case Some(i) => Some(params[i][6..])
  {
    if params != [] {
      var init := params[..|params| - 1];
      var last := params[|params| - 1];
      ScanTokenIsLast(init);
      ParamKindsDisjoint(last);
      assert ScanParams(params) == ApplyParam(ScanParams(init).value, last);
    }
  }

  /** The roomId is the value of the last roomId parameter, and is unset if there is none. */
  lemma {:induction false} ScanRoomIdIsLast(params: seq<string>)
    requires ScanParams(params).Success?
    ensures ScanParams(params).value.roomId ==
              match LastWithPrefix(params, "roomId=")
              case None => None
              case Some(i) => ParseLong(params[i][7..])
  {
    if params != [] {
      ScanRoomIdIsLast(params[..|params| - 1]);
    }
  }

  /** One more parameter takes the scan one step further. */
  lemma ScanStep(params: seq<string>, i: nat)
    requires i < |params|
    ensures ScanParams(params[..i + 1]) ==
              match ScanParams(params[..i])
              case Failure(e) => Failure(e)
              case Success(acc) => ApplyParam(acc, params[i])
  {
    assert params[..i + 1][..i] == params[..i];
  }

  /**
    The parse loop of `afterConnectionEstablished`: walks the pieces of the query in order,
    the later occurrence of a parameter overwriting the earlier one.
  */
  method ParseQuery(query: Option<string>) returns (r: Result<QueryParams, WsError>)
    ensures r == ParseQueryText(query)
  {
    var roomId: Option<int> := None;
    var token: Option<string> := None;
    if query.Some? {
      var params := JavaSplit(query.value, '&');
      var i := 0;
      while i < |params|
        invariant 0 <= i <= |params|
        invariant ScanParams(params[..i]) == Success(QueryParams(roomId, token))
      {
        var param := params[i];
        ScanStep(params, i);
        if IsRoomIdParam(param) {
          var parsed := ParseLong(param[7..]);
          if parsed.None? {
            ScanFailureSticks(params[..i + 1], params[i + 1..]);
            assert params[..i + 1] + params[i + 1..] == params;
            return Failure(InvalidRoomId);
          }
          roomId := parsed;
        } else if IsTokenParam(param) {
          token := Some(param[6..]);
        }
        i := i + 1;
      }
      assert params[..i] == params;
    }
    r := Success(QueryParams(roomId, token));
  }

  /** No room id in the registry maps to an empty set of sessions. */
  ghost predicate NoEmptyRoom<T>(reg: map<int, set<T>>) {
    forall rid :: rid in reg ==> reg[rid] != {}
  }

  /** `computeIfAbsent(roomId, newKeySet).add(session)`. */
  function Register<T>(reg: map<int, set<T>>, rid: int, s: T): (reg': map<int, set<T>>)
    ensures rid in reg' && s in reg'[rid]
    ensures reg'.Keys == reg.Keys + {rid}
    ensures forall other :: other in reg && other != rid ==> reg'[other] == reg[other]
    ensures rid in reg ==> reg'[rid] == reg[rid] + {s}
    ensures rid !in reg ==> reg'[rid] == {s}
  {
    reg[rid := (if rid in reg then reg[rid] else {}) + {s}]
  }

  /** `sessions.remove(session)`, then the room's entry is dropped once its set is empty. */
  function Unregister<T>(reg: map<int, set<T>>, rid: int, s: T): (reg': map<int, set<T>>)
    ensures rid !in reg ==> reg' == reg
    ensures forall other :: other in reg && other != rid ==> other in reg' && reg'[other] == reg[other]
    ensures reg'.Keys <= reg.Keys
    ensures rid in reg' ==> rid in reg && reg'[rid] == reg[rid] - {s} && reg'[rid] != {}
    ensures rid in reg && rid !in reg' ==> reg[rid] <= {s}
  {
    if rid !in reg then reg
    else
      var rest := reg[rid] - {s};
      if rest == {} then reg - {rid} else reg[rid := rest]
  }

  /** Both updates keep the registry free of empty rooms. */
  lemma RegistryUpdatesKeepNoEmptyRoom<T>(reg: map<int, set<T>>, rid: int, s: T)
    requires NoEmptyRoom(reg)
    ensures NoEmptyRoom(Register(reg, rid, s))
    ensures NoEmptyRoom(Unregister(reg, rid, s))
  {
  }

  /** Connecting the same session twice adds it once. */
  lemma RegisterIdempotent<T>(reg: map<int, set<T>>, rid: int, s: T)
    ensures Register(Register(reg, rid, s), rid, s) == Register(reg, rid, s)
  {
    var once := Register(reg, rid, s);
    assert once[rid] + {s} == once[rid];
  }

  /** Closing a session that connected to a room it was not in gives the registry back. */
  lemma UnregisterUndoesRegister<T>(reg: map<int, set<T>>, rid: int, s: T)
    requires NoEmptyRoom(reg)
    requires rid in reg ==> s !in reg[rid]
    ensures Unregister(Register(reg, rid, s), rid, s) == reg
  {
    var once := Register(reg, rid, s);
    if rid in reg {
      assert once[rid] - {s} == reg[rid];
      assert reg[rid := reg[rid]] == reg;
    } else {
      assert once[rid] - {s} == {};
      assert once - {rid} == reg;
    }
  }

  /** A connection: its `roomId` attribute, whether it is open, and the frames sent to it. */
  class WsSession {
    var roomIdAttr: Option<int>
    var isOpen: bool
    var sent: seq<string>

    constructor ()
      ensures roomIdAttr == None && isOpen && sent == []
    {
      roomIdAttr := None;
      isOpen := true;
      sent := [];
    }

    /** `session.close()`. */
    method Close()
      modifies this
      ensures !isOpen && roomIdAttr == old(roomIdAttr) && sent == old(sent)
    {
      isOpen := false;
    }

    /** `session.sendMessage(new TextMessage(frame))`. */
    method Send(frame: string)
      modifies this
      ensures sent == old(sent) + [frame] && isOpen == old(isOpen) && roomIdAttr == old(roomIdAttr)
    {
      sent := sent + [frame];
    }
  }

  /** The send loop of `handleTextMessage`: the frame goes once to each open session of the set. */
  method Broadcast(targets: set<WsSession>, payload: string)
    modifies targets
    ensures forall s :: s in targets ==>
              && s.isOpen == old(s.isOpen) && s.roomIdAttr == old(s.roomIdAttr)
              && s.sent == old(s.sent) + (if old(s.isOpen) then [payload] else [])
  {
    var todo := targets;
    while todo != {}
      invariant todo <= targets
      invariant forall s :: s in targets ==> s.isOpen == old(s.isOpen) && s.roomIdAttr == old(s.roomIdAttr)
      invariant forall s :: s in todo ==> s.sent == old(s.sent)
      invariant forall s :: s in targets && s !in todo ==> s.sent == old(s.sent) + (if old(s.isOpen) then [payload] else [])
      decreases todo
    {
      var s :| s in todo;
      if s.isOpen {
        s.Send(payload);
      }
      todo := todo - {s};
    }
  }

  class SimpleWebSocketHandler {
    var roomSessions: map<int, set<WsSession>>
    const chat: Chat.ChatService

    ghost predicate Valid()
      reads this, chat
    {
      chat.Valid() && NoEmptyRoom(roomSessions)
    }

    constructor (chat: Chat.ChatService)
      requires chat.Valid()
      ensures Valid() && this.chat == chat && roomSessions == map[]
    {
      this.chat := chat;
      roomSessions := map[];
    }

    /** The sessions of one room; empty when the room has no entry. */
    function SessionsOf(roomId: int): (ss: set<WsSession>)
      reads this
      ensures roomId in roomSessions ==> ss == roomSessions[roomId]
      ensures roomId !in roomSessions ==> ss == {}
    {
      if roomId in roomSessions then roomSessions[roomId] else {}
    }

    /**
      `afterConnectionEstablished`: a missing roomId or token, or a token that does not verify,
      closes the session; otherwise the session records its room and joins that room's set.
    */
    method AfterConnectionEstablished(session: WsSession, query: Option<string>, tokenValid: string -> bool)
      returns (r: Outcome<WsError>)
      requires Valid()
      modifies this, session
      ensures Valid()
      ensures session.sent == old(session.sent)
      ensures ParseQueryText(query).Failure? ==>
                && r == Fail(ParseQueryText(query).error)
                && roomSessions == old(roomSessions)
                && session.isOpen == old(session.isOpen) && session.roomIdAttr == old(session.roomIdAttr)
      ensures ParseQueryText(query).Success? ==>
                var p := ParseQueryText(query).value;
                && r == Pass
                && ((p.roomId.None? || p.token.None? || !tokenValid(p.token.value)) ==>
                      !session.isOpen && session.roomIdAttr == old(session.roomIdAttr) && roomSessions == old(roomSessions))
                && ((p.roomId.Some? && p.token.Some? && tokenValid(p.token.value)) ==>
                      && session.roomIdAttr == p.roomId && session.isOpen == old(session.isOpen)
                      && roomSessions == Register(old(roomSessions), p.roomId.value, session))
    {
      var parsed := ParseQuery(query);
      if parsed.Failure? {
        return Fail(parsed.error);
      }
      var roomId := parsed.value.roomId;
      var token := parsed.value.token;
      if roomId.None? || token.None? {
        session.Close();
        return Pass;
      }
      if !tokenValid(token.value) {
        session.Close();
        return Pass;
      }
      session.roomIdAttr := roomId;
      RegistryUpdatesKeepNoEmptyRoom(roomSessions, roomId.value, session);
      roomSessions := Register(roomSessions, roomId.value, session);
      r := Pass;
    }

    /** The sessions a frame is broadcast to, before the frame is handled. */
    function Audience(payload: string, decode: string -> Option<ChatMessageDto>): set<WsSession>
      reads this
    {
      match decode(payload)
      case None => {}
      case Some(dto) => if dto.roomId.Some? then SessionsOf(dto.roomId.value) else {}
    }

    /**
      `handleTextMessage`: saves the message, then sends the frame, unchanged, once to every open
      session of the frame's room (the sender's own session included).
    */
    method HandleTextMessage(payload: string, decode: string -> Option<ChatMessageDto>, now: int)
      returns (r: Outcome<WsError>)
      requires Valid()
      modifies chat, Audience(payload, decode)
      ensures Valid()
      ensures roomSessions == old(roomSessions)
      ensures decode(payload).None? ==> r == Fail(MalformedPayload) && chat.Snapshot() == old(chat.Snapshot())
      ensures decode(payload).Some? && decode(payload).value.roomId.None? ==>
                r == Fail(NullRoomId) && chat.Snapshot() == old(chat.Snapshot())
      ensures decode(payload).Some? && decode(payload).value.roomId.Some? ==>
                var dto := decode(payload).value;
                var roomId := dto.roomId.value;
                && (roomId !in old(chat.rooms) ==> r == Fail(SaveFailed(RoomNotFound)))
                && (roomId in old(chat.rooms) && LoginMembers.FindByEmail(chat.members, dto.senderEmail).None? ==>
                      r == Fail(SaveFailed(MemberNotFound)))
                && (r.Fail? ==> chat.Snapshot() == old(chat.Snapshot()))
                && (r == Pass <==> roomId in old(chat.rooms) && LoginMembers.FindByEmail(chat.members, dto.senderEmail).Some?)
                && (r == Pass ==>
                      var sender := LoginMembers.FindByEmail(chat.members, dto.senderEmail).value;
                      && chat.messages == old(chat.messages) + [ChatMessage(old(chat.nextMessageId), roomId, sender, dto.message, now)]
                      && chat.readStatuses == old(chat.readStatuses) +
                           Chat.ReadRowsFor(FindByChatRoom(old(chat.participants), roomId), old(chat.nextMessageId), sender.id)
                      && chat.rooms == old(chat.rooms) && chat.participants == old(chat.participants)
                      && chat.nextRoomId == old(chat.nextRoomId) && chat.nextMessageId == old(chat.nextMessageId) + 1)
      ensures forall s :: s in old(Audience(payload, decode)) ==>
                s.isOpen == old(s.isOpen) && s.roomIdAttr == old(s.roomIdAttr) &&
                s.sent == old(s.sent) + (if r == Pass && old(s.isOpen) then [payload] else [])
    {
      var decoded := decode(payload);
      if decoded.None? {
        return Fail(MalformedPayload);
      }
      var dto := decoded.value;
      if dto.roomId.None? {
        return Fail(NullRoomId);
      }
      var roomId := dto.roomId.value;
      var saved := chat.SaveMessage(roomId, dto, now);
      if saved.Fail? {
        return Fail(SaveFailed(saved.error));
      }
      Broadcast(SessionsOf(roomId), payload);
      r := Pass;
    }

    /**
      `afterConnectionClosed`: the session leaves the set of the room it recorded, and the room's
      entry goes once the set is empty; a session without a room changes nothing.
    */
    method AfterConnectionClosed(session: WsSession)
      requires Valid()
      modifies this
      ensures Valid()
      ensures session.roomIdAttr.None? ==> roomSessions == old(roomSessions)
      ensures session.roomIdAttr.Some? ==> roomSessions == Unregister(old(roomSessions), session.roomIdAttr.value, session)
    {
      if session.roomIdAttr.Some? {
        var roomId := session.roomIdAttr.value;
        RegistryUpdatesKeepNoEmptyRoom(roomSessions, roomId, session);
        roomSessions := Unregister(roomSessions, roomId, session);
      }
    }
  }
}
