/**
 * The chat endpoints: the requester's chat list and chat creation, a chat's messages and
 * posting to a chat, and the requester's unread messages.
 */
module ChatViews {
  import opened Common
  import opened Text
  import opened Fields
  import opened ChatModels
  import Ordering

  // ---------------------------------------------------------------------------
  // Keys and the store invariant
  // ---------------------------------------------------------------------------

  function ChatKey(c: Chat): nat { c.id }
  function MessageKey(m: ChatMessage): nat { m.id }
  function ParticipantKey(p: ChatParticipant): nat { p.id }

  /** The requester has a participant row in the chat. */
  predicate IsParticipant(participants: seq<ChatParticipant>, chatId: Id, userId: Id)
  {
    exists p :: p in participants && p.chatId == chatId && p.userId == userId
  }

  /** No user holds two participant rows in one chat. Nothing in the schema enforces it; the
      only insertion, chat creation, keeps it. */
  ghost predicate OneRowPerMember(participants: seq<ChatParticipant>)
  {
    forall i, j :: 0 <= i < j < |participants| ==>
      (participants[i].chatId, participants[i].userId) != (participants[j].chatId, participants[j].userId)
  }

  ghost predicate StoreValid(t: ChatTables)
  {
    && ReferencesValid(t)
    && KeysDistinct(t.chats, ChatKey)
    && KeysDistinct(t.messages, MessageKey)
    && KeysDistinct(t.participants, ParticipantKey)
    && OneRowPerMember(t.participants)
  }

  // ---------------------------------------------------------------------------
  // Listings
  // ---------------------------------------------------------------------------

  /** `ChatListCreateView.get_queryset`: the chats the requester has a participant row in. */
  function ChatsOf(t: ChatTables, me: Id): (r: seq<Chat>)
    ensures forall c :: c in r <==> c in t.chats && IsParticipant(t.participants, c.id, me)
    ensures |r| <= |t.chats|
  {
    Filter(t.chats, (c: Chat) => IsParticipant(t.participants, c.id, me))
  }

  /** With distinct chat keys, no chat is listed twice. The list is a filter of the chat table;
      the join behind it stays free of repeats because a member has one participant row per
      chat (`OneRowPerMember`). */
  lemma ChatsOfListsEachChatOnce(t: ChatTables, me: Id)
    requires KeysDistinct(t.chats, ChatKey)
    ensures forall i, j :: 0 <= i < j < |ChatsOf(t, me)| ==> ChatsOf(t, me)[i].id != ChatsOf(t, me)[j].id
  {
    FilterKeepsKeysDistinct(t.chats, (c: Chat) => IsParticipant(t.participants, c.id, me), ChatKey);
  }

  /** `ChatMessageListCreateView.get_queryset`: every message of the chat in the URL, newest
      first. Whether the requester takes part in that chat is not consulted. */
  function MessagesOf(t: ChatTables, chatId: Id): (r: seq<ChatMessage>)
    ensures forall m :: m in r <==> m in t.messages && m.chatId == chatId
    ensures multiset(r) == multiset(Filter(t.messages, (m: ChatMessage) => m.chatId == chatId))
    ensures Ordering.NewestFirst(r, MessageStamp)
    ensures |r| <= |t.messages|
  {
    var rows := Filter(t.messages, (m: ChatMessage) => m.chatId == chatId);
    assert forall m :: m in rows <==> m in multiset(rows);
    NewestFirst(rows)
  }

  /** `UnreadMessageListView.get_queryset`: the unread messages of the requester's chats that
      someone else sent, newest first. */
  function UnreadFor(t: ChatTables, me: Id): (r: seq<ChatMessage>)
    ensures forall m :: m in r <==>
      && m in t.messages && !m.isRead && m.senderId != me
      && IsParticipant(t.participants, m.chatId, me)
    ensures multiset(r) == multiset(Filter(t.messages, (m: ChatMessage) =>
      !m.isRead && m.senderId != me && IsParticipant(t.participants, m.chatId, me)))
    ensures Ordering.NewestFirst(r, MessageStamp)
    ensures |r| <= |t.messages|
  {
    var rows := Filter(t.messages, (m: ChatMessage) =>
      !m.isRead && m.senderId != me && IsParticipant(t.participants, m.chatId, me));
    assert forall m :: m in rows <==> m in multiset(rows);
    NewestFirst(rows)
  }

  // ---------------------------------------------------------------------------
  // Request checks
  // ---------------------------------------------------------------------------

  datatype Field = TitleField | TypeField | LastMessageAtField | ChatField | ContentField | IsReadField

  datatype ViewError = Invalid(field: Field, why: FieldError) | NotParticipant

  /** `type`: optional, since the column has a default; not null, since the column is NOT NULL;
      when given, one of the choices. */
  function CheckType(kind: Supplied<string>): (r: Result<Option<ChatType>, FieldError>)
    ensures kind.Omitted? ==> r == Ok(None)
    ensures kind.Null? ==> r == Err(NotNull)
    ensures kind.Given? ==> (r.Ok? <==> exists k :: ChatTypeValue(k) == kind.v)
    ensures r.Ok? && r.value.Some? ==> kind == Given(ChatTypeValue(r.value.value))
  {
    match kind
    case Omitted => Ok(None)
    case Null => Err(NotNull)
    case Given(s) =>
      match ChatTypeOf(s)
      case Some(k) => Ok(Some(k))
      case None =>
        assert forall k :: ChatTypeValue(k) != s;
        Err(NotAChoice)
  }

  /** A date-time value of a request body as the field's parser sees it: not a date-time, or
      an instant. */
  datatype InstantArg = Malformed | At(instant: int)

  /** `last_message_at`: optional and nullable, since the column is; when given, a date-time. */
  function CheckInstant(v: Supplied<InstantArg>): (r: Result<Option<int>, FieldError>)
    ensures r.Ok? <==> v != Given(Malformed)
    ensures r.Ok? ==> r.value == (if v.Given? then Some(v.v.instant) else None)
  {
    match v
    case Omitted => Ok(None)
    case Null => Ok(None)
    case Given(Malformed) => Err(BadFormat)
    case Given(At(t)) => Ok(Some(t))
  }

  /** The body of a chat creation: every writable column of the chat. The avatar upload is not
      modelled. */
  datatype ChatRequest = ChatRequest(title: Supplied<string>, kind: Supplied<string>, lastMessageAt: Supplied<InstantArg>)

  /** `ChatSerializer.is_valid`, reporting the first failing field in declaration order: a
      title of at most 255 characters without NUL, then the type, then the last message
      time. */
  function ValidateChat(req: ChatRequest): (r: Result<(string, Option<ChatType>, Option<int>), ViewError>)
    ensures r.Ok? <==>
      && req.title.Given? && Strip(req.title.v) != [] && |Strip(req.title.v)| <= 255 && Nul !in Strip(req.title.v)
      && CheckType(req.kind).Ok?
      && req.lastMessageAt != Given(Malformed)
    ensures r.Ok? ==> r.value == (Strip(req.title.v), CheckType(req.kind).value, CheckInstant(req.lastMessageAt).value)
    ensures r.Err? ==> r.error.Invalid? && r.error.field in {TitleField, TypeField, LastMessageAtField}
  {
    match CheckText(req.title, Some(255))
    case Err(e) => Err(Invalid(TitleField, e))
    case Ok(title) =>
      match CheckType(req.kind)
      case Err(e) => Err(Invalid(TypeField, e))
      case Ok(kind) =>
        match CheckInstant(req.lastMessageAt)
        case Err(e) => Err(Invalid(LastMessageAtField, e))
        case Ok(at) => Ok((title, kind, at))
  }

  /** The body of a message post. `chat` is a required primary key that must name an existing
      chat, although the message is then stored under the chat of the URL. */
  datatype MessageRequest = MessageRequest(chat: Supplied<Id>, content: Supplied<string>, isRead: Supplied<bool>)

  /** `ChatMessageSerializer.is_valid`: the chat reference, the content (required, stripped,
      not blank) and the optional `is_read`, in declaration order. */
  function ValidateMessage(chats: seq<Chat>, req: MessageRequest): (r: Result<(string, Option<bool>), ViewError>)
    ensures r.Ok? <==>
      && req.chat.Given? && ChatExists(chats, req.chat.v)
      && req.content.Given? && Strip(req.content.v) != [] && Nul !in Strip(req.content.v)
      && !req.isRead.Null?
    ensures r.Ok? ==> r.value.0 == Strip(req.content.v)
    ensures r.Ok? ==> r.value.1 == (if req.isRead.Given? then Some(req.isRead.v) else None)
    ensures r.Err? ==> r.error.Invalid?
  {
    match req.chat
    case Omitted => Err(Invalid(ChatField, Required))
    case Null => Err(Invalid(ChatField, NotNull))
    case Given(id) =>
      if !ChatExists(chats, id) then Err(Invalid(ChatField, DoesNotExist))
      else
        match CheckText(req.content, None)
        case Err(e) => Err(Invalid(ContentField, e))
        case Ok(content) =>
          match req.isRead
          case Null => Err(Invalid(IsReadField, NotNull))
          case Omitted => Ok((content, None))
          case Given(b) => Ok((content, Some(b)))
  }

  // ---------------------------------------------------------------------------
  // Creating a chat
  // ---------------------------------------------------------------------------

  /** `ChatListCreateView.create`: validate, save the chat, then add the requester as its
      admin. */
  function CreateChat(t: ChatTables, me: Id, req: ChatRequest, now: int): (Result<Chat, ViewError>, ChatTables)
  {
    match ValidateChat(req)
    case Err(e) => (Err(e), t)
    case Ok((title, kind, at)) =>
      var c := NewChat(NextKey(t.chats, ChatKey), title, kind, None, at, now);
      var p := NewParticipant(NextKey(t.participants, ParticipantKey), me, c.id, Some(Admin));
      (Ok(c), ChatTables(t.chats + [c], t.messages, t.participants + [p]))
  }

  /** A chat is created exactly when the body is valid. It then adds one chat, with the
      stripped title, the requested type or `private`, the given last message time or none,
      and a fresh key, and exactly one participant row: the requester as admin, with nothing
      read and no unread count. A refused body changes nothing. */
  lemma CreateChatOutcome(t: ChatTables, me: Id, req: ChatRequest, now: int)
    ensures var (r, after) := CreateChat(t, me, req, now);
      && (r.Ok? <==> ValidateChat(req).Ok?)
      && (r.Err? ==> after == t)
      && (r.Ok? ==>
            var c := r.value;
            && after.chats == t.chats + [c]
            && after.messages == t.messages
            && |after.participants| == |t.participants| + 1
            && after.participants[..|t.participants|] == t.participants
            && (forall d :: d in t.chats ==> d.id < c.id)
            && c.title == Strip(req.title.v)
            && c.kind == ValidateChat(req).value.1.GetOr(Private)
            && c.lastMessageAt == (if req.lastMessageAt.Given? then Some(req.lastMessageAt.v.instant) else None)
            && c.createdAt == now
            && var p := after.participants[|t.participants|];
               p.userId == me && p.chatId == c.id && p.role == Admin
               && p.unreadCount == 0 && p.lastReadMessage.None?)
  {
    var (r, after) := CreateChat(t, me, req, now);
    if r.Ok? {
      assert after.participants[..|t.participants|] == t.participants;
    }
  }

  /** The requester sees a chat they created in their chat list. */
  lemma CreatorListsNewChat(t: ChatTables, me: Id, req: ChatRequest, now: int)
    requires CreateChat(t, me, req, now).0.Ok?
    ensures CreateChat(t, me, req, now).0.value in ChatsOf(CreateChat(t, me, req, now).1, me)
  {
    var (r, after) := CreateChat(t, me, req, now);
    var p := after.participants[|after.participants| - 1];
    assert p in after.participants;
  }

  /** A new chat's key is unused by every row that refers to a chat, so its one participant row
      cannot duplicate a membership. */
  lemma CreateChatKeepsStoreValid(t: ChatTables, me: Id, req: ChatRequest, now: int)
    requires StoreValid(t)
    ensures StoreValid(CreateChat(t, me, req, now).1)
  {
    var (r, after) := CreateChat(t, me, req, now);
    if r.Ok? {
      var p := after.participants[|t.participants|];
      assert after.participants == t.participants + [p];
      AddChatKeepsStoreValid(t, r.value, p);
    }
  }

  /** Adding a chat under the next key together with one participant row of it, under the next
      participant key and with nothing read, keeps the store valid. */
  lemma AddChatKeepsStoreValid(t: ChatTables, c: Chat, p: ChatParticipant)
    requires StoreValid(t)
    requires c.id == NextKey(t.chats, ChatKey) && p.id == NextKey(t.participants, ParticipantKey)
    requires p.chatId == c.id && p.lastReadMessage.None?
    ensures StoreValid(ChatTables(t.chats + [c], t.messages, t.participants + [p]))
  {
    var after := ChatTables(t.chats + [c], t.messages, t.participants + [p]);
    AppendNextKeyDistinct(t.chats, ChatKey, c);
    AppendNextKeyDistinct(t.participants, ParticipantKey, p);
    forall i | 0 <= i < |t.participants|
      ensures (t.participants[i].chatId, t.participants[i].userId) != (p.chatId, p.userId)
    {
      NoRowOfNewChat(t, c, t.participants[i]);
    }
    AppendKeepsPairwise(t.participants, p,
      (a: ChatParticipant, b: ChatParticipant) => (a.chatId, a.userId) != (b.chatId, b.userId));
    forall id | ChatExists(t.chats, id) ensures ChatExists(after.chats, id) {
      var d :| d in t.chats && d.id == id;
      assert d in after.chats;
    }
    assert ChatExists(after.chats, c.id) by {
      assert c in after.chats;
    }
  }

  /** No stored participant row refers to the chat key handed out next. */
  lemma NoRowOfNewChat(t: ChatTables, c: Chat, q: ChatParticipant)
    requires ReferencesValid(t) && q in t.participants && c.id == NextKey(t.chats, ChatKey)
    ensures q.chatId != c.id
  {
    var d :| d in t.chats && d.id == q.chatId;
    var k :| 0 <= k < |t.chats| && t.chats[k] == d;
    assert ChatKey(t.chats[k]) < c.id;
  }

  // ---------------------------------------------------------------------------
  // Posting a message
  // ---------------------------------------------------------------------------

  /** `Chat.objects.filter(id=chat_id).update(last_message_at=now())`. */
  function StampLastMessage(chats: seq<Chat>, chatId: Id, now: int): (r: seq<Chat>)
    ensures |r| == |chats|
    ensures forall i :: 0 <= i < |r| ==>
      r[i] == (if chats[i].id == chatId then chats[i].(lastMessageAt := Some(now)) else chats[i])
  {
    seq(|chats|, i requires 0 <= i < |chats| =>
      if chats[i].id == chatId then chats[i].(lastMessageAt := Some(now)) else chats[i])
  }

  /** `ChatMessageListCreateView.create` with the membership check answered by a refusal:
      validate the body, refuse a requester without a participant row in the URL's chat,
      otherwise store the message under that chat and stamp the chat's last message time. */
  function PostMessage(t: ChatTables, me: Id, chatId: Id, req: MessageRequest, now: int)
    : (Result<ChatMessage, ViewError>, ChatTables)
  {
    match ValidateMessage(t.chats, req)
    case Err(e) => (Err(e), t)
    case Ok((content, isRead)) =>
      if !IsParticipant(t.participants, chatId, me) then (Err(NotParticipant), t)
      else
        var m := NewMessage(NextKey(t.messages, MessageKey), me, chatId, content, isRead, now);
        (Ok(m), ChatTables(StampLastMessage(t.chats, chatId, now), t.messages + [m], t.participants))
  }

  /** A post is stored exactly when the body is valid and the requester takes part in the
      URL's chat; a valid body from anyone else is refused as `NotParticipant`. A stored
      message is sent by the requester, belongs to the URL's chat, carries the stripped
      content, is unread unless the body said otherwise, and has a fresh key; that chat's last
      message time becomes `now` and no other chat changes. A refused post changes nothing. */
  lemma PostMessageOutcome(t: ChatTables, me: Id, chatId: Id, req: MessageRequest, now: int)
    ensures var (r, after) := PostMessage(t, me, chatId, req, now);
      && (r.Ok? <==> ValidateMessage(t.chats, req).Ok? && IsParticipant(t.participants, chatId, me))
      && (r == Err(NotParticipant) <==> ValidateMessage(t.chats, req).Ok? && !IsParticipant(t.participants, chatId, me))
      && (r.Err? ==> after == t)
      && (r.Ok? ==>
            var m := r.value;
            && after.messages == t.messages + [m]
            && m.senderId == me && m.chatId == chatId
            && m.content == Strip(req.content.v)
            && m.isRead == (req.isRead == Given(true))
            && m.createdAt == now
            && (forall n :: n in t.messages ==> n.id < m.id)
            && after.participants == t.participants
            && |after.chats| == |t.chats|
            && (forall i :: 0 <= i < |t.chats| ==>
                  && after.chats[i].(lastMessageAt := t.chats[i].lastMessageAt) == t.chats[i]
                  && after.chats[i].lastMessageAt ==
                       (if t.chats[i].id == chatId then Some(now) else t.chats[i].lastMessageAt)))
  {
  }

  /** Neither creating a chat nor posting touches what has been read: every existing message
      keeps its `is_read`, and every existing participant row keeps its unread count and last
      read message. */
  lemma ReadStateUntouched(t: ChatTables, me: Id, chatId: Id, creq: ChatRequest, mreq: MessageRequest, now: int)
    ensures var after := CreateChat(t, me, creq, now).1;
      after.messages == t.messages && after.participants[..|t.participants|] == t.participants
    ensures var after := PostMessage(t, me, chatId, mreq, now).1;
      after.participants == t.participants && after.messages[..|t.messages|] == t.messages
  {
    CreateChatOutcome(t, me, creq, now);
    PostMessageOutcome(t, me, chatId, mreq, now);
    var after := PostMessage(t, me, chatId, mreq, now).1;
    if after != t {
      assert after.messages[..|t.messages|] == t.messages;
    }
  }

  /** A post keeps the store valid: the message refers to a chat the requester takes part in,
      which therefore exists, and stamping a chat keeps every key. */
  lemma PostMessageKeepsStoreValid(t: ChatTables, me: Id, chatId: Id, req: MessageRequest, now: int)
    requires StoreValid(t)
    ensures StoreValid(PostMessage(t, me, chatId, req, now).1)
  {
    var (r, after) := PostMessage(t, me, chatId, req, now);
    if r.Ok? {
      var m := r.value;
      AppendNextKeyDistinct(t.messages, MessageKey, m);
      assert KeysDistinct(after.chats, ChatKey) by {
        forall i, j | 0 <= i < j < |after.chats| ensures ChatKey(after.chats[i]) != ChatKey(after.chats[j]) {
          assert ChatKey(t.chats[i]) != ChatKey(t.chats[j]);
        }
      }
      forall id | ChatExists(t.chats, id) ensures ChatExists(after.chats, id) {
        var d :| d in t.chats && d.id == id;
        var k :| 0 <= k < |t.chats| && t.chats[k] == d;
        assert after.chats[k] in after.chats;
      }
      var p :| p in t.participants && p.chatId == chatId && p.userId == me;
      assert ChatExists(t.chats, chatId);
      forall q | q in after.participants && q.lastReadMessage.Some?
        ensures MessageExists(after.messages, q.lastReadMessage.value)
      {
        var n :| n in t.messages && n.id == q.lastReadMessage.value;
        assert n in after.messages;
      }
    }
  }

  // ---------------------------------------------------------------------------
  // The response status of a post
  // ---------------------------------------------------------------------------

  /** The status the client receives for a post when the refusal reaches it: 400 for a
      refused body, 403 for a requester outside the chat, 201 for a stored message. */
  function PostStatus(r: Result<ChatMessage, ViewError>): (status: nat)
    ensures status == 201 <==> r.Ok?
    ensures status == 403 <==> r == Err(NotParticipant)
  {
    match r
    case Ok(_) => 201
    case Err(NotParticipant) => 403
    case Err(Invalid(_, _)) => 400
  }

  /** With the refusal reaching the client, a 201 answer means exactly one message was
      stored. */
  lemma CreatedMeansStored(t: ChatTables, me: Id, chatId: Id, req: MessageRequest, now: int)
    ensures var (r, after) := PostMessage(t, me, chatId, req, now);
      PostStatus(r) == 201 <==> |after.messages| == |t.messages| + 1
  {
    PostMessageOutcome(t, me, chatId, req, now);
  }

  /** The status as written: `perform_create` returns its 403 response to `create`, which
      discards it and answers 201 with the validated body, so every valid body gets 201. */
  function PostStatusAsWritten(t: ChatTables, me: Id, chatId: Id, req: MessageRequest): (status: nat)
    ensures status == 201 <==> ValidateMessage(t.chats, req).Ok?
    ensures status != 403
  {
    if ValidateMessage(t.chats, req).Ok? then 201 else 400
  }

  /** As written, a requester outside the chat who sends a valid body is told 201 Created,
      although nothing was stored. */
  lemma NonMemberToldCreatedAsWritten(t: ChatTables, me: Id, chatId: Id, req: MessageRequest, now: int)
    requires ValidateMessage(t.chats, req).Ok? && !IsParticipant(t.participants, chatId, me)
    ensures PostStatusAsWritten(t, me, chatId, req) == 201
    ensures PostMessage(t, me, chatId, req, now).1 == t
    ensures PostStatus(PostMessage(t, me, chatId, req, now).0) == 403
  {
  }

  // ---------------------------------------------------------------------------
  // The store
  // ---------------------------------------------------------------------------

  class ChatStore {
    var chats: seq<Chat>
    var messages: seq<ChatMessage>
    var participants: seq<ChatParticipant>

    function Tables(): ChatTables
      reads this
    {
      ChatTables(chats, messages, participants)
    }

    ghost predicate Valid()
      reads this
    {
      StoreValid(Tables())
    }

    constructor ()
      ensures Tables() == ChatTables([], [], []) && Valid()
    {
      chats := [];
      messages := [];
      participants := [];
    }

    /** `POST chats/`. */
    method Create(me: Id, req: ChatRequest, now: int) returns (r: Result<Chat, ViewError>)
      requires Valid()
      modifies this
      ensures (r, Tables()) == CreateChat(old(Tables()), me, req, now)
      ensures Valid()
    {
      CreateChatKeepsStoreValid(Tables(), me, req, now);
      var v := ValidateChat(req);
      if v.Err? {
        return Err(v.error);
      }
      var (title, kind, at) := v.value;
      var c := NewChat(NextKey(chats, ChatKey), title, kind, None, at, now);
      chats := chats + [c];
      var p := NewParticipant(NextKey(participants, ParticipantKey), me, c.id, Some(Admin));
      participants := participants + [p];
      r := Ok(c);
    }

    /** `POST chats/<chat_id>/messages/`. */
    method Post(me: Id, chatId: Id, req: MessageRequest, now: int) returns (r: Result<ChatMessage, ViewError>)
      requires Valid()
      modifies this
      ensures (r, Tables()) == PostMessage(old(Tables()), me, chatId, req, now)
      ensures Valid()
    {
      PostMessageKeepsStoreValid(Tables(), me, chatId, req, now);
      var v := ValidateMessage(chats, req);
      if v.Err? {
        return Err(v.error);
      }
      if !IsParticipant(participants, chatId, me) {
        return Err(NotParticipant);
      }
      var (content, isRead) := v.value;
      var m := NewMessage(NextKey(messages, MessageKey), me, chatId, content, isRead, now);
      messages := messages + [m];
      chats := StampLastMessage(chats, chatId, now);
      r := Ok(m);
    }
  }
}
