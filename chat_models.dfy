/**
 * The chat tables: chats, their messages and their participant rows, with the choices,
 * defaults, ordering and on-delete rules the schema declares.
 */
module ChatModels {
  import opened Common
  import Ordering

  /** `ChatTypeEnum`. */
  datatype ChatType = Private | Group

  /** `ChatParticipantRoleEnum`. */
  datatype ParticipantRole = Admin | Member

  function ChatTypeValue(t: ChatType): string
  {
    match t
    case Private => "private"
    case Group => "group"
  }

  /** Reads a submitted `type` value; anything but the two choices is refused. */
  function ChatTypeOf(s: string): (r: Option<ChatType>)
    ensures r.Some? ==> ChatTypeValue(r.value) == s
    ensures r.None? ==> forall t :: ChatTypeValue(t) != s
  {
    if s == "private" then Some(Private)
    else if s == "group" then Some(Group)
    else None
  }

  function ParticipantRoleValue(r: ParticipantRole): string
  {
    match r
    case Admin => "admin"
    case Member => "member"
  }

  /** Every choice fits its column: `type` holds 8 characters, participant `role` 7. */
  lemma ChoicesFitColumns(t: ChatType, r: ParticipantRole)
    ensures |ChatTypeValue(t)| <= 8 && |ParticipantRoleValue(r)| <= 7
    ensures ChatTypeOf(ChatTypeValue(t)) == Some(t)
  {
  }

  /** A chat row. Timestamps are instants as integers; `last_message_at` is nullable. */
  datatype Chat = Chat(
    id: Id,
    title: string,
    kind: ChatType,
    avatar: Option<string>,
    lastMessageAt: Option<int>,
    createdAt: int)

  datatype ChatMessage = ChatMessage(
    id: Id,
    senderId: Id,
    chatId: Id,
    content: string,
    isRead: bool,
    createdAt: int)

  datatype ChatParticipant = ChatParticipant(
    id: Id,
    userId: Id,
    chatId: Id,
    lastReadMessage: Option<Id>,
    unreadCount: nat,
    role: ParticipantRole)

  /** A chat row as the database fills in the defaults: type `private` unless given, and no
      last message time unless one is given. */
  function NewChat(id: Id, title: string, kind: Option<ChatType>, avatar: Option<string>, lastMessageAt: Option<int>, now: int): (c: Chat)
    ensures c.kind == kind.GetOr(Private) && c.lastMessageAt == lastMessageAt
    ensures c.id == id && c.title == title && c.avatar == avatar && c.createdAt == now
  {
    Chat(id, title, kind.GetOr(Private), avatar, lastMessageAt, now)
  }

  /** A participant row with the defaults: role `member` unless given, nothing read, no
      unread count. */
  function NewParticipant(id: Id, userId: Id, chatId: Id, role: Option<ParticipantRole>): (p: ChatParticipant)
    ensures p.role == role.GetOr(Member) && p.unreadCount == 0 && p.lastReadMessage.None?
    ensures p.id == id && p.userId == userId && p.chatId == chatId
  {
    ChatParticipant(id, userId, chatId, None, 0, role.GetOr(Member))
  }

  /** A message row with the defaults: unread unless `is_read` is given. */
  function NewMessage(id: Id, senderId: Id, chatId: Id, content: string, isRead: Option<bool>, now: int): (m: ChatMessage)
    ensures m.isRead == (isRead == Some(true))
    ensures m.id == id && m.senderId == senderId && m.chatId == chatId && m.content == content && m.createdAt == now
  {
    ChatMessage(id, senderId, chatId, content, isRead.GetOr(false), now)
  }

  function MessageStamp(m: ChatMessage): int
  {
    m.createdAt
  }

  /** `Meta.ordering = ['-created_at']`. */
  function NewestFirst(messages: seq<ChatMessage>): (r: seq<ChatMessage>)
    ensures multiset(r) == multiset(messages)
    ensures Ordering.NewestFirst(r, MessageStamp)
  {
    Ordering.SortNewestFirstIsSorted(messages, MessageStamp);
    Ordering.SortNewestFirst(messages, MessageStamp)
  }

  /** The three chat tables. */
  datatype ChatTables = ChatTables(chats: seq<Chat>, messages: seq<ChatMessage>, participants: seq<ChatParticipant>)

  predicate ChatExists(chats: seq<Chat>, id: Id)
  {
    exists c :: c in chats && c.id == id
  }

  predicate MessageExists(messages: seq<ChatMessage>, id: Id)
  {
    exists m :: m in messages && m.id == id
  }

  /** Every reference names an existing row: a message's chat, a participant's chat, and a
      participant's last read message when there is one. */
  ghost predicate ReferencesValid(t: ChatTables)
  {
    && (forall m :: m in t.messages ==> ChatExists(t.chats, m.chatId))
    && (forall p :: p in t.participants ==> ChatExists(t.chats, p.chatId))
    && (forall p :: p in t.participants && p.lastReadMessage.Some? ==> MessageExists(t.messages, p.lastReadMessage.value))
  }

  /** `last_read_message` is `SET_NULL`: a participant pointing at a removed message keeps its
      row and loses the pointer. */
  function ClearLastRead(p: ChatParticipant, messages: seq<ChatMessage>): (q: ChatParticipant)
    ensures q == p.(lastReadMessage := q.lastReadMessage)
    ensures q.lastReadMessage.Some? ==> MessageExists(messages, q.lastReadMessage.value)
    ensures p.lastReadMessage.Some? && MessageExists(messages, p.lastReadMessage.value) ==> q == p
  {
    if p.lastReadMessage.Some? && !MessageExists(messages, p.lastReadMessage.value) then p.(lastReadMessage := None) else p
  }

  function ClearAll(participants: seq<ChatParticipant>, messages: seq<ChatMessage>): (r: seq<ChatParticipant>)
    ensures |r| == |participants|
    ensures forall i :: 0 <= i < |r| ==> r[i] == ClearLastRead(participants[i], messages)
    ensures forall q :: q in r ==> exists p :: p in participants && q.chatId == p.chatId && q.userId == p.userId
    ensures forall p :: p in participants ==> ClearLastRead(p, messages) in r
    ensures forall q :: q in r && q.lastReadMessage.Some? ==> MessageExists(messages, q.lastReadMessage.value)
  {
    seq(|participants|, i requires 0 <= i < |participants| => ClearLastRead(participants[i], messages))
  }

  /** Deleting a message: the row goes, every participant that had it as last read message
      keeps its row with the pointer nulled; nothing else changes. */
  function DeleteMessage(t: ChatTables, id: Id): (r: ChatTables)
    ensures r.chats == t.chats
    ensures forall m :: m in r.messages <==> m in t.messages && m.id != id
    ensures |r.participants| == |t.participants|
    ensures forall i :: 0 <= i < |t.participants| ==>
      r.participants[i] == (if t.participants[i].lastReadMessage == Some(id) then t.participants[i].(lastReadMessage := None)
                            else t.participants[i])
  {
    var messages := Filter(t.messages, (m: ChatMessage) => m.id != id);
    ChatTables(t.chats, messages, seq(|t.participants|, i requires 0 <= i < |t.participants| =>
      if t.participants[i].lastReadMessage == Some(id) then t.participants[i].(lastReadMessage := None) else t.participants[i]))
  }

  /** Deleting a chat cascades to its messages and its participant rows; a participant of
      another chat whose last read message was one of the removed messages loses the
      pointer. */
  function DeleteChat(t: ChatTables, id: Id): (r: ChatTables)
    ensures forall c :: c in r.chats <==> c in t.chats && c.id != id
    ensures forall m :: m in r.messages <==> m in t.messages && m.chatId != id
    ensures forall q :: q in r.participants ==> q.chatId != id && exists p :: p in t.participants && q.chatId == p.chatId && q.userId == p.userId
    ensures forall p :: p in t.participants && p.chatId != id ==> ClearLastRead(p, r.messages) in r.participants
    ensures forall q :: q in r.participants && q.lastReadMessage.Some? ==> MessageExists(r.messages, q.lastReadMessage.value)
    ensures |r.participants| <= |t.participants|
  {
    var chats := Filter(t.chats, (c: Chat) => c.id != id);
    var messages := Filter(t.messages, (m: ChatMessage) => m.chatId != id);
    var kept := Filter(t.participants, (p: ChatParticipant) => p.chatId != id);
    ClearedKeptRows(t.participants, kept, messages, id);
    ChatTables(chats, messages, ClearAll(kept, messages))
  }

  /** Clearing the rows kept by a deletion: each comes from a kept row, and every kept row
      appears with its pointer cleared. */
  lemma ClearedKeptRows(participants: seq<ChatParticipant>, kept: seq<ChatParticipant>, messages: seq<ChatMessage>, id: Id)
    requires forall p :: p in kept <==> p in participants && p.chatId != id
    ensures forall q :: q in ClearAll(kept, messages) ==>
      q.chatId != id && exists p :: p in participants && q.chatId == p.chatId && q.userId == p.userId
    ensures forall p :: p in participants && p.chatId != id ==> ClearLastRead(p, messages) in ClearAll(kept, messages)
  {
    var r := ClearAll(kept, messages);
    forall q | q in r
      ensures q.chatId != id && exists p :: p in participants && q.chatId == p.chatId && q.userId == p.userId
    {
      var i :| 0 <= i < |r| && r[i] == q;
      assert kept[i] in kept;
    }
  }

  /** Deleting a message keeps every reference valid. */
  lemma DeleteMessageKeepsReferences(t: ChatTables, id: Id)
    requires ReferencesValid(t)
    ensures ReferencesValid(DeleteMessage(t, id))
  {
    var r := DeleteMessage(t, id);
    forall p | p in r.participants && p.lastReadMessage.Some?
      ensures MessageExists(r.messages, p.lastReadMessage.value)
    {
      var i :| 0 <= i < |r.participants| && r.participants[i] == p;
      var q := t.participants[i];
      assert q in t.participants;
      var m :| m in t.messages && m.id == q.lastReadMessage.value;
      assert m in r.messages;
    }
    forall p | p in r.participants ensures ChatExists(r.chats, p.chatId) {
      var i :| 0 <= i < |r.participants| && r.participants[i] == p;
      assert t.participants[i] in t.participants;
    }
  }

  /** Deleting a chat leaves no message or participant row pointing at a missing chat or
      message. */
  lemma DeleteChatKeepsReferences(t: ChatTables, id: Id)
    requires ReferencesValid(t)
    ensures ReferencesValid(DeleteChat(t, id))
  {
    var r := DeleteChat(t, id);
    forall m | m in r.messages ensures ChatExists(r.chats, m.chatId) {
      KeptChatStillExists(t, id, m.chatId);
    }
    forall q | q in r.participants ensures ChatExists(r.chats, q.chatId) {
      KeptChatStillExists(t, id, q.chatId);
    }
  }

  lemma KeptChatStillExists(t: ChatTables, id: Id, chatId: Id)
    requires ChatExists(t.chats, chatId) && chatId != id
    ensures ChatExists(DeleteChat(t, id).chats, chatId)
  {
    var c :| c in t.chats && c.id == chatId;
    assert c in DeleteChat(t, id).chats;
  }
}
