/** The message handlers (controllers/messageController.js). Handlers that
    write take the store and report their response as a `Result`; the ones
    that only read are functions or methods over the collections. */
module MessageController {
  import opened Common
  import opened UserModel
  import opened ChatModel
  import opened MessageModel
  import opened Events
  import opened Store
  import opened ReadState

  /** The block check of `sendMessage` and `forwardMessage`: some member of
      `c` (that still exists, since populate drops missing users) has blocked `u`. */
  predicate BlockedByMember(users: map<UserId, User>, c: Chat, u: UserId)
  {
    exists i :: 0 <= i < |c.users| && c.users[i] in users && HasBlocked(users[c.users[i]], u)
  }

  /** `u` may post into chat `id`: it exists, `u` is a member and no member
      has blocked `u`. */
  predicate CanPost(chats: map<ChatId, Chat>, users: map<UserId, User>, u: UserId, id: ChatId)
  {
    id in chats && IsMember(chats[id], u) && !BlockedByMember(users, chats[id], u)
  }

  /** The writes and the emission that deliver one new message: create it,
      make it the chat's latest message, announce it to the chat's room. */
  function SendEffects(m: Message): seq<Effect>
  {
    [Stored(MessageCreated(m.id)), Stored(ChatUpdated(m.chat)), Emitted(ToRoom(ChatRoom(m.chat)), MessageReceived(m))]
  }

  /** Stores a new message, makes it its chat's latest and announces it to
      the chat's room, in that order. */
  method Deliver(db: Db, m: Message)
    requires db.Valid() && m.id == db.nextId && m.chat in db.chats && NotAfter(db.messages, m.createdAt)
    modifies db
    ensures db.Valid() && NotAfter(db.messages, m.createdAt)
    ensures db.messages == old(db.messages) + [m] && db.nextId == old(db.nextId) + 1
    ensures db.chats == old(db.chats)[m.chat := old(db.chats)[m.chat].(latestMessage := Some(m.id))]
    ensures db.log == old(db.log) + SendEffects(m)
    ensures db.users == old(db.users)
  {
    db.CreateMessage(m);
    db.PutChat(db.chats[m.chat].(latestMessage := Some(m.id)));
    db.Emit(ToRoom(ChatRoom(m.chat)), MessageReceived(m));
  }

  // ------------------------------------------------- allMessages

  /** The messages of chat `c` that `me` can see, oldest first. */
  function VisibleIn(ms: seq<Message>, c: ChatId, me: UserId): seq<Message>
  {
    Select(ms, (m: Message) => m.chat == c && !m.isDeleted && me !in m.deletedFor)
  }

  /** `allMessages` as written: the catch block turns the 404 and the 403 it
      has just set into 400. */
  function AllMessagesAsWritten(chats: map<ChatId, Chat>, ms: seq<Message>, me: UserId, c: ChatId): (r: Result<seq<Message>>)
    ensures r.Err? <==> c !in chats || !IsMember(chats[c], me)
    ensures r.Err? ==> r.status == BadRequest
    ensures r.Ok? ==> forall m :: m in r.value <==> m in ms && m.chat == c && !m.isDeleted && me !in m.deletedFor
  {
    if c !in chats then Err(BadRequest, "Chat not found")
    else if !IsMember(chats[c], me) then Err(BadRequest, "Not authorized to view this chat")
    else Ok(VisibleIn(ms, c, me))
  }

  /** `allMessages` with the statuses it sets kept: 404 for an unknown chat,
      403 for a non-member; otherwise the visible messages, in creation order. */
  function AllMessages(chats: map<ChatId, Chat>, ms: seq<Message>, me: UserId, c: ChatId): (r: Result<seq<Message>>)
    requires CreationOrdered(ms) && DistinctIds(ms)
    ensures c !in chats <==> r.Err? && r.status == NotFound
    ensures c in chats && !IsMember(chats[c], me) <==> r.Err? && r.status == Forbidden
    ensures r.Ok? ==> forall m :: m in r.value <==> m in ms && m.chat == c && !m.isDeleted && me !in m.deletedFor
    ensures r.Ok? ==> CreationOrdered(r.value) && DistinctIds(r.value)
  {
    SelectKeepsOrder(ms, (m: Message) => m.chat == c && !m.isDeleted && me !in m.deletedFor);
    if c !in chats then Err(NotFound, "Chat not found")
    else if !IsMember(chats[c], me) then Err(Forbidden, "Not authorized to view this chat")
    else Ok(VisibleIn(ms, c, me))
  }

  /** The two versions fail on the same requests and answer the others alike;
      only the status differs, and the written one never reports 404 or 403. */
  lemma AllMessagesStatusReset(chats: map<ChatId, Chat>, ms: seq<Message>, me: UserId, c: ChatId)
    requires CreationOrdered(ms) && DistinctIds(ms)
    ensures AllMessagesAsWritten(chats, ms, me, c).Err? == AllMessages(chats, ms, me, c).Err?
    ensures AllMessages(chats, ms, me, c).Ok? ==> AllMessagesAsWritten(chats, ms, me, c) == AllMessages(chats, ms, me, c)
    ensures c !in chats ==> AllMessagesAsWritten(chats, ms, me, c).status == BadRequest != AllMessages(chats, ms, me, c).status
  {
  }

  // ------------------------------------------------- sendMessage

  /** The message type `sendMessage` stores: text whenever there is text,
      otherwise decided by the upload's MIME type. */
  function TypeOf(content: string, file: Option<FileInfo>): (t: MessageType)
    ensures content != "" || file.None? ==> t == Text
    ensures content == "" && file.Some? ==>
      var mime := file.value.mimetype;
      && (t == Image <==> StartsWith(mime, "image/"))
      && (t == Video <==> !StartsWith(mime, "image/") && StartsWith(mime, "video/"))
      && (t == Audio <==> !StartsWith(mime, "image/") && !StartsWith(mime, "video/") && StartsWith(mime, "audio/"))
      && (t == Document <==> !StartsWith(mime, "image/") && !StartsWith(mime, "video/") && !StartsWith(mime, "audio/"))
  {
    if content != "" || file.None? then Text
    else if StartsWith(file.value.mimetype, "image/") then Image
    else if StartsWith(file.value.mimetype, "video/") then Video
    else if StartsWith(file.value.mimetype, "audio/") then Audio
    else Document
  }

  /** `POST /api/message`. `content` is "" when absent; `file` is the upload. */
  method SendMessage(db: Db, me: UserId, chatId: Option<ChatId>, content: string, file: Option<FileInfo>,
                     replyTo: Option<MessageId>, now: Time) returns (r: Result<Message>)
    requires db.Valid() && NotAfter(db.messages, now)
    modifies db
    ensures db.Valid()
    ensures chatId.None? ==> r.Err? && r.status == BadRequest
    ensures chatId.Some? && chatId.value !in old(db.chats) ==> r.Err? && r.status == NotFound
    ensures chatId.Some? && chatId.value in old(db.chats) && !CanPost(old(db.chats), old(db.users), me, chatId.value) ==>
      r.Err? && r.status == Forbidden
    ensures chatId.Some? && CanPost(old(db.chats), old(db.users), me, chatId.value) && content == "" && file.None? ==>
      r.Err? && r.status == BadRequest
    ensures r.Err? ==> unchanged(db)
    ensures r.Ok? <==> chatId.Some? && CanPost(old(db.chats), old(db.users), me, chatId.value) && (content != "" || file.Some?)
    ensures r.Ok? ==>
      var c := chatId.value;
      && r.value == NewMessage(old(db.nextId), me, c, now).(content := content, file := file, replyTo := replyTo,
                                                              messageType := TypeOf(content, file))
      && db.messages == old(db.messages) + [r.value]
      && db.chats == old(db.chats)[c := old(db.chats)[c].(latestMessage := Some(r.value.id))]
      && db.log == old(db.log) + SendEffects(r.value)
      && db.users == old(db.users)
  {
    if chatId.None? {
      return Err(BadRequest, "ChatId not found in request");
    }
    var c := chatId.value;
    if c !in db.chats {
      return Err(NotFound, "Chat not found");
    }
    if !IsMember(db.chats[c], me) {
      return Err(Forbidden, "Not authorized to send messages in this chat");
    }
    if BlockedByMember(db.users, db.chats[c], me) {
      return Err(Forbidden, "Cannot send message - you are blocked by one or more users");
    }
    if content == "" && file.None? {
      return Err(BadRequest, "Cannot send an empty message");
    }
    var m := NewMessage(db.nextId, me, c, now).(content := content, file := file, replyTo := replyTo,
                                                messageType := TypeOf(content, file));
    Deliver(db, m);
    r := Ok(m);
  }

  // ------------------------------------------------- forwardMessage

  /** The chats of `ids`, in order and with repeats, that the loop of
      `forwardMessage` does not skip. */
  function ForwardTargets(chats: map<ChatId, Chat>, users: map<UserId, User>, me: UserId, ids: seq<ChatId>): seq<ChatId>
    decreases |ids|
  {
    if ids == [] then []
    else
      var c := ids[|ids| - 1];
      ForwardTargets(chats, users, me, ids[..|ids| - 1]) + (if CanPost(chats, users, me, c) then [c] else [])
  }

  /** The targets are exactly the chats of the request that `me` may post
      to, and never more than were asked for. */
  lemma {:induction false} ForwardTargetsMembers(chats: map<ChatId, Chat>, users: map<UserId, User>, me: UserId, ids: seq<ChatId>)
    ensures forall c :: c in ForwardTargets(chats, users, me, ids) <==> c in ids && CanPost(chats, users, me, c)
    ensures |ForwardTargets(chats, users, me, ids)| <= |ids|
    decreases |ids|
  {
    if ids != [] {
      var front := ids[..|ids| - 1];
      ForwardTargetsMembers(chats, users, me, front);
      assert ids == front + [ids[|ids| - 1]];
    }
  }

  /** The copy of `original` that `me` forwards into chat `c`. */
  function ForwardCopy(original: Message, me: UserId, c: ChatId, id: MessageId, now: Time): Message
  {
    NewMessage(id, me, c, now).(content := original.content, file := original.file,
                                messageType := original.messageType, forwardedFrom := Some(original.id))
  }

  /** The copies sent to `targets`, with consecutive fresh ids from `base`. */
  function ForwardCopies(original: Message, me: UserId, targets: seq<ChatId>, base: nat, now: Time): (r: seq<Message>)
    ensures |r| == |targets|
    decreases |targets|
  {
    if targets == [] then []
    else
      var k := |targets| - 1;
      ForwardCopies(original, me, targets[..k], base, now) + [ForwardCopy(original, me, targets[k], base + k, now)]
  }

  /** Copy `j` goes to the `j`-th target and carries id `base + j`. */
  lemma {:induction false} ForwardCopiesAt(original: Message, me: UserId, targets: seq<ChatId>, base: nat, now: Time, j: nat)
    requires j < |targets|
    ensures ForwardCopies(original, me, targets, base, now)[j] == ForwardCopy(original, me, targets[j], base + j, now)
    decreases |targets|
  {
    var k := |targets| - 1;
    if j < k {
      ForwardCopiesAt(original, me, targets[..k], base, now, j);
    }
  }

  /** The effects of delivering `copies` one after another. */
  function DeliveryLog(copies: seq<Message>): seq<Effect>
    decreases |copies|
  {
    if copies == [] then [] else DeliveryLog(copies[..|copies| - 1]) + SendEffects(copies[|copies| - 1])
  }

  /** The chats after each copy has become its chat's latest message. */
  function WithLatest(chats: map<ChatId, Chat>, copies: seq<Message>): (r: map<ChatId, Chat>)
    requires forall m :: m in copies ==> m.chat in chats
    ensures r.Keys == chats.Keys
    ensures forall c :: c in chats ==> r[c] == chats[c].(latestMessage := r[c].latestMessage)
    decreases |copies|
  {
    if copies == [] then chats
    else
      var m := copies[|copies| - 1];
      var front := copies[..|copies| - 1];
      assert forall x :: x in front ==> x in copies;
      var before := WithLatest(chats, front);
      before[m.chat := before[m.chat].(latestMessage := Some(m.id))]
  }

  /** The id of the last copy sent to chat `c`, if any. */
  function LastCopyTo(copies: seq<Message>, c: ChatId): Option<MessageId>
    decreases |copies|
  {
    if copies == [] then None
    else if copies[|copies| - 1].chat == c then Some(copies[|copies| - 1].id)
    else LastCopyTo(copies[..|copies| - 1], c)
  }

  /** After forwarding, each target chat's latest message is the last copy it
      received; the other chats keep theirs. */
  lemma {:induction false} LatestIsLastCopy(chats: map<ChatId, Chat>, copies: seq<Message>, c: ChatId)
    requires forall m :: m in copies ==> m.chat in chats
    requires c in chats
    ensures WithLatest(chats, copies)[c].latestMessage ==
      if LastCopyTo(copies, c).Some? then LastCopyTo(copies, c) else chats[c].latestMessage
    decreases |copies|
  {
    if copies != [] {
      var front := copies[..|copies| - 1];
      assert forall x :: x in front ==> x in copies;
      LatestIsLastCopy(chats, front, c);
    }
  }

  lemma ForwardCopiesStep(original: Message, me: UserId, targets: seq<ChatId>, c: ChatId, base: nat, now: Time)
    ensures ForwardCopies(original, me, targets + [c], base, now) ==
      ForwardCopies(original, me, targets, base, now) + [ForwardCopy(original, me, c, base + |targets|, now)]
  {
    assert (targets + [c])[..|targets|] == targets;
  }

  /** The store after `Deliver(m)`. */
  function Delivered(st: Snapshot, m: Message): Snapshot
    requires m.chat in st.chats
  {
    st.(messages := st.messages + [m], nextId := st.nextId + 1,
        chats := st.chats[m.chat := st.chats[m.chat].(latestMessage := Some(m.id))],
        log := st.log + SendEffects(m))
  }

  /** The loop of `forwardMessage`, step by step: for each chat id in turn,
      looked up in the store as it is by then, deliver a copy or skip it.
      Yields the final store and the copies sent. */
  function ForwardRun(st: Snapshot, original: Message, me: UserId, ids: seq<ChatId>, now: Time): (Snapshot, seq<Message>)
    decreases |ids|
  {
    if ids == [] then (st, [])
    else
      var (st', sent) := ForwardRun(st, original, me, ids[..|ids| - 1], now);
      var c := ids[|ids| - 1];
      if CanPost(st'.chats, st'.users, me, c) then
        var copy := ForwardCopy(original, me, c, st'.nextId, now);
        (Delivered(st', copy), sent + [copy])
      else (st', sent)
  }

  /** One step of the loop, with the store and copies before it named. */
  lemma ForwardRunStep(st: Snapshot, original: Message, me: UserId, ids: seq<ChatId>, now: Time)
    requires ids != []
    ensures var prev := ForwardRun(st, original, me, ids[..|ids| - 1], now);
      var c := ids[|ids| - 1];
      var copy := ForwardCopy(original, me, c, prev.0.nextId, now);
      && (CanPost(prev.0.chats, prev.0.users, me, c) ==>
            ForwardRun(st, original, me, ids, now) == (Delivered(prev.0, copy), prev.1 + [copy]))
      && (!CanPost(prev.0.chats, prev.0.users, me, c) ==> ForwardRun(st, original, me, ids, now) == prev)
  {
  }

  /** Two stores with the same users and the same chats, up to latest messages. */
  predicate SameMembership(st: Snapshot, st': Snapshot)
  {
    && st'.users == st.users && st'.chats.Keys == st.chats.Keys
    && forall c :: c in st.chats ==> st'.chats[c].users == st.chats[c].users
  }

  /** The loop touches no membership and sends copies only to existing chats. */
  lemma {:induction false} ForwardRunMembership(st: Snapshot, original: Message, me: UserId, ids: seq<ChatId>, now: Time)
    ensures SameMembership(st, ForwardRun(st, original, me, ids, now).0)
    ensures forall m :: m in ForwardRun(st, original, me, ids, now).1 ==> m.chat in st.chats
    decreases |ids|
  {
    if ids != [] {
      ForwardRunMembership(st, original, me, ids[..|ids| - 1], now);
    }
  }

  lemma CanPostSameMembership(st: Snapshot, st': Snapshot, me: UserId, c: ChatId)
    requires SameMembership(st, st')
    ensures CanPost(st'.chats, st'.users, me, c) == CanPost(st.chats, st.users, me, c)
  {
  }

  /** Whether a chat may be posted to is the same before and after a run. */
  lemma ForwardRunCanPost(st: Snapshot, original: Message, me: UserId, ids: seq<ChatId>, now: Time, c: ChatId)
    ensures var st' := ForwardRun(st, original, me, ids, now).0;
      CanPost(st'.chats, st'.users, me, c) == CanPost(st.chats, st.users, me, c)
  {
    ForwardRunMembership(st, original, me, ids, now);
    CanPostSameMembership(st, ForwardRun(st, original, me, ids, now).0, me, c);
  }

  /** The copies sent: one per target in `ids`, repeats included, with
      consecutive fresh ids. */
  lemma {:induction false} ForwardRunCopies(st: Snapshot, original: Message, me: UserId, ids: seq<ChatId>, now: Time)
    ensures ForwardRun(st, original, me, ids, now).1 ==
      ForwardCopies(original, me, ForwardTargets(st.chats, st.users, me, ids), st.nextId, now)
    decreases |ids|
  {
    if ids != [] {
      var k := |ids| - 1;
      var c := ids[k];
      var front := ids[..k];
      ForwardRunCopies(st, original, me, front, now);
      ForwardRunCanPost(st, original, me, front, now, c);
      var targets1 := ForwardTargets(st.chats, st.users, me, front);
      if CanPost(st.chats, st.users, me, c) {
        ForwardRunNextId(st, original, me, front, now);
        ForwardCopiesStep(original, me, targets1, c, st.nextId, now);
      } else {
        assert targets1 + [] == targets1;
      }
    }
  }

  /** Each copy takes the next fresh id. */
  lemma {:induction false} ForwardRunNextId(st: Snapshot, original: Message, me: UserId, ids: seq<ChatId>, now: Time)
    ensures ForwardRun(st, original, me, ids, now).0.nextId == st.nextId + |ForwardRun(st, original, me, ids, now).1|
    decreases |ids|
  {
    if ids != [] {
      ForwardRunNextId(st, original, me, ids[..|ids| - 1], now);
    }
  }

  /** The loop appends the copies to the messages. */
  lemma {:induction false} ForwardRunMessages(st: Snapshot, original: Message, me: UserId, ids: seq<ChatId>, now: Time)
    ensures ForwardRun(st, original, me, ids, now).0.messages == st.messages + ForwardRun(st, original, me, ids, now).1
    decreases |ids|
  {
    if ids != [] {
      ForwardRunMessages(st, original, me, ids[..|ids| - 1], now);
    }
  }

  /** The loop makes each copy its chat's latest message, in order. */
  lemma {:induction false} ForwardRunChats(st: Snapshot, original: Message, me: UserId, ids: seq<ChatId>, now: Time)
    ensures forall m :: m in ForwardRun(st, original, me, ids, now).1 ==> m.chat in st.chats
    ensures ForwardRun(st, original, me, ids, now).0.chats == WithLatest(st.chats, ForwardRun(st, original, me, ids, now).1)
    decreases |ids|
  {
    ForwardRunMembership(st, original, me, ids, now);
    if ids != [] {
      var k := |ids| - 1;
      ForwardRunChats(st, original, me, ids[..k], now);
      ForwardRunStep(st, original, me, ids, now);
      var (st1, sent1) := ForwardRun(st, original, me, ids[..k], now);
      var c := ids[k];
      if CanPost(st1.chats, st1.users, me, c) {
        var copy := ForwardCopy(original, me, c, st1.nextId, now);
        var sent := sent1 + [copy];
        assert sent[..|sent| - 1] == sent1 && sent[|sent| - 1] == copy;
        assert WithLatest(st.chats, sent) == st1.chats[c := st1.chats[c].(latestMessage := Some(copy.id))];
      }
    }
  }

  /** The loop logs each delivery in order. */
  lemma {:induction false} ForwardRunLog(st: Snapshot, original: Message, me: UserId, ids: seq<ChatId>, now: Time)
    ensures ForwardRun(st, original, me, ids, now).0.log == st.log + DeliveryLog(ForwardRun(st, original, me, ids, now).1)
    decreases |ids|
  {
    if ids != [] {
      var k := |ids| - 1;
      ForwardRunLog(st, original, me, ids[..k], now);
      var (st1, sent1) := ForwardRun(st, original, me, ids[..k], now);
      var c := ids[k];
      if CanPost(st1.chats, st1.users, me, c) {
        var copy := ForwardCopy(original, me, c, st1.nextId, now);
        assert (sent1 + [copy])[..|sent1|] == sent1;
      }
    }
  }

  /** What the loop amounts to: one copy per chat of `ids` that `me` may
      post to (repeats included), with consecutive fresh ids, appended to the
      messages; each such chat's latest message set; the deliveries logged
      in order; nothing else touched. */
  lemma ForwardRunOutcome(st: Snapshot, original: Message, me: UserId, ids: seq<ChatId>, now: Time)
    ensures var (st', sent) := ForwardRun(st, original, me, ids, now);
      && sent == ForwardCopies(original, me, ForwardTargets(st.chats, st.users, me, ids), st.nextId, now)
      && (forall m :: m in sent ==> m.chat in st.chats)
      && st' == Snapshot(st.users, WithLatest(st.chats, sent), st.messages + sent, st.nextId + |sent|, st.log + DeliveryLog(sent))
  {
    ForwardRunCopies(st, original, me, ids, now);
    ForwardRunNextId(st, original, me, ids, now);
    ForwardRunMessages(st, original, me, ids, now);
    ForwardRunChats(st, original, me, ids, now);
    ForwardRunLog(st, original, me, ids, now);
    ForwardRunMembership(st, original, me, ids, now);
  }

  /** The loop of `forwardMessage`: for each chat id in turn, skip it unless
      `me` may post there, otherwise deliver a copy of `original`. */
  method DeliverCopies(db: Db, original: Message, me: UserId, ids: seq<ChatId>, now: Time) returns (sent: seq<Message>)
    requires db.Valid() && NotAfter(db.messages, now)
    modifies db
    ensures db.Valid() && NotAfter(db.messages, now)
    ensures (db.State(), sent) == ForwardRun(old(db.State()), original, me, ids, now)
  {
    sent := [];
    var k := 0;
    while k < |ids|
      invariant 0 <= k <= |ids|
      invariant db.Valid() && NotAfter(db.messages, now)
      invariant (db.State(), sent) == ForwardRun(old(db.State()), original, me, ids[..k], now)
    {
      var c := ids[k];
      assert ids[..k + 1][..k] == ids[..k];
      if CanPost(db.chats, db.users, me, c) {
        var copy := ForwardCopy(original, me, c, db.nextId, now);
        Deliver(db, copy);
        sent := sent + [copy];
      }
      k := k + 1;
    }
    assert ids[..k] == ids;
  }

  datatype Forwarded = Forwarded(forwardedTo: nat, messages: seq<Message>)

  /** `POST /api/message/forward`. `chatIds` is `None` when absent or not an array. */
  method ForwardMessage(db: Db, me: UserId, messageId: Option<MessageId>, chatIds: Option<seq<ChatId>>, now: Time)
    returns (r: Result<Forwarded>)
    requires db.Valid() && NotAfter(db.messages, now)
    modifies db
    ensures db.Valid()
    ensures messageId.None? || chatIds.None? || chatIds.value == [] ==> r.Err? && r.status == BadRequest
    ensures messageId.Some? && chatIds.Some? && chatIds.value != [] && FindMessage(old(db.messages), messageId.value).None? ==>
      r.Err? && r.status == NotFound
    ensures messageId.Some? && chatIds.Some? && chatIds.value != [] && FindMessage(old(db.messages), messageId.value).Some? ==>
      var original := old(db.messages)[FindMessage(old(db.messages), messageId.value).value];
      (r.Err? <==> !(original.chat in old(db.chats) && IsMember(old(db.chats)[original.chat], me)))
      && (r.Err? ==> r.status == Forbidden)
    ensures r.Err? ==> unchanged(db)
    ensures r.Ok? ==> messageId.Some? && chatIds.Some? && FindMessage(old(db.messages), messageId.value).Some?
    ensures r.Ok? ==>
      var i := FindMessage(old(db.messages), messageId.value).value;
      var original := old(db.messages)[i];
      var (st, sent) := ForwardRun(old(db.State()), original, me, chatIds.value, now);
      && i < |st.messages| && st.messages[i] == original
      && r.value == Forwarded(|sent|, sent)
      && db.State() == st.(messages := st.messages[i := original.(forwardCount := original.forwardCount + |sent|)],
                           log := st.log + [Stored(MessageUpdated(original.id))])
  {
    if messageId.None? || chatIds.None? || chatIds.value == [] {
      return Err(BadRequest, "Message ID and chat IDs are required");
    }
    var found := FindMessage(db.messages, messageId.value);
    if found.None? {
      return Err(NotFound, "Original message not found");
    }
    var i := found.value;
    var original := db.messages[i];
    if !(original.chat in db.chats && IsMember(db.chats[original.chat], me)) {
      return Err(Forbidden, "Not authorized to forward this message");
    }
    var sent := ForwardAndCount(db, original, i, me, chatIds.value, now);
    r := Ok(Forwarded(|sent|, sent));
  }

  /** The loop of `forwardMessage`, then `$inc` of the original's
      `forwardCount` by the number of copies made. */
  method ForwardAndCount(db: Db, original: Message, i: nat, me: UserId, ids: seq<ChatId>, now: Time)
    returns (sent: seq<Message>)
    requires db.Valid() && NotAfter(db.messages, now) && i < |db.messages| && db.messages[i] == original
    modifies db
    ensures db.Valid()
    ensures var (st, copies) := ForwardRun(old(db.State()), original, me, ids, now);
      && sent == copies && i < |st.messages| && st.messages[i] == original
      && db.State() == st.(messages := st.messages[i := original.(forwardCount := original.forwardCount + |sent|)],
                           log := st.log + [Stored(MessageUpdated(original.id))])
  {
    ForwardRunMessages(db.State(), original, me, ids, now);
    sent := DeliverCopies(db, original, me, ids, now);
    db.PutMessage(i, original.(forwardCount := original.forwardCount + |sent|));
  }

  // ------------------------------------------------- markMessagesAsRead

  /** `PUT /api/message/read`: every message of the chat that `me` did not
      send and has not read gets a read entry; the answer is how many. There is
      no check that the chat exists or that `me` belongs to it. */
  method MarkMessagesAsRead(db: Db, me: UserId, chatId: Option<ChatId>, now: Time) returns (r: Result<nat>)
    requires db.Valid()
    modifies db
    ensures db.Valid()
    ensures chatId.None? ==> r.Err? && r.status == BadRequest && unchanged(db)
    ensures chatId.Some? ==>
      && r == Ok(CountNeedsMarking(old(db.messages), chatId.value, me))
      && db.messages == MarkChatRead(old(db.messages), chatId.value, me, now)
      && db.log == old(db.log) + [Stored(ChatMessagesUpdated(chatId.value))]
      && db.users == old(db.users) && db.chats == old(db.chats)
  {
    if chatId.None? {
      return Err(BadRequest, "Chat ID is required");
    }
    var c := chatId.value;
    var count := CountNeedsMarking(db.messages, c, me);
    MarkedCountIsChanged(db.messages, c, me, now);
    db.PutMessagesOfChat(c, MarkChatRead(db.messages, c, me, now));
    r := Ok(count);
  }

  // ------------------------------------------------- reactions

  /** `POST /api/message/react`. An absent message id behaves as an unknown one. */
  method ReactToMessage(db: Db, me: UserId, messageId: MessageId, emoji: string, now: Time) returns (r: Result<Message>)
    requires db.Valid()
    modifies db
    ensures db.Valid()
    ensures emoji !in ValidEmojis ==> r.Err? && r.status == BadRequest
    ensures emoji in ValidEmojis && FindMessage(old(db.messages), messageId).None? ==> r.Err? && r.status == NotFound
    ensures emoji in ValidEmojis && FindMessage(old(db.messages), messageId).Some? ==>
      var m := old(db.messages)[FindMessage(old(db.messages), messageId).value];
      (r.Err? <==> !(m.chat in old(db.chats) && IsMember(old(db.chats)[m.chat], me)))
      && (r.Err? ==> r.status == Forbidden)
    ensures r.Err? ==> unchanged(db)
    ensures r.Ok? ==>
      var i := FindMessage(old(db.messages), messageId).value;
      var m := old(db.messages)[i];
      var e := ParseEmoji(emoji).value;
      && EmojiText(e) == emoji
      && r.value == AddReaction(m, me, e, now)
      && db.messages == old(db.messages)[i := r.value]
      && db.log == old(db.log) + [Stored(MessageUpdated(m.id)), Emitted(ToRoom(ChatRoom(m.chat)), ReactionAdded(m.id, me, e))]
      && db.users == old(db.users) && db.chats == old(db.chats)
  {
    var parsed := ParseEmoji(emoji);
    if parsed.None? {
      return Err(BadRequest, "Invalid emoji");
    }
    var found := FindMessage(db.messages, messageId);
    if found.None? {
      return Err(NotFound, "Message not found");
    }
    var i := found.value;
    var m := db.messages[i];
    if !(m.chat in db.chats && IsMember(db.chats[m.chat], me)) {
      return Err(Forbidden, "Not authorized");
    }
    var updated := AddReaction(m, me, parsed.value, now);
    db.PutMessage(i, updated);
    db.Emit(ToRoom(ChatRoom(m.chat)), ReactionAdded(m.id, me, parsed.value));
    r := Ok(updated);
  }

  /** `DELETE /api/message/react`: no membership check and no emission. */
  method RemoveReaction(db: Db, me: UserId, messageId: MessageId) returns (r: Result<Message>)
    requires db.Valid()
    modifies db
    ensures db.Valid()
    ensures r.Err? <==> FindMessage(old(db.messages), messageId).None?
    ensures r.Err? ==> r.status == NotFound && unchanged(db)
    ensures r.Ok? ==>
      var i := FindMessage(old(db.messages), messageId).value;
      && r.value == MessageModel.RemoveReaction(old(db.messages)[i], me)
      && db.messages == old(db.messages)[i := r.value]
      && db.log == old(db.log) + [Stored(MessageUpdated(r.value.id))]
      && db.users == old(db.users) && db.chats == old(db.chats)
  {
    var found := FindMessage(db.messages, messageId);
    if found.None? {
      return Err(NotFound, "Message not found");
    }
    var updated := MessageModel.RemoveReaction(db.messages[found.value], me);
    db.PutMessage(found.value, updated);
    r := Ok(updated);
  }

  // ------------------------------------------------- deletion

  /** `DELETE /api/message/:messageId`: only the sender may delete; the
      message is kept and flagged, and the chat's room is told. */
  method DeleteMessage(db: Db, me: UserId, messageId: MessageId) returns (r: Result<()>)
    requires db.Valid()
    modifies db
    ensures db.Valid()
    ensures FindMessage(old(db.messages), messageId).None? ==> r.Err? && r.status == NotFound
    ensures FindMessage(old(db.messages), messageId).Some? ==>
      (r.Err? <==> old(db.messages)[FindMessage(old(db.messages), messageId).value].sender != me)
    ensures r.Err? ==> unchanged(db)
    ensures FindMessage(old(db.messages), messageId).Some? && r.Err? ==> r.status == Forbidden
    ensures r.Ok? ==>
      var i := FindMessage(old(db.messages), messageId).value;
      var m := old(db.messages)[i];
      && db.messages == old(db.messages)[i := m.(isDeleted := true)]
      && db.log == old(db.log) + [Stored(MessageUpdated(m.id)), Emitted(ToRoom(ChatRoom(m.chat)), MessageDeleted(m.id, m.chat))]
      && db.users == old(db.users) && db.chats == old(db.chats)
  {
    var found := FindMessage(db.messages, messageId);
    if found.None? {
      return Err(NotFound, "Message not found");
    }
    var m := db.messages[found.value];
    if m.sender != me {
      return Err(Forbidden, "Not authorized to delete this message");
    }
    db.PutMessage(found.value, m.(isDeleted := true));
    db.Emit(ToRoom(ChatRoom(m.chat)), MessageDeleted(m.id, m.chat));
    r := Ok(());
  }

  /** `PUT /api/message/:messageId/deleteforme`: hides the message from `me`,
      writing only when it was not hidden already. */
  method DeleteMessageForMe(db: Db, me: UserId, messageId: MessageId) returns (r: Result<()>)
    requires db.Valid()
    modifies db
    ensures db.Valid()
    ensures r.Err? <==> FindMessage(old(db.messages), messageId).None?
    ensures r.Err? ==> r.status == NotFound && unchanged(db)
    ensures r.Ok? ==>
      var i := FindMessage(old(db.messages), messageId).value;
      var m := old(db.messages)[i];
      && db.messages == old(db.messages)[i := HideFor(m, me)]
      && db.log == old(db.log) + (if me in m.deletedFor then [] else [Stored(MessageUpdated(m.id))])
      && db.users == old(db.users) && db.chats == old(db.chats)
  {
    var found := FindMessage(db.messages, messageId);
    if found.None? {
      return Err(NotFound, "Message not found");
    }
    var m := db.messages[found.value];
    if me !in m.deletedFor {
      db.PutMessage(found.value, HideFor(m, me));
    } else {
      assert db.messages[found.value := HideFor(m, me)] == db.messages;
    }
    r := Ok(());
  }

  // ------------------------------------------------- getUnreadCount

  /** The chats `me` belongs to. */
  function MemberChatIds(chats: map<ChatId, Chat>, me: UserId): set<ChatId>
  {
    set c | c in chats && IsMember(chats[c], me)
  }

  /** `GET /api/message/unread`: the total of unread messages over the chats
      of `me`, and the chats with a positive count. */
  method GetUnreadCount(chats: map<ChatId, Chat>, ms: seq<Message>, me: UserId) returns (total: nat, perChat: seq<ChatUnread>)
    ensures total == CountUnreadIn(ms, MemberChatIds(chats, me), me)
    ensures forall e :: e in perChat ==>
      e.chatId in MemberChatIds(chats, me) && e.unreadCount == CountUnread(ms, e.chatId, me) && e.unreadCount > 0
    ensures forall c :: c in MemberChatIds(chats, me) && CountUnread(ms, c, me) > 0 ==>
      ChatUnread(c, CountUnread(ms, c, me)) in perChat
    ensures forall j, k :: 0 <= j < k < |perChat| ==> perChat[j].chatId != perChat[k].chatId
  {
    var ids := FindChats(chats, (c: Chat) => IsMember(c, me));
    var g := UnreadByChat(ms, ElementsOf(ids), me);
    total, perChat := SummarizeUnread(g, ids);
    assert ElementsOf(ids) == MemberChatIds(chats, me);
    SumCountsIsTotal(ms, g, ids, me);
    NonZeroEntriesSound(g, ids);
    forall i, j | 0 <= i < j < |ids|
      ensures ids[i] != ids[j]
    {
      NoDupDistinct(ids, i, j);
    }
    NonZeroEntriesDistinct(g, ids);
  }
}
