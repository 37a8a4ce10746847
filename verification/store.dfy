/** The document store the handlers read and write, in memory: users and chats
    by id, messages in the order they were created, and the log of effects
    (store writes and socket emissions) in the order they happened. */
module Store {
  import opened Common
  import opened UserModel
  import opened ChatModel
  import opened MessageModel
  import opened Events

  // ------------------------------------------------- the message collection

  ghost predicate DistinctIds(ms: seq<Message>)
  {
    forall i, j :: 0 <= i < j < |ms| ==> ms[i].id != ms[j].id
  }

  ghost predicate IdsBelow(ms: seq<Message>, n: nat)
  {
    forall i :: 0 <= i < |ms| ==> ms[i].id < n
  }

  /** Messages are kept in `createdAt` order, which is creation order. */
  ghost predicate CreationOrdered(ms: seq<Message>)
  {
    forall i, j :: 0 <= i < j < |ms| ==> ms[i].createdAt <= ms[j].createdAt
  }

  /** No message was created after `now`. */
  ghost predicate NotAfter(ms: seq<Message>, now: Time)
  {
    forall i :: 0 <= i < |ms| ==> ms[i].createdAt <= now
  }

  /** `Message.findById(id)`: the position of the message with that id. */
  function FindMessage(ms: seq<Message>, id: MessageId): (r: Option<nat>)
    ensures r.Some? ==> r.value < |ms| && ms[r.value].id == id
    ensures r.None? ==> forall i :: 0 <= i < |ms| ==> ms[i].id != id
    decreases |ms|
  {
    if ms == [] then None
    else if ms[|ms| - 1].id == id then Some(|ms| - 1)
    else FindMessage(ms[..|ms| - 1], id)
  }

  /** A filter over the collection (`Message.find(filter)`), keeping order. */
  function Select(ms: seq<Message>, keep: Message -> bool): (r: seq<Message>)
    ensures forall m :: m in r <==> m in ms && keep(m)
    ensures |r| <= |ms|
    decreases |ms|
  {
    if ms == [] then []
    else (if keep(ms[0]) then [ms[0]] else []) + Select(ms[1..], keep)
  }

  /** A filter keeps the collection's order and its distinct ids. */
  lemma SelectKeepsOrder(ms: seq<Message>, keep: Message -> bool)
    requires CreationOrdered(ms) && DistinctIds(ms)
    ensures CreationOrdered(Select(ms, keep)) && DistinctIds(Select(ms, keep))
  {
    SelectOrdered(ms, keep);
    SelectDistinct(ms, keep);
  }

  lemma {:induction false} SelectOrdered(ms: seq<Message>, keep: Message -> bool)
    requires CreationOrdered(ms)
    ensures CreationOrdered(Select(ms, keep))
    decreases |ms|
  {
    if ms != [] {
      var tail := ms[1..];
      SelectOrdered(tail, keep);
      SelectAtLeast(tail, keep, ms[0].createdAt);
    }
  }

  /** A lower bound on every creation time survives the filter. */
  lemma {:induction false} SelectAtLeast(ms: seq<Message>, keep: Message -> bool, t: Time)
    requires forall i | 0 <= i < |ms| :: t <= ms[i].createdAt
    ensures forall k | 0 <= k < |Select(ms, keep)| :: t <= Select(ms, keep)[k].createdAt
    decreases |ms|
  {
    if ms != [] {
      SelectAtLeast(ms[1..], keep, t);
    }
  }

  lemma {:induction false} SelectDistinct(ms: seq<Message>, keep: Message -> bool)
    requires DistinctIds(ms)
    ensures DistinctIds(Select(ms, keep))
    decreases |ms|
  {
    if ms != [] {
      var tail := ms[1..];
      SelectDistinct(tail, keep);
      forall m | m in Select(tail, keep)
        ensures ms[0].id != m.id
      {
        var j :| 0 <= j < |tail| && tail[j] == m;
        assert ms[j + 1] == m;
      }
    }
  }

  /** The messages of every chat but `c` (`Message.deleteMany({chat: c})`). */
  function DropChat(ms: seq<Message>, c: ChatId): (r: seq<Message>)
    ensures forall m :: m in r <==> m in ms && m.chat != c
  {
    Select(ms, (m: Message) => m.chat != c)
  }

  /** `Chat.find(filter)` over the chat collection: the ids of the chats that
      satisfy `keep`, each once, in no particular order. */
  method FindChats(chats: map<ChatId, Chat>, keep: Chat -> bool) returns (ids: seq<ChatId>)
    ensures NoDup(ids)
    ensures forall c :: c in ids <==> c in chats && keep(chats[c])
  {
    ids := [];
    var rest := chats.Keys;
    while rest != {}
      invariant rest <= chats.Keys
      invariant NoDup(ids)
      invariant forall c :: c in ids ==> c !in rest
      invariant forall c :: c in ids <==> c in chats && c !in rest && keep(chats[c])
      decreases |rest|
    {
      var c :| c in rest;
      if keep(chats[c]) {
        ids := ids + [c];
      }
      rest := rest - {c};
    }
  }

  // ------------------------------------------------- the store

  /** The whole store as a value: what a sequence of handler steps is
      specified over. */
  datatype Snapshot = Snapshot(users: map<UserId, User>, chats: map<ChatId, Chat>, messages: seq<Message>,
                               nextId: nat, log: seq<Effect>)

  class Db {
    var users: map<UserId, User>
    var chats: map<ChatId, Chat>
    var messages: seq<Message>
    /** The next fresh ObjectId for a chat or a message. */
    var nextId: nat
    var log: seq<Effect>

    ghost predicate Valid()
      reads this
    {
      && (forall u | u in users :: users[u].id == u && StatusValid(users[u]))
      && (forall c | c in chats :: chats[c].id == c && c < nextId && DescriptionValid(chats[c]))
      && IdsBelow(messages, nextId) && DistinctIds(messages) && CreationOrdered(messages)
      && PersistedFirst(log)
    }

    /** The store's current contents. */
    function State(): Snapshot
      reads this
    {
      Snapshot(users, chats, messages, nextId, log)
    }

    /** A store holding only users (accounts are made elsewhere). */
    constructor (accounts: map<UserId, User>, firstId: nat)
      requires forall u | u in accounts :: accounts[u].id == u && StatusValid(accounts[u])
      ensures Valid()
      ensures users == accounts && chats == map[] && messages == [] && log == [] && nextId == firstId
    {
      users, chats, messages, nextId, log := accounts, map[], [], firstId, [];
    }

    /** `Message.create(m)` with the next fresh id. */
    method CreateMessage(m: Message)
      requires Valid() && m.id == nextId && NotAfter(messages, m.createdAt)
      modifies this
      ensures Valid()
      ensures messages == old(messages) + [m] && nextId == old(nextId) + 1
      ensures log == old(log) + [Stored(MessageCreated(m.id))]
      ensures users == old(users) && chats == old(chats)
    {
      PersistedFirstAppend(log, Stored(MessageCreated(m.id)));
      messages := messages + [m];
      nextId := nextId + 1;
      log := log + [Stored(MessageCreated(m.id))];
    }

    /** `message.save()` of the message at position `i`. */
    method PutMessage(i: nat, m: Message)
      requires Valid() && i < |messages|
      requires m.id == messages[i].id && m.createdAt == messages[i].createdAt
      modifies this
      ensures Valid()
      ensures messages == old(messages)[i := m]
      ensures log == old(log) + [Stored(MessageUpdated(m.id))]
      ensures users == old(users) && chats == old(chats) && nextId == old(nextId)
    {
      PersistedFirstAppend(log, Stored(MessageUpdated(m.id)));
      ghost var before := messages;
      messages := messages[i := m];
      assert forall j :: 0 <= j < |messages| ==> messages[j].id == before[j].id && messages[j].createdAt == before[j].createdAt;
      log := log + [Stored(MessageUpdated(m.id))];
    }

    /** `Message.updateMany({chat: c, ...}, ...)`: the chat's messages rewritten
        in place, positions, ids and creation times kept. */
    method PutMessagesOfChat(c: ChatId, ms: seq<Message>)
      requires Valid() && |ms| == |messages|
      requires forall i :: 0 <= i < |ms| ==> ms[i].id == messages[i].id && ms[i].createdAt == messages[i].createdAt
      modifies this
      ensures Valid()
      ensures messages == ms
      ensures log == old(log) + [Stored(ChatMessagesUpdated(c))]
      ensures users == old(users) && chats == old(chats) && nextId == old(nextId)
    {
      PersistedFirstAppend(log, Stored(ChatMessagesUpdated(c)));
      messages := ms;
      log := log + [Stored(ChatMessagesUpdated(c))];
    }

    /** `Message.deleteMany({chat: c})`. */
    method DeleteMessagesOfChat(c: ChatId)
      requires Valid()
      modifies this
      ensures Valid()
      ensures messages == DropChat(old(messages), c)
      ensures log == old(log) + [Stored(ChatMessagesDeleted(c))]
      ensures users == old(users) && chats == old(chats) && nextId == old(nextId)
    {
      SelectKeepsOrder(messages, (m: Message) => m.chat != c);
      PersistedFirstAppend(log, Stored(ChatMessagesDeleted(c)));
      messages := DropChat(messages, c);
      forall i | 0 <= i < |messages|
        ensures messages[i].id < nextId
      {
        assert messages[i] in old(messages);
      }
      log := log + [Stored(ChatMessagesDeleted(c))];
    }

    /** `Chat.create(c)` with the next fresh id. */
    method CreateChat(c: Chat)
      requires Valid() && c.id == nextId && DescriptionValid(c)
      modifies this
      ensures Valid()
      ensures chats == old(chats)[c.id := c] && nextId == old(nextId) + 1
      ensures log == old(log) + [Stored(ChatCreated(c.id))]
      ensures users == old(users) && messages == old(messages)
    {
      PersistedFirstAppend(log, Stored(ChatCreated(c.id)));
      chats := chats[c.id := c];
      nextId := nextId + 1;
      log := log + [Stored(ChatCreated(c.id))];
    }

    /** `chat.save()` or `Chat.findByIdAndUpdate` of an existing chat. */
    method PutChat(c: Chat)
      requires Valid() && c.id in chats && DescriptionValid(c)
      modifies this
      ensures Valid()
      ensures chats == old(chats)[c.id := c]
      ensures log == old(log) + [Stored(ChatUpdated(c.id))]
      ensures users == old(users) && messages == old(messages) && nextId == old(nextId)
    {
      PersistedFirstAppend(log, Stored(ChatUpdated(c.id)));
      chats := chats[c.id := c];
      log := log + [Stored(ChatUpdated(c.id))];
    }

    /** `Chat.findByIdAndDelete(id)`. */
    method RemoveChat(id: ChatId)
      requires Valid()
      modifies this
      ensures Valid()
      ensures chats == old(chats) - {id}
      ensures log == old(log) + [Stored(ChatDeleted(id))]
      ensures users == old(users) && messages == old(messages) && nextId == old(nextId)
    {
      PersistedFirstAppend(log, Stored(ChatDeleted(id)));
      chats := chats - {id};
      log := log + [Stored(ChatDeleted(id))];
    }

    /** `user.save()` of an existing user; the schema validation is the caller's check. */
    method PutUser(u: User)
      requires Valid() && u.id in users && StatusValid(u)
      modifies this
      ensures Valid()
      ensures users == old(users)[u.id := u]
      ensures log == old(log) + [Stored(UserUpdated(u.id))]
      ensures chats == old(chats) && messages == old(messages) && nextId == old(nextId)
    {
      PersistedFirstAppend(log, Stored(UserUpdated(u.id)));
      users := users[u.id := u];
      log := log + [Stored(UserUpdated(u.id))];
    }

    /** A socket.io emission. A message may be announced only once it exists. */
    method Emit(target: Target, event: Event)
      requires Valid() && Announceable(log, Emitted(target, event))
      modifies this
      ensures Valid()
      ensures log == old(log) + [Emitted(target, event)]
      ensures users == old(users) && chats == old(chats) && messages == old(messages) && nextId == old(nextId)
    {
      PersistedFirstAppend(log, Emitted(target, event));
      log := log + [Emitted(target, event)];
    }
  }
}
