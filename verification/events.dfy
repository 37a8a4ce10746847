/** What the backend does to the outside world, in order: writes to the
    document store and socket.io emissions. Delivery itself is not modelled;
    an emission is recorded with its target and payload. */
module Events {
  import opened Common
  import opened MessageModel

  /** socket.io rooms: a chat's room and a user's personal room, each named
      by the document's id. */
  datatype Room = ChatRoom(chat: ChatId) | UserRoom(user: UserId)

  datatype Target =
    | ToRoom(room: Room)                         // io.to(room).emit(...)
    | ToRoomExcept(room: Room, except: SocketId) // socket.to(room).emit(...)
    | ToOthers(except: SocketId)                 // socket.broadcast.emit(...)
    | ToSocket(socket: SocketId)                 // socket.emit(...)

  /** The events the server emits, with their payloads. */
  datatype Event =
    | MessageReceived(message: Message)
    | ReactionAdded(messageId: MessageId, user: UserId, emoji: Emoji)
    | MessageDeleted(messageId: MessageId, chatId: ChatId)
    | ReadReceipt(messageId: MessageId, chatId: ChatId, readBy: UserId)
    | UserOnline(userId: UserId)
    | UserOffline(userId: UserId, lastSeen: Time)
    | Connected
    | OnlineUsers(userIds: seq<UserId>)

  /** The store writes, by the document (or set of documents) they touch. */
  datatype Write =
    | MessageCreated(messageId: MessageId)
    | MessageUpdated(messageId: MessageId)
    | ChatMessagesUpdated(chatId: ChatId)
    | ChatMessagesDeleted(chatId: ChatId)
    | ChatCreated(chatId: ChatId)
    | ChatUpdated(chatId: ChatId)
    | ChatDeleted(chatId: ChatId)
    | UserUpdated(userId: UserId)

  datatype Effect = Stored(write: Write) | Emitted(target: Target, event: Event)

  /** Effect `e` may follow `before`: a `message received` emission only once
      the message it carries has been created in the store. */
  predicate Announceable(before: seq<Effect>, e: Effect)
  {
    e.Emitted? && e.event.MessageReceived? ==> Stored(MessageCreated(e.event.message.id)) in before
  }

  /** Every `message received` in the log comes after the write that created
      its message: the log grows only by announceable effects. */
  ghost predicate PersistedFirst(log: seq<Effect>)
    decreases |log|
  {
    log == [] || (PersistedFirst(log[..|log| - 1]) && Announceable(log[..|log| - 1], log[|log| - 1]))
  }

  lemma PersistedFirstAppend(log: seq<Effect>, e: Effect)
    requires PersistedFirst(log) && Announceable(log, e)
    ensures PersistedFirst(log + [e])
  {
    assert (log + [e])[..|log|] == log;
  }

  /** The recursive invariant says, position by position, that each emission
      of a message comes after that message's creation. */
  lemma {:induction false} PersistedFirstEverywhere(log: seq<Effect>, i: nat)
    requires PersistedFirst(log) && i < |log|
    ensures Announceable(log[..i], log[i])
    decreases |log|
  {
    if i < |log| - 1 {
      var front := log[..|log| - 1];
      PersistedFirstEverywhere(front, i);
      assert front[..i] == log[..i] && front[i] == log[i];
    }
  }
}
