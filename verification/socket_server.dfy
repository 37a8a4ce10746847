/** The socket.io handlers of server.js that touch state: `setup`,
    `disconnect`, `get online users` and `message read`. Each handler runs for
    the connection `socket`; room joins and the relays that only forward a
    client's payload are not part of this model. */
module SocketServer {
  import opened Common
  import opened UserModel
  import opened MessageModel
  import opened Events
  import opened Store
  import opened Presence

  /** `setup`: without a user id nothing happens. Otherwise the registry maps
      the user to this socket (replacing an earlier one), the user's document
      is marked online when it exists, the others hear `user online`, and the
      socket hears `connected`. */
  method Setup(db: Db, reg: Registry, socket: SocketId, userId: Option<UserId>)
    requires db.Valid() && reg.Valid()
    modifies db, reg
    ensures db.Valid() && reg.Valid()
    ensures userId.None? ==> unchanged(db) && unchanged(reg)
    ensures userId.Some? ==>
      var u := userId.value;
      && reg.sockets == old(reg.sockets)[u := socket]
      && reg.order == OrderAfterSet(old(reg.order), old(reg.sockets), u)
      && db.chats == old(db.chats) && db.messages == old(db.messages) && db.nextId == old(db.nextId)
      && (u in old(db.users) ==>
            && db.users == old(db.users)[u := old(db.users)[u].(isOnline := true)]
            && db.log == old(db.log) + [Stored(UserUpdated(u)), Emitted(ToOthers(socket), UserOnline(u)),
                                        Emitted(ToSocket(socket), Connected)])
      && (u !in old(db.users) ==>
            && db.users == old(db.users)
            && db.log == old(db.log) + [Emitted(ToOthers(socket), UserOnline(u)), Emitted(ToSocket(socket), Connected)])
  {
    if userId.None? {
      return;
    }
    var u := userId.value;
    reg.Set(u, socket);
    AnnounceOnline(db, socket, u);
  }

  /** The store side of `setup`: `User.findByIdAndUpdate(u, {isOnline: true})`
      (an unknown id updates nothing), then `user online` to every other
      socket and `connected` to this one. */
  method AnnounceOnline(db: Db, socket: SocketId, u: UserId)
    requires db.Valid()
    modifies db
    ensures db.Valid()
    ensures db.chats == old(db.chats) && db.messages == old(db.messages) && db.nextId == old(db.nextId)
    ensures u in old(db.users) ==>
      && db.users == old(db.users)[u := old(db.users)[u].(isOnline := true)]
      && db.log == old(db.log) + [Stored(UserUpdated(u)), Emitted(ToOthers(socket), UserOnline(u)),
                                  Emitted(ToSocket(socket), Connected)]
    ensures u !in old(db.users) ==>
      && db.users == old(db.users)
      && db.log == old(db.log) + [Emitted(ToOthers(socket), UserOnline(u)), Emitted(ToSocket(socket), Connected)]
  {
    if u in db.users {
      db.PutUser(db.users[u].(isOnline := true));
    }
    db.Emit(ToOthers(socket), UserOnline(u));
    db.Emit(ToSocket(socket), Connected);
  }

  /** The update `setup` sends to the store is `setOnlineStatus(true)`. */
  lemma SetupMarksOnline(u: User, now: Time)
    ensures u.(isOnline := true) == SetOnlineStatus(u, true, now)
  {
  }

  /** `disconnect`: the first registry entry holding this socket is removed;
      when there was one and its user exists, the user is saved offline with
      `lastSeen` now, and then the others hear `user offline` with that time.
      A socket nobody holds changes nothing. */
  method Disconnect(db: Db, reg: Registry, socket: SocketId, now: Time)
    requires db.Valid() && reg.Valid()
    modifies db, reg
    ensures db.Valid() && reg.Valid()
    ensures var who := Holder(old(reg.order), old(reg.sockets), socket);
      && (who.None? ==> unchanged(db) && reg.sockets == old(reg.sockets) && reg.order == old(reg.order))
      && (who.Some? ==>
            && reg.sockets == old(reg.sockets) - {who.value} && reg.order == RemoveAll(old(reg.order), who.value))
      && (who.Some? && who.value !in old(db.users) ==> unchanged(db))
      && (who.Some? && who.value in old(db.users) ==>
            && db.users == old(db.users)[who.value := SetOnlineStatus(old(db.users)[who.value], false, now)]
            && db.log == old(db.log) + [Stored(UserUpdated(who.value)), Emitted(ToOthers(socket), UserOffline(who.value, now))]
            && db.chats == old(db.chats) && db.messages == old(db.messages) && db.nextId == old(db.nextId))
  {
    var who := reg.TakeSocket(socket);
    if who.Some? && who.value in db.users {
      var u := SetOnlineStatus(db.users[who.value], false, now);
      db.PutUser(u);
      db.Emit(ToOthers(socket), UserOffline(who.value, u.lastSeen));
    }
  }

  /** `get online users`: the socket hears every connected user, once each. */
  method GetOnlineUsers(db: Db, reg: Registry, socket: SocketId)
    requires db.Valid() && reg.Valid()
    modifies db
    ensures db.Valid()
    ensures db.log == old(db.log) + [Emitted(ToSocket(socket), OnlineUsers(reg.OnlineUsers()))]
    ensures db.users == old(db.users) && db.chats == old(db.chats) && db.messages == old(db.messages) && db.nextId == old(db.nextId)
  {
    var ids := reg.OnlineUsers();
    db.Emit(ToSocket(socket), OnlineUsers(ids));
  }

  /** `message read`: a reader not yet in `readBy` is appended once and the
      sender's personal room (but not this socket) hears the receipt, with the
      chat id the client sent. An unknown message or a reader already listed
      changes nothing. */
  method MessageRead(db: Db, socket: SocketId, chatId: ChatId, messageId: MessageId, userId: UserId, now: Time)
    requires db.Valid()
    modifies db
    ensures db.Valid()
    ensures var found := FindMessage(old(db.messages), messageId);
      && (found.None? || HasUserRead(old(db.messages)[found.value], userId) ==> unchanged(db))
      && (found.Some? && !HasUserRead(old(db.messages)[found.value], userId) ==>
            var m := old(db.messages)[found.value];
            && db.messages == old(db.messages)[found.value := MarkReadBy(m, userId, now)]
            && db.log == old(db.log) + [Stored(MessageUpdated(messageId)),
                                        Emitted(ToRoomExcept(UserRoom(m.sender), socket), ReadReceipt(messageId, chatId, userId))]
            && db.users == old(db.users) && db.chats == old(db.chats) && db.nextId == old(db.nextId))
  {
    var found := FindMessage(db.messages, messageId);
    if found.Some? {
      var m := db.messages[found.value];
      if !HasUserRead(m, userId) {
        db.PutMessage(found.value, MarkReadBy(m, userId, now));
        db.Emit(ToRoomExcept(UserRoom(m.sender), socket), ReadReceipt(messageId, chatId, userId));
      }
    }
  }
}
