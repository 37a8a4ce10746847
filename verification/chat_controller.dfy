/** The chat handlers (controllers/chatController.js): find-or-create of
    one-to-one chats, the chat list, group creation and administration, and
    the per-user mute and archive toggles. */
module ChatController {
  import opened Common
  import opened UserModel
  import opened ChatModel
  import opened MessageModel
  import opened Events
  import opened Store
  import opened ReadState

  // ------------------------------------------------- accessChat

  /** The query of `accessChat`: a one-to-one chat holding both users. */
  predicate DirectChatOf(c: Chat, me: UserId, other: UserId)
  {
    !c.isGroupChat && IsMember(c, me) && IsMember(c, other)
  }

  /** With `userId == me` the query asks only for some one-to-one chat of
      `me`: every chat `me` shares with any user `w` answers it. */
  lemma DirectChatWithSelf(c: Chat, me: UserId)
    ensures DirectChatOf(c, me, me) <==> !c.isGroupChat && me in c.users
    ensures forall w :: DirectChatOf(c, me, w) ==> DirectChatOf(c, me, me)
  {
    IsMemberIsMembership(c, me);
  }

  /** A chat as the handlers return it, with the caller's unread count. */
  datatype ChatWithUnread = ChatWithUnread(chat: Chat, unreadCount: nat)

  /** `Chat.find(...)` for one-to-one chats of the two users, taking the first. */
  method FindDirectChat(chats: map<ChatId, Chat>, me: UserId, other: UserId) returns (found: Option<ChatId>)
    ensures found.Some? ==> found.value in chats && DirectChatOf(chats[found.value], me, other)
    ensures found.None? ==> forall c | c in chats :: !DirectChatOf(chats[c], me, other)
  {
    var ids := FindChats(chats, (c: Chat) => DirectChatOf(c, me, other));
    if ids == [] {
      found := None;
    } else {
      assert ids[0] in ids;
      found := Some(ids[0]);
    }
  }

  /** `POST /api/chat`: the one-to-one chat of `me` and `userId`, created
      with users `[me, userId]` when there is none yet. */
  method AccessChat(db: Db, me: UserId, userId: Option<UserId>) returns (r: Result<ChatWithUnread>)
    requires db.Valid() && me in db.users
    modifies db
    ensures db.Valid()
    ensures userId.None? ==> r.Err? && r.status == BadRequest
    ensures userId.Some? && userId.value !in old(db.users) ==> r.Err? && r.status == NotFound
    ensures userId.Some? && userId.value in old(db.users) && BlockedEitherWay(old(db.users)[me], old(db.users)[userId.value]) ==>
      r.Err? && r.status == Forbidden
    ensures r.Ok? <==>
      userId.Some? && userId.value in old(db.users) && !BlockedEitherWay(old(db.users)[me], old(db.users)[userId.value])
    ensures r.Err? ==> unchanged(db)
    ensures r.Ok? && (exists c | c in old(db.chats) :: DirectChatOf(old(db.chats)[c], me, userId.value)) ==>
      var id := r.value.chat.id;
      && id in old(db.chats) && r.value.chat == old(db.chats)[id] && DirectChatOf(r.value.chat, me, userId.value)
      && r.value.unreadCount == CountUnreadIgnoringHidden(old(db.messages), id, me)
      && unchanged(db)
    ensures r.Ok? && (forall c | c in old(db.chats) :: !DirectChatOf(old(db.chats)[c], me, userId.value)) ==>
      && r.value == ChatWithUnread(NewChat(old(db.nextId), "sender", [me, userId.value]), 0)
      && db.chats == old(db.chats)[old(db.nextId) := r.value.chat] && db.nextId == old(db.nextId) + 1
      && db.log == old(db.log) + [Stored(ChatCreated(old(db.nextId)))]
      && db.users == old(db.users) && db.messages == old(db.messages)
  {
    if userId.None? {
      return Err(BadRequest, "UserId param not sent with request");
    }
    var other := userId.value;
    if other !in db.users {
      return Err(NotFound, "User not found");
    }
    if HasBlocked(db.users[me], other) || HasBlocked(db.users[other], me) {
      return Err(Forbidden, "Cannot chat with this user");
    }
    var found := FindDirectChat(db.chats, me, other);
    if found.Some? {
      var c := db.chats[found.value];
      r := Ok(ChatWithUnread(c, CountUnreadIgnoringHidden(db.messages, c.id, me)));
    } else {
      var c := NewChat(db.nextId, "sender", [me, other]);
      db.CreateChat(c);
      r := Ok(ChatWithUnread(c, 0));
    }
  }

  // ------------------------------------------------- fetchChats

  /** A chat of the list, with the caller's unread count and mute flag. */
  datatype ChatListing = ChatListing(chat: Chat, unreadCount: nat, isMuted: bool)

  /** The chats `fetchChats` lists: those `me` belongs to and has not archived. */
  predicate Listed(c: Chat, me: UserId)
  {
    IsMember(c, me) && me !in c.archivedBy
  }

  /** `GET /api/chat`: every chat of `me` not archived by `me`, once each,
      with the number of messages unread by `me` in it and whether `me` muted it. */
  method FetchChats(chats: map<ChatId, Chat>, ms: seq<Message>, me: UserId) returns (listing: seq<ChatListing>)
    requires forall c | c in chats :: chats[c].id == c
    ensures forall k :: 0 <= k < |listing| ==>
      var l := listing[k];
      && l.chat.id in chats && chats[l.chat.id] == l.chat && Listed(l.chat, me)
      && l.unreadCount == CountUnread(ms, l.chat.id, me)
      && (l.isMuted <==> me in l.chat.mutedBy)
    ensures forall c | c in chats && Listed(chats[c], me) :: exists k :: 0 <= k < |listing| && listing[k].chat.id == c
    ensures forall j, k :: 0 <= j < k < |listing| ==> listing[j].chat.id != listing[k].chat.id
  {
    var ids := FindChats(chats, (c: Chat) => Listed(c, me));
    var g := UnreadByChat(ms, ElementsOf(ids), me);
    listing := seq(|ids|, k requires 0 <= k < |ids| =>
      ChatListing(chats[ids[k]], CountOrZero(g, ids[k]), me in chats[ids[k]].mutedBy));
    forall k | 0 <= k < |ids|
      ensures chats[ids[k]].id == ids[k] && CountOrZero(g, ids[k]) == CountUnread(ms, ids[k], me)
    {
      assert ids[k] in ids;
      CountOrZeroIsCount(ms, ElementsOf(ids), me, ids[k]);
    }
    forall c | c in chats && Listed(chats[c], me)
      ensures exists k :: 0 <= k < |listing| && listing[k].chat.id == c
    {
      var k :| 0 <= k < |ids| && ids[k] == c;
      assert listing[k].chat.id == c;
    }
    forall j, k | 0 <= j < k < |listing|
      ensures listing[j].chat.id != listing[k].chat.id
    {
      NoDupDistinct(ids, j, k);
    }
  }

  // ------------------------------------------------- createGroupChat

  /** A requested user may join a group of `me`: the user exists and neither
      has blocked the other. */
  predicate Invitable(users: map<UserId, User>, me: UserId, u: UserId)
    requires me in users
  {
    u in users && !HasBlocked(users[me], u) && !HasBlocked(users[u], me)
  }

  /** The requested users that pass the check, in request order, repeats kept. */
  function Invitees(users: map<UserId, User>, me: UserId, requested: seq<UserId>): seq<UserId>
    requires me in users
    decreases |requested|
  {
    if requested == [] then []
    else
      var k := |requested| - 1;
      Invitees(users, me, requested[..k]) + (if Invitable(users, me, requested[k]) then [requested[k]] else [])
  }

  /** The users kept are exactly the requested ones that pass, and never
      more than were asked for. */
  lemma {:induction false} InviteesMembers(users: map<UserId, User>, me: UserId, requested: seq<UserId>)
    requires me in users
    ensures forall u :: u in Invitees(users, me, requested) <==> u in requested && Invitable(users, me, u)
    ensures |Invitees(users, me, requested)| <= |requested|
    decreases |requested|
  {
    if requested != [] {
      var k := |requested| - 1;
      InviteesMembers(users, me, requested[..k]);
      assert requested == requested[..k] + [requested[k]];
    }
  }

  /** When every requested user passes, the members are the request as given. */
  lemma {:induction false} InviteesAllPass(users: map<UserId, User>, me: UserId, requested: seq<UserId>)
    requires me in users
    requires forall i :: 0 <= i < |requested| ==> Invitable(users, me, requested[i])
    ensures Invitees(users, me, requested) == requested
    decreases |requested|
  {
    if requested != [] {
      var k := |requested| - 1;
      var front := requested[..k];
      assert forall i :: 0 <= i < |front| ==> front[i] == requested[i];
      InviteesAllPass(users, me, front);
      assert Invitable(users, me, requested[k]);
      assert requested == front + [requested[k]];
    }
  }

  /** The loop of `createGroupChat` that collects `validUsers`. */
  method CollectInvitees(users: map<UserId, User>, me: UserId, requested: seq<UserId>) returns (valid: seq<UserId>)
    requires me in users
    ensures valid == Invitees(users, me, requested)
  {
    valid := [];
    var k := 0;
    while k < |requested|
      invariant 0 <= k <= |requested|
      invariant valid == Invitees(users, me, requested[..k])
    {
      assert requested[..k + 1][..k] == requested[..k];
      var u := requested[k];
      if u in users && !HasBlocked(users[me], u) && !HasBlocked(users[u], me) {
        valid := valid + [u];
      }
      k := k + 1;
    }
    assert requested[..k] == requested;
  }

  /** The group document `Chat.create` stores; an empty description is none. */
  function GroupChat(id: ChatId, name: string, members: seq<UserId>, admin: UserId,
                     description: string, image: Option<string>): Chat
  {
    Chat(id, name, true, members, None, Some(admin), image,
         if description == "" then None else Some(description), [], [])
  }

  /** The group `createGroupChat` makes: `me` is its admin and last member,
      and the other members are exactly the requested users that pass. */
  lemma CreatedGroup(users: map<UserId, User>, me: UserId, requested: seq<UserId>, id: ChatId, name: string,
                     description: string, image: Option<string>)
    requires me in users
    ensures var c := GroupChat(id, name, Invitees(users, me, requested) + [me], me, description, image);
      && c.isGroupChat && IsAdmin(c, me) && IsMember(c, me) && c.users[|c.users| - 1] == me
      && (forall u :: u != me ==> (IsMember(c, u) <==> u in requested && Invitable(users, me, u)))
      && (Utf16Length(description) <= MaxDescriptionLength ==> DescriptionValid(c))
  {
    var c := GroupChat(id, name, Invitees(users, me, requested) + [me], me, description, image);
    InviteesMembers(users, me, requested);
    assert c.users[|c.users| - 1] == me;
    forall u | u != me
      ensures IsMember(c, u) <==> u in requested && Invitable(users, me, u)
    {
      IsMemberIsMembership(c, u);
    }
  }

  /** When no requested user passes, the group still gets created, with its
      creator as the only member. */
  lemma CreatorAloneWhenNoneInvitable(users: map<UserId, User>, me: UserId, requested: seq<UserId>)
    requires me in users
    requires forall u :: u in requested ==> u !in users
    ensures Invitees(users, me, requested) + [me] == [me]
  {
    InviteesMembers(users, me, requested);
  }

  /** `POST /api/chat/group`. `name` is "" and `requested` is None when the
      field is missing; `description` is "" when absent; `image` is the upload. */
  method CreateGroupChat(db: Db, me: UserId, name: string, requested: Option<seq<UserId>>,
                         description: string, image: Option<string>) returns (r: Result<Chat>)
    requires db.Valid() && me in db.users
    modifies db
    ensures db.Valid()
    ensures requested.None? || name == "" ==> r.Err? && r.status == BadRequest
    ensures requested.Some? && name != "" && |requested.value| == 0 ==> r.Err? && r.status == BadRequest
    ensures requested.Some? && name != "" && Utf16Length(description) > MaxDescriptionLength ==> r.Err? && r.status == BadRequest
    ensures r.Err? ==> unchanged(db)
    ensures r.Ok? <==>
      requested.Some? && name != "" && |requested.value| > 0 && Utf16Length(description) <= MaxDescriptionLength
    ensures r.Ok? ==>
      && r.value == GroupChat(old(db.nextId), name, Invitees(old(db.users), me, requested.value) + [me], me, description, image)
      && db.chats == old(db.chats)[old(db.nextId) := r.value] && db.nextId == old(db.nextId) + 1
      && db.log == old(db.log) + [Stored(ChatCreated(old(db.nextId)))]
      && db.users == old(db.users) && db.messages == old(db.messages)
  {
    if requested.None? || name == "" {
      return Err(BadRequest, "Please provide a group name and users");
    }
    if |requested.value| < 1 {
      return Err(BadRequest, "At least 2 users are required for a group chat");
    }
    var valid := CollectInvitees(db.users, me, requested.value);
    valid := valid + [me];
    var c := GroupChat(db.nextId, name, valid, me, description, image);
    assert DescriptionValid(c) <==> Utf16Length(description) <= MaxDescriptionLength;
    if !DescriptionValid(c) {
      return Err(BadRequest, "groupDescription is longer than the maximum allowed length");
    }
    db.CreateChat(c);
    r := Ok(c);
  }

  // ------------------------------------------------- renameGroup

  /** `PUT /api/chat/rename`: only the admin of a group may rename it. */
  method RenameGroup(db: Db, me: UserId, chatId: ChatId, chatName: string) returns (r: Result<Chat>)
    requires db.Valid()
    modifies db
    ensures db.Valid()
    ensures chatId !in old(db.chats) ==> r.Err? && r.status == NotFound
    ensures chatId in old(db.chats) && !old(db.chats)[chatId].isGroupChat ==> r.Err? && r.status == BadRequest
    ensures chatId in old(db.chats) && old(db.chats)[chatId].isGroupChat && !IsAdmin(old(db.chats)[chatId], me) ==>
      r.Err? && r.status == Forbidden
    ensures r.Ok? <==> chatId in old(db.chats) && old(db.chats)[chatId].isGroupChat && IsAdmin(old(db.chats)[chatId], me)
    ensures r.Err? ==> unchanged(db)
    ensures r.Ok? ==>
      && r.value == old(db.chats)[chatId].(chatName := chatName)
      && db.chats == old(db.chats)[chatId := r.value]
      && db.log == old(db.log) + [Stored(ChatUpdated(chatId))]
      && db.users == old(db.users) && db.messages == old(db.messages) && db.nextId == old(db.nextId)
  {
    if chatId !in db.chats {
      return Err(NotFound, "Chat Not Found");
    }
    var c := db.chats[chatId];
    if !c.isGroupChat {
      return Err(BadRequest, "This is not a group chat");
    }
    if !IsAdmin(c, me) {
      return Err(Forbidden, "Only the group admin can rename the group");
    }
    var renamed := c.(chatName := chatName);
    db.PutChat(renamed);
    r := Ok(renamed);
  }

  // ------------------------------------------------- addToGroup

  /** `PUT /api/chat/groupadd`: the admin appends a user who is not yet a
      member, exists, and is not blocked either way. */
  method AddToGroup(db: Db, me: UserId, chatId: ChatId, userId: UserId) returns (r: Result<Chat>)
    requires db.Valid() && me in db.users
    modifies db
    ensures db.Valid()
    ensures chatId !in old(db.chats) ==> r.Err? && r.status == NotFound
    ensures chatId in old(db.chats) ==>
      var c := old(db.chats)[chatId];
      && (!IsAdmin(c, me) ==> r.Err? && r.status == Forbidden)
      && (IsAdmin(c, me) && IsMember(c, userId) ==> r.Err? && r.status == BadRequest)
      && (IsAdmin(c, me) && !IsMember(c, userId) && userId !in old(db.users) ==> r.Err? && r.status == NotFound)
      && ((IsAdmin(c, me) && !IsMember(c, userId) && userId in old(db.users)
           && BlockedEitherWay(old(db.users)[me], old(db.users)[userId])) ==> r.Err? && r.status == Forbidden)
    ensures r.Ok? <==>
      chatId in old(db.chats) && IsAdmin(old(db.chats)[chatId], me) && !IsMember(old(db.chats)[chatId], userId)
      && userId in old(db.users) && !BlockedEitherWay(old(db.users)[me], old(db.users)[userId])
    ensures r.Err? ==> unchanged(db)
    ensures r.Ok? ==>
      && r.value == old(db.chats)[chatId].(users := old(db.chats)[chatId].users + [userId])
      && db.chats == old(db.chats)[chatId := r.value]
      && db.log == old(db.log) + [Stored(ChatUpdated(chatId))]
      && db.users == old(db.users) && db.messages == old(db.messages) && db.nextId == old(db.nextId)
  {
    if chatId !in db.chats {
      return Err(NotFound, "Chat Not Found");
    }
    var c := db.chats[chatId];
    if !IsAdmin(c, me) {
      return Err(Forbidden, "Only the group admin can add members");
    }
    if IsMember(c, userId) {
      return Err(BadRequest, "User is already in the group");
    }
    if userId !in db.users {
      return Err(NotFound, "User not found");
    }
    if HasBlocked(db.users[me], userId) || HasBlocked(db.users[userId], me) {
      return Err(Forbidden, "Cannot add this user");
    }
    var grown := c.(users := c.users + [userId]);
    db.PutChat(grown);
    r := Ok(grown);
  }

  /** A user added to a group is a member exactly once afterwards, and every
      earlier member keeps the count of entries it had. */
  lemma AddedOnce(c: Chat, u: UserId)
    requires !IsMember(c, u)
    ensures var g := c.(users := c.users + [u]);
      IsMember(g, u) && multiset(g.users)[u] == 1 && forall v :: v != u ==> multiset(g.users)[v] == multiset(c.users)[v]
  {
    IsMemberIsMembership(c, u);
    assert (c.users + [u])[|c.users|] == u;
  }

  // ------------------------------------------------- removeFromGroup

  /** `PUT /api/chat/groupremove`: the admin drops every entry of a user,
      but never the admin. */
  method RemoveFromGroup(db: Db, me: UserId, chatId: ChatId, userId: UserId) returns (r: Result<Chat>)
    requires db.Valid()
    modifies db
    ensures db.Valid()
    ensures chatId !in old(db.chats) ==> r.Err? && r.status == NotFound
    ensures chatId in old(db.chats) && !IsAdmin(old(db.chats)[chatId], me) ==> r.Err? && r.status == Forbidden
    ensures chatId in old(db.chats) && IsAdmin(old(db.chats)[chatId], me) && userId == me ==> r.Err? && r.status == BadRequest
    ensures r.Ok? <==> chatId in old(db.chats) && IsAdmin(old(db.chats)[chatId], me) && userId != me
    ensures r.Err? ==> unchanged(db)
    ensures r.Ok? ==>
      && r.value == old(db.chats)[chatId].(users := RemoveAll(old(db.chats)[chatId].users, userId))
      && db.chats == old(db.chats)[chatId := r.value]
      && db.log == old(db.log) + [Stored(ChatUpdated(chatId))]
      && db.users == old(db.users) && db.messages == old(db.messages) && db.nextId == old(db.nextId)
  {
    if chatId !in db.chats {
      return Err(NotFound, "Chat Not Found");
    }
    var c := db.chats[chatId];
    if !IsAdmin(c, me) {
      return Err(Forbidden, "Only the group admin can remove members");
    }
    if userId == c.groupAdmin.value {
      return Err(BadRequest, "Cannot remove the group admin");
    }
    var shrunk := c.(users := RemoveAll(c.users, userId));
    db.PutChat(shrunk);
    r := Ok(shrunk);
  }

  /** Removal leaves the admin in charge, drops the user, and keeps every
      other member with as many entries as before. */
  lemma RemovalKeepsOthers(c: Chat, me: UserId, u: UserId)
    requires IsAdmin(c, me) && u != me
    ensures var s := c.(users := RemoveAll(c.users, u));
      && IsAdmin(s, me) && !IsMember(s, u) && IsMember(s, me) == IsMember(c, me)
      && forall v :: v != u ==> multiset(s.users)[v] == multiset(c.users)[v]
  {
    var s := c.(users := RemoveAll(c.users, u));
    IsMemberIsMembership(s, u);
    IsMemberIsMembership(s, me);
    IsMemberIsMembership(c, me);
  }

  // ------------------------------------------------- leaveGroup

  /** `users.find(x => x !== me)`: the first entry that is not `me`. */
  function FirstOther(users: seq<UserId>, me: UserId): (r: Option<UserId>)
    ensures r.None? <==> forall i :: 0 <= i < |users| ==> users[i] == me
    ensures r.Some? ==> r.value != me && r.value in users
    decreases |users|
  {
    if users == [] then None
    else if users[0] != me then Some(users[0])
    else
      assert forall i :: 1 <= i < |users| ==> users[i] == users[1..][i - 1];
      FirstOther(users[1..], me)
  }

  /** The entry chosen is the first one in list order that is not `me`. */
  lemma {:induction false} FirstOtherIsFirst(users: seq<UserId>, me: UserId, i: nat)
    requires i < |users| && users[i] != me
    requires forall j :: 0 <= j < i ==> users[j] == me
    ensures FirstOther(users, me) == Some(users[i])
    decreases i
  {
    if i > 0 {
      FirstOtherIsFirst(users[1..], me, i - 1);
    }
  }

  /** The system message announcing the new admin, sent in the name of the leaver. */
  function AdminNotice(id: MessageId, me: UserId, c: ChatId, adminName: string, now: Time): (m: Message)
    ensures m.messageType == System && m.sender == me && m.chat == c && m.id == id
  {
    NewMessage(id, me, c, now).(content := adminName + " is now the group admin.", messageType := System)
  }

  /** The group after its admin `me` leaves: admin passes to the first other
      entry, then `me` is dropped. */
  function AdminLeft(c: Chat, me: UserId): Chat
  {
    c.(groupAdmin := FirstOther(c.users, me), users := RemoveAll(c.users, me))
  }

  /** When the admin leaves a group that has another member, the new admin
      is a member, and the leaver is neither member nor admin. */
  lemma AdminHandOver(c: Chat, me: UserId, v: UserId)
    requires IsAdmin(c, me) && v in c.users && v != me
    ensures var l := AdminLeft(c, me);
      && l.groupAdmin.Some? && l.groupAdmin.value != me && IsMember(l, l.groupAdmin.value)
      && !IsMember(l, me) && !IsAdmin(l, me)
  {
    var l := AdminLeft(c, me);
    var i :| 0 <= i < |c.users| && c.users[i] == v;
    IsMemberIsMembership(l, l.groupAdmin.value);
    IsMemberIsMembership(l, me);
  }

  /** A group whose entries are all the admin keeps no member and no admin
      once the admin leaves, although it has more than one entry. */
  lemma AdminLeftAlone(me: UserId)
    ensures var c := GroupChat(0, "group", [me, me], me, "", None);
      |c.users| > 1 && AdminLeft(c, me).users == [] && AdminLeft(c, me).groupAdmin.None?
  {
    var c := GroupChat(0, "group", [me, me], me, "", None);
    assert c.users[0] == me && c.users[1] == me;
    var rest := RemoveAll(c.users, me);
    assert multiset(rest) == multiset{};
    assert |rest| == |multiset(rest)|;
  }

  /** The store after the admin `me` leaves group `chatId`: when the new
      admin exists, a notice is created, announced to the chat's room and made
      the chat's latest message; then the chat is saved as `AdminLeft`. */
  function HandedOver(st: Snapshot, me: UserId, chatId: ChatId, now: Time): Snapshot
    requires chatId in st.chats
  {
    var left := AdminLeft(st.chats[chatId], me);
    if left.groupAdmin.Some? && left.groupAdmin.value in st.users then
      var notice := AdminNotice(st.nextId, me, chatId, st.users[left.groupAdmin.value].name, now);
      st.(messages := st.messages + [notice], nextId := st.nextId + 1,
          chats := st.chats[chatId := left.(latestMessage := Some(notice.id))],
          log := st.log + [Stored(MessageCreated(notice.id)), Emitted(ToRoom(ChatRoom(chatId)), MessageReceived(notice)),
                           Stored(ChatUpdated(chatId))])
    else
      st.(chats := st.chats[chatId := left], log := st.log + [Stored(ChatUpdated(chatId))])
  }

  /** Creates `notice`, announces it to its chat's room and then saves `c`,
      the notice's chat, with the notice as latest message. */
  method Announce(db: Db, notice: Message, c: Chat)
    requires db.Valid() && notice.id == db.nextId && NotAfter(db.messages, notice.createdAt)
    requires c.id == notice.chat && c.id in db.chats && DescriptionValid(c)
    modifies db
    ensures db.Valid()
    ensures db.State() == old(db.State()).(messages := old(db.messages) + [notice], nextId := old(db.nextId) + 1,
      chats := old(db.chats)[c.id := c.(latestMessage := Some(notice.id))],
      log := old(db.log) + [Stored(MessageCreated(notice.id)), Emitted(ToRoom(ChatRoom(c.id)), MessageReceived(notice)),
                            Stored(ChatUpdated(c.id))])
  {
    db.CreateMessage(notice);
    db.Emit(ToRoom(ChatRoom(c.id)), MessageReceived(notice));
    db.PutChat(c.(latestMessage := Some(notice.id)));
  }

  /** The admin `me` leaves group `chatId`, which has more than one entry. */
  method HandOver(db: Db, me: UserId, chatId: ChatId, now: Time)
    requires db.Valid() && NotAfter(db.messages, now)
    requires chatId in db.chats && IsAdmin(db.chats[chatId], me)
    modifies db
    ensures db.Valid()
    ensures db.State() == HandedOver(old(db.State()), me, chatId, now)
  {
    var left := AdminLeft(db.chats[chatId], me);
    if left.groupAdmin.Some? && left.groupAdmin.value in db.users {
      Announce(db, AdminNotice(db.nextId, me, chatId, db.users[left.groupAdmin.value].name, now), left);
    } else {
      db.PutChat(left);
    }
  }

  datatype LeaveOutcome = LeftGroup | GroupDeleted

  /** `PUT /api/chat/leave`. A member who is not the admin is dropped. The
      admin of a group with more than one entry hands over (`HandOver`). The
      admin of a group with one entry or none deletes the group and its
      messages. */
  method LeaveGroup(db: Db, me: UserId, chatId: ChatId, now: Time) returns (r: Result<LeaveOutcome>)
    requires db.Valid() && NotAfter(db.messages, now)
    modifies db
    ensures db.Valid()
    ensures chatId !in old(db.chats) ==> r.Err? && r.status == NotFound
    ensures chatId in old(db.chats) && !old(db.chats)[chatId].isGroupChat ==> r.Err? && r.status == BadRequest
    ensures r.Ok? <==> chatId in old(db.chats) && old(db.chats)[chatId].isGroupChat
    ensures r.Err? ==> unchanged(db)
    ensures r.Ok? && !IsAdmin(old(db.chats)[chatId], me) ==>
      && r.value == LeftGroup
      && db.chats == old(db.chats)[chatId := old(db.chats)[chatId].(users := RemoveAll(old(db.chats)[chatId].users, me))]
      && db.log == old(db.log) + [Stored(ChatUpdated(chatId))]
      && db.users == old(db.users) && db.messages == old(db.messages) && db.nextId == old(db.nextId)
    ensures r.Ok? && IsAdmin(old(db.chats)[chatId], me) && |old(db.chats)[chatId].users| <= 1 ==>
      && r.value == GroupDeleted
      && db.chats == old(db.chats) - {chatId} && db.messages == DropChat(old(db.messages), chatId)
      && db.log == old(db.log) + [Stored(ChatMessagesDeleted(chatId)), Stored(ChatDeleted(chatId))]
      && db.users == old(db.users) && db.nextId == old(db.nextId)
    ensures r.Ok? && IsAdmin(old(db.chats)[chatId], me) && |old(db.chats)[chatId].users| > 1 ==>
      r.value == LeftGroup && db.State() == HandedOver(old(db.State()), me, chatId, now)
  {
    if chatId !in db.chats {
      return Err(NotFound, "Chat Not Found");
    }
    var c := db.chats[chatId];
    if !c.isGroupChat {
      return Err(BadRequest, "This is not a group chat");
    }
    if IsAdmin(c, me) {
      if |c.users| > 1 {
        HandOver(db, me, chatId, now);
        return Ok(LeftGroup);
      }
      db.DeleteMessagesOfChat(chatId);
      db.RemoveChat(chatId);
      return Ok(GroupDeleted);
    }
    db.PutChat(c.(users := RemoveAll(c.users, me)));
    r := Ok(LeftGroup);
  }

  // ------------------------------------------------- muteChat / archiveChat

  /** `PUT /api/chat/mute`: add `me` to `mutedBy` once, or drop every entry of `me`. */
  method MuteChat(db: Db, me: UserId, chatId: ChatId, mute: bool) returns (r: Result<bool>)
    requires db.Valid()
    modifies db
    ensures db.Valid()
    ensures r.Err? <==> chatId !in old(db.chats)
    ensures r.Err? ==> r.status == NotFound && unchanged(db)
    ensures r.Ok? ==>
      && r.value == mute
      && db.chats == old(db.chats)[chatId := old(db.chats)[chatId].(mutedBy := SetFlag(old(db.chats)[chatId].mutedBy, me, mute))]
      && db.log == old(db.log) + [Stored(ChatUpdated(chatId))]
      && db.users == old(db.users) && db.messages == old(db.messages) && db.nextId == old(db.nextId)
  {
    if chatId !in db.chats {
      return Err(NotFound, "Chat Not Found");
    }
    var c := db.chats[chatId];
    db.PutChat(c.(mutedBy := SetFlag(c.mutedBy, me, mute)));
    r := Ok(mute);
  }

  /** `PUT /api/chat/archive`: the same toggle on `archivedBy`. */
  method ArchiveChat(db: Db, me: UserId, chatId: ChatId, archive: bool) returns (r: Result<bool>)
    requires db.Valid()
    modifies db
    ensures db.Valid()
    ensures r.Err? <==> chatId !in old(db.chats)
    ensures r.Err? ==> r.status == NotFound && unchanged(db)
    ensures r.Ok? ==>
      && r.value == archive
      && db.chats == old(db.chats)[chatId := old(db.chats)[chatId].(archivedBy := SetFlag(old(db.chats)[chatId].archivedBy, me, archive))]
      && db.log == old(db.log) + [Stored(ChatUpdated(chatId))]
      && db.users == old(db.users) && db.messages == old(db.messages) && db.nextId == old(db.nextId)
  {
    if chatId !in db.chats {
      return Err(NotFound, "Chat Not Found");
    }
    var c := db.chats[chatId];
    db.PutChat(c.(archivedBy := SetFlag(c.archivedBy, me, archive)));
    r := Ok(archive);
  }

  /** Archiving hides a chat from the list and unarchiving brings it back,
      for a member; the toggle touches no other user's entries. */
  lemma ArchiveHides(c: Chat, me: UserId, archive: bool)
    requires IsMember(c, me)
    ensures Listed(c.(archivedBy := SetFlag(c.archivedBy, me, archive)), me) <==> !archive
  {
  }
}
