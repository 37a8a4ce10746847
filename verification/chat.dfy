/** The Chat document (models/Chat.js): fields, defaults and the membership
    and admin checks. */
module ChatModel {
  import opened Common

  datatype Chat = Chat(
    id: ChatId,
    chatName: string,
    isGroupChat: bool,
    users: seq<UserId>,
    latestMessage: Option<MessageId>,
    groupAdmin: Option<UserId>,
    groupImage: Option<string>,
    groupDescription: Option<string>,
    mutedBy: seq<UserId>,
    archivedBy: seq<UserId>)

  /** The schema's `maxlength` on `groupDescription`. */
  const MaxDescriptionLength: nat := 500

  /** The schema validation a save applies to `groupDescription`. */
  predicate DescriptionValid(c: Chat)
  {
    c.groupDescription.None? || Utf16Length(c.groupDescription.value) <= MaxDescriptionLength
  }

  /** A chat document created from `chatName` and `users`, every other field
      at its schema default. */
  function NewChat(id: ChatId, chatName: string, users: seq<UserId>): (c: Chat)
    ensures c.id == id && c.chatName == chatName && c.users == users
    ensures !c.isGroupChat && c.groupAdmin.None? && c.latestMessage.None?
    ensures c.mutedBy == [] && c.archivedBy == []
    ensures c.groupImage.None? && c.groupDescription.None? && DescriptionValid(c)
  {
    Chat(id, chatName, false, users, None, None, None, None, [], [])
  }

  /** `chat.isMember(u)`: `u` occurs in `users`. */
  predicate IsMember(c: Chat, u: UserId)
  {
    exists i :: 0 <= i < |c.users| && c.users[i] == u
  }

  /** `chat.isAdmin(u)`: `groupAdmin` is set and is `u`. */
  predicate IsAdmin(c: Chat, u: UserId)
  {
    c.groupAdmin.Some? && c.groupAdmin.value == u
  }

  lemma IsMemberIsMembership(c: Chat, u: UserId)
    ensures IsMember(c, u) <==> u in c.users
  {
  }

  /** Nobody is admin of a chat without `groupAdmin`, in particular of any
      chat made by `NewChat`. */
  lemma NoAdminWithoutGroupAdmin(c: Chat, u: UserId)
    requires c.groupAdmin.None?
    ensures !IsAdmin(c, u)
  {
  }

  /** `isAdmin` looks at `groupAdmin` only: a chat whose admin is not in
      `users` has an admin who is not a member. */
  lemma AdminNeedNotBeMember(u: UserId)
    ensures var c := NewChat(0, "group", []).(isGroupChat := true, groupAdmin := Some(u));
      IsAdmin(c, u) && !IsMember(c, u)
  {
  }
}
