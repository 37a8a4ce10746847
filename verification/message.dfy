/** The Message document (models/Message.js): fields, enums and defaults, the
    read-state queries and the per-user reaction operations. */
module MessageModel {
  import opened Common

  /** The eight reactions the schema's enum admits. */
  datatype Emoji = ThumbsUp | Heart | Laugh | Surprised | Sad | Pray | Fire | Clap

  /** The seven message kinds of the schema's enum. */
  datatype MessageType = Text | Image | Video | Audio | Document | Location | System

  datatype FileInfo = FileInfo(filename: string, mimetype: string, filepath: string, size: nat, publicId: string)

  datatype ReadEntry = ReadEntry(user: UserId, readAt: Time)

  datatype Reaction = Reaction(user: UserId, emoji: Emoji, createdAt: Time)

  /** `content` is the empty string when the document has none. */
  datatype Message = Message(
    id: MessageId,
    sender: UserId,
    chat: ChatId,
    content: string,
    file: Option<FileInfo>,
    readBy: seq<ReadEntry>,
    reactions: seq<Reaction>,
    forwardedFrom: Option<MessageId>,
    forwardCount: nat,
    replyTo: Option<MessageId>,
    isDeleted: bool,
    deletedFor: seq<UserId>,
    messageType: MessageType,
    createdAt: Time)

  /** The emoji as the client sends it. */
  function EmojiText(e: Emoji): string
  {
    match e
    case ThumbsUp => "\U{1F44D}"
    case Heart => "\U{2764}\U{FE0F}"
    case Laugh => "\U{1F602}"
    case Surprised => "\U{1F62E}"
    case Sad => "\U{1F622}"
    case Pray => "\U{1F64F}"
    case Fire => "\U{1F525}"
    case Clap => "\U{1F44F}"
  }

  /** The whitelist of the reaction handler, which is also the schema's enum. */
  const ValidEmojis: seq<string> :=
    [EmojiText(ThumbsUp), EmojiText(Heart), EmojiText(Laugh), EmojiText(Surprised),
     EmojiText(Sad), EmojiText(Pray), EmojiText(Fire), EmojiText(Clap)]

  /** `validEmojis.includes(s)`, returning which emoji it is. */
  function ParseEmoji(s: string): (r: Option<Emoji>)
    ensures r.Some? <==> s in ValidEmojis
    ensures r.Some? ==> EmojiText(r.value) == s
  {
    if s == EmojiText(ThumbsUp) then Some(ThumbsUp)
    else if s == EmojiText(Heart) then Some(Heart)
    else if s == EmojiText(Laugh) then Some(Laugh)
    else if s == EmojiText(Surprised) then Some(Surprised)
    else if s == EmojiText(Sad) then Some(Sad)
    else if s == EmojiText(Pray) then Some(Pray)
    else if s == EmojiText(Fire) then Some(Fire)
    else if s == EmojiText(Clap) then Some(Clap)
    else None
  }

  /** Every emoji is accepted back as itself: the eight texts are distinct. */
  lemma ParseEmojiText(e: Emoji)
    ensures ParseEmoji(EmojiText(e)) == Some(e)
  {
  }

  /** A message document as `Message.create` stores it from just a sender and
      a chat: every other field at its schema default. */
  function NewMessage(id: MessageId, sender: UserId, chat: ChatId, now: Time): (m: Message)
    ensures m.id == id && m.sender == sender && m.chat == chat && m.createdAt == now
    ensures m.messageType == Text && !m.isDeleted && m.forwardCount == 0
    ensures m.readBy == [] && m.reactions == [] && m.deletedFor == []
    ensures m.forwardedFrom.None? && m.replyTo.None? && m.file.None? && m.content == ""
  {
    Message(id, sender, chat, "", None, [], [], None, 0, None, false, [], Text, now)
  }

  // ---------------------------------------------------------------- read state

  /** `message.hasUserRead(u)`: some `readBy` entry is by `u`. */
  predicate HasUserRead(m: Message, u: UserId)
  {
    exists i :: 0 <= i < |m.readBy| && m.readBy[i].user == u
  }

  /** The `isRead` virtual: `readBy` is non-empty. */
  predicate IsRead(m: Message)
  {
    |m.readBy| > 0
  }

  /** A message is read exactly when some user has read it. */
  lemma IsReadIffSomeReader(m: Message)
    ensures IsRead(m) <==> exists u :: HasUserRead(m, u)
  {
    if IsRead(m) {
      assert HasUserRead(m, m.readBy[0].user);
    }
  }

  /** Appends a read entry for `u`, as `readBy.push({user, readAt})` does. */
  function MarkReadBy(m: Message, u: UserId, now: Time): (r: Message)
    ensures HasUserRead(r, u)
    ensures |r.readBy| == |m.readBy| + 1 && r.readBy[..|m.readBy|] == m.readBy
    ensures r.readBy[|m.readBy|] == ReadEntry(u, now)
    ensures r == m.(readBy := r.readBy)
  {
    var r := m.(readBy := m.readBy + [ReadEntry(u, now)]);
    assert r.readBy[|m.readBy|].user == u;
    r
  }

  /** Whoever had read `m` has still read it after another read entry. */
  lemma MarkReadByMonotone(m: Message, u: UserId, v: UserId, now: Time)
    requires HasUserRead(m, v)
    ensures HasUserRead(MarkReadBy(m, u, now), v)
  {
    var i :| 0 <= i < |m.readBy| && m.readBy[i].user == v;
    assert MarkReadBy(m, u, now).readBy[i] == m.readBy[i];
  }

  // ---------------------------------------------------------------- reactions

  /** `reactions.filter(r => r.user !== u)`. */
  function WithoutUser(rs: seq<Reaction>, u: UserId): (r: seq<Reaction>)
    ensures forall x :: x in r <==> x in rs && x.user != u
    decreases |rs|
  {
    if rs == [] then []
    else if rs[0].user == u then WithoutUser(rs[1..], u)
    else [rs[0]] + WithoutUser(rs[1..], u)
  }

  /** The number of entries by `u`. */
  function ReactionCount(rs: seq<Reaction>, u: UserId): nat
    decreases |rs|
  {
    if rs == [] then 0
    else ReactionCount(rs[1..], u) + (if rs[0].user == u then 1 else 0)
  }

  /** The list holds at most one reaction per user. */
  ghost predicate OnePerUser(rs: seq<Reaction>)
  {
    forall u :: ReactionCount(rs, u) <= 1
  }

  lemma {:induction false} WithoutUserAppend(rs: seq<Reaction>, ts: seq<Reaction>, u: UserId)
    ensures WithoutUser(rs + ts, u) == WithoutUser(rs, u) + WithoutUser(ts, u)
    decreases |rs|
  {
    if rs == [] {
      assert rs + ts == ts;
    } else {
      assert (rs + ts)[1..] == rs[1..] + ts;
      WithoutUserAppend(rs[1..], ts, u);
    }
  }

  lemma {:induction false} ReactionCountAppend(rs: seq<Reaction>, ts: seq<Reaction>, u: UserId)
    ensures ReactionCount(rs + ts, u) == ReactionCount(rs, u) + ReactionCount(ts, u)
    decreases |rs|
  {
    if rs == [] {
      assert rs + ts == ts;
    } else {
      assert (rs + ts)[1..] == rs[1..] + ts;
      ReactionCountAppend(rs[1..], ts, u);
    }
  }

  /** Filtering out `u` leaves no entry by `u` and every other user's count as it was. */
  lemma {:induction false} WithoutUserCount(rs: seq<Reaction>, u: UserId, v: UserId)
    ensures ReactionCount(WithoutUser(rs, u), v) == if v == u then 0 else ReactionCount(rs, v)
    decreases |rs|
  {
    if rs != [] {
      WithoutUserCount(rs[1..], u, v);
      if rs[0].user != u {
        assert WithoutUser(rs, u)[1..] == WithoutUser(rs[1..], u);
      }
    }
  }

  lemma {:induction false} WithoutUserAbsent(rs: seq<Reaction>, u: UserId)
    requires ReactionCount(rs, u) == 0
    ensures WithoutUser(rs, u) == rs
    decreases |rs|
  {
    if rs != [] {
      WithoutUserAbsent(rs[1..], u);
    }
  }

  /** `message.addReaction(u, e)`: drop `u`'s earlier reaction and append the
      new one. Afterwards `u` has exactly one reaction, with emoji `e`; the other
      users' reactions are the same list in the same order; nothing else changes. */
  function AddReaction(m: Message, u: UserId, e: Emoji, now: Time): (r: Message)
    ensures r == m.(reactions := r.reactions)
    ensures ReactionCount(r.reactions, u) == 1 && Reaction(u, e, now) in r.reactions
    ensures WithoutUser(r.reactions, u) == WithoutUser(m.reactions, u)
  {
    var others := WithoutUser(m.reactions, u);
    var mine := [Reaction(u, e, now)];
    WithoutUserAppend(others, mine, u);
    ReactionCountAppend(others, mine, u);
    WithoutUserCount(m.reactions, u, u);
    WithoutUserAbsent(others, u);
    assert WithoutUser(mine, u) == [];
    m.(reactions := others + mine)
  }

  /** `message.removeReaction(u)`: afterwards `u` has no reaction and the other
      users' reactions are the same list in the same order; nothing else changes. */
  function RemoveReaction(m: Message, u: UserId): (r: Message)
    ensures r == m.(reactions := r.reactions)
    ensures ReactionCount(r.reactions, u) == 0
    ensures WithoutUser(r.reactions, u) == WithoutUser(m.reactions, u)
  {
    var others := WithoutUser(m.reactions, u);
    WithoutUserCount(m.reactions, u, u);
    WithoutUserAbsent(others, u);
    m.(reactions := others)
  }

  /** Removing a reaction twice is removing it once. */
  lemma RemoveReactionIdempotent(m: Message, u: UserId)
    ensures RemoveReaction(RemoveReaction(m, u), u) == RemoveReaction(m, u)
  {
    WithoutUserAbsent(RemoveReaction(m, u).reactions, u);
  }

  /** Adding a reaction keeps the list at one reaction per user and leaves
      every other user's reaction count unchanged. */
  lemma AddReactionOnePerUser(m: Message, u: UserId, e: Emoji, now: Time)
    requires OnePerUser(m.reactions)
    ensures OnePerUser(AddReaction(m, u, e, now).reactions)
    ensures forall v :: v != u ==>
      ReactionCount(AddReaction(m, u, e, now).reactions, v) == ReactionCount(m.reactions, v)
  {
    var r := AddReaction(m, u, e, now).reactions;
    forall v | v != u
      ensures ReactionCount(r, v) == ReactionCount(m.reactions, v)
    {
      WithoutUserCount(r, u, v);
      WithoutUserCount(m.reactions, u, v);
    }
  }

  /** Reacting twice keeps only the second reaction (last write wins). */
  lemma ReactTwice(m: Message, u: UserId, e1: Emoji, e2: Emoji, t1: Time, t2: Time)
    ensures var r := AddReaction(AddReaction(m, u, e1, t1), u, e2, t2);
      ReactionCount(r.reactions, u) == 1 && Reaction(u, e2, t2) in r.reactions
      && WithoutUser(r.reactions, u) == WithoutUser(m.reactions, u)
  {
  }

  // ---------------------------------------------------------------- deletion

  /** `deletedFor.push(u)` guarded by `!deletedFor.includes(u)`. */
  function HideFor(m: Message, u: UserId): (r: Message)
    ensures u in r.deletedFor
    ensures multiset(r.deletedFor)[u] == if u in m.deletedFor then multiset(m.deletedFor)[u] else 1
    ensures r == m.(deletedFor := r.deletedFor)
  {
    m.(deletedFor := AddOnce(m.deletedFor, u))
  }

  /** Hiding twice is hiding once. */
  lemma HideForIdempotent(m: Message, u: UserId)
    ensures HideFor(HideFor(m, u), u) == HideFor(m, u)
  {
  }
}
