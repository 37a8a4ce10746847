/** Read receipts over the message collection: the three unread filters the
    controllers use (kept apart, as the source writes them), the bulk
    mark-as-read update, and the per-chat grouping with its totals. */
module ReadState {
  import opened Common
  import opened MessageModel

  // ------------------------------------------------- the three filters

  /** The `$match` of `getUnreadCount` and `fetchChats`: not sent by `u`, not
      read by `u`, not deleted, not hidden from `u`. */
  predicate Unread(m: Message, u: UserId)
  {
    m.sender != u && !HasUserRead(m, u) && !m.isDeleted && u !in m.deletedFor
  }

  /** The `updateMany` filter of `markMessagesAsRead`: it does not look at
      `isDeleted` or `deletedFor`. */
  predicate NeedsMarking(m: Message, c: ChatId, u: UserId)
  {
    m.chat == c && m.sender != u && !HasUserRead(m, u)
  }

  /** The `countDocuments` filter of `accessChat`: it does not look at `deletedFor`. */
  predicate UnreadIgnoringHidden(m: Message, c: ChatId, u: UserId)
  {
    m.chat == c && m.sender != u && !HasUserRead(m, u) && !m.isDeleted
  }

  /** The filters are nested: what the unread count counts, `accessChat`
      counts, and what `accessChat` counts, mark-as-read marks. */
  lemma FiltersNested(m: Message, c: ChatId, u: UserId)
    ensures m.chat == c && Unread(m, u) ==> UnreadIgnoringHidden(m, c, u)
    ensures UnreadIgnoringHidden(m, c, u) ==> NeedsMarking(m, c, u)
  {
  }

  /** The nesting is strict: a message hidden from `u` counts for `accessChat`
      but not for the unread count, and a deleted one is still marked as read. */
  lemma FiltersDiffer(c: ChatId, u: UserId, other: UserId)
    requires u != other
    ensures var hidden := NewMessage(0, other, c, 0).(deletedFor := [u]);
      UnreadIgnoringHidden(hidden, c, u) && !Unread(hidden, u)
    ensures var deleted := NewMessage(1, other, c, 0).(isDeleted := true);
      NeedsMarking(deleted, c, u) && !UnreadIgnoringHidden(deleted, c, u)
  {
  }

  // ------------------------------------------------- counts

  /** How many messages of the collection satisfy `p`. */
  function CountWhere(ms: seq<Message>, p: Message -> bool): nat
    decreases |ms|
  {
    if ms == [] then 0 else (if p(ms[0]) then 1 else 0) + CountWhere(ms[1..], p)
  }

  /** Unread messages of chat `c` for `u`. */
  function CountUnread(ms: seq<Message>, c: ChatId, u: UserId): nat
  {
    CountWhere(ms, (m: Message) => m.chat == c && Unread(m, u))
  }

  /** Unread messages for `u` over a set of chats. */
  function CountUnreadIn(ms: seq<Message>, cs: set<ChatId>, u: UserId): nat
  {
    CountWhere(ms, (m: Message) => m.chat in cs && Unread(m, u))
  }

  /** What `accessChat` reports as the unread count of chat `c`. */
  function CountUnreadIgnoringHidden(ms: seq<Message>, c: ChatId, u: UserId): nat
  {
    CountWhere(ms, (m: Message) => UnreadIgnoringHidden(m, c, u))
  }

  /** Messages of chat `c` that mark-as-read would update. */
  function CountNeedsMarking(ms: seq<Message>, c: ChatId, u: UserId): nat
  {
    CountWhere(ms, (m: Message) => NeedsMarking(m, c, u))
  }

  /** Over a chat set, adding one more chat adds exactly that chat's count. */
  lemma {:induction false} CountUnreadInAdd(ms: seq<Message>, cs: set<ChatId>, c: ChatId, u: UserId)
    requires c !in cs
    ensures CountUnreadIn(ms, cs + {c}, u) == CountUnreadIn(ms, cs, u) + CountUnread(ms, c, u)
    decreases |ms|
  {
    if ms != [] {
      CountUnreadInAdd(ms[1..], cs, c, u);
    }
  }

  // ------------------------------------------------- bulk mark-as-read

  /** One message under the mark-as-read update. */
  function MarkOne(m: Message, c: ChatId, u: UserId, now: Time): Message
  {
    if NeedsMarking(m, c, u) then MarkReadBy(m, u, now) else m
  }

  /** `Message.updateMany(filter, {$push: {readBy: {user: u, readAt: now}}})`.
      Afterwards every message of chat `c` that `u` did not send is read by `u`;
      each message gains at most one entry and keeps its earlier ones; the
      messages of `u` and of other chats are untouched. */
  function MarkChatRead(ms: seq<Message>, c: ChatId, u: UserId, now: Time): (r: seq<Message>)
    ensures |r| == |ms|
    ensures forall i :: 0 <= i < |ms| ==> r[i] == ms[i].(readBy := r[i].readBy)
    ensures forall i :: 0 <= i < |ms| && ms[i].chat == c && ms[i].sender != u ==> HasUserRead(r[i], u)
    ensures forall i :: 0 <= i < |ms| ==>
      |ms[i].readBy| <= |r[i].readBy| <= |ms[i].readBy| + 1 && r[i].readBy[..|ms[i].readBy|] == ms[i].readBy
    ensures forall i :: 0 <= i < |ms| && (ms[i].chat != c || ms[i].sender == u) ==> r[i] == ms[i]
  {
    seq(|ms|, i requires 0 <= i < |ms| => MarkOne(ms[i], c, u, now))
  }

  /** The number of positions where two equally long collections differ. */
  function ChangedCount(a: seq<Message>, b: seq<Message>): nat
    requires |a| == |b|
    decreases |a|
  {
    if a == [] then 0 else (if a[0] != b[0] then 1 else 0) + ChangedCount(a[1..], b[1..])
  }

  /** `modifiedCount`: the update changes exactly the messages its filter matches. */
  lemma {:induction false} MarkedCountIsChanged(ms: seq<Message>, c: ChatId, u: UserId, now: Time)
    ensures CountNeedsMarking(ms, c, u) == ChangedCount(ms, MarkChatRead(ms, c, u, now))
    decreases |ms|
  {
    if ms != [] {
      var r := MarkChatRead(ms, c, u, now);
      assert r[1..] == MarkChatRead(ms[1..], c, u, now);
      MarkedCountIsChanged(ms[1..], c, u, now);
      if NeedsMarking(ms[0], c, u) {
        assert |r[0].readBy| != |ms[0].readBy|;
      }
    }
  }

  /** Right after a mark-as-read, a second one finds nothing to mark. */
  lemma {:induction false} MarkChatReadTwice(ms: seq<Message>, c: ChatId, u: UserId, now: Time)
    ensures CountNeedsMarking(MarkChatRead(ms, c, u, now), c, u) == 0
    decreases |ms|
  {
    if ms != [] {
      var r := MarkChatRead(ms, c, u, now);
      assert r[1..] == MarkChatRead(ms[1..], c, u, now);
      MarkChatReadTwice(ms[1..], c, u, now);
    }
  }

  /** Mark-as-read never takes a reader away. */
  lemma MarkChatReadMonotone(ms: seq<Message>, c: ChatId, u: UserId, now: Time, i: nat, v: UserId)
    requires i < |ms| && HasUserRead(ms[i], v)
    ensures HasUserRead(MarkChatRead(ms, c, u, now)[i], v)
  {
    var r := MarkChatRead(ms, c, u, now);
    var k :| 0 <= k < |ms[i].readBy| && ms[i].readBy[k].user == v;
    assert r[i].readBy[k] == ms[i].readBy[k];
  }

  // ------------------------------------------------- grouping and totals

  /** The `$group` stage over chats `cs`: each chat with unread messages,
      mapped to how many. */
  function UnreadByChat(ms: seq<Message>, cs: set<ChatId>, u: UserId): (g: map<ChatId, nat>)
    ensures forall c :: c in g <==> c in cs && CountUnread(ms, c, u) > 0
    ensures forall c :: c in g ==> g[c] == CountUnread(ms, c, u)
  {
    map c | c in cs && CountUnread(ms, c, u) > 0 :: CountUnread(ms, c, u)
  }

  /** `unreadMap.get(id) || 0`. */
  function CountOrZero(g: map<ChatId, nat>, c: ChatId): nat
  {
    if c in g then g[c] else 0
  }

  /** A chat missing from the grouping has no unread message. */
  lemma CountOrZeroIsCount(ms: seq<Message>, cs: set<ChatId>, u: UserId, c: ChatId)
    requires c in cs
    ensures CountOrZero(UnreadByChat(ms, cs, u), c) == CountUnread(ms, c, u)
  {
  }

  datatype ChatUnread = ChatUnread(chatId: ChatId, unreadCount: nat)

  /** The total of the per-chat counts over `ids`. */
  function SumCounts(g: map<ChatId, nat>, ids: seq<ChatId>): nat
    decreases |ids|
  {
    if ids == [] then 0 else SumCounts(g, ids[..|ids| - 1]) + CountOrZero(g, ids[|ids| - 1])
  }

  /** The entries of `ids` with a non-zero count, in the order of `ids`. */
  function NonZeroEntries(g: map<ChatId, nat>, ids: seq<ChatId>): seq<ChatUnread>
    decreases |ids|
  {
    if ids == [] then []
    else
      var c := ids[|ids| - 1];
      NonZeroEntries(g, ids[..|ids| - 1]) + (if CountOrZero(g, c) > 0 then [ChatUnread(c, CountOrZero(g, c))] else [])
  }

  lemma {:induction false} NonZeroEntriesSound(g: map<ChatId, nat>, ids: seq<ChatId>)
    ensures forall e :: e in NonZeroEntries(g, ids) ==>
      e.chatId in ids && e.unreadCount > 0 && e.unreadCount == CountOrZero(g, e.chatId)
    ensures forall c :: c in ids && CountOrZero(g, c) > 0 ==> ChatUnread(c, CountOrZero(g, c)) in NonZeroEntries(g, ids)
    decreases |ids|
  {
    if ids != [] {
      var front := ids[..|ids| - 1];
      NonZeroEntriesSound(g, front);
      assert ids == front + [ids[|ids| - 1]];
    }
  }

  /** Chats listed once give entries listed once. */
  lemma {:induction false} NonZeroEntriesDistinct(g: map<ChatId, nat>, ids: seq<ChatId>)
    requires forall i, j :: 0 <= i < j < |ids| ==> ids[i] != ids[j]
    ensures forall j, k :: 0 <= j < k < |NonZeroEntries(g, ids)| ==>
      NonZeroEntries(g, ids)[j].chatId != NonZeroEntries(g, ids)[k].chatId
    decreases |ids|
  {
    if ids != [] {
      var front, c := ids[..|ids| - 1], ids[|ids| - 1];
      NonZeroEntriesDistinct(g, front);
      NonZeroEntriesSound(g, front);
      var p, r := NonZeroEntries(g, front), NonZeroEntries(g, ids);
      forall j, k | 0 <= j < k < |r|
        ensures r[j].chatId != r[k].chatId
      {
        if k >= |p| {
          assert p[j] in p;
          forall i | 0 <= i < |front|
            ensures front[i] != c
          {
            assert front[i] == ids[i];
          }
        }
      }
    }
  }

  /** The `forEach` of `getUnreadCount`: adds every chat's count to the total
      and lists the chats whose count is positive. */
  method SummarizeUnread(g: map<ChatId, nat>, ids: seq<ChatId>) returns (total: nat, perChat: seq<ChatUnread>)
    ensures total == SumCounts(g, ids)
    ensures perChat == NonZeroEntries(g, ids)
  {
    total, perChat := 0, [];
    var i := 0;
    while i < |ids|
      invariant 0 <= i <= |ids|
      invariant total == SumCounts(g, ids[..i])
      invariant perChat == NonZeroEntries(g, ids[..i])
    {
      var count := CountOrZero(g, ids[i]);
      if count > 0 {
        perChat := perChat + [ChatUnread(ids[i], count)];
      }
      total := total + count;
      assert ids[..i + 1][..i] == ids[..i];
      i := i + 1;
    }
    assert ids[..i] == ids;
  }

  /** Summing the grouped counts over a duplicate-free list of chats counts
      every unread message of those chats exactly once. */
  lemma {:induction false} SumCountsIsTotal(ms: seq<Message>, g: map<ChatId, nat>, ids: seq<ChatId>, u: UserId)
    requires NoDup(ids)
    requires forall c :: c in ids ==> CountOrZero(g, c) == CountUnread(ms, c, u)
    ensures SumCounts(g, ids) == CountUnreadIn(ms, ElementsOf(ids), u)
    decreases |ids|
  {
    if ids == [] {
      assert ElementsOf(ids) == {};
      CountUnreadInEmpty(ms, u);
    } else {
      var front, c := ids[..|ids| - 1], ids[|ids| - 1];
      assert ids == front + [c];
      assert multiset(ids) == multiset(front) + multiset{c};
      assert c !in front && NoDup(front) by {
        assert forall x :: x in front ==> x in ids;
      }
      SumCountsIsTotal(ms, g, front, u);
      CountUnreadInAdd(ms, ElementsOf(front), c, u);
      assert ElementsOf(ids) == ElementsOf(front) + {c};
    }
  }

  /** The chats a list names. */
  function ElementsOf(ids: seq<ChatId>): (r: set<ChatId>)
    ensures forall c :: c in r <==> c in ids
  {
    set c | c in ids
  }

  lemma {:induction false} CountUnreadInEmpty(ms: seq<Message>, u: UserId)
    ensures CountUnreadIn(ms, {}, u) == 0
    decreases |ms|
  {
    if ms != [] {
      CountUnreadInEmpty(ms[1..], u);
    }
  }
}
