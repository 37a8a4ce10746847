# A verified model of a chat backend's domain rules

This project models the request handlers and socket handlers of a real-time chat
backend (Express, Mongoose, socket.io) in Dafny. It covers:

- users, one-to-one and group chats, and messages;
- sending, forwarding, reading, reacting to and deleting messages;
- unread counts;
- group administration;
- blocking;
- the presence registry.

The model then proves what those handlers promise.

The MongoDB store is the class `Store.Db`:

- users and chats are maps from id to document;
- messages are a sequence in creation order;
- a fresh-id counter supplies new ids;
- `log` records, in order, every store write and every socket emission.

The invariant `Db.Valid()` keeps document ids consistent and messages in creation order. It also keeps `PersistedFirst(log)`: no `message received` emission comes before the write that created its message. Every handler that writes must preserve it.

Documents (`User`, `Chat`, `Message`) are datatype values. A handler that writes is a method with `modifies db`. It returns `Result<T>`: either the response value, or `Err(status, reason)` with the HTTP status the code sets. A handler that only reads is a function, or a method that changes nothing.

Other modelling choices:

- The presence map `activeUsers` is the class `Presence.Registry`. It keeps the keys in insertion order, because the disconnect loop walks them in that order.
- Clocks are a parameter `now`.
- Socket ids and ObjectIds are natural numbers.

Modules follow the source files:

- `common.dfy` holds ids, results and list helpers.
- `user.dfy`, `chat.dfy` and `message.dfy` hold the three Mongoose models.
- `events.dfy` holds rooms, events and the log.
- `store.dfy` holds the store.
- `readstate.dfy` holds the unread predicates and counts.
- `presence.dfy` holds `activeUsers`.
- The four handler files follow the controllers and `server.js`.

Three different "unread" predicates appear in the code and are kept apart:

- `ReadState.NeedsMarking` for `markMessagesAsRead`;
- `ReadState.UnreadIgnoringHidden` for `accessChat`;
- `ReadState.Unread` for `getUnreadCount` and `fetchChats`.

`ReadState.FiltersNested` and `ReadState.FiltersDiffer` relate them.

Event names and payloads, as the code emits them:

- `connected` carries no payload (server.js:48).
- `user online` carries only the user id (server.js:43).
- `user offline` carries the user id and `lastSeen` (server.js:158-161).
- The list of online users is emitted as `online users`, and only on request (server.js:172-175).
- `user online` is broadcast even when no user document has that id. `findByIdAndUpdate` does not fail on an unknown id.

## Model

| member | source | states |
|---|---|---|
| Common.RemoveAll | controllers/chatController.js:302 | `filter(x => x !== v)`: `v` no longer occurs; every other element keeps its multiplicity |
| Common.Utf16Length | models/User.js:25 | `maxlength` compares `length`: at least one unit and at most two per character |
| Common.Utf16LengthBmp | models/User.js:25 | units equal characters exactly when no character lies above U+FFFF |
| Common.Utf16LengthAppend | models/Chat.js:30 | code units add up over concatenation |
| Common.Utf16LengthSupplementary | models/Chat.js:30 | a character above U+FFFF repeated `k` times counts `2k` units |
| Common.AddOnce | controllers/chatController.js:387-389 | push-if-absent: afterwards `v` occurs; its count is 1 if it was absent and unchanged otherwise; no other count changes |
| Common.SetFlag | controllers/chatController.js:387-393 | the mute/archive toggle: afterwards the user is present exactly when the flag is on; no other user's entries change |
| Common.RemoveAllIdempotent | controllers/chatController.js:302 | removing a user twice is removing it once |
| Common.RemoveAfterAddOnce | controllers/userController.js:151-153 | removing an element just added to a list without it gives back the original list |
| Common.SetFlagIdempotent | controllers/chatController.js:413-419 | muting twice (or unmuting twice) equals doing it once; likewise for archiving |
| UserModel.StatusLimitCountsCodeUnits | models/User.js:25 | 101 copies of U+1F600 are within 200 characters but fail the 200-unit limit |
| UserModel.NewUser | models/User.js:22-54 | a new user is offline and active, has no blocked users, has the default status and image, and satisfies the status limit of 200 UTF-16 code units |
| UserModel.HasBlockedIsMembership | models/User.js:64-67 | `hasBlocked(u)` holds iff `u` is in `blockedUsers`; the empty list blocks nobody |
| UserModel.SetOnlineStatus | models/User.js:70-75 | going online leaves `lastSeen`; going offline stamps `lastSeen` with now; no other field changes, so the status limit still holds |
| UserModel.OnlineThenOffline | models/User.js:70-75 | online then offline leaves the user offline, with `lastSeen` set to the moment of going offline |
| ChatModel.NewChat | models/Chat.js:3-42 | a new chat is not a group; it has no admin, no latest message, empty `mutedBy`/`archivedBy`, and a valid description |
| ChatModel.IsMemberIsMembership | models/Chat.js:65-67 | `isMember(u)` holds iff `u` occurs in `users` |
| ChatModel.NoAdminWithoutGroupAdmin | models/Chat.js:60-62 | nobody is admin of a chat whose `groupAdmin` is unset |
| ChatModel.AdminNeedNotBeMember | models/Chat.js:60-67 | `isAdmin` ignores `users`: some chat has an admin who is not a member |
| MessageModel.ParseEmoji | controllers/messageController.js:312-317 | a reaction string is accepted iff it is one of the eight whitelisted emoji, and is then read back as that emoji |
| MessageModel.ParseEmojiText | models/Message.js:43-46 | each of the eight schema emoji is accepted as itself (the eight texts are distinct) |
| MessageModel.NewMessage | models/Message.js:3-83 | schema defaults of a new message: type text, not deleted, `forwardCount` 0, no reads, reactions, hides, forward source or reply |
| MessageModel.IsReadIffSomeReader | models/Message.js:94-101 | the `isRead` virtual holds iff some user `hasUserRead` the message |
| MessageModel.MarkReadBy | server.js:93-96 | pushing a read entry for `u` makes `hasUserRead(u)` true and keeps the earlier entries as a prefix; nothing else changes |
| MessageModel.MarkReadByMonotone | models/Message.js:27-36 | nobody who had read a message stops having read it when another entry is pushed |
| MessageModel.WithoutUser | models/Message.js:106-108 | the reaction filter keeps exactly the reactions of other users |
| MessageModel.AddReaction | models/Message.js:104-113 | afterwards `u` has exactly one reaction, with the new emoji; the other users' reactions are the same list in the same order; no other field changes |
| MessageModel.RemoveReaction | models/Message.js:116-121 | afterwards `u` has no reaction; the other users' reactions keep their list and order; no other field changes |
| MessageModel.RemoveReactionIdempotent | models/Message.js:116-121 | removing a reaction twice equals removing it once |
| MessageModel.AddReactionOnePerUser | models/Message.js:104-113 | adding a reaction keeps at most one reaction per user and leaves every other user's count unchanged |
| MessageModel.ReactTwice | models/Message.js:104-113 | reacting twice keeps only the second reaction (last write wins) |
| MessageModel.HideFor | controllers/messageController.js:420-423 | afterwards the user is in `deletedFor`, added only if absent; nothing else changes |
| MessageModel.HideForIdempotent | controllers/messageController.js:420-423 | hiding twice equals hiding once |
| Events.PersistedFirstAppend | controllers/messageController.js:136-150 | appending an effect that is announceable keeps the persist-before-broadcast invariant |
| Events.PersistedFirstEverywhere | controllers/messageController.js:136-150 | under the invariant, each `message received` in the log comes after the creation of its message |
| Store.FindMessage | controllers/messageController.js:319-327 | `findById` on messages: a found position holds that id; not found means no message has it |
| Store.Select | controllers/messageController.js:24-28 | a query keeps exactly the messages that satisfy the filter, and is never longer |
| Store.SelectKeepsOrder | controllers/messageController.js:24-35 | a query result is in creation (`createdAt`) order and has distinct ids |
| Store.DropChat | controllers/chatController.js:362 | `deleteMany({chat})` keeps exactly the messages of other chats |
| Store.FindChats | controllers/messageController.js:503 | `Chat.find(filter)`: each matching chat id once, and only those |
| Store.Db.CreateMessage | controllers/messageController.js:136 | `Message.create`: appends the message with the next id, keeps the invariant, and logs the write |
| Store.Db.PutMessage | controllers/messageController.js:396 | `message.save()`: replaces one message in place, keeps the invariant, and logs the write |
| Store.Db.PutMessagesOfChat | controllers/messageController.js:298 | `updateMany`: rewrites messages in place, keeping ids and creation times, and logs one write |
| Store.Db.DeleteMessagesOfChat | controllers/chatController.js:362 | `deleteMany`: messages become `DropChat` of the old ones; the invariant holds |
| Store.Db.CreateChat | controllers/chatController.js:69 | `Chat.create`: adds the chat under the next id and logs the write |
| Store.Db.PutChat | controllers/chatController.js:224 | `chat.save()` of an existing, schema-valid chat; logs the write |
| Store.Db.RemoveChat | controllers/chatController.js:363 | `findByIdAndDelete` removes the chat and logs the write |
| Store.Db.PutUser | controllers/userController.js:123 | `user.save()` of a schema-valid user; logs the write |
| Store.Db.Emit | controllers/messageController.js:150 | an emission is logged; `message received` is allowed only after its message's creation |
| ReadState.FiltersNested | controllers/messageController.js:509-515 | the `getUnreadCount` filter implies the `accessChat` one, which implies the `markMessagesAsRead` one |
| ReadState.FiltersDiffer | controllers/chatController.js:49-54 | the three filters differ: a hidden message counts for `accessChat` only; a deleted message counts for marking only |
| ReadState.CountUnreadInAdd | controllers/messageController.js:537-547 | the unread count over a set of chats grows by one chat's count when that chat is added |
| ReadState.MarkChatRead | controllers/messageController.js:281-298 | afterwards every message of the chat sent by others has `u` in `readBy`; each gains at most one entry, keeping its old entries; `u`'s own messages and other chats are untouched; only `readBy` changes |
| ReadState.MarkedCountIsChanged | controllers/messageController.js:298-302 | the reported count equals the number of messages the update changed |
| ReadState.MarkChatReadTwice | controllers/messageController.js:281-302 | right after marking, nothing in that chat needs marking: a second call reports 0 |
| ReadState.MarkChatReadMonotone | controllers/messageController.js:288-298 | bulk marking never removes a reader |
| ReadState.CountOrZeroIsCount | controllers/messageController.js:542 | `unreadMap.get(id) \|\| 0` is the chat's unread count for every chat of the set |
| ReadState.NonZeroEntriesSound | controllers/messageController.js:541-547 | the per-chat list holds exactly the chats with a positive count, with those counts |
| ReadState.NonZeroEntriesDistinct | controllers/messageController.js:541-547 | when the chat ids are distinct, so are the chats of the per-chat list |
| ReadState.SummarizeUnread | controllers/messageController.js:537-547 | the `forEach` loop computes the total and the per-chat list as specified |
| ReadState.SumCountsIsTotal | controllers/messageController.js:537-547 | over a list of distinct chats, the loop's total is the number of unread messages in those chats |
| Presence.Holder | server.js:140-146 | the user the disconnect loop finds holds that socket; when none is found, no user holds it |
| Presence.HolderIsFirst | server.js:140-146 | the user found is the first in key order that holds the socket |
| Presence.HolderUnique | server.js:140-146 | when exactly one user holds the socket, the loop finds that user |
| Presence.OrderAfterSet | server.js:34 | `Map.set`: a new key goes last, an existing key keeps its place, and keys stay distinct |
| Presence.HolderAfterSet | server.js:34 | after `setup`, the new socket is held by that user |
| Presence.StaleSocketHeldByNobody | server.js:140-146 | after a user sets up again from a new socket, the old socket is held by nobody: its disconnect changes nothing |
| Presence.Registry.constructor | server.js:21 | the registry starts empty |
| Presence.Registry.Set | server.js:34 | the user's entry now names the socket, replacing any earlier one (last writer wins) |
| Presence.Registry.TakeSocket | server.js:140-146 | removes the holder found by `Holder` and returns it; an unknown socket leaves the map unchanged |
| Presence.Registry.OnlineUsers | server.js:173 | `Array.from(keys())`: every connected user exactly once |
| MessageController.Deliver | controllers/messageController.js:136-150 | create, then set latest message, then emit to the chat room, in that order; the invariant is kept |
| MessageController.AllMessagesAsWritten | controllers/messageController.js:9-42 | as written: both failures come back as 400; otherwise the chat's visible messages |
| MessageController.AllMessages | controllers/messageController.js:13-35 | 404 iff the chat is unknown; 403 iff `me` is not a member; otherwise exactly the chat's non-deleted messages not hidden for `me`, in `createdAt` order, each once |
| MessageController.AllMessagesStatusReset | controllers/messageController.js:38-41 | both versions fail on the same requests and succeed alike; for an unknown chat the written one says 400 where 404 was set |
| MessageController.TypeOf | controllers/messageController.js:112-128 | text whenever there is content; otherwise image, video or audio by MIME prefix, checked in that order, else document |
| MessageController.SendMessage | controllers/messageController.js:47-158 | errors in order: 400 no chat id, 404, 403 non-member, 403 blocked by a member, 400 empty; on error nothing changes; otherwise one message of the derived type is created, becomes latest, and is announced after its creation |
| MessageController.ForwardTargetsMembers | controllers/messageController.js:197-222 | the chats the loop does not skip are exactly those of the request where `me` is a member and no member blocked `me` |
| MessageController.ForwardCopiesAt | controllers/messageController.js:224-234 | copy `j` goes to the `j`-th target, with the next fresh id, the original's content, file and type, and `forwardedFrom` set |
| MessageController.WithLatest | controllers/messageController.js:243 | forwarding changes only `latestMessage` of existing chats |
| MessageController.LatestIsLastCopy | controllers/messageController.js:243 | each target's latest message is the last copy it received; other chats keep theirs |
| MessageController.ForwardRunCopies | controllers/messageController.js:197-245 | the loop sends one copy per target that is not skipped, in order, with consecutive ids |
| MessageController.ForwardRunNextId | controllers/messageController.js:234 | the loop consumes one id per copy |
| MessageController.ForwardRunMessages | controllers/messageController.js:234 | the loop appends exactly the copies to the messages |
| MessageController.ForwardRunChats | controllers/messageController.js:243 | the loop's chats are `WithLatest` of the copies |
| MessageController.ForwardRunLog | controllers/messageController.js:234-248 | the loop logs each delivery, persist before broadcast, in order |
| MessageController.ForwardRunMembership | controllers/messageController.js:201-222 | the loop changes no user and no membership, so later skip decisions see the starting state |
| MessageController.ForwardRunOutcome | controllers/messageController.js:197-253 | the whole loop in closed form: the copies, the new messages, chats, id counter and log |
| MessageController.DeliverCopies | controllers/messageController.js:197-253 | the imperative loop produces exactly the specified run |
| MessageController.ForwardAndCount | controllers/messageController.js:197-258 | the loop produces exactly `ForwardRun`; then the original, untouched by the loop, has its `forwardCount` raised by the number of copies, and nothing else changes |
| MessageController.ForwardMessage | controllers/messageController.js:163-265 | 400 for a missing id or empty/absent list, 404, 403; nothing changes on error; otherwise the copies are delivered and the original's `forwardCount` grows by exactly `forwardedTo`, the number created |
| MessageController.MarkMessagesAsRead | controllers/messageController.js:270-304 | 400 without a chat id; otherwise messages become `MarkChatRead` and the reply is the number that needed marking |
| MessageController.ReactToMessage | controllers/messageController.js:309-352 | 400 bad emoji, 404, 403 non-member, all before any change; then `AddReaction` is saved and `reaction added` is emitted to the chat room |
| MessageController.RemoveReaction | controllers/messageController.js:357-375 | 404 only; then the user's reaction is removed and saved, with no emission |
| MessageController.DeleteMessage | controllers/messageController.js:380-406 | 404; 403 unless `me` is the sender; otherwise only `isDeleted` becomes true, then `message deleted` goes to the chat room |
| MessageController.DeleteMessageForMe | controllers/messageController.js:411-426 | 404; otherwise `me` is in `deletedFor` exactly once and a save happens only if it was absent |
| MessageController.GetUnreadCount | controllers/messageController.js:501-553 | the total is the number of unread messages in `me`'s chats; the list, built from the per-chat grouping of unread messages, holds exactly the chats with a positive count, with their counts, each chat once |
| ChatController.DirectChatWithSelf | controllers/chatController.js:32-38 | with `userId` equal to the caller, a chat satisfies the lookup exactly when it is a one-to-one chat holding the caller; every chat that answers a lookup for any other user answers this one too |
| ChatController.FindDirectChat | controllers/chatController.js:32-45 | returns a one-to-one chat holding both users if one exists, and none otherwise |
| ChatController.AccessChat | controllers/chatController.js:9-82 | 400 without `userId`, 404 unknown user, 403 block either way, else success; returns an existing one-to-one chat with its unread count (no `deletedFor` check), or creates `[me, userId]` with unread 0 |
| ChatController.FetchChats | controllers/chatController.js:87-141 | exactly the caller's chats not archived by the caller, each once; unread count as in `getUnreadCount`, 0 when none; `isMuted` iff the caller is in `mutedBy` |
| ChatController.InviteesMembers | controllers/chatController.js:169-175 | the kept users are exactly the requested ones that exist and are not blocked either way |
| ChatController.InviteesAllPass | controllers/chatController.js:169-175 | when every requested user passes, the request is kept as given, in order and with repeats |
| ChatController.CollectInvitees | controllers/chatController.js:166-175 | the loop collects exactly `Invitees` |
| ChatController.CreatedGroup | controllers/chatController.js:177-187 | the new group is a group; the creator is admin and last member; the other members are exactly the requested users that pass |
| ChatController.CreatorAloneWhenNoneInvitable | controllers/chatController.js:161-177 | with no requested user existing, the group is created with the creator alone |
| ChatController.CreateGroupChat | controllers/chatController.js:146-198 | 400 for a missing name or users, an empty list, or a description over 500 UTF-16 code units; nothing changes on error; otherwise the group of `CreatedGroup` is created |
| ChatController.RenameGroup | controllers/chatController.js:203-231 | 404, 400 not a group, 403 not admin; otherwise only `chatName` changes |
| ChatController.AddToGroup | controllers/chatController.js:236-277 | in order: 404 chat, 403 not admin, 400 already member, 404 user, 403 block; otherwise the user is appended and nothing else changes |
| ChatController.AddedOnce | controllers/chatController.js:269 | an added user is a member exactly once and other counts are unchanged |
| ChatController.RemoveFromGroup | controllers/chatController.js:282-310 | 404, 403 not admin, 400 for the admin; otherwise every entry of the user is removed |
| ChatController.RemovalKeepsOthers | controllers/chatController.js:297-302 | removal keeps the admin, drops the user, and keeps every other member's entries |
| ChatController.FirstOther | controllers/chatController.js:333 | `users.find(x => x !== me)`: none iff every entry is `me`; otherwise a member other than `me` |
| ChatController.FirstOtherIsFirst | controllers/chatController.js:333 | the chosen entry is the first in list order that is not `me` |
| ChatController.AdminNotice | controllers/chatController.js:338-343 | the system message is sent in the leaver's name, in that chat, with type system |
| ChatController.AdminHandOver | controllers/chatController.js:331-369 | when the admin leaves and someone else is listed, the new admin is a member, and the leaver is neither member nor admin |
| ChatController.AdminLeftAlone | controllers/chatController.js:331-334 | a group listing only its admin twice passes the size check, yet ends with no member and no admin |
| ChatController.Announce | controllers/chatController.js:338-353 | the notice is created, then announced to the room, then the chat is saved with it as latest message |
| ChatController.HandOver | controllers/chatController.js:331-369 | the store afterwards is `HandedOver`: admin to the first other entry, notice only when that user exists, leaver removed |
| ChatController.LeaveGroup | controllers/chatController.js:315-372 | 404, 400 not a group; a non-admin is removed; an admin with more than one entry hands over; an admin alone deletes the chat and all its messages |
| ChatController.MuteChat | controllers/chatController.js:377-398 | 404; otherwise `mutedBy` becomes `SetFlag` and the reply echoes the flag |
| ChatController.ArchiveChat | controllers/chatController.js:403-424 | 404; otherwise `archivedBy` becomes `SetFlag` and the reply echoes the flag |
| ChatController.ArchiveHides | controllers/chatController.js:89-92 | for a member, archiving removes the chat from the list and unarchiving brings it back |
| UserController.UpdatedProfile | controllers/userController.js:27-33 | name and status change only when given (`given \|\| current`, an empty value keeps the current one), the image only when uploaded; nothing else changes |
| UserController.EmptyUpdateKeepsProfile | controllers/userController.js:27-33 | an update giving nothing leaves the profile unchanged |
| UserController.UpdateUserProfile | controllers/userController.js:23-52 | 404 for an unknown caller; a status over 200 UTF-16 code units fails the save with no change; otherwise the profile is saved |
| UserController.SearchExcludesBlocked | controllers/userController.js:74-82 | a search result is never the caller, nor blocked in either direction |
| UserController.GetAllUsers | controllers/userController.js:57-88 | at most 20 users, each once, each matching the keyword, not the caller, unblocked both ways and active; fewer than 20 only when no other user qualifies |
| UserController.BlockUser | controllers/userController.js:93-129 | 400 no id, 400 self, 404 unknown, 400 already blocked; otherwise the id is appended once |
| UserController.BlockThenUnblock | controllers/userController.js:122-123 | after blocking, `hasBlocked` holds with one entry; unblocking restores the original list |
| UserController.UnblockUser | controllers/userController.js:134-162 | 400 no id, 400 not blocked; otherwise every entry is removed and saved, and the reply fails afterwards if the user does not exist |
| UserController.GetUserById | controllers/userController.js:179-196 | as intended: 404 unknown user, 403 block either way, otherwise that user's profile |
| UserController.GetUserByIdAsWritten | controllers/userController.js:179-196 | as written: 404 unknown user, 403 only when the caller blocks the target, otherwise that user's profile |
| UserController.GetUserByIdIgnoresTargetBlock | controllers/userController.js:180-192 | a target that blocked the caller is shown by the written handler and refused with 403 by the intended one |
| UserController.UpdateOnlineStatus | controllers/userController.js:201-213 | 404 for an unknown caller; otherwise `setOnlineStatus` is saved |
| SocketServer.Setup | server.js:27-49 | without an id nothing changes; otherwise the registry maps the user to the socket; the user is saved online before `user online` goes to the others, then `connected` goes to the socket |
| SocketServer.AnnounceOnline | server.js:40-48 | an existing user is saved online (an unknown id updates nothing), then `user online` goes to every other socket and `connected` to this one; chats and messages are untouched |
| SocketServer.SetupMarksOnline | server.js:40 | the update `setup` sends is `setOnlineStatus(true)` |
| SocketServer.Disconnect | server.js:134-169 | an unknown socket changes nothing; otherwise the holder's entry is removed, and an existing user is saved offline with `lastSeen` now before `user offline` carries that time |
| SocketServer.GetOnlineUsers | server.js:172-175 | the socket gets the registry's keys, each once |
| SocketServer.MessageRead | server.js:80-110 | unknown message or an existing reader: nothing changes and no receipt; otherwise one entry is appended, then the receipt goes to the sender's room |

## Left out

- `searchMessages` (controllers/messageController.js:431-474) and `downloadFile` (479-496) are not modelled. One is a regex query over content; the other is a redirect.
- `getUserProfile` and `getBlockedUsers` (controllers/userController.js:8-18, 167-174) are not modelled. They are plain reads of the caller's document.
- Room joins (`join chat`, `leave chat`, the personal room joined in `setup`) and the relays for typing, recording and reactions (server.js:52-72, 113-131) are not modelled. They forward client payloads and hold no state. Delivery of emissions is not modelled: an emission is a log entry with its target.
- Mongoose mechanics are not modelled: `populate`, and the response shapes that `populate` and `select` build. The one projection that changes a decision, in `getUserById`, is under Findings. `fetchChats`' sort by `updatedAt` is also left out; its list is specified as a set of distinct chats.
- The natural order of `Chat.find` and `User.find` is left open. `FindDirectChat` returns some matching chat, not the first stored. `GetAllUsers` returns some 20 qualifying users.
- UserController.GetAllUsers: the keyword regex (`$regex` on name, email and phone, case-insensitive) is the parameter `matches`. Without a keyword, `matches` accepts everyone.
- ChatController.CreateGroupChat: the JSON parse of `users` is the parameter `requested`. An absent field and unparsable text are both `None` and give 400. A parsed value that is not an array is not modelled.
- String trimming by the schemas (`chatName`, `content`, `name`) is not modelled.
- Malformed ObjectIds are not modelled: ids are naturals, so cast errors cannot arise. The same goes for missing body fields the code never checks (`userId` in `addToGroup` and `removeFromGroup`, `chatName` in `renameGroup`); these are plain parameters.
- The error middleware is not modelled. A throw with no status set is `Err(StatusUnset, ...)`, and the HTTP code finally sent is left open.
- Failures of the database itself are not modelled. The per-chat `catch` in `forwardMessage` and the `catch` around the admin notice in `leaveGroup` never fire here. The only save failures modelled are the schema limits: status at most 200 UTF-16 code units and description at most 500, counted as JavaScript's `length` counts them.
- Documents are values. A Mongoose method that changes the in-memory document and then saves it is modelled as a function from the old document to the new one, plus one store write. This covers `addReaction`, `removeReaction`, `setOnlineStatus` and the chat edits. The model does not capture aliasing between in-memory copies of a document.
- The typed Mongo `readBy.user`/`deletedFor` comparisons are equality on ids.
- `readAt`, `lastSeen` and `createdAt` are readings of an abstract clock passed as `now`.
- JavaScript number limits are not modelled. Counts are unbounded naturals; the source's counts stay far below 2^53.
- Concurrency between requests is not modelled. The handlers are asynchronous and can interleave at every `await`; each is modelled as one atomic step on the store.
- The clock is assumed monotone. SendMessage, ForwardMessage, LeaveGroup, their helpers and Store.Db.CreateMessage require `NotAfter(db.messages, now)`: `now` is not earlier than any stored `createdAt`. `new Date()` does not guarantee this, and the `createdAt` order of AllMessages rests on it.
- The requirement `me in db.users` (or `me in users`) of AccessChat, CreateGroupChat, AddToGroup, BlockUser, UnblockUser, GetAllUsers, GetUserById, GetUserByIdAsWritten and their helpers is what the `protect` middleware establishes before every route: it loads the caller's document and answers 401 when there is none (middleware/authMiddleware.js:34-41).

## Findings

| source | as written | input that shows it | evidently intended | confidence | as-written member | corrected member |
|---|---|---|---|---|---|---|
| controllers/messageController.js:9-42 | the `catch` around the whole handler sets status 400 on every error. This overwrites the 404 (unknown chat) and the 403 (not a member) set just before the throw. | a request for a chat id that does not exist: 400 instead of 404 (lemma MessageController.AllMessagesStatusReset) | 404 for an unknown chat and 403 for a non-member | not executed | MessageController.AllMessagesAsWritten | MessageController.AllMessages |
| controllers/userController.js:180-192 | the target is loaded with `select('name image status isOnline lastSeen')`, which leaves out `blockedUsers`; `hasBlocked` guards on `this.blockedUsers` (models/User.js:64-67) and so is false for the target, and only the caller's own list is consulted | a target whose `blockedUsers` lists the caller, while the caller does not block the target: the profile is returned (lemma UserController.GetUserByIdIgnoresTargetBlock) | 403 when either user blocks the other | not executed | UserController.GetUserByIdAsWritten | UserController.GetUserById |
