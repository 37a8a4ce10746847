/** The user handlers (controllers/userController.js): profile updates, the
    user search, blocking and unblocking, public profiles and the online flag. */
module UserController {
  import opened Common
  import opened UserModel
  import opened Events
  import opened Store

  // ------------------------------------------------- updateUserProfile

  /** `field || current`: an empty value keeps the current one. */
  function OrKeep(given: string, current: string): (r: string)
    ensures given != "" ==> r == given
    ensures given == "" ==> r == current
  {
    if given != "" then given else current
  }

  /** The profile after an update: name and status when given, image when uploaded. */
  function UpdatedProfile(u: User, name: string, status: string, image: Option<string>): (r: User)
    ensures r == u.(name := r.name, status := r.status, image := r.image)
    ensures r.name == OrKeep(name, u.name) && r.status == OrKeep(status, u.status)
    ensures r.image == if image.Some? then image.value else u.image
  {
    u.(name := OrKeep(name, u.name), status := OrKeep(status, u.status),
       image := if image.Some? then image.value else u.image)
  }

  /** An update that gives nothing leaves the profile as it was. */
  lemma EmptyUpdateKeepsProfile(u: User)
    ensures UpdatedProfile(u, "", "", None) == u
  {
  }

  /** `PUT /api/users/profile`. A status over the schema's limit fails the
      save, which throws without setting a status. */
  method UpdateUserProfile(db: Db, me: UserId, name: string, status: string, image: Option<string>) returns (r: Result<User>)
    requires db.Valid()
    modifies db
    ensures db.Valid()
    ensures me !in old(db.users) ==> r.Err? && r.status == NotFound
    ensures me in old(db.users) && !StatusValid(UpdatedProfile(old(db.users)[me], name, status, image)) ==>
      r.Err? && r.status == StatusUnset
    ensures r.Ok? <==> me in old(db.users) && StatusValid(UpdatedProfile(old(db.users)[me], name, status, image))
    ensures r.Err? ==> unchanged(db)
    ensures r.Ok? ==>
      && r.value == UpdatedProfile(old(db.users)[me], name, status, image)
      && db.users == old(db.users)[me := r.value]
      && db.log == old(db.log) + [Stored(UserUpdated(me))]
      && db.chats == old(db.chats) && db.messages == old(db.messages) && db.nextId == old(db.nextId)
  {
    if me !in db.users {
      return Err(NotFound, "User not found");
    }
    var u := UpdatedProfile(db.users[me], name, status, image);
    if !StatusValid(u) {
      return Err(StatusUnset, "status is longer than the maximum allowed length");
    }
    db.PutUser(u);
    r := Ok(u);
  }

  // ------------------------------------------------- getAllUsers

  /** How many users a search returns at most. */
  const SearchLimit: nat := 20

  /** The filter of `getAllUsers`: the keyword matches (`matches`, which
      accepts everyone when no keyword is given), and the user is not the
      caller, not blocked by the caller, has not blocked the caller, and is active. */
  predicate Searchable(current: User, u: User, matches: User -> bool)
  {
    matches(u) && u.id != current.id && u.id !in current.blockedUsers && current.id !in u.blockedUsers && u.isActive
  }

  /** A search never shows the caller, nor anyone blocked in either direction. */
  lemma SearchExcludesBlocked(current: User, u: User, matches: User -> bool)
    requires Searchable(current, u, matches)
    ensures u.id != current.id && !BlockedEitherWay(current, u)
  {
    HasBlockedIsMembership(current, u.id);
    HasBlockedIsMembership(u, current.id);
  }

  /** `GET /api/users?search=...`: up to `SearchLimit` users that pass the
      filter, each once; fewer only when no other user passes. */
  method GetAllUsers(users: map<UserId, User>, me: UserId, matches: User -> bool) returns (found: seq<User>)
    requires me in users && forall u | u in users :: users[u].id == u
    ensures |found| <= SearchLimit
    ensures forall k :: 0 <= k < |found| ==>
      found[k].id in users && users[found[k].id] == found[k] && Searchable(users[me], found[k], matches)
    ensures forall j, k :: 0 <= j < k < |found| ==> found[j].id != found[k].id
    ensures |found| < SearchLimit ==> forall u | u in users && Searchable(users[me], users[u], matches) :: users[u] in found
  {
    var current := users[me];
    found := [];
    var rest := users.Keys;
    while rest != {} && |found| < SearchLimit
      invariant rest <= users.Keys && |found| <= SearchLimit
      invariant forall k :: 0 <= k < |found| ==>
        found[k].id in users && found[k].id !in rest && users[found[k].id] == found[k] && Searchable(current, found[k], matches)
      invariant forall j, k :: 0 <= j < k < |found| ==> found[j].id != found[k].id
      invariant forall u | u in users && u !in rest && Searchable(current, users[u], matches) :: users[u] in found
      decreases |rest|
    {
      var id :| id in rest;
      if Searchable(current, users[id], matches) {
        found := found + [users[id]];
      }
      rest := rest - {id};
    }
  }

  // ------------------------------------------------- blockUser / unblockUser

  /** `POST /api/users/block`: `me` appends `userId` to `blockedUsers`. */
  method BlockUser(db: Db, me: UserId, userId: Option<UserId>) returns (r: Result<string>)
    requires db.Valid() && me in db.users
    modifies db
    ensures db.Valid()
    ensures userId.None? ==> r.Err? && r.status == BadRequest
    ensures userId.Some? && userId.value == me ==> r.Err? && r.status == BadRequest
    ensures userId.Some? && userId.value != me && userId.value !in old(db.users) ==> r.Err? && r.status == NotFound
    ensures userId.Some? && userId.value != me && userId.value in old(db.users) && HasBlocked(old(db.users)[me], userId.value) ==>
      r.Err? && r.status == BadRequest
    ensures r.Ok? <==>
      userId.Some? && userId.value != me && userId.value in old(db.users) && !HasBlocked(old(db.users)[me], userId.value)
    ensures r.Err? ==> unchanged(db)
    ensures r.Ok? ==>
      var v := userId.value;
      && r.value == old(db.users)[v].name + " has been blocked"
      && db.users == old(db.users)[me := old(db.users)[me].(blockedUsers := old(db.users)[me].blockedUsers + [v])]
      && db.log == old(db.log) + [Stored(UserUpdated(me))]
      && db.chats == old(db.chats) && db.messages == old(db.messages) && db.nextId == old(db.nextId)
  {
    if userId.None? {
      return Err(BadRequest, "User ID is required");
    }
    var v := userId.value;
    if v == me {
      return Err(BadRequest, "You cannot block yourself");
    }
    if v !in db.users {
      return Err(NotFound, "User not found");
    }
    var current := db.users[me];
    if HasBlocked(current, v) {
      return Err(BadRequest, "User is already blocked");
    }
    db.PutUser(current.(blockedUsers := current.blockedUsers + [v]));
    r := Ok(db.users[v].name + " has been blocked");
  }

  /** Blocking makes `hasBlocked` true and adds exactly one entry, and
      unblocking afterwards restores the list it started from. */
  lemma BlockThenUnblock(u: User, v: UserId)
    requires !HasBlocked(u, v)
    ensures var b := u.(blockedUsers := u.blockedUsers + [v]);
      && HasBlocked(b, v) && multiset(b.blockedUsers)[v] == 1
      && b.(blockedUsers := RemoveAll(b.blockedUsers, v)) == u
  {
    var b := u.(blockedUsers := u.blockedUsers + [v]);
    HasBlockedIsMembership(u, v);
    assert b.blockedUsers[|u.blockedUsers|] == v;
    RemoveAfterAddOnce(u.blockedUsers, v);
  }

  /** `POST /api/users/unblock`: `me` drops every entry of `userId`. The
      reply reads the unblocked user's name after the save, so an unknown
      user fails the request although the list was already saved. */
  method UnblockUser(db: Db, me: UserId, userId: Option<UserId>) returns (r: Result<string>)
    requires db.Valid() && me in db.users
    modifies db
    ensures db.Valid()
    ensures userId.None? ==> r.Err? && r.status == BadRequest && unchanged(db)
    ensures userId.Some? && !HasBlocked(old(db.users)[me], userId.value) ==> r.Err? && r.status == BadRequest && unchanged(db)
    ensures userId.Some? && HasBlocked(old(db.users)[me], userId.value) ==>
      var v := userId.value;
      && db.users == old(db.users)[me := old(db.users)[me].(blockedUsers := RemoveAll(old(db.users)[me].blockedUsers, v))]
      && !HasBlocked(db.users[me], v)
      && db.log == old(db.log) + [Stored(UserUpdated(me))]
      && db.chats == old(db.chats) && db.messages == old(db.messages) && db.nextId == old(db.nextId)
      && (v in old(db.users) ==> r == Ok(old(db.users)[v].name + " has been unblocked"))
      && (v !in old(db.users) ==> r.Err? && r.status == StatusUnset)
  {
    if userId.None? {
      return Err(BadRequest, "User ID is required");
    }
    var v := userId.value;
    var current := db.users[me];
    if !HasBlocked(current, v) {
      return Err(BadRequest, "User is not blocked");
    }
    var unblocked := current.(blockedUsers := RemoveAll(current.blockedUsers, v));
    HasBlockedIsMembership(unblocked, v);
    db.PutUser(unblocked);
    if v !in db.users {
      return Err(StatusUnset, "Cannot read properties of null (reading 'name')");
    }
    r := Ok(db.users[v].name + " has been unblocked");
  }

  // ------------------------------------------------- getUserById

  /** `GET /api/users/:userId` as written: the target is loaded with a
      projection that leaves out `blockedUsers`, so its `hasBlocked` sees no
      list and is false; only the caller's own list can refuse the request. */
  function GetUserByIdAsWritten(users: map<UserId, User>, me: UserId, userId: UserId): (r: Result<User>)
    requires me in users && forall u | u in users :: users[u].id == u
    ensures userId !in users ==> r.Err? && r.status == NotFound
    ensures userId in users && HasBlocked(users[me], userId) ==> r.Err? && r.status == Forbidden
    ensures r.Ok? <==> userId in users && !HasBlocked(users[me], userId)
    ensures r.Ok? ==> r.value == users[userId]
  {
    if userId !in users then Err(NotFound, "User not found")
    else
      var projected := users[userId].(blockedUsers := []);
      if HasBlocked(users[me], userId) || HasBlocked(projected, me) then Err(Forbidden, "Cannot view this profile")
      else Ok(users[userId])
  }

  /** A user who has blocked the caller is still shown by the code as
      written, where the check meant to refuse it with 403. */
  lemma GetUserByIdIgnoresTargetBlock(users: map<UserId, User>, me: UserId, userId: UserId)
    requires me in users && forall u | u in users :: users[u].id == u
    requires userId in users && me in users[userId].blockedUsers && userId !in users[me].blockedUsers
    ensures GetUserByIdAsWritten(users, me, userId) == Ok(users[userId])
    ensures GetUserById(users, me, userId).Err? && GetUserById(users, me, userId).status == Forbidden
  {
    HasBlockedIsMembership(users[me], userId);
    HasBlockedIsMembership(users[userId], me);
  }

  /** `GET /api/users/:userId` as intended: the public profile, unless a
      block stands in either direction. */
  function GetUserById(users: map<UserId, User>, me: UserId, userId: UserId): (r: Result<User>)
    requires me in users && forall u | u in users :: users[u].id == u
    ensures userId !in users ==> r.Err? && r.status == NotFound
    ensures userId in users && BlockedEitherWay(users[me], users[userId]) ==> r.Err? && r.status == Forbidden
    ensures r.Ok? <==> userId in users && !BlockedEitherWay(users[me], users[userId])
    ensures r.Ok? ==> r.value == users[userId]
  {
    if userId !in users then Err(NotFound, "User not found")
    else if HasBlocked(users[me], userId) || HasBlocked(users[userId], me) then Err(Forbidden, "Cannot view this profile")
    else Ok(users[userId])
  }

  // ------------------------------------------------- updateOnlineStatus

  /** `PUT /api/users/status/online`: `setOnlineStatus` on the caller. */
  method UpdateOnlineStatus(db: Db, me: UserId, isOnline: bool, now: Time) returns (r: Result<User>)
    requires db.Valid()
    modifies db
    ensures db.Valid()
    ensures r.Err? <==> me !in old(db.users)
    ensures r.Err? ==> r.status == NotFound && unchanged(db)
    ensures r.Ok? ==>
      && r.value == SetOnlineStatus(old(db.users)[me], isOnline, now)
      && db.users == old(db.users)[me := r.value]
      && db.log == old(db.log) + [Stored(UserUpdated(me))]
      && db.chats == old(db.chats) && db.messages == old(db.messages) && db.nextId == old(db.nextId)
  {
    if me !in db.users {
      return Err(NotFound, "User not found");
    }
    var u := SetOnlineStatus(db.users[me], isOnline, now);
    db.PutUser(u);
    r := Ok(u);
  }
}
