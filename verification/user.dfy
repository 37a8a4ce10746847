/** The User document (models/User.js): fields, defaults, the block check and
    the online/offline transition. */
module UserModel {
  import opened Common

  datatype User = User(
    id: UserId,
    name: string,
    email: Option<string>,
    phone: Option<string>,
    status: string,
    image: string,
    blockedUsers: seq<UserId>,
    isOnline: bool,
    lastSeen: Time,
    isActive: bool)

  const DefaultStatus: string := "Hi! I am using this chat app."
  const DefaultImage: string := "https://icon-library.com/images/anonymous-avatar-icon/anonymous-avatar-icon-25.jpg"
  /** The schema's `maxlength` on `status`, enforced on every save. */
  const MaxStatusLength: nat := 200

  /** A freshly created user document, with the schema's defaults. */
  function NewUser(id: UserId, name: string, now: Time): (u: User)
    ensures u.id == id && u.name == name
    ensures !u.isOnline && u.isActive && u.blockedUsers == []
    ensures u.lastSeen == now && u.status == DefaultStatus && u.image == DefaultImage
    ensures StatusValid(u)
  {
    User(id, name, None, None, DefaultStatus, DefaultImage, [], false, now, true)
  }

  /** The schema validation a save applies to `status`. */
  predicate StatusValid(u: User)
  {
    Utf16Length(u.status) <= MaxStatusLength
  }

  /** The limit counts UTF-16 code units: 101 copies of U+1F600 are 101
      characters but 202 units, so the save refuses them. */
  lemma StatusLimitCountsCodeUnits(u: User)
    requires u.status == seq(101, _ => '\U{1F600}')
    ensures |u.status| <= MaxStatusLength && !StatusValid(u)
  {
    Utf16LengthSupplementary('\U{1F600}', 101);
  }

  /** `user.hasBlocked(other)`: some entry of `blockedUsers` equals `other`.
      An absent list is the empty list here, so the check is false for it. */
  predicate HasBlocked(u: User, other: UserId)
  {
    exists i :: 0 <= i < |u.blockedUsers| && u.blockedUsers[i] == other
  }

  /** The check the controllers make before two users may interact:
      either one has blocked the other. */
  predicate BlockedEitherWay(a: User, b: User)
  {
    HasBlocked(a, b.id) || HasBlocked(b, a.id)
  }

  /** `hasBlocked` agrees with membership in `blockedUsers`. */
  lemma HasBlockedIsMembership(u: User, other: UserId)
    ensures HasBlocked(u, other) <==> other in u.blockedUsers
  {
  }

  /** `user.setOnlineStatus(isOnline)`: going offline stamps `lastSeen`;
      going online leaves it as it was; nothing else changes. */
  function SetOnlineStatus(u: User, online: bool, now: Time): (r: User)
    ensures r.isOnline == online
    ensures r.lastSeen == if online then u.lastSeen else now
    ensures r.(isOnline := u.isOnline, lastSeen := u.lastSeen) == u
    ensures StatusValid(r) == StatusValid(u)
  {
    if online then u.(isOnline := true) else u.(isOnline := false, lastSeen := now)
  }

  /** Going online and then offline leaves the user offline with `lastSeen`
      at the offline moment, whatever it was before. */
  lemma OnlineThenOffline(u: User, t1: Time, t2: Time)
    ensures var r := SetOnlineStatus(SetOnlineStatus(u, true, t1), false, t2);
      !r.isOnline && r.lastSeen == t2 && r.blockedUsers == u.blockedUsers
  {
  }
}
