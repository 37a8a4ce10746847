/** Identifiers, handler results and the array helpers the controllers share. */
module Common {

  /** Mongo ObjectIds. The source compares them through their string forms,
      which is comparison by value. */
  type UserId = nat
  type ChatId = nat
  type MessageId = nat
  /** socket.io connection ids. */
  type SocketId = nat
  /** A reading of an abstract clock, standing for `new Date()` and `Date.now`. */
  type Time = nat

  datatype Option<+T> = None | Some(value: T)

  /** What a request handler produces: the response body, or the HTTP status it
      sets with `res.status(...)` before throwing, with the error message. */
  datatype Result<+T> = Ok(value: T) | Err(status: nat, reason: string)

  const BadRequest: nat := 400
  const Forbidden: nat := 403
  const NotFound: nat := 404
  /** A handler that throws without calling `res.status` leaves Express's
      default status, 200, in place; the error middleware then picks the code. */
  const StatusUnset: nat := 200

  /** `list.filter(x => x !== v)` on a list of ObjectIds (`users`, `mutedBy`,
      `blockedUsers`, ...): every occurrence of `v` dropped, the rest kept in order. */
  function RemoveAll(s: seq<nat>, v: nat): (r: seq<nat>)
    ensures v !in r
    ensures forall x :: x != v ==> (x in r <==> x in s)
    ensures multiset(r) == multiset(s)[v := 0]
    decreases |s|
  {
    if s == [] then []
    else
      assert s == [s[0]] + s[1..];
      if s[0] == v then RemoveAll(s[1..], v)
      else [s[0]] + RemoveAll(s[1..], v)
  }

  /** `if (!list.includes(v)) list.push(v)`. */
  function AddOnce(s: seq<nat>, v: nat): (r: seq<nat>)
    ensures forall x :: x in r <==> (x in s || x == v)
    ensures multiset(r)[v] == if v in s then multiset(s)[v] else 1
    ensures forall x :: x != v ==> multiset(r)[x] == multiset(s)[x]
  {
    if v in s then s else s + [v]
  }

  /** The mute/archive toggle: add the user when `on`, drop every occurrence otherwise. */
  function SetFlag(s: seq<nat>, v: nat, on: bool): (r: seq<nat>)
    ensures (v in r) == on
    ensures forall x :: x != v ==> multiset(r)[x] == multiset(s)[x]
  {
    if on then AddOnce(s, v) else RemoveAll(s, v)
  }

  lemma {:induction false} RemoveAllAbsent(s: seq<nat>, v: nat)
    requires v !in s
    ensures RemoveAll(s, v) == s
    decreases |s|
  {
    if s != [] {
      RemoveAllAbsent(s[1..], v);
    }
  }

  lemma {:induction false} RemoveAllAppend(s: seq<nat>, t: seq<nat>, v: nat)
    ensures RemoveAll(s + t, v) == RemoveAll(s, v) + RemoveAll(t, v)
    decreases |s|
  {
    if s == [] {
      assert s + t == t;
    } else {
      assert (s + t)[1..] == s[1..] + t;
      RemoveAllAppend(s[1..], t, v);
    }
  }

  /** Removing twice is removing once. */
  lemma RemoveAllIdempotent(s: seq<nat>, v: nat)
    ensures RemoveAll(RemoveAll(s, v), v) == RemoveAll(s, v)
  {
    RemoveAllAbsent(RemoveAll(s, v), v);
  }

  /** Adding an absent element and removing it again gives back the list. */
  lemma RemoveAfterAddOnce(s: seq<nat>, v: nat)
    requires v !in s
    ensures RemoveAll(AddOnce(s, v), v) == s
  {
    RemoveAllAppend(s, [v], v);
    RemoveAllAbsent(s, v);
  }

  /** Both directions of the toggle are idempotent. */
  lemma SetFlagIdempotent(s: seq<nat>, v: nat, on: bool)
    ensures SetFlag(SetFlag(s, v, on), v, on) == SetFlag(s, v, on)
  {
    if !on {
      RemoveAllIdempotent(s, v);
    }
  }

  /** No element occurs twice. */
  predicate NoDup(s: seq<nat>)
  {
    forall x | x in s :: multiset(s)[x] == 1
  }

  /** Positions of a list without repeats hold different elements. */
  lemma NoDupDistinct(s: seq<nat>, i: nat, j: nat)
    requires NoDup(s) && i < j < |s|
    ensures s[i] != s[j]
  {
    assert s == s[..j] + [s[j]] + s[j + 1..];
    assert s[i] in s[..j];
    assert multiset(s)[s[i]] == multiset(s[..j])[s[i]] + multiset([s[j]])[s[i]] + multiset(s[j + 1..])[s[i]];
  }

  /** JavaScript's `s.length`, which schema `maxlength` checks compare: the
      number of UTF-16 code units, two for a character above U+FFFF. */
  function Utf16Length(s: string): (n: nat)
    ensures |s| <= n <= 2 * |s|
  {
    if s == [] then 0 else (if s[0] as int > 0xFFFF then 2 else 1) + Utf16Length(s[1..])
  }

  /** Units and characters agree exactly when no character lies above U+FFFF. */
  lemma {:induction false} Utf16LengthBmp(s: string)
    ensures Utf16Length(s) == |s| <==> forall i | 0 <= i < |s| :: s[i] as int <= 0xFFFF
  {
    if s != [] {
      Utf16LengthBmp(s[1..]);
      assert forall i | 1 <= i < |s| :: s[i] == s[1..][i - 1];
    }
  }

  /** Code units add up over concatenation. */
  lemma {:induction false} Utf16LengthAppend(s: string, t: string)
    ensures Utf16Length(s + t) == Utf16Length(s) + Utf16Length(t)
  {
    if s == [] {
      assert s + t == t;
    } else {
      assert (s + t)[1..] == s[1..] + t;
      Utf16LengthAppend(s[1..], t);
    }
  }

  /** A string of one character above U+FFFF (an emoji, say) repeated `k`
      times has `k` characters and twice as many code units. */
  lemma {:induction false} Utf16LengthSupplementary(c: char, k: nat)
    requires c as int > 0xFFFF
    ensures var s := seq(k, _ => c); |s| == k && Utf16Length(s) == 2 * k
  {
    if k > 0 {
      Utf16LengthSupplementary(c, k - 1);
      assert seq(k, _ => c)[1..] == seq(k - 1, _ => c);
    }
  }

  /** Whether `p` is a prefix of `s` (`s.startsWith(p)`). */
  predicate StartsWith(s: string, p: string)
  {
    |p| <= |s| && s[..|p|] == p
  }
}
