/** The registry of connected users (`activeUsers` in server.js): a JS `Map`
    from user id to socket id, which remembers the order keys were first set. */
module Presence {
  import opened Common

  /** The first user, in key order, whose socket is `s`: the one the
      disconnect loop finds before it breaks. */
  function Holder(order: seq<UserId>, sockets: map<UserId, SocketId>, s: SocketId): (r: Option<UserId>)
    ensures r.Some? ==> r.value in order && r.value in sockets && sockets[r.value] == s
    ensures r.None? ==> forall u :: u in order && u in sockets ==> sockets[u] != s
    decreases |order|
  {
    if order == [] then None
    else if order[0] in sockets && sockets[order[0]] == s then Some(order[0])
    else Holder(order[1..], sockets, s)
  }

  /** The holder is the earliest match: every key before it has another socket. */
  lemma {:induction false} HolderIsFirst(order: seq<UserId>, sockets: map<UserId, SocketId>, s: SocketId, i: nat)
    requires i < |order| && order[i] in sockets && sockets[order[i]] == s
    requires forall j :: 0 <= j < i ==> !(order[j] in sockets && sockets[order[j]] == s)
    ensures Holder(order, sockets, s) == Some(order[i])
    decreases i
  {
    if i > 0 {
      HolderIsFirst(order[1..], sockets, s, i - 1);
    }
  }

  /** When exactly one key holds `s`, the loop finds that key. */
  lemma {:induction false} HolderUnique(order: seq<UserId>, sockets: map<UserId, SocketId>, s: SocketId, u: UserId)
    requires u in order && u in sockets && sockets[u] == s
    requires forall x :: x in order && x in sockets && sockets[x] == s ==> x == u
    ensures Holder(order, sockets, s) == Some(u)
    decreases |order|
  {
    if order[0] != u {
      HolderUnique(order[1..], sockets, s, u);
    }
  }

  /** The key order after `Map.set(u, ...)`: a new key goes last, an existing
      key keeps its place. */
  function OrderAfterSet(order: seq<UserId>, sockets: map<UserId, SocketId>, u: UserId): (r: seq<UserId>)
    requires forall x :: x in order <==> x in sockets
    requires NoDup(order)
    ensures NoDup(r) && forall x :: x in r <==> x in order || x == u
    ensures u in sockets ==> r == order
    ensures u !in sockets ==> |r| == |order| + 1 && r[..|order|] == order && r[|order|] == u
  {
    if u in sockets then order else order + [u]
  }

  /** A socket nobody held before, once set for `u`, is held by `u`: its
      disconnect marks `u` offline. */
  lemma {:induction false} HolderAfterSet(order: seq<UserId>, sockets: map<UserId, SocketId>, u: UserId, s: SocketId)
    requires forall x :: x in order <==> x in sockets
    requires NoDup(order)
    requires Holder(order, sockets, s).None?
    ensures Holder(OrderAfterSet(order, sockets, u), sockets[u := s], s) == Some(u)
  {
    HolderUnique(OrderAfterSet(order, sockets, u), sockets[u := s], s, u);
  }

  /** A user who sets up again from a new socket leaves the old socket held by
      nobody, provided nobody else held it: the old connection's disconnect
      then changes nothing. */
  lemma StaleSocketHeldByNobody(order: seq<UserId>, sockets: map<UserId, SocketId>, u: UserId, old_s: SocketId, s: SocketId)
    requires forall x :: x in order <==> x in sockets
    requires NoDup(order)
    requires u in sockets && sockets[u] == old_s && s != old_s
    requires forall x :: x in sockets && x != u ==> sockets[x] != old_s
    ensures Holder(OrderAfterSet(order, sockets, u), sockets[u := s], old_s).None?
  {
  }

  class Registry {
    var sockets: map<UserId, SocketId>
    /** The keys in the order they were first set. */
    var order: seq<UserId>

    ghost predicate Valid()
      reads this
    {
      NoDup(order) && forall u :: u in order <==> u in sockets
    }

    /** `new Map()`. */
    constructor ()
      ensures Valid() && sockets == map[] && order == []
    {
      sockets, order := map[], [];
    }

    /** `activeUsers.set(u, s)`: the user's entry now names `s`. */
    method Set(u: UserId, s: SocketId)
      requires Valid()
      modifies this
      ensures Valid()
      ensures sockets == old(sockets)[u := s]
      ensures order == OrderAfterSet(old(order), old(sockets), u)
    {
      order := OrderAfterSet(order, sockets, u);
      sockets := sockets[u := s];
    }

    /** The disconnect loop: walk the entries in key order, delete the first
        whose socket is `s` and stop; report whose it was. */
    method TakeSocket(s: SocketId) returns (who: Option<UserId>)
      requires Valid()
      modifies this
      ensures Valid()
      ensures who == Holder(old(order), old(sockets), s)
      ensures who.None? ==> sockets == old(sockets) && order == old(order)
      ensures who.Some? ==> sockets == old(sockets) - {who.value} && order == RemoveAll(old(order), who.value)
    {
      who := None;
      var i := 0;
      while i < |order|
        invariant 0 <= i <= |order|
        invariant who.None? && Valid()
        invariant sockets == old(sockets) && order == old(order)
        invariant Holder(order, sockets, s) == Holder(order[i..], sockets, s)
      {
        var u := order[i];
        if sockets[u] == s {
          who := Some(u);
          sockets := sockets - {u};
          order := RemoveAll(order, u);
          break;
        }
        assert order[i..][1..] == order[i + 1..];
        i := i + 1;
      }
    }

    /** `Array.from(activeUsers.keys())`: every connected user once. */
    function OnlineUsers(): (r: seq<UserId>)
      requires Valid()
      reads this
      ensures NoDup(r) && forall u :: u in r <==> u in sockets
    {
      order
    }
  }
}
