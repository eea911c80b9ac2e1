/** The server's socket registry: the module-level `userSocketMap`, a
    JavaScript `Map` from the user id a client registers to the id of the
    socket it registered on. A JavaScript `Map` iterates in insertion order,
    `set` on a present key keeps that key's place and `set` on a new key
    appends it, so the map is modelled as the sequence of its entries in
    iteration order. */
module SocketsUtil {
  import opened Common

  /** The user id a client sends with `register`, for the kinds of value
      the model represents: the handler stores it as a key without any
      check, so `undefined` and `null` are keys too. */
  datatype UserKey = Undefined | Null | Str(s: string) | Num(n: int)

  type SocketId = string

  datatype Entry = Entry(user: UserKey, socket: SocketId)

  /** A `Map` never holds one key twice. */
  predicate DistinctKeys(es: seq<Entry>)
  {
    forall i, j :: 0 <= i < j < |es| ==> es[i].user != es[j].user
  }

  /** The position of key `u`, or -1 when it is absent. */
  function KeyIndex(es: seq<Entry>, u: UserKey): (i: int)
    ensures -1 <= i < |es|
    ensures i >= 0 ==> es[i].user == u && forall j :: 0 <= j < i ==> es[j].user != u
    ensures i == -1 ==> forall j :: 0 <= j < |es| ==> es[j].user != u
  {
    if es == [] then -1
    else if es[0].user == u then 0
    else
      var k := KeyIndex(es[1..], u);
      if k == -1 then -1 else k + 1
  }

  /** `userSocketMap.get(u)` */
  function Lookup(es: seq<Entry>, u: UserKey): Option<SocketId>
  {
    if es == [] then None
    else if es[0].user == u then Some(es[0].socket)
    else Lookup(es[1..], u)
  }

  /** The registry seen as a finite map, for stating what `set` and
      `delete` do to the associations regardless of order. */
  ghost function AsMap(es: seq<Entry>): map<UserKey, SocketId>
  {
    if es == [] then map[] else AsMap(es[1..])[es[0].user := es[0].socket]
  }

  /** `userSocketMap.set(u, s)`: a present key keeps its place and gets the
      new value; a new key goes last. */
  function Set(es: seq<Entry>, u: UserKey, s: SocketId): seq<Entry>
  {
    if es == [] then [Entry(u, s)]
    else if es[0].user == u then [Entry(u, s)] + es[1..]
    else [es[0]] + Set(es[1..], u, s)
  }

  /** The position of the first entry whose socket is `s`, or -1. */
  function SocketIndex(es: seq<Entry>, s: SocketId): (i: int)
    ensures -1 <= i < |es|
    ensures i >= 0 ==> es[i].socket == s && forall j :: 0 <= j < i ==> es[j].socket != s
    ensures i == -1 ==> forall j :: 0 <= j < |es| ==> es[j].socket != s
  {
    if es == [] then -1
    else if es[0].socket == s then 0
    else
      var k := SocketIndex(es[1..], s);
      if k == -1 then -1 else k + 1
  }

  /** What the `disconnect` handler does: delete the first entry, in
      iteration order, whose value is `s`, and nothing else. */
  function RemoveFirstSocket(es: seq<Entry>, s: SocketId): seq<Entry>
  {
    var i := SocketIndex(es, s);
    if i == -1 then es else es[..i] + es[i + 1..]
  }

  // ---------------------------------------------------------------------
  // register

  /** `set` replaces the entry of a present key in place and appends an
      absent one. */
  lemma {:induction false} SetShape(es: seq<Entry>, u: UserKey, s: SocketId)
    ensures var i := KeyIndex(es, u);
            Set(es, u, s) == if i == -1 then es + [Entry(u, s)] else es[i := Entry(u, s)]
  {
    if es != [] && es[0].user != u {
      SetShape(es[1..], u, s);
      var k := KeyIndex(es[1..], u);
      if k == -1 {
        assert [es[0]] + (es[1..] + [Entry(u, s)]) == es + [Entry(u, s)];
      } else {
        assert [es[0]] + es[1..][k := Entry(u, s)] == es[k + 1 := Entry(u, s)];
      }
    }
  }

  /** After `register(u)` on socket `s`, `u` is sent to `s` and every other
      key keeps its value (and its presence or absence). */
  lemma {:induction false} SetAsMap(es: seq<Entry>, u: UserKey, s: SocketId)
    ensures AsMap(Set(es, u, s)) == AsMap(es)[u := s]
  {
    if es == [] {
    } else if es[0].user == u {
      assert ([Entry(u, s)] + es[1..])[1..] == es[1..];
    } else {
      SetAsMap(es[1..], u, s);
      assert ([es[0]] + Set(es[1..], u, s))[1..] == Set(es[1..], u, s);
    }
  }

  lemma {:induction false} SetLookup(es: seq<Entry>, u: UserKey, s: SocketId, v: UserKey)
    ensures Lookup(Set(es, u, s), u) == Some(s)
    ensures v != u ==> Lookup(Set(es, u, s), v) == Lookup(es, v)
  {
    if es == [] {
    } else if es[0].user == u {
      assert ([Entry(u, s)] + es[1..])[1..] == es[1..];
    } else {
      assert ([es[0]] + Set(es[1..], u, s))[1..] == Set(es[1..], u, s);
      SetLookup(es[1..], u, s, v);
    }
  }

  lemma {:induction false} SetKeepsDistinct(es: seq<Entry>, u: UserKey, s: SocketId)
    requires DistinctKeys(es)
    ensures DistinctKeys(Set(es, u, s))
  {
    SetShape(es, u, s);
  }

  /** The number of entries whose key is `u`. */
  function KeyCount(es: seq<Entry>, u: UserKey): nat
  {
    if es == [] then 0 else (if es[0].user == u then 1 else 0) + KeyCount(es[1..], u)
  }

  lemma {:induction false} KeyCountSet(es: seq<Entry>, u: UserKey, s: SocketId)
    requires DistinctKeys(es)
    ensures KeyCount(Set(es, u, s), u) == 1
  {
    if es == [] {
    } else if es[0].user == u {
      assert ([Entry(u, s)] + es[1..])[1..] == es[1..];
      KeyCountAbsent(es[1..], u);
    } else {
      assert ([es[0]] + Set(es[1..], u, s))[1..] == Set(es[1..], u, s);
      KeyCountSet(es[1..], u, s);
    }
  }

  lemma {:induction false} KeyCountAbsent(es: seq<Entry>, u: UserKey)
    requires forall j :: 0 <= j < |es| ==> es[j].user != u
    ensures KeyCount(es, u) == 0
  {
    if es != [] {
      KeyCountAbsent(es[1..], u);
    }
  }

  /** Registering `u` from `s1` and then from `s2`: the last write wins, the
      registry is as if only the second had happened, and `u` has exactly
      one entry. */
  lemma RegisterTwice(es: seq<Entry>, u: UserKey, s1: SocketId, s2: SocketId)
    requires DistinctKeys(es)
    ensures Set(Set(es, u, s1), u, s2) == Set(es, u, s2)
    ensures Lookup(Set(Set(es, u, s1), u, s2), u) == Some(s2)
    ensures KeyCount(Set(Set(es, u, s1), u, s2), u) == 1
  {
    SetShape(es, u, s1);
    SetShape(es, u, s2);
    var once := Set(es, u, s1);
    SetShape(once, u, s2);
    SetLookup(once, u, s2, u);
    SetKeepsDistinct(es, u, s1);
    KeyCountSet(once, u, s2);
  }

  /** No guard on the id: registering `undefined` creates an entry that a
      lookup of `undefined` finds. */
  lemma RegisterUndefined(es: seq<Entry>, s: SocketId)
    ensures Lookup(Set(es, Undefined, s), Undefined) == Some(s)
    ensures Undefined in AsMap(Set(es, Undefined, s))
  {
    SetLookup(es, Undefined, s, Undefined);
    SetAsMap(es, Undefined, s);
  }

  // ---------------------------------------------------------------------
  // disconnect

  /** At most one entry goes, it is one whose value is `s`, and every
      entry whose value is a different socket stays. */
  lemma RemoveFirstSocketKeepsOthers(es: seq<Entry>, s: SocketId)
    ensures var r, i := RemoveFirstSocket(es, s), SocketIndex(es, s);
            && (i == -1 ==> r == es)
            && (i != -1 ==> |r| == |es| - 1 && es[i].socket == s
                            && multiset(r) + multiset{es[i]} == multiset(es))
            && (forall j :: 0 <= j < |es| && es[j].socket != s ==> es[j] in r)
  {
    var i := SocketIndex(es, s);
    if i != -1 {
      var before, after := es[..i], es[i + 1..];
      var r := before + after;
      assert es == before + [es[i]] + after;
      forall j | 0 <= j < |es| && es[j].socket != s
        ensures es[j] in r
      {
        if j < i {
          assert es[j] == r[j];
        } else {
          assert es[j] == r[j - 1];
        }
      }
    }
  }

  /** A socket that no entry names: nothing changes. */
  lemma RemoveAbsentSocket(es: seq<Entry>, s: SocketId)
    requires forall j :: 0 <= j < |es| ==> es[j].socket != s
    ensures RemoveFirstSocket(es, s) == es
  {
  }

  lemma KeepsDistinctWithout(es: seq<Entry>, i: nat)
    requires DistinctKeys(es) && i < |es|
    ensures DistinctKeys(es[..i] + es[i + 1..])
  {
    var r := es[..i] + es[i + 1..];
    forall a, b | 0 <= a < b < |r| ensures r[a].user != r[b].user {
      var a' := if a < i then a else a + 1;
      var b' := if b < i then b else b + 1;
      assert r[a] == es[a'] && r[b] == es[b'];
    }
  }

  // ---------------------------------------------------------------------
  // The registry object

  /** `userSocketMap` together with its two event handlers. */
  class SocketRegistry {
    var entries: seq<Entry>

    ghost predicate Valid()
      reads this
    {
      DistinctKeys(entries)
    }

    constructor ()
      ensures Valid() && entries == []
    {
      entries := [];
    }

    /** The `register` handler of the connection on socket `socket`. */
    method Register(userId: UserKey, socket: SocketId)
      requires Valid()
      modifies this
      ensures Valid()
      ensures entries == Set(old(entries), userId, socket)
      ensures Lookup(entries, userId) == Some(socket)
      ensures AsMap(entries) == AsMap(old(entries))[userId := socket]
    {
      SetKeepsDistinct(entries, userId, socket);
      SetLookup(entries, userId, socket, userId);
      SetAsMap(entries, userId, socket);
      entries := Set(entries, userId, socket);
    }

    /** The `disconnect` handler of the connection on socket `socket`: scan
        the entries in order and delete the first whose value matches. */
    method Disconnect(socket: SocketId)
      requires Valid()
      modifies this
      ensures Valid()
      ensures entries == RemoveFirstSocket(old(entries), socket)
    {
      var i := 0;
      while i < |entries|
        invariant 0 <= i <= |entries|
        invariant entries == old(entries)
        invariant forall j :: 0 <= j < i ==> entries[j].socket != socket
      {
        if entries[i].socket == socket {
          KeepsDistinctWithout(entries, i);
          entries := entries[..i] + entries[i + 1..];
          break;
        }
        i := i + 1;
      }
    }
  }
}
