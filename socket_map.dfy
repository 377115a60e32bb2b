/** The value of `activeSockets`: a map from username to the receiver sockets
    registered under it, together with the order in which its keys were created,
    and the effect of a register message and of a socket's close event on it. */
module SocketMap {
  import opened Fields
  import PropertyOrder

  /** A socket's identity; the socket object itself is opaque here. */
  type SocketId = nat

  type Sockets = map<string, seq<SocketId>>

  const ReceiverRole := "receiver"

  /** The properties every plain object inherits from `Object.prototype` in
      Node.js. Reading `activeSockets[u]` for one of these gives a function or
      an object, not an array and not `undefined`. */
  const InheritedNames: set<string> := {
    "constructor", "__proto__", "__defineGetter__", "__defineSetter__",
    "__lookupGetter__", "__lookupSetter__", "hasOwnProperty", "isPrototypeOf",
    "propertyIsEnumerable", "toLocaleString", "toString", "valueOf"
  }

  /** The sockets registered under `u`; none when `u` is not a key. */
  function Holding(m: Sockets, u: string): seq<SocketId> {
    if u in m then m[u] else []
  }

  predicate Distinct(keys: seq<string>) {
    forall i, j :: 0 <= i < j < |keys| ==> keys[i] != keys[j]
  }

  /** The registry invariant: no key maps to an empty list, no key is an
      inherited name, and `keys` lists every key exactly once. */
  ghost predicate WellFormed(m: Sockets, keys: seq<string>) {
    && (forall u :: u in m ==> m[u] != [])
    && (forall u :: u in m ==> u !in InheritedNames)
    && Distinct(keys)
    && (forall u :: u in keys <==> u in m)
  }

  /** A register message adds its socket when the username is truthy and the
      role is "receiver". For an inherited name, `push` is not a function of
      `activeSockets[u]`; the TypeError is caught and nothing changes. */
  predicate Accepts(role: Option<string>, username: Option<string>) {
    && Truthy(username)
    && role == Some(ReceiverRole)
    && username.value !in InheritedNames
  }

  /** The registry after a register message from `socket`. */
  function Registered(m: Sockets, keys: seq<string>, socket: SocketId,
                      role: Option<string>, username: Option<string>): (Sockets, seq<string>)
  {
    if Accepts(role, username) then
      var u := username.value;
      (m[u := Holding(m, u) + [socket]], if u in m then keys else keys + [u])
    else (m, keys)
  }

  /** Register appends the socket at the end of the username's list, creating
      the list when absent, without deduplication; every other list is unchanged;
      a rejected message changes nothing; and the invariant is kept. */
  lemma RegisterEffect(m: Sockets, keys: seq<string>, socket: SocketId,
                       role: Option<string>, username: Option<string>)
    requires WellFormed(m, keys)
    ensures var (m', keys') := Registered(m, keys, socket, role, username);
      && WellFormed(m', keys')
      && (Accepts(role, username) ==>
            && m'.Keys == m.Keys + {username.value}
            && m'[username.value] == Holding(m, username.value) + [socket]
            && multiset(m'[username.value])[socket] == multiset(Holding(m, username.value))[socket] + 1
            && (forall v :: v != username.value ==> Holding(m', v) == Holding(m, v)))
      && (!Accepts(role, username) ==> m' == m && keys' == keys)
  {
    if Accepts(role, username) {
      var u := username.value;
      if u !in m {
        assert u !in keys;
        assert Distinct(keys + [u]);
      }
    }
  }

  /** `indexOf`: the first position of `s` in `list`, or -1. */
  function IndexOf(list: seq<SocketId>, s: SocketId): (r: int)
    ensures -1 <= r < |list|
    ensures r == -1 <==> s !in list
    ensures 0 <= r ==> list[r] == s && s !in list[..r]
  {
    if |list| == 0 then -1
    else if list[0] == s then 0
    else
      var k := IndexOf(list[1..], s);
      assert list == [list[0]] + list[1..];
      if k == -1 then -1
      else
        assert list[..k + 1] == [list[0]] + list[1..][..k];
        k + 1
  }

  /** The keys other than `u`, in their original order (`delete`). */
  function Without(keys: seq<string>, u: string): (r: seq<string>)
    ensures forall v :: v in r <==> v in keys && v != u
    ensures Distinct(keys) ==> Distinct(r)
  {
    if |keys| == 0 then []
    else
      var rest := Without(keys[1..], u);
      assert keys == [keys[0]] + keys[1..];
      DistinctTail(keys);
      if keys[0] == u then rest else [keys[0]] + rest
  }

  /** The tail of a sequence of distinct keys is distinct and lacks the head. */
  lemma DistinctTail(keys: seq<string>)
    requires |keys| > 0
    ensures Distinct(keys) ==> Distinct(keys[1..]) && keys[0] !in keys[1..]
  {
    if Distinct(keys) {
      forall j | 0 <= j < |keys[1..]| ensures keys[1..][j] != keys[0] {
        assert keys[1..][j] == keys[j + 1];
      }
    }
  }

  /** Dropping position `i > 0` keeps the head in front of the shortened tail. */
  lemma DropAfterHead(keys: seq<string>, i: nat)
    requires 0 < i < |keys|
    ensures keys[..i] + keys[i + 1..] == [keys[0]] + (keys[1..][..i - 1] + keys[1..][i..])
  {
  }

  /** `delete` keeps the creation order of the other keys: deleting a key that
      is not there changes nothing, and deleting the key at position `i` of a
      distinct key sequence removes exactly that position. */
  lemma {:induction false} WithoutKeepsOrder(keys: seq<string>, u: string)
    ensures u !in keys ==> Without(keys, u) == keys
    ensures forall i :: 0 <= i < |keys| && keys[i] == u && Distinct(keys) ==>
      Without(keys, u) == keys[..i] + keys[i + 1..]
  {
    if |keys| > 0 {
      var tail := keys[1..];
      assert keys == [keys[0]] + tail;
      WithoutKeepsOrder(tail, u);
      DistinctTail(keys);
      forall i | 0 <= i < |keys| && keys[i] == u && Distinct(keys)
        ensures Without(keys, u) == keys[..i] + keys[i + 1..]
      {
        if i == 0 {
          assert keys[..0] + keys[1..] == tail;
        } else {
          assert tail[i - 1] == u;
          assert keys[0] != u;
          DropAfterHead(keys, i);
        }
      }
    }
  }

  /** The position in `order` of the first key whose list contains `s`. */
  function FirstHolder(order: seq<string>, m: Sockets, s: SocketId): (r: Option<nat>)
    ensures r.Some? ==> r.value < |order| && s in Holding(m, order[r.value])
    ensures r.Some? ==> forall j :: 0 <= j < r.value ==> s !in Holding(m, order[j])
    ensures r.None? ==> forall j :: 0 <= j < |order| ==> s !in Holding(m, order[j])
  {
    if |order| == 0 then None
    else if s in Holding(m, order[0]) then Some(0)
    else match FirstHolder(order[1..], m, s)
      case None => None
      case Some(k) => Some(k + 1)
  }

  /** The registry after `socket` closes, when `Object.entries` visits the keys
      in `order`: the first key whose list contains the socket loses the first
      occurrence (`splice`), and the key is deleted when its list becomes empty. */
  function CloseIn(m: Sockets, keys: seq<string>, order: seq<string>, socket: SocketId): (Sockets, seq<string>)
  {
    match FirstHolder(order, m, socket)
    case None => (m, keys)
    case Some(i) =>
      var u := order[i];
      var rest := RemoveFirst(m[u], socket);
      if |rest| == 0 then (m - {u}, Without(keys, u)) else (m[u := rest], keys)
  }

  /** `list.splice(list.indexOf(s), 1)`: the list without the first occurrence
      of `s`, the other elements in their order. */
  function RemoveFirst(list: seq<SocketId>, s: SocketId): (r: seq<SocketId>)
    requires s in list
    ensures |r| == |list| - 1
    ensures multiset(r) == multiset(list) - multiset{s}
  {
    var index := IndexOf(list, s);
    RemovesOne(list, index);
    list[..index] + list[index + 1..]
  }

  /** The registry after `socket` closes, with keys visited in the order
      `Object.entries` uses. */
  function Closed(m: Sockets, keys: seq<string>, socket: SocketId): (Sockets, seq<string>)
  {
    CloseIn(m, keys, PropertyOrder.EnumerationOrder(keys), socket)
  }

  /** Every key of a well-formed registry is visited by `Object.entries`. */
  lemma EntriesCoverKeys(m: Sockets, keys: seq<string>)
    requires WellFormed(m, keys)
    ensures forall u :: u in m ==> u in PropertyOrder.EnumerationOrder(keys)
  {
    var order := PropertyOrder.EnumerationOrder(keys);
    forall u | u in m ensures u in order {
      assert u in multiset(keys);
      assert u in multiset(order);
    }
  }

  /** Close keeps the registry invariant, whatever order the keys are visited in. */
  lemma ClosePreservesWellFormed(m: Sockets, keys: seq<string>, order: seq<string>, socket: SocketId)
    requires WellFormed(m, keys)
    ensures WellFormed(CloseIn(m, keys, order, socket).0, CloseIn(m, keys, order, socket).1)
  {
    var h := FirstHolder(order, m, socket);
    if h.Some? {
      var u := order[h.value];
      assert u in m;
      var rest := RemoveFirst(m[u], socket);
      if |rest| == 0 {
        var m', keys' := m - {u}, Without(keys, u);
        assert CloseIn(m, keys, order, socket) == (m', keys');
        assert forall v :: v in keys' <==> v in m';
      } else {
        assert CloseIn(m, keys, order, socket) == (m[u := rest], keys);
      }
    }
  }

  /** Closing a socket registered nowhere changes nothing; in particular a
      second close of a socket whose only registration is gone is a no-op. */
  lemma CloseUnregistered(m: Sockets, keys: seq<string>, order: seq<string>, socket: SocketId)
    requires forall u :: u in m ==> socket !in m[u]
    ensures CloseIn(m, keys, order, socket) == (m, keys)
  {
  }

  /** When `socket` is registered somewhere, close removes exactly one of its
      occurrences, from the first key in `order` that holds it; that key
      disappears exactly when it held nothing else, and every other list is
      unchanged. */
  lemma CloseRemovesOneOccurrence(m: Sockets, keys: seq<string>, order: seq<string>, socket: SocketId, u: string)
    requires u in m && socket in m[u] && u in order
    ensures FirstHolder(order, m, socket).Some?
    ensures var v := order[FirstHolder(order, m, socket).value];
      var m' := CloseIn(m, keys, order, socket).0;
      && v in m
      && multiset(Holding(m', v)) == multiset(m[v]) - multiset{socket}
      && (v in m' <==> |m[v]| > 1)
      && (forall w :: w != v ==> Holding(m', w) == Holding(m, w))
  {
    var i :| 0 <= i < |order| && order[i] == u;
    var h := FirstHolder(order, m, socket);
    assert h.Some?;
    CloseAtHolder(m, keys, order, socket, h.value);
  }

  /** The effect of close once the holding key is known. */
  lemma CloseAtHolder(m: Sockets, keys: seq<string>, order: seq<string>, socket: SocketId, i: nat)
    requires FirstHolder(order, m, socket) == Some(i)
    ensures i < |order| && order[i] in m
    ensures var v := order[i];
      var m' := CloseIn(m, keys, order, socket).0;
      && multiset(Holding(m', v)) == multiset(m[v]) - multiset{socket}
      && (v in m' <==> |m[v]| > 1)
      && (forall w :: w != v ==> Holding(m', w) == Holding(m, w))
  {
    var v := order[i];
    assert v in m;
    var rest := RemoveFirst(m[v], socket);
    if |rest| == 0 {
      assert CloseIn(m, keys, order, socket).0 == m - {v};
    } else {
      assert CloseIn(m, keys, order, socket).0 == m[v := rest];
    }
  }

  /** A socket registered exactly once is, after its close, registered nowhere:
      no list keeps a dangling reference to it. */
  lemma CloseLastRegistration(m: Sockets, keys: seq<string>, socket: SocketId, u: string)
    requires WellFormed(m, keys) && u in m
    requires multiset(m[u])[socket] == 1
    requires forall w :: w in m && w != u ==> socket !in m[w]
    ensures forall w :: socket !in Holding(Closed(m, keys, socket).0, w)
  {
    var order := PropertyOrder.EnumerationOrder(keys);
    EntriesCoverKeys(m, keys);
    CloseRemovesOneOccurrence(m, keys, order, socket, u);
    var v := order[FirstHolder(order, m, socket).value];
    var m' := CloseIn(m, keys, order, socket).0;
    assert v == u;
    assert multiset(Holding(m', u))[socket] == 0;
    forall w ensures socket !in Holding(m', w) {
      if w != u {
        assert Holding(m', w) == Holding(m, w);
      }
    }
  }

  /** When the entry at `i` is the first to hold `socket`, close takes it out of
      that list with `splice` at its `indexOf` position, and deletes the key
      once the list is empty. */
  lemma CloseFound(m: Sockets, keys: seq<string>, order: seq<string>, socket: SocketId, i: nat)
    requires WellFormed(m, keys)
    requires i < |order| && socket in Holding(m, order[i])
    requires forall j :: 0 <= j < i ==> socket !in Holding(m, order[j])
    ensures var u, index := order[i], IndexOf(Holding(m, order[i]), socket);
      var rest := m[u][..index] + m[u][index + 1..];
      && u in m && 0 <= index
      && CloseIn(m, keys, order, socket) == (if |rest| == 0 then (m - {u}, Without(keys, u)) else (m[u := rest], keys))
    ensures WellFormed(CloseIn(m, keys, order, socket).0, CloseIn(m, keys, order, socket).1)
  {
    var u := order[i];
    assert u in m && Holding(m, u) == m[u];
    var index := IndexOf(m[u], socket);
    var rest := m[u][..index] + m[u][index + 1..];
    assert RemoveFirst(m[u], socket) == rest;
    assert FirstHolder(order, m, socket) == Some(i);
    ClosePreservesWellFormed(m, keys, order, socket);
  }

  /** Deleting a key after replacing its list is deleting it. */
  lemma SpliceThenDelete(m: Sockets, u: string, rest: seq<SocketId>)
    ensures m[u := rest] - {u} == m - {u}
  {
  }

  /** `splice(index, 1)` takes exactly one copy of the element at `index` out. */
  lemma RemovesOne(list: seq<SocketId>, index: nat)
    requires index < |list|
    ensures multiset(list[..index] + list[index + 1..]) == multiset(list) - multiset{list[index]}
  {
    assert list == list[..index] + [list[index]] + list[index + 1..];
  }
}
