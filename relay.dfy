/** The WebSocket relay: the shared `activeSockets` object as a registry that
    the message and close handlers of every socket update in place. */
module Relay {
  import opened Fields
  import Accounts
  import PropertyOrder
  import opened SocketMap
  import opened Routing

  /** A message after `JSON.parse`, by its `type` field. */
  datatype Message =
    | RegisterMessage(role: Option<string>, username: Option<string>)
    | SignalMessage(usernames: TargetField, username: Option<string>, action: string)
      /** another `type`, or text `JSON.parse` rejects: caught, no effect */
    | Ignored

  class Registry {
    /** `activeSockets`: username to the receiver sockets registered under it. */
    var sockets: Sockets
    /** The keys of `activeSockets` in the order their properties were created. */
    var keys: seq<string>

    ghost predicate Valid()
      reads this
    {
      WellFormed(sockets, keys)
    }

    constructor ()
      ensures Valid()
      ensures sockets == map[] && keys == []
    {
      sockets := map[];
      keys := [];
    }

    /** The `register` branch of the message handler. */
    method Register(socket: SocketId, role: Option<string>, username: Option<string>)
      requires Valid()
      modifies this
      ensures Valid()
      ensures (sockets, keys) == Registered(old(sockets), old(keys), socket, role, username)
    {
      RegisterEffect(sockets, keys, socket, role, username);
      if Truthy(username) {
        if role == Some(ReceiverRole) {
          var u := username.value;
          if u !in sockets && u !in InheritedNames {
            sockets := sockets[u := []];
            keys := keys + [u];
          }
          if u !in sockets {
            // an inherited member has no `push`: the TypeError is caught
            return;
          }
          assert Holding(old(sockets), u) == sockets[u];
          sockets := sockets[u := sockets[u] + [socket]];
          assert sockets == old(sockets)[u := Holding(old(sockets), u) + [socket]];
        }
      }
    }

    /** The close handler: walks `Object.entries(activeSockets)` and takes the
        socket out of the first list that holds it. */
    method Close(socket: SocketId)
      requires Valid()
      modifies this
      ensures Valid()
      ensures (sockets, keys) == Closed(old(sockets), old(keys), socket)
    {
      EntriesCoverKeys(sockets, keys);
      var entries := PropertyOrder.EnumerationOrder(keys);
      RemoveFromFirstHolder(entries, socket);
    }

    /** The `for ... of` loop of the close handler over the keys in `entries`,
        with its early `break`. */
    method RemoveFromFirstHolder(entries: seq<string>, socket: SocketId)
      requires Valid()
      modifies this
      ensures Valid()
      ensures (sockets, keys) == CloseIn(old(sockets), old(keys), entries, socket)
    {
      var i := 0;
      while i < |entries|
        invariant 0 <= i <= |entries|
        invariant sockets == old(sockets) && keys == old(keys)
        invariant forall j :: 0 <= j < i ==> socket !in Holding(sockets, entries[j])
      {
        var u := entries[i];
        var list := Holding(sockets, u);
        var index := IndexOf(list, socket);
        if index != -1 {
          CloseFound(sockets, keys, entries, socket, i);
          var rest := list[..index] + list[index + 1..];
          sockets := sockets[u := rest];
          if |sockets[u]| == 0 {
            SpliceThenDelete(old(sockets), u, rest);
            sockets := sockets - {u};
            keys := Without(keys, u);
          }
          return;
        }
        i := i + 1;
      }
    }

    /** The `signal` branch of the message handler: the sends it makes, in
        order. It leaves the registry as it is. */
    method Signal(accounts: seq<Accounts.Account>, usernames: TargetField,
                  username: Option<string>, action: string) returns (sends: seq<Send>)
      ensures sends == FanOut(sockets, accounts, usernames, username, action)
    {
      sends := [];
      var targets: seq<string>;
      match usernames {
        case List(names) =>
          targets := names;
        case Absent =>
          if !Truthy(username) {
            return;
          }
          targets := [username.value];
        case NotList =>
          return;
      }
      var valid := Accounts.ValidTargets(accounts, targets);
      if |valid| == 0 {
        return;
      }
      sends := Dispatch(valid, action);
    }

    /** `validUsernames.forEach(...)` and the "impulse1" double send that
        follows it. */
    method Dispatch(valid: seq<string>, action: string) returns (sends: seq<Send>)
      ensures sends == Routing.Dispatch(sockets, valid, action)
    {
      sends := [];
      var i := 0;
      while i < |valid|
        invariant 0 <= i <= |valid|
        invariant forall k :: 0 <= k < i ==> !Throws(sockets, valid[k])
        invariant sends == Deliver(sockets, valid[..i], action)
      {
        var u := valid[i];
        if u in sockets {
          var batch := SendEach(sockets[u], action);
          sends := sends + batch;
        } else if u in InheritedNames {
          // `activeSockets[u].forEach` is not a function: the TypeError ends the handler
          ReachedUpTo(sockets, valid, i);
          return;
        }
        assert valid[..i + 1][..i] == valid[..i];
        i := i + 1;
      }
      assert valid[..i] == valid;
      ReachedAll(sockets, valid);
      if ImpulseKey in sockets {
        var batch := SendTwice(sockets[ImpulseKey], action);
        sends := sends + batch;
      }
    }

    /** `activeSockets[username].forEach(socket => socket.send(action))`. */
    static method SendEach(list: seq<SocketId>, action: string) returns (sends: seq<Send>)
      ensures sends == Broadcast(list, action)
    {
      sends := [];
      var j := 0;
      while j < |list|
        invariant 0 <= j <= |list|
        invariant sends == Broadcast(list[..j], action)
      {
        sends := sends + [Send(list[j], action)];
        assert list[..j + 1][..j] == list[..j];
        j := j + 1;
      }
      assert list[..j] == list;
    }

    /** The "impulse1" loop: each socket is sent the action twice in a row. */
    static method SendTwice(list: seq<SocketId>, action: string) returns (sends: seq<Send>)
      ensures sends == Twice(list, action)
    {
      sends := [];
      var j := 0;
      while j < |list|
        invariant 0 <= j <= |list|
        invariant sends == Twice(list[..j], action)
      {
        sends := sends + [Send(list[j], action)];
        sends := sends + [Send(list[j], action)];
        assert list[..j + 1][..j] == list[..j];
        j := j + 1;
      }
      assert list[..j] == list;
    }

    /** The message handler of `socket`. */
    method OnMessage(socket: SocketId, accounts: seq<Accounts.Account>, message: Message)
      returns (sends: seq<Send>)
      requires Valid()
      modifies this
      ensures Valid()
      ensures match message
        case RegisterMessage(role, username) =>
          sends == [] && (sockets, keys) == Registered(old(sockets), old(keys), socket, role, username)
        case SignalMessage(usernames, username, action) =>
          sends == FanOut(sockets, accounts, usernames, username, action) &&
          sockets == old(sockets) && keys == old(keys)
        case Ignored =>
          sends == [] && sockets == old(sockets) && keys == old(keys)
    {
      sends := [];
      match message {
        case RegisterMessage(role, username) =>
          Register(socket, role, username);
        case SignalMessage(usernames, username, action) =>
          sends := Signal(accounts, usernames, username, action);
        case Ignored =>
      }
    }
  }

  /** Registering "alice" twice from one socket lists it twice. */
  lemma RegisterTwiceScenario()
    ensures Registered(map["alice" := [1]], ["alice"], 1, Some("receiver"), Some("alice"))
      == (map["alice" := [1, 1]], ["alice"])
    ensures Registered(map[], [], 1, Some("receiver"), Some("alice")) == (map["alice" := [1]], ["alice"])
  {
    assert Accepts(Some("receiver"), Some("alice"));
    var empty: Sockets := map[];
    assert Holding(empty, "alice") + [1] == [1];
    assert [] + ["alice"] == ["alice"];
    var one := map["alice" := [1]];
    assert Holding(one, "alice") + [1] == [1, 1];
    assert one["alice" := [1, 1]] == map["alice" := [1, 1]];
  }

  /** "alice"'s receiver gets exactly one "ring". */
  lemma RingScenario()
    ensures FanOut(map["alice" := [1]], [Accounts.Account("alice", "secret")], Absent, Some("alice"), "ring")
      == [Send(1, "ring")]
  {
    var m := map["alice" := [1]];
    assert Accounts.ValidTargets([Accounts.Account("alice", "secret")], ["alice"]) == ["alice"];
    assert Reached(m, ["alice"]) == ["alice"];
    assert Deliver(m, ["alice"], "ring") == [Send(1, "ring")];
    assert Holding(m, ImpulseKey) == [];
  }

  /** After its only receiver closes, "alice" is gone from the registry. */
  lemma CloseScenario()
    ensures Closed(map["alice" := [1]], ["alice"], 1) == (map[], [])
  {
    var m := map["alice" := [1]];
    assert !PropertyOrder.IsDigit('a');
    assert !PropertyOrder.IsArrayIndex("alice");
    assert PropertyOrder.KeysWhere(["alice"], true) == [];
    assert PropertyOrder.KeysWhere(["alice"], false) == ["alice"];
    assert PropertyOrder.EnumerationOrder(["alice"]) == ["alice"];
    assert FirstHolder(["alice"], m, 1) == Some(0);
    assert RemoveFirst([1], 1) == [];
    assert m - {"alice"} == map[];
    assert Without(["alice"], "alice") == [];
  }

  /** A socket registered twice under "alice" stays registered there once after
      its one close event. */
  lemma CloseDuplicateScenario()
    ensures Closed(map["alice" := [1, 1]], ["alice"], 1) == (map["alice" := [1]], ["alice"])
  {
    var m := map["alice" := [1, 1]];
    assert !PropertyOrder.IsDigit('a');
    assert !PropertyOrder.IsArrayIndex("alice");
    PropertyOrder.EnumerationOrderNoIndices(["alice"]);
    assert Closed(m, ["alice"], 1) == CloseIn(m, ["alice"], ["alice"], 1);
    CloseOneOfTwo(m);
  }

  lemma CloseOneOfTwo(m: Sockets)
    requires m == map["alice" := [1, 1]]
    ensures CloseIn(m, ["alice"], ["alice"], 1) == (map["alice" := [1]], ["alice"])
  {
    assert FirstHolder(["alice"], m, 1) == Some(0);
    assert IndexOf([1, 1], 1) == 0;
    assert RemoveFirst([1, 1], 1) == [1];
    assert m["alice" := [1]] == map["alice" := [1]];
  }

  /** A target without an account is dropped; the others are still served, and
      "impulse1" receives the action twice. */
  lemma UnknownTargetScenario()
    ensures var accounts := [Accounts.Account("alice", "a"), Accounts.Account("impulse1", "i")];
      FanOut(map["alice" := [1], "impulse1" := [7]], accounts, List(["alice", "ghost"]), None, "up")
        == [Send(1, "up"), Send(7, "up"), Send(7, "up")]
  {
    var accounts := [Accounts.Account("alice", "a"), Accounts.Account("impulse1", "i")];
    var m := map["alice" := [1], "impulse1" := [7]];
    assert !Accounts.Known(accounts, "ghost");
    assert Accounts.ValidTargets(accounts, ["alice", "ghost"]) == ["alice"];
    assert Reached(m, ["alice"]) == ["alice"];
    assert Deliver(m, ["alice"], "up") == [Send(1, "up")];
    assert Twice([7], "up") == [Send(7, "up"), Send(7, "up")];
  }
}
