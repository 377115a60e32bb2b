/** What a signal message sends: its targets are normalised to a list, filtered
    to known accounts, and `action` goes to every socket registered under each
    remaining target, then twice to every socket registered under "impulse1". */
module Routing {
  import opened Fields
  import Accounts
  import opened SocketMap

  /** The username whose sockets receive every delivered signal twice more. */
  const ImpulseKey := "impulse1"

  /** One `socket.send(action)`. */
  datatype Send = Send(socket: SocketId, action: string)

  /** The `usernames` field of a signal: missing or falsy, an array of
      usernames, or some other truthy value. */
  datatype TargetField = Absent | List(names: seq<string>) | NotList

  /** The target list after normalisation, or None when it is not an array
      and the signal is dropped. */
  function Targets(usernames: TargetField, username: Option<string>): Option<seq<string>> {
    match usernames
    case Absent => if Truthy(username) then Some([username.value]) else None
    case List(names) => Some(names)
    case NotList => None
  }

  /** Looking `u` up gives an inherited member without `forEach`, so the
      handler throws when it reaches `u`. */
  predicate Throws(m: Sockets, u: string) {
    u !in m && u in InheritedNames
  }

  /** The targets the fan-out loop gets through: those before the first one
      whose lookup throws. */
  function Reached(m: Sockets, targets: seq<string>): (r: seq<string>)
    ensures |r| <= |targets| && r == targets[..|r|]
    ensures forall i :: 0 <= i < |r| ==> !Throws(m, r[i])
    ensures |r| < |targets| ==> Throws(m, targets[|r|])
  {
    if |targets| == 0 || Throws(m, targets[0]) then []
    else [targets[0]] + Reached(m, targets[1..])
  }

  /** One send of `action` to each socket of `list`, in order. */
  function Broadcast(list: seq<SocketId>, action: string): (r: seq<Send>)
    ensures |r| == |list|
    ensures forall i :: 0 <= i < |r| ==> r[i] == Send(list[i], action)
  {
    if |list| == 0 then []
    else Broadcast(list[..|list| - 1], action) + [Send(list[|list| - 1], action)]
  }

  /** Two sends of `action` to each socket of `list`, in order. */
  function Twice(list: seq<SocketId>, action: string): (r: seq<Send>)
    ensures |r| == 2 * |list|
    ensures forall i :: 0 <= i < |r| ==> r[i].action == action
  {
    if |list| == 0 then []
    else
      var s := list[|list| - 1];
      Twice(list[..|list| - 1], action) + [Send(s, action), Send(s, action)]
  }

  /** The sends for the targets, in order: each target's sockets in turn. */
  function Deliver(m: Sockets, targets: seq<string>, action: string): (r: seq<Send>)
    ensures forall i :: 0 <= i < |r| ==> r[i].action == action
  {
    if |targets| == 0 then []
    else Deliver(m, targets[..|targets| - 1], action) + Broadcast(Holding(m, targets[|targets| - 1]), action)
  }

  /** All sends for one signal message, in the order they happen. */
  function FanOut(m: Sockets, accounts: seq<Accounts.Account>, usernames: TargetField,
                  username: Option<string>, action: string): seq<Send>
  {
    match Targets(usernames, username)
    case None => []
    case Some(targets) =>
      var valid := Accounts.ValidTargets(accounts, targets);
      if |valid| == 0 then [] else Dispatch(m, valid, action)
  }

  /** The sends for a non-empty list of valid targets: their sockets in turn,
      then, unless a target threw, twice each socket under "impulse1". */
  function Dispatch(m: Sockets, valid: seq<string>, action: string): seq<Send> {
    var reached := Reached(m, valid);
    Deliver(m, reached, action) +
    if |reached| < |valid| then [] else Twice(Holding(m, ImpulseKey), action)
  }

  /** How many times `s` is registered under the targets, counting a target as
      often as it is listed. */
  function Exposure(m: Sockets, targets: seq<string>, s: SocketId): nat {
    if |targets| == 0 then 0
    else Exposure(m, targets[..|targets| - 1], s) + multiset(Holding(m, targets[|targets| - 1]))[s]
  }

  lemma {:induction false} BroadcastCount(list: seq<SocketId>, action: string, s: SocketId)
    ensures multiset(Broadcast(list, action))[Send(s, action)] == multiset(list)[s]
  {
    if |list| > 0 {
      var prefix, last := list[..|list| - 1], list[|list| - 1];
      BroadcastCount(prefix, action, s);
      LastCount(list, s);
      var b := Broadcast(prefix, action);
      assert Broadcast(list, action) == b + [Send(last, action)];
      SingleCount(b, last, action, s);
    }
  }

  lemma {:induction false} TwiceCount(list: seq<SocketId>, action: string, s: SocketId)
    ensures multiset(Twice(list, action))[Send(s, action)] == 2 * multiset(list)[s]
  {
    if |list| > 0 {
      var prefix, last := list[..|list| - 1], list[|list| - 1];
      TwiceCount(prefix, action, s);
      LastCount(list, s);
      var t := Twice(prefix, action);
      assert Twice(list, action) == t + [Send(last, action), Send(last, action)];
      PairCount(t, last, action, s);
    }
  }

  lemma LastCount(list: seq<SocketId>, s: SocketId)
    requires |list| > 0
    ensures multiset(list)[s] ==
      multiset(list[..|list| - 1])[s] + if list[|list| - 1] == s then 1 else 0
  {
    assert list == list[..|list| - 1] + [list[|list| - 1]];
  }

  lemma SingleCount(b: seq<Send>, last: SocketId, action: string, s: SocketId)
    ensures multiset(b + [Send(last, action)])[Send(s, action)] ==
      multiset(b)[Send(s, action)] + if last == s then 1 else 0
  {
    assert multiset(b + [Send(last, action)]) == multiset(b) + multiset{Send(last, action)};
  }

  lemma PairCount(t: seq<Send>, last: SocketId, action: string, s: SocketId)
    ensures multiset(t + [Send(last, action), Send(last, action)])[Send(s, action)] ==
      multiset(t)[Send(s, action)] + if last == s then 2 else 0
  {
    var pair := [Send(last, action), Send(last, action)];
    assert multiset(t + pair) == multiset(t) + multiset(pair);
  }

  /** Each socket receives `action` once per listed target it is registered
      under, as many times as it is registered there. */
  lemma {:induction false} DeliverCount(m: Sockets, targets: seq<string>, action: string, s: SocketId)
    ensures multiset(Deliver(m, targets, action))[Send(s, action)] == Exposure(m, targets, s)
  {
    if |targets| > 0 {
      DeliverCount(m, targets[..|targets| - 1], action, s);
      BroadcastCount(Holding(m, targets[|targets| - 1]), action, s);
    }
  }

  /** A signal whose target field is not an array, or none of whose targets is
      a known account, sends nothing, not even to "impulse1". */
  lemma SignalDropped(m: Sockets, accounts: seq<Accounts.Account>, usernames: TargetField,
                      username: Option<string>, action: string)
    requires Targets(usernames, username).None? ||
             Accounts.ValidTargets(accounts, Targets(usernames, username).value) == []
    ensures FanOut(m, accounts, usernames, username, action) == []
  {
  }

  /** Until the account list is loaded every signal is dropped. */
  lemma SignalBeforeAccountsLoad(m: Sockets, usernames: TargetField, username: Option<string>, action: string)
    ensures FanOut(m, [], usernames, username, action) == []
  {
  }

  /** Are all targets served: none of them throws. */
  lemma {:induction false} ReachedAll(m: Sockets, targets: seq<string>)
    requires forall i :: 0 <= i < |targets| ==> !Throws(m, targets[i])
    ensures Reached(m, targets) == targets
  {
    if |targets| > 0 {
      ReachedAll(m, targets[1..]);
    }
  }

  /** The targets served are exactly those before the first one that throws. */
  lemma {:induction false} ReachedUpTo(m: Sockets, targets: seq<string>, k: nat)
    requires k < |targets| && Throws(m, targets[k])
    requires forall i :: 0 <= i < k ==> !Throws(m, targets[i])
    ensures Reached(m, targets) == targets[..k]
  {
    if k > 0 {
      ReachedUpTo(m, targets[1..], k - 1);
      assert targets[..k] == [targets[0]] + targets[1..][..k - 1];
    }
  }

  /** Every send of a signal carries its action. */
  lemma FanOutCarriesAction(m: Sockets, accounts: seq<Accounts.Account>, usernames: TargetField,
                            username: Option<string>, action: string)
    ensures var r := FanOut(m, accounts, usernames, username, action);
      forall i :: 0 <= i < |r| ==> r[i].action == action
  {
  }

  /** When the targets include a known account and none of the valid targets
      is an inherited member, each socket receives `action` once per occurrence of a
      valid target it is registered under, plus twice per registration under
      "impulse1". */
  lemma SignalDeliveries(m: Sockets, accounts: seq<Accounts.Account>, usernames: TargetField,
                         username: Option<string>, action: string, s: SocketId)
    requires Targets(usernames, username).Some?
    requires var valid := Accounts.ValidTargets(accounts, Targets(usernames, username).value);
      && valid != []
      && forall i :: 0 <= i < |valid| ==> !Throws(m, valid[i])
    ensures var valid := Accounts.ValidTargets(accounts, Targets(usernames, username).value);
      multiset(FanOut(m, accounts, usernames, username, action))[Send(s, action)] ==
        Exposure(m, valid, s) + 2 * multiset(Holding(m, ImpulseKey))[s]
  {
    var valid := Accounts.ValidTargets(accounts, Targets(usernames, username).value);
    ReachedAll(m, valid);
    var d, t := Deliver(m, valid, action), Twice(Holding(m, ImpulseKey), action);
    assert FanOut(m, accounts, usernames, username, action) == d + t;
    DeliverCount(m, valid, action, s);
    TwiceCount(Holding(m, ImpulseKey), action, s);
    assert multiset(d + t) == multiset(d) + multiset(t);
  }

  /** A name of the account list is never an inherited member when no account
      is named like one. */
  lemma KnownNeverThrows(m: Sockets, accounts: seq<Accounts.Account>, valid: seq<string>)
    requires forall j :: 0 <= j < |accounts| ==> accounts[j].username !in InheritedNames
    requires forall i :: 0 <= i < |valid| ==> Accounts.Known(accounts, valid[i])
    ensures forall i :: 0 <= i < |valid| ==> !Throws(m, valid[i])
  {
  }

  /** A target found (through the account list) to be an inherited member ends
      the fan-out there: the targets before it are served, "impulse1" is not. */
  lemma SignalAborted(m: Sockets, accounts: seq<Accounts.Account>, usernames: TargetField,
                      username: Option<string>, action: string, s: SocketId, k: nat)
    requires Targets(usernames, username).Some?
    requires var valid := Accounts.ValidTargets(accounts, Targets(usernames, username).value);
      && k < |valid| && Throws(m, valid[k])
      && forall i :: 0 <= i < k ==> !Throws(m, valid[i])
    ensures var valid := Accounts.ValidTargets(accounts, Targets(usernames, username).value);
      multiset(FanOut(m, accounts, usernames, username, action))[Send(s, action)] ==
        Exposure(m, valid[..k], s)
  {
    var valid := Accounts.ValidTargets(accounts, Targets(usernames, username).value);
    ReachedUpTo(m, valid, k);
    DeliverCount(m, valid[..k], action, s);
  }

  /** No send goes to `s`. */
  predicate Avoids(sends: seq<Send>, s: SocketId) {
    forall i :: 0 <= i < |sends| ==> sends[i].socket != s
  }

  /** `s` is registered under none of the targets. */
  predicate Unregistered(m: Sockets, targets: seq<string>, s: SocketId) {
    forall i :: 0 <= i < |targets| ==> s !in Holding(m, targets[i])
  }

  /** A socket registered under none of the valid targets and not under
      "impulse1" receives nothing from a signal. */
  lemma SignalReachesOnlyRegistered(m: Sockets, accounts: seq<Accounts.Account>, usernames: TargetField,
                                    username: Option<string>, action: string, s: SocketId)
    requires Targets(usernames, username).Some? ==>
      Unregistered(m, Accounts.ValidTargets(accounts, Targets(usernames, username).value), s)
    requires s !in Holding(m, ImpulseKey)
    ensures Avoids(FanOut(m, accounts, usernames, username, action), s)
  {
    if Targets(usernames, username).Some? {
      var valid := Accounts.ValidTargets(accounts, Targets(usernames, username).value);
      if |valid| > 0 {
        DispatchReachesOnlyRegistered(m, valid, action, s);
      }
    }
  }

  /** The fan-out and "impulse1" stages send nothing to a socket registered
      under none of the valid targets and not under "impulse1". */
  lemma DispatchReachesOnlyRegistered(m: Sockets, valid: seq<string>, action: string, s: SocketId)
    requires Unregistered(m, valid, s) && s !in Holding(m, ImpulseKey)
    ensures Avoids(Dispatch(m, valid, action), s)
  {
    var reached := Reached(m, valid);
    assert Unregistered(m, reached, s) by {
      forall i | 0 <= i < |reached| ensures s !in Holding(m, reached[i]) {
        assert reached[i] == valid[i];
      }
    }
    DeliverAvoids(m, reached, action, s);
    TwiceAvoids(Holding(m, ImpulseKey), action, s);
    var t := if |reached| < |valid| then [] else Twice(Holding(m, ImpulseKey), action);
    AvoidsConcat(Deliver(m, reached, action), t, s);
  }

  lemma AvoidsConcat(a: seq<Send>, b: seq<Send>, s: SocketId)
    requires Avoids(a, s) && Avoids(b, s)
    ensures Avoids(a + b, s)
  {
    forall i | 0 <= i < |a + b| ensures (a + b)[i].socket != s {
      if i >= |a| {
        assert (a + b)[i] == b[i - |a|];
      }
    }
  }

  lemma {:induction false} DeliverAvoids(m: Sockets, targets: seq<string>, action: string, s: SocketId)
    requires Unregistered(m, targets, s)
    ensures Avoids(Deliver(m, targets, action), s)
  {
    if |targets| > 0 {
      var prefix := targets[..|targets| - 1];
      var list := Holding(m, targets[|targets| - 1]);
      assert Unregistered(m, prefix, s) by {
        forall i | 0 <= i < |prefix| ensures s !in Holding(m, prefix[i]) {
          assert prefix[i] == targets[i];
        }
      }
      DeliverAvoids(m, prefix, action, s);
      assert s !in list;
      var b := Broadcast(list, action);
      assert Avoids(b, s) by {
        forall i | 0 <= i < |b| ensures b[i].socket != s {
          assert b[i] == Send(list[i], action);
        }
      }
      AvoidsConcat(Deliver(m, prefix, action), b, s);
    }
  }

  lemma {:induction false} TwiceAvoids(list: seq<SocketId>, action: string, s: SocketId)
    requires s !in list
    ensures Avoids(Twice(list, action), s)
  {
    if |list| > 0 {
      var prefix, last := list[..|list| - 1], list[|list| - 1];
      assert prefix + [last] == list;
      TwiceAvoids(prefix, action, s);
      AvoidsConcat(Twice(prefix, action), [Send(last, action), Send(last, action)], s);
    }
  }
}
