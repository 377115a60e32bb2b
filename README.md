# Signal relay core: socket registry, signal fan-out and login check

`server.js` runs a small signalling relay. Receivers open a WebSocket and
register under a username. Senders send `signal` messages naming one or more
usernames and an `action` string. The relay forwards the action to every
receiver socket registered under those usernames. A separate HTTP endpoint
checks a username and password against an account list.

This project models three parts of `server.js` and proves properties of them:

- **The `activeSockets` registry.** This is a plain JavaScript object mapping a
  username to the array of receiver sockets registered under it. The register
  branch of the message handler creates or extends an entry. The close handler
  walks `Object.entries(activeSockets)` and removes the socket from the first
  array that holds it. It deletes the key once that array is empty.
- **Signal fan-out.** The target list is normalised, filtered to usernames that
  exist in the account list, and every registered socket of every remaining
  target is sent the action. Then every socket under `"impulse1"` is sent the
  action twice.
- **The login check.** It answers 400 when a credential is missing or empty,
  200 when some account matches both username and password exactly, and 401
  otherwise.

## Files and modules

- `fields.dfy` (`Fields`): an optional message field, and JavaScript
  truthiness of a string field (present and not empty).
- `accounts.dfy` (`Accounts`): the account list, the login decision, and the
  `accounts.some(...)` filter over signal targets.
- `property_order.dfy` (`PropertyOrder`): the order in which `Object.entries`
  lists the own keys of a plain object. ECMAScript, section 10.1.11.1
  (OrdinaryOwnPropertyKeys), fixes it: keys that are array indices come first,
  in ascending numeric order, then the other keys in creation order. It
  matters because close stops at the first key that holds the socket.
- `socket_map.dfy` (`SocketMap`): the registry as a value. That is a map from
  username to socket list, plus its keys in creation order. The module holds:
  - the registry invariant;
  - the effect of a register message;
  - the effect of a close event;
  - lemmas about both.
- `routing.dfy` (`Routing`): the sends a signal message makes, as a function
  of the registry and the account list, and lemmas counting them.
- `relay.dfy` (`Relay`): the class `Registry`, whose fields `sockets` and
  `keys` the handlers update in place. Its methods follow the handlers'
  statements and loops, and each is proved equal to the specification
  function of `SocketMap` or `Routing`.

### JavaScript behaviour that is modelled

- **Inherited property names.** A username such as `"toString"`,
  `"constructor"` or `"__proto__"` names an inherited property of every object.
  `activeSockets[u]` is then a function or an object, which is truthy but is
  not an array.
  - In register, the list is not created and `push` throws. The `TypeError` is
    caught and the registry is unchanged (`SocketMap.Accepts`).
  - In fan-out, `forEach` throws for such a target. The sends made before it
    stay, and the rest of the handler, including the `"impulse1"` sends, does
    not run (`Routing.Throws`, `Routing.Reached`). This only happens when an
    account has such a name.
- **Duplicates are kept.** Registering the same socket twice under one username
  lists it twice. Close removes one occurrence only, from one username only.
- **Close order.** Close visits the keys in `Object.entries` order and stops at
  the first list that contains the socket.

## Model

| member | source | states |
|---|---|---|
| Accounts.FindAccount | server.js:44 | `accounts.find` returns the first account whose username and password both equal the given ones exactly; None means no such account exists |
| Accounts.Login | server.js:36-50 | The status is 400 iff the username or password is missing or empty. It is 200 iff both are present and some account matches both. It is 401 iff both are present and no account matches |
| Accounts.Known | server.js:97 | `accounts.some(...)` is true iff some account has exactly that username |
| Accounts.ValidTargets | server.js:96-98 | The filtered target list is no longer than the input, and every name kept is the username of an account |
| Accounts.ValidTargetsCount | server.js:96-98 | A known username is kept as many times as it was listed; an unknown one is dropped |
| PropertyOrder.InsertByIndex | server.js:133 | Inserting an array-index key into a list sorted by numeric value keeps it sorted and adds exactly that key |
| PropertyOrder.SortByIndex | server.js:133 | Array-index keys come out in ascending numeric order, as a permutation of the input |
| PropertyOrder.KeysWhere | server.js:133 | Every key it selects has the requested array-index status |
| PropertyOrder.KeysWhereCount | server.js:133 | A key with the requested status is kept as often as it occurs; any other key is dropped |
| PropertyOrder.KeysWhereConcat | server.js:133 | Selecting from a concatenation is concatenating the selections, so selected keys keep their relative creation order |
| PropertyOrder.KeysWhereAll | server.js:133 | When every key has the requested status, all are selected in order and none goes to the other side |
| PropertyOrder.EnumerationOrder | server.js:133 | `Object.entries` visits each own key exactly once (it is a permutation of the creation order) |
| PropertyOrder.EnumerationOrderIndicesFirst | server.js:133 | In `Object.entries` order every array-index key precedes every other key, and array indices ascend |
| PropertyOrder.EnumerationOrderNamedKeys | server.js:133 | Keys that are not array indices are visited last, in creation order |
| PropertyOrder.EnumerationOrderNoIndices | server.js:133 | An object with no array-index key is enumerated exactly in key creation order |
| SocketMap.RegisterEffect | server.js:67-80 | A receiver registration with a truthy, non-inherited username appends the socket to that username's list, creating the list and key when absent. The socket's count there rises by exactly one and every other list is unchanged. Any other register message changes nothing. The registry invariant (no empty lists, no inherited keys, keys distinct and matching the map) is kept |
| SocketMap.IndexOf | server.js:134 | `indexOf` returns -1 iff the socket is absent; otherwise it returns the position of its first occurrence |
| SocketMap.Without | server.js:139 | `delete` leaves exactly the other keys and keeps them distinct |
| SocketMap.WithoutKeepsOrder | server.js:139 | `delete` keeps the creation order of the remaining keys: deleting an absent key changes nothing, and deleting the key at position i removes exactly that position |
| SocketMap.FirstHolder | server.js:133-135 | The loop stops at the first key, in visiting order, whose list contains the socket; None means no visited list contains it |
| SocketMap.RemoveFirst | server.js:134-136 | `splice(indexOf(s), 1)` removes exactly one copy of the socket |
| SocketMap.EntriesCoverKeys | server.js:133 | `Object.entries` visits every key of the registry |
| SocketMap.ClosePreservesWellFormed | server.js:131-144 | Close keeps the registry invariant. In particular a list that becomes empty is deleted together with its key |
| SocketMap.CloseUnregistered | server.js:131-144 | Closing a socket that no list contains changes nothing; in particular, a second close of a socket whose only registration is gone is a no-op |
| SocketMap.CloseRemovesOneOccurrence | server.js:131-144 | Closing a registered socket removes exactly one occurrence, from the first key in visiting order that holds it. That key disappears iff its list held nothing else, and every other list is unchanged |
| SocketMap.CloseAtHolder | server.js:135-141 | Once the holding key is found, only its list changes, losing one copy of the socket |
| SocketMap.CloseFound | server.js:134-141 | When the entry being visited is the first to hold the socket, the new registry is that list spliced at `indexOf`, or the key deleted when the list is now empty |
| SocketMap.CloseLastRegistration | server.js:131-144 | A socket registered exactly once is, after its close, registered nowhere |
| SocketMap.RemovesOne | server.js:136 | `splice(index, 1)` takes out one copy of the element at `index` |
| Routing.Reached | server.js:106-115 | The targets the fan-out gets through are the prefix before the first target whose lookup throws; none of them throws |
| Routing.Broadcast | server.js:108-111 | One send per socket of the list, in list order, each carrying the action |
| Routing.Twice | server.js:119-123 | Two sends per socket under "impulse1", all carrying the action |
| Routing.Deliver | server.js:106-115 | Every send of the fan-out loop carries the action |
| Routing.BroadcastCount | server.js:108-111 | A socket receives the action once per time it is listed |
| Routing.TwiceCount | server.js:118-124 | A socket under "impulse1" receives the action twice per time it is listed |
| Routing.DeliverCount | server.js:106-115 | A socket receives the action once per listed target it is registered under, for each time it is registered there |
| Routing.SignalDropped | server.js:89-103 | A signal whose target field is not an array, or none of whose targets is a known username, sends nothing, not even to "impulse1" |
| Routing.SignalBeforeAccountsLoad | server.js:96-103 | With an empty account list every signal sends nothing |
| Routing.ReachedAll | server.js:106-115 | When no target throws, the fan-out serves all of them |
| Routing.ReachedUpTo | server.js:106-115 | When target k is the first that throws, exactly the targets before it are served |
| Routing.FanOutCarriesAction | server.js:81-125 | Every send of a signal carries the message's action |
| Routing.SignalDeliveries | server.js:81-125 | When some target is valid and no valid target is an inherited name, each socket receives the action once per valid target occurrence it is registered under, plus twice per registration under "impulse1" |
| Routing.KnownNeverThrows | server.js:96-107 | When no account has an inherited name, no valid target throws, so the fan-out only aborts for such an account |
| Routing.SignalAborted | server.js:106-124 | When a valid target throws, only the targets before it are served and "impulse1" gets nothing |
| Routing.SignalReachesOnlyRegistered | server.js:81-125 | A socket registered neither under a valid target nor under "impulse1" receives nothing |
| Routing.DispatchReachesOnlyRegistered | server.js:105-124 | The same property for the fan-out and "impulse1" stages of a signal |
| Routing.DeliverAvoids | server.js:106-115 | The fan-out loop sends nothing to a socket that none of its targets holds |
| Routing.TwiceAvoids | server.js:118-124 | The "impulse1" loop sends nothing to a socket that "impulse1" does not hold |
| Routing.AvoidsConcat | server.js:105-124 | Two send sequences that each avoid a socket still avoid it when concatenated |
| Relay.Registry.constructor | server.js:10-11 | The registry starts empty |
| Relay.Registry.Register | server.js:67-80 | The register branch, statement by statement, leaves exactly the registry `SocketMap.Registered` describes and keeps the invariant |
| Relay.Registry.Close | server.js:131-144 | The close handler leaves exactly the registry `SocketMap.Closed` describes, with keys visited in `Object.entries` order, and keeps the invariant |
| Relay.Registry.RemoveFromFirstHolder | server.js:133-143 | The `for ... of` loop with its `indexOf`, `splice`, `delete` and `break` computes `SocketMap.CloseIn` for any visiting order |
| Relay.Registry.Signal | server.js:81-125 | The signal branch makes exactly the sends `Routing.FanOut` lists, in order, and changes nothing |
| Relay.Registry.Dispatch | server.js:105-124 | The two `forEach` stages make exactly the sends `Routing.Dispatch` lists, including stopping at a target that throws |
| Relay.Registry.SendEach | server.js:108-111 | The inner `forEach` sends the action to each socket of the list, in order |
| Relay.Registry.SendTwice | server.js:119-123 | The "impulse1" `forEach` sends each socket the action twice in a row |
| Relay.Registry.OnMessage | server.js:62-129 | A register message changes the registry as `Registered` says and sends nothing. A signal makes the `FanOut` sends and leaves the registry unchanged. An ignored or unparsable message does neither |
| Relay.RegisterTwiceScenario | server.js:72-75 | Registering the same socket twice under "alice" lists it twice |
| Relay.RingScenario | server.js:81-124 | A single-username signal to "alice" reaches her one socket once |
| Relay.CloseScenario | server.js:131-144 | Closing "alice"'s only socket deletes "alice" |
| Relay.CloseDuplicateScenario | server.js:131-144 | A socket registered twice under "alice" is still listed there once after its single close event |
| Relay.UnknownTargetScenario | server.js:96-124 | An unknown target is dropped, the known one is served, and "impulse1" receives the action twice |

## Left out

- The Express app and the HTTP layer (lines 1-9, 28-34, 53-56) are outside the
  model: `Accounts.Login` takes the two body fields and returns the status
  code. The JSON response bodies are not modelled.
- Loading `accounts.json` with `fs.readFile` and `JSON.parse` (lines 13-26) is left out.
  The account list is a parameter of the operations that use it, and it is
  empty until the file has loaded (`Routing.SignalBeforeAccountsLoad`).
- The WebSocket server is left out; sockets are identities (`SocketId`).
  `socket.send` becomes a `Send` record in the returned sequence. What a send
  does on a closed socket is not modelled.
- All `console.log` output is left out.
- `JSON.parse` of the incoming text is left out. Unparsable text, and a `type`
  other than "register" or "signal", appear as `Relay.Message.Ignored`.
- JSON values that are not strings are left out. Field values are optional
  strings (`role`, `username`, `password`, `action`). `usernames` is absent,
  an array of strings, or anything else (`Routing.TargetField`). Truthiness of
  numbers, objects or `true`, and the loose `role == "receiver"` comparison on
  non-string values, are therefore not modelled.
- Account entries that lack a field or hold non-strings are left out;
  `Accounts.Account` has two string fields.
- An absent `action` is left out; it is a string here.
- Concurrency is left out. Node.js runs each handler to completion on one event
  loop, so each method is one atomic step on the shared registry.
- The model follows `server.js` exactly where a reader might expect otherwise:
  - register does not deduplicate: the same socket registered twice is listed
    twice;
  - close removes one occurrence from the first holding list only, so a
    duplicate registration survives the socket's close
    (`Relay.CloseDuplicateScenario`);
  - every signal with a valid target also sends the action twice to each
    "impulse1" socket.
- `server.js` has no topic broker, no routing by username prefix or shared
  topic, no heartbeat or ping/pong handling and no audit log, so none of these
  is modelled.
- Routing.Twice: its contract states the length and the action of each send,
  not the order; `Routing.TwiceCount` and `Relay.Registry.SendTwice` carry the
  rest.
- SocketMap.RemoveFirst: its contract states the length and the multiset, not
  that the other sockets keep their order. `SocketMap.CloseFound` states the
  slice itself.
- Accounts.ValidTargets: its contract states the bound and membership, not the
  order. `Accounts.ValidTargetsCount` states the counts; the order is fixed by
  its definition.
