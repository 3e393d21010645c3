# StableManager: the peer registry of the race handler's message bus

The stable manager is the actor that keeps a race handler in touch with the other nodes on its
network. Every node announces the port of its subscriber socket over a UDP beacon. When the
manager hears a beacon from a host it has not seen, it registers that "spy" (host plus port),
connects its publisher socket to `tcp://host:port` and tells its owner `AddedNode`. A spy it
already knows only has its last-seen time refreshed. Once a second, a timer sweeps the registry.
Every spy that has been silent for more than ten seconds is removed, disconnected and reported
as `RemovedNode`. Over the same actor pipe (the "shim"), the owner sends three commands:

- `P`, followed by frames to publish;
- `GetHostAddress`;
- the actor's end-of-pipe message, which stops it.

Messages arriving from the bus are forwarded to the owner unchanged.

The Dafny project models this as a pure state machine.

- `Int32Text` (int32_text.dfy): .NET's decimal text of a 32-bit `int`. It has `Format` for
  `int.ToString()` and `TryParse` for `int.TryParse` with its default `NumberStyles.Integer`
  (surrounding white space, an optional sign, at least one digit, the 32-bit range). The
  module proves that `TryParse` reads back what `Format` writes.
- `Spies` (spies.dfy): the `Spy` class. This covers its address, both `Equals` overloads,
  `GetHashCode` in unchecked 32-bit arithmetic, and `ToString`. `ParseAddress` is an inverse
  of the address, and it shows that two different spies never share an address.
- `StableManager` (stable_manager.dfy): the actor.
  - Its `State` holds the registry (`map<Spy, int>` from spy to last-seen time in `DateTime`
    ticks) and two effect logs: the operations on the publisher socket, and the messages
    sent to the owner.
  - Each handler is a function from state to state: `OnShimReady`, `OnSubscriberReady`,
    `OnBeaconReady` and `BurnDeadSpies`.
  - `Dispatch` is one turn of the poller.
  - `Consistent` is the mesh invariant, and every handler preserves it. For every address,
    the number of the actor's own `AddedNode` sends minus its own `RemovedNode` sends is 1
    if a registered spy has that address and 0 otherwise. The same holds for connects minus
    disconnects. Forwarded bus messages are not counted (see "## Left out").

The clock is a parameter: the `now` of each handler, in ticks. So is the order in which the
registry's `Dictionary` enumerates its keys, which the sweep's snapshot follows. Any order
listing each key once is allowed, and every property holds for all of them.

Two behaviours of the code are worth noting:

- A beacon whose token `int.TryParse` rejects is not discarded. The parse leaves the port at 0,
  and the spy `(host, 0)` is registered, connected and announced like any other
  (`BeaconUnparsableToken`). Rejected tokens include:
  - any token holding a character other than a digit, a sign or white space (`TryParse`);
  - a token without a digit, such as `""`, `"+"` or `"-"` (`NoDigitRejected`);
  - any token with white space between two digits, such as `"1 2"` (`InnerSpaceRejected`);
  - any token whose first two non-white characters are signs, such as `"--1"`
    (`DoubleSignRejected`);
  - the decimal text of any number outside the 32-bit range, such as `"99999999999"`
    (`OutOfRangeRejected`).
- The reply to `GetHostAddress` is the beacon's bound interface, a colon and the subscriber
  port. It has no `tcp://` scheme (`HostAddressReply`).

## Model

| member | source | states |
|---|---|---|
| `Spies.ToString` | racehandler/racehandler/StableManager.cs:71-74 | The printed form of a spy reads back, through `ParseAddress`, as that same spy. |
| `Spies.AddressRoundTrip` | racehandler/racehandler/StableManager.cs:41 | `tcp://{name}:{port}` splits at its last colon into the name and a port that `int.TryParse` reads back. This holds even when the name itself holds colons. |
| `Spies.AddressInjective` | racehandler/racehandler/StableManager.cs:37-41 | Two spies with the same address are the same spy, so the address can stand for the spy in connects and events. |
| `Spies.SpyEqualsIsKeyEquality` | racehandler/racehandler/StableManager.cs:50-61 | `Equals(object)` is true exactly for a spy with the same name and port. It is false for null and for objects of another type. So the registry holds each (name, port) at most once. |
| `Spies.EqualSpiesHashEqual` | racehandler/racehandler/StableManager.cs:63-69 | Equal spies have equal hash codes, whatever the runtime's string hash is. |
| `Spies.HashSeparatesPorts` | racehandler/racehandler/StableManager.cs:63-69 | With unchecked `* 397` and `^`, two spies on the same host with different ports never collide. |
| `Spies.Wrap32` | racehandler/racehandler/StableManager.cs:65-67 | An unchecked result is the `int` congruent to the exact one modulo 2^32. |
| `Int32Text.Format` | racehandler/racehandler/StableManager.cs:135 | The port a node publishes is a non-empty run of digits, with a leading `-` exactly when it is negative. It has no white space and ends in a digit. |
| `Int32Text.TryParse` | racehandler/racehandler/StableManager.cs:199 | A token the parse accepts holds only digits, signs and white space, and at least one digit. |
| `Int32Text.ParseFormatRoundTrip` | racehandler/racehandler/StableManager.cs:199 | The token `int.TryParse` reads is the port another node wrote with `int.ToString()` (line 135), and it reads back exactly. |
| `Int32Text.OutOfRangeRejected` | racehandler/racehandler/StableManager.cs:199 | The decimal text of any number outside the 32-bit range is rejected, with or without a minus sign. |
| `Int32Text.NoDigitRejected` | racehandler/racehandler/StableManager.cs:199 | A token with no digit is rejected: the empty token, a lone sign, white space. |
| `Int32Text.InnerSpaceRejected` | racehandler/racehandler/StableManager.cs:199 | White space is trimmed only at the ends of a token: any token with white space between two digits, such as `"1 2"`, is rejected. |
| `Int32Text.DoubleSignRejected` | racehandler/racehandler/StableManager.cs:199 | At most one sign is accepted: any token whose first two characters after the leading white space are signs, such as `"--1"` or `" +-7"`, is rejected. |
| `StableManager.OnBeaconReady` | racehandler/racehandler/StableManager.cs:193-216 | After a beacon, the registry's keys are the old keys plus the beacon's spy, seen at `now`. Every other entry keeps its time, and the poller's state and endpoint are unchanged. |
| `StableManager.BeaconUnparsableToken` | racehandler/racehandler/StableManager.cs:198-210 | A token `int.TryParse` rejects yields the spy `(host, 0)`, registered at `now`. If that spy is new, it is connected to and announced as `tcp://host:0`. |
| `StableManager.BeaconNewPeer` | racehandler/racehandler/StableManager.cs:204-210 | A new spy adds one entry and one `Connect` to its address. It also adds one `AddedNode` with its address, raising that event's count by exactly one. |
| `StableManager.BeaconKnownPeer` | racehandler/racehandler/StableManager.cs:211-215 | A known spy causes no new key, no socket operation and no event. |
| `StableManager.FirstBeacon` | racehandler/racehandler/StableManager.cs:201-210 | Starting from the empty registry, a first beacon leaves exactly its spy, seen at 0, one `Connect` and one `AddedNode`. |
| `StableManager.DeadSpies` | racehandler/racehandler/StableManager.cs:221-223 | The snapshot holds exactly the enumerated spies whose timeout is strictly exceeded, each once. |
| `StableManager.EvictNodes` | racehandler/racehandler/StableManager.cs:226-228 | Eviction removes exactly the snapshot's spies from the registry. |
| `StableManager.EvictPublisher` | racehandler/racehandler/StableManager.cs:226-229 | Eviction appends one `Disconnect` per snapshot entry, in snapshot order. |
| `StableManager.EvictShim` | racehandler/racehandler/StableManager.cs:226-230 | Eviction appends one `RemovedNode` per snapshot entry, in snapshot order. |
| `StableManager.BurnDeadSpies` | racehandler/racehandler/StableManager.cs:218-232 | After the sweep, a spy is registered iff it was registered and `now <= lastSeen + 10 s`. Survivors keep their times, and the poller's state and endpoint are unchanged. |
| `StableManager.SweepBoundary` | racehandler/racehandler/StableManager.cs:222 | The comparison is strict: a spy survives the sweep at exactly `lastSeen + 10 s` and is gone one tick later. |
| `StableManager.SweepEmitsOncePerEvicted` | racehandler/racehandler/StableManager.cs:226-231 | The sweep only appends to the logs. It appends exactly one `Disconnect` and one `RemovedNode` per evicted spy (as multisets), and nothing else. |
| `StableManager.SweepIdempotent` | racehandler/racehandler/StableManager.cs:218-232 | A second sweep at the same instant changes nothing, in any enumeration order. |
| `StableManager.EvictionScenario` | racehandler/racehandler/StableManager.cs:218-232 | From the state a first beacon at 0 reaches, the sweep at 9 s changes nothing. The sweep at 11 s empties the registry and leaves the logs `Connect, Disconnect` and `AddedNode, RemovedNode`. |
| `StableManager.OnShimReady` | racehandler/racehandler/StableManager.cs:160-183 | The end message stops the poller and sends nothing. `P` gives the publisher exactly one message, the following frames verbatim. `GetHostAddress` sends exactly one one-frame reply, which reads back as the bound interface and the subscriber port. Any other command changes nothing. |
| `StableManager.HostAddressMessage` | racehandler/racehandler/StableManager.cs:180-181 | The reply is a single frame, which reads back as the bound interface and the subscriber port. |
| `StableManager.HostAddressReplyReadsBack` | racehandler/racehandler/StableManager.cs:178-182 | The `GetHostAddress` reply splits at its last colon into the bound interface and the subscriber port, which `int.TryParse` reads back. |
| `StableManager.Dispatch` | racehandler/racehandler/StableManager.cs:149-156 | A stopped poller dispatches nothing, and only the end-of-shim message stops a running one. Nothing restarts it, and the endpoint never changes. |
| `StableManager.StopIsFinal` | racehandler/racehandler/StableManager.cs:166-170 | After the end message, the poller is stopped with registry and logs unchanged. No later input, a second stop included, changes anything. |
| `StableManager.InitConsistent` | racehandler/racehandler/StableManager.cs:88-93 | The empty registry with empty logs satisfies the mesh invariant. |
| `StableManager.BeaconPreservesConsistent` | racehandler/racehandler/StableManager.cs:193-216 | A beacon keeps, for every address, the net `AddedNode` count and the net connect count equal to whether that address is registered. |
| `StableManager.EvictPreservesConsistent` | racehandler/racehandler/StableManager.cs:226-231 | Evicting a snapshot of registered, distinct spies keeps the mesh invariant. |
| `StableManager.ShimPreservesConsistent` | racehandler/racehandler/StableManager.cs:160-183 | No shim command disturbs the mesh invariant. |
| `StableManager.SubscriberPreservesConsistent` | racehandler/racehandler/StableManager.cs:185-191 | Forwarding a bus message changes neither the registry nor the actor's own `AddedNode`/`RemovedNode` sends, so the mesh invariant holds. |
| `StableManager.DispatchPreservesConsistent` | racehandler/racehandler/StableManager.cs:149-156 | Whatever the poller dispatches, the actor's own `AddedNode`/`RemovedNode` sends and the publisher's connections keep matching the registry. |
| `StableManager.ForgedAnnouncement` | racehandler/racehandler/StableManager.cs:185-191 | A bus message `AddedNode`, `a` for an unregistered `a` reaches the owner with exactly the frames of an announcement, yet nothing is registered, the actor's net sends for `a` stay 0 and the mesh invariant still holds. |

## Left out

- The NetMQ plumbing of `RunActor` (StableManager.cs:105-158) is not modelled: socket
  creation, `BindRandomPort`, beacon configuration and publishing, the timer, and console
  output. Its results enter as `Init`'s `boundTo` and `randomPort`. The poller is `Dispatch`
  over an explicit `Input`.
- `Spy.HostName`: the DNS lookup in the constructor (StableManager.cs:42) is never read and
  takes no part in equality. The model assumes the lookup succeeds. In the source, a host that
  does not resolve throws out of `OnBeaconReady` before the registry is touched.
- `StableManager.OnBeaconReady`: the model assumes the publisher's `Connect` and the shim send
  succeed. In the source, `m_nodes.Add` (StableManager.cs:207) runs before `Connect` (208) and
  the send (209), and nothing catches an exception. A port the transport refuses, such as
  `-1` or `70000`, both of which `int.TryParse` accepts, may make `Connect` throw. The
  source then keeps a registered spy that was never connected or announced, which breaks
  `Consistent`, and the exception leaves the poller's handler.
- `StableManager.BurnDeadSpies`: likewise, the model assumes `Disconnect` and the shim send
  succeed. In the source, `m_nodes.Remove` (228) runs before them (229-230). A throw there
  leaves a spy removed but still connected and never reported. It also abandons the rest
  of the snapshot.
- `Spies.HashCode`: `string.GetHashCode()` is randomised per process, so it is a parameter.
  A null `Name` (hash 0) is not modelled, because peer host names are never null.
- `Spies.ToString`: .NET's `int.ToString()` follows the current culture's negative sign. The
  model uses "-", the invariant culture's sign, and does not model custom cultures.
- `Int32Text.TryParse`: .NET also accepts trailing NUL characters and culture-specific signs.
  Neither is modelled; beacon tokens written by `int.ToString()` never contain them.
- `StableManager.BurnDeadSpies`: the source reads `DateTime.Now` once per entry while building
  the snapshot. The model uses one `now` for the whole sweep, because the sweep runs in a few
  microseconds against a ten-second timeout. `DateTime` overflow of `lastSeen + 10 s` near
  `DateTime.MaxValue` is not modelled.
- `StableManager.OnShimReady`: with `P` as the last frame of its message,
  `ReceiveMultipartMessage` blocks until the owner's next message, and that message is what
  gets published. The model takes `more` as given. Extra frames after other commands, which
  the source leaves in the pipe, are not modelled.
- `StableManager.StopIsFinal`: `NetMQPoller.Stop` lets the current iteration finish. The model
  treats stop as taking effect before the next dispatch. The closing of the actor pipe after
  the poller exits is left out.
- `Consistent` counts events with multisets. The order in which the owner receives them is
  stated separately by `EvictShim` and `BeaconNewPeer`.
- The shim pipe is untagged: `OnSubscriberReady` (StableManager.cs:189-190) forwards bus
  messages over the same pipe as the `AddedNode`/`RemovedNode` sends (209, 230) and the
  `GetHostAddress` reply (181). A peer's bus message can therefore pass for a node event or
  for the host-address reply (`UntaggedFrames`, `ForgedAnnouncement`). `Consistent` speaks of
  the actor's own sends, which the model keeps apart; it says nothing about what the owner
  can tell apart from the frames alone.
- Message frames are strings. NetMQ frames are byte arrays, and the manager never inspects
  them beyond comparing the command frame.
- `NetMQActor.EndShimMessage` is NetMQ's constant, written here as `"endPipe"`. NetMQ's source
  is not part of this model.
- `DeadDropScooper`, `DeadDropManager` and `Program` (the other files of the project) are not
  part of this model.
