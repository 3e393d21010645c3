/**
 * The stable manager's actor state machine. Every handler runs on the
 * actor's single thread, so each is a pure step from one state to the next.
 * The clock is the explicit `now` argument (DateTime ticks), and socket
 * effects are entries appended to two logs: the operations performed on the
 * publisher socket and the messages sent to the owner over the shim.
 */
module StableManager {
  import opened Wrappers
  import opened Int32Text
  import opened Spies

  // ---- actor protocol ----

  const PublishCommand: string := "P"
  const GetHostAddressCommand: string := "GetHostAddress"
  const AddedNodeCommand: string := "AddedNode"
  const RemovedNodeCommand: string := "RemovedNode"
  /** NetMQActor.EndShimMessage: the frame the owner sends to stop the actor. */
  const EndShimMessage: string := "endPipe"

  /** DateTime resolution: one tick is 100 ns. */
  const TicksPerSecond: int := 10_000_000
  /** Silence after which a spy is presumed dead: ten seconds. */
  const BurnNoticeTimeout: int := 10 * TicksPerSecond

  /** A message frame; frames are opaque to the actor. */
  type Frame = string

  /** What the actor does to its publisher socket. */
  datatype PublisherOp =
    | Connect(address: string)
    | Disconnect(address: string)
    | Send(message: seq<Frame>)

  /** What the actor sends to its owner over the shim. */
  datatype ShimMessage =
    | AddedNode(address: string)
    | RemovedNode(address: string)
    | HostAddress(address: string)
    | Forward(message: seq<Frame>)

  /** The frames a shim message goes out as. */
  function Frames(m: ShimMessage): seq<Frame> {
    match m
    case AddedNode(a) => [AddedNodeCommand, a]
    case RemovedNode(a) => [RemovedNodeCommand, a]
    case HostAddress(a) => [a]
    case Forward(message) => message
  }

  /**
   * The actor's state: the registry of known spies with the time each was
   * last seen, the two effect logs, whether the poller still runs, and the
   * endpoint fixed at start-up (the beacon's bound interface and the
   * subscriber's random port).
   */
  datatype State = State(
    nodes: map<Spy, int>,
    publisher: seq<PublisherOp>,
    shim: seq<ShimMessage>,
    running: bool,
    boundTo: string,
    randomPort: int32)

  /** The state once start-up has finished and the poller runs. */
  function Init(boundTo: string, randomPort: int32): State {
    State(map[], [], [], true, boundTo, randomPort)
  }

  // ---- beacon handler ----

  /** The spy a beacon names; a token that does not parse leaves the port at 0. */
  function BeaconSpy(peerHost: string, token: string): Spy {
    Spy(peerHost, TryParse(token).GetOr(0))
  }

  /**
   * `OnBeaconReady`: whether new or known, the beacon's spy ends up in the
   * registry seen at `now`; no other key appears and every other entry keeps
   * its time. A new spy is also connected to and announced.
   */
  function OnBeaconReady(st: State, peerHost: string, token: string, now: int): (r: State)
    ensures var node := BeaconSpy(peerHost, token);
      && r.nodes.Keys == st.nodes.Keys + {node}
      && r.nodes[node] == now
      && (forall s :: s in st.nodes && s != node ==> r.nodes[s] == st.nodes[s])
    ensures r.running == st.running && r.boundTo == st.boundTo && r.randomPort == st.randomPort
  {
    var node := BeaconSpy(peerHost, token);
    if node !in st.nodes then
      st.(nodes := st.nodes[node := now],
          publisher := st.publisher + [Connect(Address(node))],
          shim := st.shim + [AddedNode(Address(node))])
    else
      st.(nodes := st.nodes[node := now])
  }

  /**
   * A spy not yet registered gains exactly one entry, one connect and one
   * AddedNode event, the last two carrying its address.
   */
  lemma BeaconNewPeer(st: State, peerHost: string, token: string, now: int)
    requires BeaconSpy(peerHost, token) !in st.nodes
    ensures var node, r := BeaconSpy(peerHost, token), OnBeaconReady(st, peerHost, token, now);
      && |r.nodes| == |st.nodes| + 1
      && r.publisher == st.publisher + [Connect(Address(node))]
      && r.shim == st.shim + [AddedNode(Address(node))]
      && multiset(r.shim)[AddedNode(Address(node))] == multiset(st.shim)[AddedNode(Address(node))] + 1
  {
  }

  /** A spy already registered causes no connect, no event and no new key. */
  lemma BeaconKnownPeer(st: State, peerHost: string, token: string, now: int)
    requires BeaconSpy(peerHost, token) in st.nodes
    ensures var r := OnBeaconReady(st, peerHost, token, now);
      && r.nodes.Keys == st.nodes.Keys
      && r.publisher == st.publisher
      && r.shim == st.shim
  {
  }

  /**
   * A token `int.TryParse` rejects is not discarded: the beacon registers or
   * refreshes the spy `(peerHost, 0)` like any other, and a new one is
   * connected to and announced as `tcp://peerHost:0`.
   */
  lemma BeaconUnparsableToken(st: State, peerHost: string, token: string, now: int)
    requires TryParse(token) == None
    ensures var r, zero := OnBeaconReady(st, peerHost, token, now), AddressScheme + peerHost + ":0";
      && Spy(peerHost, 0) in r.nodes
      && r.nodes[Spy(peerHost, 0)] == now
      && (Spy(peerHost, 0) !in st.nodes ==>
            && r.publisher == st.publisher + [Connect(zero)]
            && r.shim == st.shim + [AddedNode(zero)])
  {
    assert Format(0) == "0";
    assert Address(Spy(peerHost, 0)) == AddressScheme + peerHost + ":0";
  }

  // ---- eviction sweep ----

  /** A spy last seen at `lastSeen` is dead at `now` only once the timeout is strictly exceeded. */
  predicate Stale(lastSeen: int, now: int) {
    now > lastSeen + BurnNoticeTimeout
  }

  predicate Distinct(xs: seq<Spy>) {
    forall i, j :: 0 <= i < j < |xs| ==> xs[i] != xs[j]
  }

  /** `order` lists every registry key once: some enumeration order of the Dictionary. */
  predicate IsEnumeration(order: seq<Spy>, keys: set<Spy>) {
    && Distinct(order)
    && (forall s :: s in order ==> s in keys)
    && (forall s :: s in keys ==> s in order)
  }

  /** The snapshot the sweep takes: the stale spies, in enumeration order. */
  function DeadSpies(order: seq<Spy>, nodes: map<Spy, int>, now: int): (dead: seq<Spy>)
    requires forall s :: s in order ==> s in nodes
    ensures forall s :: s in dead <==> s in order && Stale(nodes[s], now)
    ensures Distinct(order) ==> Distinct(dead)
    decreases |order|
  {
    if |order| == 0 then []
    else
      var rest := DeadSpies(order[1..], nodes, now);
      if Stale(nodes[order[0]], now) then [order[0]] + rest else rest
  }

  /** One iteration of the sweep's loop: remove, disconnect, announce. */
  function EvictOne(st: State, s: Spy): State {
    st.(nodes := st.nodes - {s},
        publisher := st.publisher + [Disconnect(Address(s))],
        shim := st.shim + [RemovedNode(Address(s))])
  }

  function RemovedEvents(dead: seq<Spy>): seq<ShimMessage> {
    if |dead| == 0 then [] else [RemovedNode(Address(dead[0]))] + RemovedEvents(dead[1..])
  }

  function Disconnects(dead: seq<Spy>): seq<PublisherOp> {
    if |dead| == 0 then [] else [Disconnect(Address(dead[0]))] + Disconnects(dead[1..])
  }

  /** The sweep's loop over the snapshot `dead`. */
  function Evict(st: State, dead: seq<Spy>): (r: State)
    ensures r.running == st.running && r.boundTo == st.boundTo && r.randomPort == st.randomPort
    decreases |dead|
  {
    if |dead| == 0 then st else Evict(EvictOne(st, dead[0]), dead[1..])
  }

  /** The loop's effect on the registry: the snapshot leaves it. */
  lemma {:induction false} EvictNodes(st: State, dead: seq<Spy>)
    ensures Evict(st, dead).nodes == st.nodes - (set s | s in dead)
    decreases |dead|
  {
    if |dead| > 0 {
      EvictNodes(EvictOne(st, dead[0]), dead[1..]);
      RemoveInTurn(st.nodes, dead);
    }
  }

  lemma AppendAssoc<T>(a: seq<T>, x: T, b: seq<T>)
    ensures a + ([x] + b) == (a + [x]) + b
  {
  }

  /** The loop's effect on the publisher: one disconnect per snapshot entry, in order. */
  lemma {:induction false} EvictPublisher(st: State, dead: seq<Spy>)
    ensures Evict(st, dead).publisher == st.publisher + Disconnects(dead)
    decreases |dead|
  {
    if |dead| > 0 {
      EvictPublisher(EvictOne(st, dead[0]), dead[1..]);
      AppendAssoc(st.publisher, Disconnect(Address(dead[0])), Disconnects(dead[1..]));
    }
  }

  /** The loop's effect on the shim: one RemovedNode per snapshot entry, in order. */
  lemma {:induction false} EvictShim(st: State, dead: seq<Spy>)
    ensures Evict(st, dead).shim == st.shim + RemovedEvents(dead)
    decreases |dead|
  {
    if |dead| > 0 {
      EvictShim(EvictOne(st, dead[0]), dead[1..]);
      AppendAssoc(st.shim, RemovedNode(Address(dead[0])), RemovedEvents(dead[1..]));
    }
  }

  lemma RemoveInTurn(nodes: map<Spy, int>, dead: seq<Spy>)
    requires |dead| > 0
    ensures nodes - (set s | s in dead) == (nodes - {dead[0]}) - (set s | s in dead[1..])
  {
    assert (set s | s in dead) == {dead[0]} + (set s | s in dead[1..]);
  }

  /**
   * `BurnDeadSpies`: snapshot the stale spies, then evict each of them. It
   * removes exactly the entries whose timeout is strictly exceeded; the
   * survivors keep their last-seen times.
   */
  function BurnDeadSpies(st: State, now: int, order: seq<Spy>): (r: State)
    requires IsEnumeration(order, st.nodes.Keys)
    ensures forall s :: s in r.nodes <==> s in st.nodes && !Stale(st.nodes[s], now)
    ensures forall s :: s in r.nodes ==> r.nodes[s] == st.nodes[s]
    ensures r.running == st.running && r.boundTo == st.boundTo && r.randomPort == st.randomPort
  {
    var dead := DeadSpies(order, st.nodes, now);
    EvictNodes(st, dead);
    Evict(st, dead)
  }

  /** A spy last seen at `t` survives the sweep at `t + 10 s` and is gone at the next tick after. */
  lemma SweepBoundary(st: State, s: Spy, order: seq<Spy>)
    requires IsEnumeration(order, st.nodes.Keys) && s in st.nodes
    ensures s in BurnDeadSpies(st, st.nodes[s] + BurnNoticeTimeout, order).nodes
    ensures s !in BurnDeadSpies(st, st.nodes[s] + BurnNoticeTimeout + 1, order).nodes
  {
  }

  /** No spy after the head of a duplicate-free snapshot shares the head's address. */
  lemma HeadAddressUnique(dead: seq<Spy>)
    requires |dead| > 0 && Distinct(dead)
    ensures forall y :: y in dead[1..] ==> Address(y) != Address(dead[0])
  {
    forall y | y in dead[1..] ensures Address(y) != Address(dead[0]) {
      if Address(y) == Address(dead[0]) {
        AddressInjective(dead[0], y);
      }
    }
  }

  lemma RemovedImageSplit(dead: seq<Spy>)
    requires |dead| > 0
    ensures (set s | s in dead :: RemovedNode(Address(s)))
      == {RemovedNode(Address(dead[0]))} + (set s | s in dead[1..] :: RemovedNode(Address(s)))
  {
  }

  lemma DisconnectImageSplit(dead: seq<Spy>)
    requires |dead| > 0
    ensures (set s | s in dead :: Disconnect(Address(s)))
      == {Disconnect(Address(dead[0]))} + (set s | s in dead[1..] :: Disconnect(Address(s)))
  {
  }

  lemma {:induction false} RemovedEventsOnce(dead: seq<Spy>)
    requires Distinct(dead)
    ensures multiset(RemovedEvents(dead)) == multiset(set s | s in dead :: RemovedNode(Address(s)))
    decreases |dead|
  {
    if |dead| > 0 {
      RemovedEventsOnce(dead[1..]);
      RemovedImageSplit(dead);
      HeadAddressUnique(dead);
    }
  }

  lemma {:induction false} DisconnectsOnce(dead: seq<Spy>)
    requires Distinct(dead)
    ensures multiset(Disconnects(dead)) == multiset(set s | s in dead :: Disconnect(Address(s)))
    decreases |dead|
  {
    if |dead| > 0 {
      DisconnectsOnce(dead[1..]);
      DisconnectImageSplit(dead);
      HeadAddressUnique(dead);
    }
  }

  /** The events of a snapshot are the events of the stale registry entries. */
  lemma SnapshotImages(dead: seq<Spy>, nodes: map<Spy, int>, now: int)
    requires forall s :: s in dead <==> s in nodes && Stale(nodes[s], now)
    ensures (set s | s in dead :: RemovedNode(Address(s)))
      == (set s | s in nodes && Stale(nodes[s], now) :: RemovedNode(Address(s)))
    ensures (set s | s in dead :: Disconnect(Address(s)))
      == (set s | s in nodes && Stale(nodes[s], now) :: Disconnect(Address(s)))
  {
  }

  /**
   * The sweep only appends to the logs, and what it appends is exactly one
   * disconnect and one RemovedNode per evicted spy, nothing else.
   */
  lemma SweepEmitsOncePerEvicted(st: State, now: int, order: seq<Spy>)
    requires IsEnumeration(order, st.nodes.Keys)
    ensures var r := BurnDeadSpies(st, now, order);
      && |r.shim| >= |st.shim| && r.shim[..|st.shim|] == st.shim
      && multiset(r.shim[|st.shim|..])
         == multiset(set s | s in st.nodes && Stale(st.nodes[s], now) :: RemovedNode(Address(s)))
      && |r.publisher| >= |st.publisher| && r.publisher[..|st.publisher|] == st.publisher
      && multiset(r.publisher[|st.publisher|..])
         == multiset(set s | s in st.nodes && Stale(st.nodes[s], now) :: Disconnect(Address(s)))
  {
    var dead := DeadSpies(order, st.nodes, now);
    var r := BurnDeadSpies(st, now, order);
    EvictShim(st, dead);
    EvictPublisher(st, dead);
    RemovedEventsOnce(dead);
    DisconnectsOnce(dead);
    assert r.shim[|st.shim|..] == RemovedEvents(dead);
    assert r.publisher[|st.publisher|..] == Disconnects(dead);
    SnapshotImages(dead, st.nodes, now);
  }

  lemma {:induction false} NothingStale(order: seq<Spy>, nodes: map<Spy, int>, now: int)
    requires forall s :: s in order ==> s in nodes && !Stale(nodes[s], now)
    ensures DeadSpies(order, nodes, now) == []
    decreases |order|
  {
    if |order| > 0 {
      NothingStale(order[1..], nodes, now);
    }
  }

  /** A second sweep at the same instant finds nothing stale and changes nothing. */
  lemma SweepIdempotent(st: State, now: int, order: seq<Spy>, order2: seq<Spy>)
    requires IsEnumeration(order, st.nodes.Keys)
    requires IsEnumeration(order2, BurnDeadSpies(st, now, order).nodes.Keys)
    ensures BurnDeadSpies(BurnDeadSpies(st, now, order), now, order2) == BurnDeadSpies(st, now, order)
  {
    var r := BurnDeadSpies(st, now, order);
    NothingStale(order2, r.nodes, now);
  }

  /**
   * A spy heard once at time 0 (the state `FirstBeacon` reaches) and never
   * again is still registered at the sweep 9 s later, and is removed, with
   * one disconnect and one RemovedNode, at the sweep 11 s after it was heard.
   */
  lemma EvictionScenario(node: Spy, boundTo: string, randomPort: int32)
    ensures BurnDeadSpies(Heard(node, boundTo, randomPort), 9 * TicksPerSecond, [node])
      == Heard(node, boundTo, randomPort)
    ensures BurnDeadSpies(Heard(node, boundTo, randomPort), 11 * TicksPerSecond, [node])
      == State(map[], [Connect(Address(node)), Disconnect(Address(node))],
               [AddedNode(Address(node)), RemovedNode(Address(node))], true, boundTo, randomPort)
  {
    var heard := Heard(node, boundTo, randomPort);
    LoneSpySweep(heard, node, 9 * TicksPerSecond);
    LoneSpySweep(heard, node, 11 * TicksPerSecond);
    LoneSpyEvicted(heard, node);
  }

  /** The state after a first beacon from `node` at time 0. */
  function Heard(node: Spy, boundTo: string, randomPort: int32): State {
    State(map[node := 0], [Connect(Address(node))], [AddedNode(Address(node))], true, boundTo, randomPort)
  }

  /** The first beacon after start-up registers, connects to and announces its spy. */
  lemma FirstBeacon(peerHost: string, token: string, boundTo: string, randomPort: int32)
    ensures OnBeaconReady(Init(boundTo, randomPort), peerHost, token, 0)
      == Heard(BeaconSpy(peerHost, token), boundTo, randomPort)
  {
  }

  lemma LoneSpyEvicted(st: State, node: Spy)
    requires st.nodes.Keys == {node}
    ensures EvictOne(st, node) == st.(nodes := map[],
                                      publisher := st.publisher + [Disconnect(Address(node))],
                                      shim := st.shim + [RemovedNode(Address(node))])
  {
    assert st.nodes - {node} == map[];
  }

  /** With a single registered spy, the sweep either keeps the state or evicts that spy. */
  lemma LoneSpySweep(st: State, node: Spy, now: int)
    requires st.nodes.Keys == {node}
    ensures !Stale(st.nodes[node], now) ==> BurnDeadSpies(st, now, [node]) == st
    ensures Stale(st.nodes[node], now) ==> BurnDeadSpies(st, now, [node]) == EvictOne(st, node)
  {
    var dead := DeadSpies([node], st.nodes, now);
    assert [node][1..] == [] && DeadSpies([], st.nodes, now) == [];
    if Stale(st.nodes[node], now) {
      assert dead == [node];
      assert Evict(st, dead) == Evict(EvictOne(st, node), []);
    } else {
      assert dead == [];
    }
  }

  // ---- shim (control channel) handler ----

  /** The reply to GetHostAddress: the beacon's bound interface and the subscriber port, without a scheme. */
  function HostAddressReply(st: State): string {
    st.boundTo + ":" + Format(st.randomPort)
  }

  /** `reply` splits at its last colon into `host` and a part `int.TryParse` reads as `port`. */
  predicate ReadsBackAs(reply: string, host: string, port: int32) {
    var parts := SplitAtLastColon(reply);
    parts.Some? && parts.value.0 == host && TryParse(parts.value.1) == Some(port)
  }

  /**
   * The reply splits at its last colon into the bound interface and a port
   * part that reads back as the port the subscriber is bound to.
   */
  lemma HostAddressReplyReadsBack(st: State)
    ensures ReadsBackAs(HostAddressReply(st), st.boundTo, st.randomPort)
  {
    FormatHasNoColon(st.randomPort);
    SplitJoin(st.boundTo, Format(st.randomPort));
    ParseFormatRoundTrip(st.randomPort);
  }

  /** The message answering GetHostAddress: one frame, which reads back as the bound endpoint. */
  function HostAddressMessage(st: State): (m: ShimMessage)
    ensures m.HostAddress? && |Frames(m)| == 1 && ReadsBackAs(Frames(m)[0], st.boundTo, st.randomPort)
  {
    var reply := HostAddressReply(st);
    HostAddressReplyReadsBack(st);
    FramesOfHostAddress(reply);
    HostAddress(reply)
  }

  lemma FramesOfHostAddress(reply: string)
    ensures Frames(HostAddress(reply)) == [reply]
  {
  }

  /**
   * `OnShimReady`: `command` is the first frame read, `more` what a further
   * multipart receive yields.
   */
  function OnShimReady(st: State, command: Frame, more: seq<Frame>): (r: State)
    // the end-of-shim message stops the poller and sends nothing
    ensures command == EndShimMessage ==>
      && !r.running
      && r.nodes == st.nodes && r.publisher == st.publisher && r.shim == st.shim
    // publish hands the publisher exactly one message, the following frames verbatim
    ensures command == PublishCommand ==>
      && |r.publisher| == |st.publisher| + 1 && r.publisher[..|st.publisher|] == st.publisher
      && r.publisher[|st.publisher|].Send? && r.publisher[|st.publisher|].message == more
      && r.nodes == st.nodes && r.shim == st.shim && r.running == st.running
    // the host-address request gets exactly one one-frame reply, which reads
    // back as the bound interface and the subscriber port
    ensures command == GetHostAddressCommand ==>
      && |r.shim| == |st.shim| + 1 && r.shim[..|st.shim|] == st.shim
      && |Frames(r.shim[|st.shim|])| == 1
      && ReadsBackAs(Frames(r.shim[|st.shim|])[0], st.boundTo, st.randomPort)
      && r.nodes == st.nodes && r.publisher == st.publisher && r.running == st.running
    // any other command changes nothing
    ensures command != EndShimMessage && command != PublishCommand && command != GetHostAddressCommand ==> r == st
  {
    if command == EndShimMessage then
      st.(running := false)
    else if command == PublishCommand then
      st.(publisher := st.publisher + [Send(more)])
    else if command == GetHostAddressCommand then
      st.(shim := st.shim + [HostAddressMessage(st)])
    else
      st
  }

  /** `OnSubscriberReady`: a message from the bus reaches the owner as exactly its own frames. */
  function OnSubscriberReady(st: State, message: seq<Frame>): (r: State)
    ensures |r.shim| == |st.shim| + 1 && r.shim[..|st.shim|] == st.shim
    ensures Frames(r.shim[|st.shim|]) == message
    ensures r.nodes == st.nodes && r.publisher == st.publisher && r.running == st.running
  {
    st.(shim := st.shim + [Forward(message)])
  }

  // ---- the poller ----

  /** The source the poller found ready. */
  datatype Input =
    | ShimReady(command: Frame, more: seq<Frame>)
    | SubscriberReady(message: seq<Frame>)
    | BeaconReady(peerHost: string, token: string)
    | TimerElapsed(order: seq<Spy>)

  /**
   * One dispatch of the poller at time `now`. Once stopped, the poller
   * dispatches nothing; only the end-of-shim message stops it, and nothing
   * restarts it.
   */
  function Dispatch(st: State, input: Input, now: int): (r: State)
    requires input.TimerElapsed? ==> IsEnumeration(input.order, st.nodes.Keys)
    ensures !st.running ==> r == st
    ensures r.running ==> st.running
    ensures st.running && !r.running ==> input.ShimReady? && input.command == EndShimMessage
    ensures r.boundTo == st.boundTo && r.randomPort == st.randomPort
  {
    if !st.running then st
    else
      match input
      case ShimReady(command, more) => OnShimReady(st, command, more)
      case SubscriberReady(message) => OnSubscriberReady(st, message)
      case BeaconReady(peerHost, token) => OnBeaconReady(st, peerHost, token, now)
      case TimerElapsed(order) => BurnDeadSpies(st, now, order)
  }

  /** Once the stop message is handled, no input changes the state, a second stop included. */
  lemma StopIsFinal(st: State, more: seq<Frame>, input: Input, now: int, later: int)
    requires input.TimerElapsed? ==> IsEnumeration(input.order, st.nodes.Keys)
    ensures var stopped := Dispatch(st, ShimReady(EndShimMessage, more), now);
      && !stopped.running
      && stopped.nodes == st.nodes && stopped.publisher == st.publisher && stopped.shim == st.shim
      && Dispatch(stopped, input, later) == stopped
  {
  }

  // ---- the mesh invariant ----

  /** Times `a` was announced added, less times it was announced removed. */
  function NetAnnounced(log: seq<ShimMessage>, a: string): int {
    multiset(log)[AddedNode(a)] as int - multiset(log)[RemovedNode(a)] as int
  }

  /** Times the publisher connected to `a`, less times it disconnected from it. */
  function NetConnected(log: seq<PublisherOp>, a: string): int {
    multiset(log)[Connect(a)] as int - multiset(log)[Disconnect(a)] as int
  }

  function Addresses(nodes: map<Spy, int>): set<string> {
    set s | s in nodes :: Address(s)
  }

  function Live(nodes: map<Spy, int>, a: string): int {
    if a in Addresses(nodes) then 1 else 0
  }

  /**
   * The actor's own `AddedNode`/`RemovedNode` sends and the publisher's
   * connections both match the registry: every registered address has been
   * announced and connected exactly once more than it has been removed and
   * disconnected, every other address equally often. Forwarded bus messages
   * are not counted, although they travel over the same pipe (see
   * `ForgedAnnouncement`).
   */
  ghost predicate Consistent(st: State) {
    forall a :: NetAnnounced(st.shim, a) == Live(st.nodes, a) && NetConnected(st.publisher, a) == Live(st.nodes, a)
  }

  lemma AddressesInsert(nodes: map<Spy, int>, s: Spy, t: int)
    requires s !in nodes
    ensures Address(s) !in Addresses(nodes)
    ensures Addresses(nodes[s := t]) == Addresses(nodes) + {Address(s)}
  {
    if Address(s) in Addresses(nodes) {
      var y :| y in nodes && Address(y) == Address(s);
      AddressInjective(s, y);
      assert false;
    }
  }

  lemma AddressesRemove(nodes: map<Spy, int>, s: Spy)
    requires s in nodes
    ensures Addresses(nodes - {s}) == Addresses(nodes) - {Address(s)}
  {
    forall a | a in Addresses(nodes) - {Address(s)} ensures a in Addresses(nodes - {s}) {
      var y :| y in nodes && Address(y) == a;
      assert y in nodes - {s};
    }
    forall a | a in Addresses(nodes - {s}) ensures a != Address(s) {
      var y :| y in nodes - {s} && Address(y) == a;
      if a == Address(s) {
        AddressInjective(s, y);
      }
    }
  }

  lemma InitConsistent(boundTo: string, randomPort: int32)
    ensures Consistent(Init(boundTo, randomPort))
  {
  }

  lemma AddPreservesConsistent(st: State, node: Spy, now: int)
    requires Consistent(st) && node !in st.nodes
    ensures Consistent(st.(nodes := st.nodes[node := now],
                           publisher := st.publisher + [Connect(Address(node))],
                           shim := st.shim + [AddedNode(Address(node))]))
  {
    var r := st.(nodes := st.nodes[node := now],
                 publisher := st.publisher + [Connect(Address(node))],
                 shim := st.shim + [AddedNode(Address(node))]);
    AddressesInsert(st.nodes, node, now);
    forall a ensures NetAnnounced(r.shim, a) == Live(r.nodes, a) && NetConnected(r.publisher, a) == Live(r.nodes, a) {
      assert NetAnnounced(st.shim, a) == Live(st.nodes, a) && NetConnected(st.publisher, a) == Live(st.nodes, a);
    }
  }

  lemma RefreshPreservesConsistent(st: State, node: Spy, now: int)
    requires Consistent(st) && node in st.nodes
    ensures Consistent(st.(nodes := st.nodes[node := now]))
  {
    var r := st.(nodes := st.nodes[node := now]);
    assert Addresses(r.nodes) == Addresses(st.nodes);
    forall a ensures NetAnnounced(r.shim, a) == Live(r.nodes, a) && NetConnected(r.publisher, a) == Live(r.nodes, a) {
      assert NetAnnounced(st.shim, a) == Live(st.nodes, a) && NetConnected(st.publisher, a) == Live(st.nodes, a);
    }
  }

  lemma BeaconPreservesConsistent(st: State, peerHost: string, token: string, now: int)
    requires Consistent(st)
    ensures Consistent(OnBeaconReady(st, peerHost, token, now))
  {
    var node := BeaconSpy(peerHost, token);
    if node !in st.nodes {
      AddPreservesConsistent(st, node, now);
    } else {
      RefreshPreservesConsistent(st, node, now);
    }
  }

  lemma EvictOnePreservesConsistent(st: State, s: Spy)
    requires Consistent(st) && s in st.nodes
    ensures Consistent(EvictOne(st, s))
  {
    var r := EvictOne(st, s);
    AddressesRemove(st.nodes, s);
    forall a ensures NetAnnounced(r.shim, a) == Live(r.nodes, a) && NetConnected(r.publisher, a) == Live(r.nodes, a) {
      assert NetAnnounced(st.shim, a) == Live(st.nodes, a);
    }
  }

  lemma {:induction false} EvictPreservesConsistent(st: State, dead: seq<Spy>)
    requires Consistent(st) && Distinct(dead)
    requires forall s :: s in dead ==> s in st.nodes
    ensures Consistent(Evict(st, dead))
    decreases |dead|
  {
    if |dead| > 0 {
      EvictOnePreservesConsistent(st, dead[0]);
      var next := EvictOne(st, dead[0]);
      forall s | s in dead[1..] ensures s in next.nodes {
        assert s != dead[0];
      }
      EvictPreservesConsistent(next, dead[1..]);
    }
  }

  /** A shim message that is no node event leaves every address's net announcement count alone. */
  lemma NeutralShimAppend(log: seq<ShimMessage>, m: ShimMessage, a: string)
    requires !m.AddedNode? && !m.RemovedNode?
    ensures NetAnnounced(log + [m], a) == NetAnnounced(log, a)
  {
    assert multiset(log + [m]) == multiset(log) + multiset{m};
  }

  /** Sending a message leaves every address's net connection count alone. */
  lemma SendAppend(log: seq<PublisherOp>, message: seq<Frame>, a: string)
    ensures NetConnected(log + [Send(message)], a) == NetConnected(log, a)
  {
    assert multiset(log + [Send(message)]) == multiset(log) + multiset{Send(message)};
  }

  lemma ShimPreservesConsistent(st: State, command: Frame, more: seq<Frame>)
    requires Consistent(st)
    ensures Consistent(OnShimReady(st, command, more))
  {
    var r := OnShimReady(st, command, more);
    if command == PublishCommand {
      assert r.publisher == st.publisher + [Send(more)];
      forall a ensures NetConnected(r.publisher, a) == Live(r.nodes, a) {
        SendAppend(st.publisher, more, a);
      }
    } else if command == GetHostAddressCommand {
      var m := HostAddressMessage(st);
      assert r.shim == st.shim + [m];
      forall a ensures NetAnnounced(r.shim, a) == Live(r.nodes, a) {
        NeutralShimAppend(st.shim, m, a);
      }
    }
  }

  lemma SubscriberPreservesConsistent(st: State, message: seq<Frame>)
    requires Consistent(st)
    ensures Consistent(OnSubscriberReady(st, message))
  {
    var r := OnSubscriberReady(st, message);
    assert r.shim == st.shim + [Forward(message)];
    forall a ensures NetAnnounced(r.shim, a) == Live(r.nodes, a) {
      NeutralShimAppend(st.shim, Forward(message), a);
    }
  }

  /** Every dispatch keeps the registry, the owner's view and the mesh in step. */
  lemma DispatchPreservesConsistent(st: State, input: Input, now: int)
    requires Consistent(st)
    requires input.TimerElapsed? ==> IsEnumeration(input.order, st.nodes.Keys)
    ensures Consistent(Dispatch(st, input, now))
  {
    if st.running {
      match input
      case ShimReady(command, more) => ShimPreservesConsistent(st, command, more);
      case SubscriberReady(message) => SubscriberPreservesConsistent(st, message);
      case BeaconReady(peerHost, token) => BeaconPreservesConsistent(st, peerHost, token, now);
      case TimerElapsed(order) => EvictPreservesConsistent(st, DeadSpies(order, st.nodes, now));
    }
  }

  // ---- the pipe carries untagged frames ----

  /**
   * The shim pipe carries bare frames: a forwarded bus message can have the
   * frames of the actor's own node events or of the host-address reply.
   */
  lemma UntaggedFrames(a: string, reply: string)
    ensures Frames(Forward([AddedNodeCommand, a])) == Frames(AddedNode(a))
    ensures Frames(Forward([RemovedNodeCommand, a])) == Frames(RemovedNode(a))
    ensures Frames(Forward([reply])) == Frames(HostAddress(reply))
  {
  }

  /**
   * A peer that publishes `AddedNode` and an address nobody registered makes
   * the owner receive exactly the frames of an announcement, while the
   * registry, the publisher and the mesh invariant are untouched: the
   * invariant speaks of the actor's own sends, not of what the owner reads.
   */
  lemma ForgedAnnouncement(st: State, a: string)
    requires Consistent(st) && a !in Addresses(st.nodes)
    ensures var r := OnSubscriberReady(st, [AddedNodeCommand, a]);
      && Frames(r.shim[|r.shim| - 1]) == Frames(AddedNode(a))
      && a !in Addresses(r.nodes) && NetAnnounced(r.shim, a) == 0
      && Consistent(r)
  {
    SubscriberPreservesConsistent(st, [AddedNodeCommand, a]);
  }
}
