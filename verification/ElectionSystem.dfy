/** The common-time service as a system: any number of nodes, a network that may lose, reorder and
  * duplicate packets, and arbitrary timeouts, socket changes and configuration calls.
  */
module ElectionSystem {
  import opened Common
  import opened ElectionNode

  /** All nodes (addressed by index), every message ever sent, and every timeline ever created. */
  datatype System = System(nodes: seq<Node>, net: set<Message>, created: set<uint64>)

  datatype Event =
    | TurnOf(i: nat, wakeup: Wakeup)
    | CallOn(i: nat, call: Call)

  /** A draw is never the invalid timeline. */
  predicate DrawIsValid(e: Event) {
    match e
    case TurnOf(_, wakeup) => wakeup.newTimeline != INVALID_TIMELINE
    case CallOn(_, call) => call.DrawIsValid()
  }

  /** A schedule the environment can ask for; what is not on the network does not arrive. */
  predicate Fits(events: seq<Event>, size: nat) {
    forall e | e in events :: e.i < size && DrawIsValid(e)
  }

  /** The packet of a turn arrives only if it was sent, to this node or to everyone. */
  function Received(net: set<Message>, e: Event): Event {
    match e
    case TurnOf(i, wakeup) =>
      if wakeup.arrived.Some? && !(wakeup.arrived.value in net && wakeup.arrived.value.dst in {None, Some(i)})
      then TurnOf(i, wakeup.(arrived := None)) else e
    case CallOn(_, _) => e
  }

  function NodeStep(n: Node, e: Event): Effect
    requires NodeInv(n) && DrawIsValid(e)
  {
    match e
    case TurnOf(_, wakeup) => Turn(n, wakeup)
    case CallOn(_, call) => Configure(n, call).1
  }

  /** A node creates a timeline when it becomes master from the initial state. */
  function Created(before: Node, after: Node, created: set<uint64>): set<uint64> {
    if before.state == INITIAL && after.state == MASTER then created + {after.timelineID} else created
  }

  function Step(s: System, e: Event): System
    requires Inv(s) && e.i < |s.nodes| && DrawIsValid(e)
  {
    var effect := NodeStep(s.nodes[e.i], Received(s.net, e));
    System(s.nodes[e.i := effect.node],
           s.net + (set m | m in effect.sent),
           Created(s.nodes[e.i], effect.node, s.created))
  }

  // ----- the system invariant -----

  ghost predicate NodeOk(n: Node, i: nat, created: set<uint64>) {
    && NodeInv(n)
    && n.address == i
    && n.state != WAIT_FOR_ELECTION
    && (n.state != INITIAL ==> n.timelineID in created)
  }

  ghost predicate MessageOk(m: Message, created: set<uint64>) {
    match m.packet
    case WhoIsMasterRequest(timelineID, _) => timelineID == INVALID_TIMELINE
    case WhoIsMasterResponse(timelineID, _) => timelineID in created
    case SyncRequest(timelineID) => timelineID in created
    case SyncResponse(timelineID, nak) => nak || timelineID in created
    case MasterAnnouncement(timelineID, _) => timelineID in created
  }

  ghost predicate Inv(s: System) {
    && INVALID_TIMELINE !in s.created
    && (forall i | 0 <= i < |s.nodes| :: NodeOk(s.nodes[i], i, s.created) && Armed(s.nodes[i]))
    && (forall m | m in s.net :: MessageOk(m, s.created))
  }

  // ----- one step of one node -----

  /** A good step keeps the node to the timelines that exist, or to the one it just created, and
    * sends only packets that carry such a timeline. */
  ghost predicate GoodEffect(n: Node, effect: Effect, i: nat, created: set<uint64>) {
    var after := Created(n, effect.node, created);
    && NodeOk(effect.node, i, after)
    && (forall m | m in effect.sent :: MessageOk(m, after))
  }

  lemma PacketEffectIsGood(n: Node, i: nat, message: Message, timing: Timing, created: set<uint64>)
    requires INVALID_TIMELINE !in created && NodeOk(n, i, created) && n.socket && MessageOk(message, created)
    ensures GoodEffect(n, HandlePacket(n, message, timing), i, created)
  {
    hide NodeInv, BecomeClient;
    HandlePacketKeeps(n, message, timing);
    if message.packet.WhoIsMasterResponse? || message.packet.MasterAnnouncement? {
      ClientEffect(n, message.src, message.packet.device, message.packet.timelineID);
    }
  }

  lemma ClientEffect(n: Node, masterEP: Address, master: Rank, timelineID: uint64)
    requires n.socket
    ensures var effect := BecomeClient(n, masterEP, master, timelineID);
            && effect.node.state == CLIENT && effect.node.timelineID == timelineID
            && effect.node.address == n.address
            && effect.sent == [Message(n.address, Some(masterEP), SyncRequest(timelineID))]
  {
  }

  lemma TimeoutEffectIsGood(n: Node, i: nat, timing: Timing, draw: uint64, created: set<uint64>)
    requires INVALID_TIMELINE !in created && NodeOk(n, i, created) && draw != INVALID_TIMELINE
    ensures GoodEffect(n, HandleTimeout(n, timing, draw), i, created)
  {
    HandleTimeoutKeeps(n, timing, draw);
  }

  lemma SocketEffectsAreGood(n: Node, i: nat, draw: uint64, created: set<uint64>)
    requires INVALID_TIMELINE !in created && NodeOk(n.(socket := false), i, created) && draw != INVALID_TIMELINE
    ensures n.socket ==> GoodEffect(n, BoundInterface(n), i, created)
    ensures !n.socket ==> GoodEffect(n, EnterNetworkless(n, draw), i, created)
  {
  }

  lemma TurnEffectIsGood(n: Node, i: nat, wakeup: Wakeup, created: set<uint64>)
    requires INVALID_TIMELINE !in created && NodeOk(n, i, created) && wakeup.newTimeline != INVALID_TIMELINE
    requires wakeup.arrived.Some? ==> MessageOk(wakeup.arrived.value, created)
    ensures GoodEffect(n, Turn(n, wakeup), i, created)
  {
    hide HandleTimeout, HandlePacket, BoundInterface, EnterNetworkless;
    var m := Woken(n, wakeup);
    if !m.socket {
      SocketEffectsAreGood(m.(socket := true, deviceID := wakeup.setupDeviceID), i, wakeup.newTimeline, created);
      SocketEffectsAreGood(m, i, wakeup.newTimeline, created);
    } else if wakeup.arrived.Some? {
      PacketEffectIsGood(m, i, wakeup.arrived.value, wakeup.timing, created);
    }
    TimeoutEffectIsGood(m, i, wakeup.timing, wakeup.newTimeline, created);
  }

  lemma CallEffectIsGood(n: Node, i: nat, call: Call, created: set<uint64>)
    requires INVALID_TIMELINE !in created && NodeOk(n, i, created)
    requires call.DrawIsValid()
    ensures GoodEffect(n, Configure(n, call).1, i, created)
  {
    ConfigureKeeps(n, call);
  }

  // ----- whole runs -----

  /** Timelines are only added, and never the invalid one. */
  lemma StepKeepsInv(s: System, e: Event)
    requires Inv(s) && e.i < |s.nodes| && DrawIsValid(e)
    ensures Inv(Step(s, e)) && |Step(s, e).nodes| == |s.nodes|
    ensures s.created <= Step(s, e).created
  {
    hide Turn, Configure, NodeInv, Armed;
    var n := s.nodes[e.i];
    match Received(s.net, e) {
      case TurnOf(i, wakeup) =>
        TurnEffectIsGood(n, i, wakeup, s.created);
        TurnKeeps(n, wakeup);
      case CallOn(i, call) =>
        CallEffectIsGood(n, i, call, s.created);
        ConfigureKeeps(n, call);
    }
    CreatedIsValid(n, NodeStep(n, Received(s.net, e)).node, e.i, s.created);
  }

  lemma CreatedIsValid(n: Node, after: Node, i: nat, created: set<uint64>)
    requires INVALID_TIMELINE !in created && NodeOk(after, i, Created(n, after, created))
    ensures INVALID_TIMELINE !in Created(n, after, created)
  {
  }

  /** The run of a system along a schedule. */
  function Run(s: System, events: seq<Event>): System
    requires Inv(s) && Fits(events, |s.nodes|)
    decreases |events|
  {
    if events == [] then s
    else
      assert events[0] in events;
      StepKeepsInv(s, events[0]);
      Run(Step(s, events[0]), events[1..])
  }

  lemma {:induction false} RunExtends(s: System, events: seq<Event>, e: Event)
    requires Inv(s) && Fits(events + [e], |s.nodes|)
    ensures Fits(events, |s.nodes|) && Inv(Run(s, events)) && |Run(s, events).nodes| == |s.nodes|
    ensures e.i < |s.nodes| && DrawIsValid(e) && Run(s, events + [e]) == Step(Run(s, events), e)
    decreases |events|
  {
    hide Inv, Step, DrawIsValid;
    assert e in events + [e] && forall d | d in events :: d in events + [e];
    if events == [] {
      assert events + [e] == [e];
      StepKeepsInv(s, e);
      assert [e][1..] == [];
    } else {
      assert events[0] in events;
      StepKeepsInv(s, events[0]);
      assert (events + [e])[1..] == events[1..] + [e];
      RunExtends(Step(s, events[0]), events[1..], e);
    }
  }

  /** Nodes start as they are constructed, with nothing sent. */
  ghost predicate Initially(s: System) {
    && s.net == {} && s.created == {}
    && forall i | 0 <= i < |s.nodes| ::
         s.nodes[i].settings.InRange() && s.nodes[i] == NewNode(i, s.nodes[i].settings)
  }

  lemma InitiallyInv(s: System)
    requires Initially(s)
    ensures Inv(s)
  {
  }

  /** The invariant holds along every run that starts where it holds. */
  lemma {:induction false} RunKeepsInv(s: System, events: seq<Event>)
    requires Inv(s) && Fits(events, |s.nodes|)
    ensures Inv(Run(s, events)) && |Run(s, events).nodes| == |s.nodes| && s.created <= Run(s, events).created
    decreases |events|
  {
    hide Inv, Step, DrawIsValid;
    if events != [] {
      assert events[0] in events;
      StepKeepsInv(s, events[0]);
      RunKeepsInv(Step(s, events[0]), events[1..]);
    }
  }

  /** Every reachable system state satisfies the invariant: the timeline is invalid exactly in the
    * initial state, a master endpoint is known exactly by clients, a master on the network and a
    * ronin know the time, nobody ever waits for an election, nodes on the network have their timer
    * running, settings stay in their ranges, and every offer of a master and every accepted sync
    * carries a timeline some node created. */
  lemma ReachableInv(s: System, events: seq<Event>)
    requires Initially(s) && Fits(events, |s.nodes|)
    ensures (InitiallyInv(s); Inv(Run(s, events)))
  {
    InitiallyInv(s);
    RunKeepsInv(s, events);
  }

  /** A turn that gets as far as handling the packet that arrived. */
  predicate TakesPacket(n: Node, wakeup: Wakeup) {
    n.socket && !Drops(n) && !wakeup.timedOut && wakeup.arrived.Some?
  }

  lemma TurnIs(n: Node, wakeup: Wakeup)
    requires NodeInv(n) && wakeup.newTimeline != INVALID_TIMELINE
    ensures TakesPacket(n, wakeup) ==> Turn(n, wakeup) == HandlePacket(n, wakeup.arrived.value, wakeup.timing)
    ensures !TakesPacket(n, wakeup) ==>
              && (Turn(n, wakeup).node.state == WAIT_FOR_ELECTION ==> n.state == WAIT_FOR_ELECTION)
              && forall m | m in Turn(n, wakeup).sent :: !m.packet.SyncResponse?
  {
    hide HandlePacket, HandleTimeout, BoundInterface, EnterNetworkless;
    var m := Woken(n, wakeup);
    QuietChanges(m, wakeup);
    if !m.socket {
      QuietChanges(m.(socket := true, deviceID := wakeup.setupDeviceID), wakeup);
    }
  }

  /** Neither timeouts nor sockets make a node wait or answer. */
  lemma QuietChanges(n: Node, wakeup: Wakeup)
    requires wakeup.newTimeline != INVALID_TIMELINE && NodeInv(n.(socket := false))
    ensures NodeInv(n) ==> Quiet(n, HandleTimeout(n, wakeup.timing, wakeup.newTimeline))
    ensures n.socket ==> Quiet(n, BoundInterface(n))
    ensures !n.socket ==> Quiet(n, EnterNetworkless(n, wakeup.newTimeline))
  {
  }

  ghost predicate Quiet(n: Node, effect: Effect) {
    && (effect.node.state == WAIT_FOR_ELECTION ==> n.state == WAIT_FOR_ELECTION)
    && forall m | m in effect.sent :: !m.packet.SyncResponse?
  }

  /** A turn makes a node wait for an election in one case only: it is ronin and handles the request of a
    * device that outranks it for a master of the ronin's own timeline. */
  lemma WaitsOnlyOnOwnTimeline(n: Node, wakeup: Wakeup)
    requires NodeInv(n) && n.state != WAIT_FOR_ELECTION && wakeup.newTimeline != INVALID_TIMELINE
    ensures Turn(n, wakeup).node.state == WAIT_FOR_ELECTION <==>
            && TakesPacket(n, wakeup) && n.state == RONIN
            && var packet := wakeup.arrived.value.packet;
            && packet.WhoIsMasterRequest? && packet.timelineID == n.timelineID
            && packet.sender.deviceID != n.deviceID
            && (packet.sender.priority as int > Standing(n)
                || (packet.sender.priority as int == Standing(n) && packet.sender.deviceID > n.deviceID))
  {
    hide Turn;
    TurnIs(n, wakeup);
  }

  /** As every node asks with the invalid timeline, that never happens: the state is dead. */
  lemma NobodyEverWaits(s: System, events: seq<Event>)
    requires Initially(s) && Fits(events, |s.nodes|)
    ensures (InitiallyInv(s); forall n | n in Run(s, events).nodes :: n.state != WAIT_FOR_ELECTION)
  {
    hide NodeInv;
    InitiallyInv(s);
    RunKeepsInv(s, events);
  }

  /** A node sends a sync response exactly for each sync request it handles, to the sender: a grant if it is
    * master of the timeline asked for, and then it knows the time, and a refusal otherwise. */
  lemma SyncRequestsAreAnswered(n: Node, wakeup: Wakeup)
    requires NodeInv(n) && wakeup.newTimeline != INVALID_TIMELINE
    ensures var sent := Turn(n, wakeup).sent;
            if TakesPacket(n, wakeup) && wakeup.arrived.value.packet.SyncRequest? then
              var request := wakeup.arrived.value;
              var grants := n.state == MASTER && n.timelineID == request.packet.timelineID;
              && sent == [Message(n.address, Some(request.src), SyncResponse(n.timelineID, !grants))]
              && (grants ==> n.clock.valid)
            else forall m | m in sent :: !m.packet.SyncResponse?
  {
    hide Turn;
    TurnIs(n, wakeup);
  }

  /** A turn in which the node sets up a socket. */
  predicate Joins(n: Node, wakeup: Wakeup) {
    && (!n.socket || Drops(n)) && n.settings.bindIfaceValid && !n.ShouldAutoDisable() && wakeup.setupSucceeds
  }

  /** A node that joins a network defers to every device that does not, until it follows a master or serves a client.
    * Its identity is that of the interface it has joined with. */
  lemma DefersUntilServing(n: Node, wakeup: Wakeup)
    requires NodeInv(n) && wakeup.newTimeline != INVALID_TIMELINE
    ensures var after := Turn(n, wakeup).node;
            && after.deviceID == (if Joins(n, wakeup) then wakeup.setupDeviceID else n.deviceID)
            && (after.forceLowPriority <==>
                  || Joins(n, wakeup)
                  || (n.forceLowPriority
                      && !(TakesPacket(n, wakeup)
                           && var packet := wakeup.arrived.value.packet;
                           if IsOffer(packet) then Heeds(n, packet)
                           else packet.SyncRequest? && n.state == MASTER && packet.timelineID == n.timelineID)))
  {
    hide HandleTimeout, HandlePacket, BoundInterface, EnterNetworkless;
    var m := Woken(n, wakeup);
    if !m.socket {
      JoiningDefers(m.(socket := true, deviceID := wakeup.setupDeviceID));
      LeavingKeepsStanding(m, wakeup.newTimeline);
    }
    TimeoutKeepsStanding(m, wakeup.timing, wakeup.newTimeline);
    if m.socket && wakeup.arrived.Some? {
      PacketStanding(m, wakeup.arrived.value, wakeup.timing);
    }
  }

  lemma JoiningDefers(n: Node)
    requires n.socket
    ensures BoundInterface(n).node.forceLowPriority && BoundInterface(n).node.deviceID == n.deviceID
  {
  }

  ghost predicate KeepsStanding(n: Node, after: Node) {
    after.forceLowPriority == n.forceLowPriority && after.deviceID == n.deviceID
  }

  lemma LeavingKeepsStanding(n: Node, newTimeline: uint64)
    requires NodeInv(n) && !n.socket && newTimeline != INVALID_TIMELINE
    ensures KeepsStanding(n, EnterNetworkless(n, newTimeline).node)
  {
  }

  lemma TimeoutKeepsStanding(n: Node, timing: Timing, newTimeline: uint64)
    requires NodeInv(n) && newTimeline != INVALID_TIMELINE
    ensures KeepsStanding(n, HandleTimeout(n, timing, newTimeline).node)
  {
  }

  lemma PacketStanding(n: Node, message: Message, timing: Timing)
    requires NodeInv(n) && n.socket
    ensures var packet := message.packet;
            var serves := packet.SyncRequest? && n.state == MASTER && packet.timelineID == n.timelineID;
            var after := HandlePacket(n, message, timing).node;
            if (IsOffer(packet) && Heeds(n, packet)) || serves
            then !after.forceLowPriority && after.deviceID == n.deviceID
            else KeepsStanding(n, after)
  {
    hide BecomeClient;
    match message.packet {
      case WhoIsMasterRequest(_, _) => RequestOutcome(n, message.packet, message.src);
      case SyncRequest(_) =>
      case SyncResponse(_, _) =>
      case WhoIsMasterResponse(timelineID, device) =>
        OfferOutcome(n, message, timing);
        BecomeClientKeepsDevice(n, message.src, device, timelineID);
      case MasterAnnouncement(timelineID, device) =>
        OfferOutcome(n, message, timing);
        BecomeClientKeepsDevice(n, message.src, device, timelineID);
    }
  }

  /** A turn that drops the socket - or has none - and sets up no other.  A node that may not have one becomes the
    * master of the timeline it is on, with what it knows of it, or stays in its initial state; one whose setup fails
    * tries again after half a minute and is otherwise as it was.  Nothing is sent. */
  lemma WithoutNetwork(n: Node, wakeup: Wakeup)
    requires NodeInv(n) && wakeup.newTimeline != INVALID_TIMELINE && (!n.socket || Drops(n)) && !Joins(n, wakeup)
    ensures var after := Turn(n, wakeup).node;
            && Turn(n, wakeup).sent == [] && !after.socket && after.clock == n.clock && after.timelineID == n.timelineID
            && (if n.settings.bindIfaceValid && !n.ShouldAutoDisable() then after.timeout == 30000 && after.state == n.state
                else if Drops(n) then after.state == (if n.state == INITIAL then INITIAL else MASTER)
                else after.state == n.state)
  {
    hide HandleTimeout, HandlePacket, BoundInterface;
    var m := Woken(n, wakeup);
    assert HandleTimeout(m, wakeup.timing, wakeup.newTimeline) == Effect(m, []) by { NoSocketNoTimeout(m, wakeup); }
  }

  /** A node that sets up a socket asks for a master: from its initial state again if it does not know the time, as a
    * ronin of its timeline if it does. */
  lemma JoinsNetwork(n: Node, wakeup: Wakeup)
    requires NodeInv(n) && wakeup.newTimeline != INVALID_TIMELINE && Joins(n, wakeup)
    ensures var effect := Turn(n, wakeup);
            && effect.node.socket && effect.node.state == (if n.clock.valid then RONIN else INITIAL)
            && effect.node.timelineID == (if n.clock.valid then n.timelineID else INVALID_TIMELINE)
            && effect.node.clock == (if n.clock.valid then n.clock else ClockState(false, 0))
            && effect.sent == [Message(n.address, None, WhoIsMasterRequest(
                                 INVALID_TIMELINE, Rank(n.settings.masterPriority, wakeup.setupDeviceID)))]
  {
    hide HandleTimeout, HandlePacket, BoundInterface, EnterNetworkless;
    BoundAsks(Woken(n, wakeup).(socket := true, deviceID := wakeup.setupDeviceID));
  }

  lemma BoundAsks(n: Node)
    requires NodeInv(n.(socket := false)) && n.socket
    ensures var effect := BoundInterface(n);
            && effect.node.socket && effect.node.state == (if n.clock.valid then RONIN else INITIAL)
            && effect.node.timelineID == (if n.clock.valid then n.timelineID else INVALID_TIMELINE)
            && effect.node.clock == (if n.clock.valid then n.clock else ClockState(false, 0))
            && effect.sent == [Message(n.address, None, WhoIsMasterRequest(
                                 INVALID_TIMELINE, Rank(n.settings.masterPriority, n.deviceID)))]
  {
  }

  /** A turn in which a client finds that its master's answers are no good. */
  predicate GivesUp(n: Node, wakeup: Wakeup) {
    && n.state == CLIENT && n.socket && !Drops(n)
    && if wakeup.timedOut then wakeup.timing.noGoodData && n.sync.sent > 0
       else
         && wakeup.arrived.Some? && wakeup.arrived.value.packet.SyncResponse? && !wakeup.arrived.value.packet.nak
         && n.masterEP == Some(wakeup.arrived.value.src) && NoGood(n, wakeup.timing)
  }

  /** Giving up forgets everything: two clients of one identity, priority and configuration are equal after
    * it, whatever they knew and however they came to it, and send the same. */
  lemma GivingUpForgets(n: Node, wn: Wakeup, m: Node, wm: Wakeup)
    requires NodeInv(n) && wn.newTimeline != INVALID_TIMELINE && GivesUp(n, wn)
    requires NodeInv(m) && wm.newTimeline != INVALID_TIMELINE && GivesUp(m, wm)
    requires n.address == m.address && n.deviceID == m.deviceID && n.settings == m.settings
    requires n.forceLowPriority == m.forceLowPriority
    ensures Turn(n, wn) == Turn(m, wm) && StartsOver(n, Turn(n, wn))
  {
    hide Turn, NoGood;
    GivenUp(n, wn);
    GivenUp(m, wm);
  }

  lemma GivenUp(n: Node, wakeup: Wakeup)
    requires NodeInv(n) && wakeup.newTimeline != INVALID_TIMELINE && GivesUp(n, wakeup)
    ensures StartsOver(n, Turn(n, wakeup))
  {
    if wakeup.timedOut {
      BecomingInitialStartsOver(n.(timeout := INFINITE_TIMEOUT));
    } else {
      hide Turn, HandleSyncResponse;
      TurnIs(n, wakeup);
      SyncResponseOutcome(n, wakeup.arrived.value.packet, wakeup.arrived.value.src, wakeup.timing);
    }
  }

  // ----- convergence -----

  /** One delivery of a master announcement. */
  datatype Delivery = Delivery(i: nat, src: Address, device: Rank, timelineID: uint64)

  /** The best master: where it is, its rank and its timeline. */
  datatype Winner = Winner(w: nat, rank: Rank, timelineID: uint64) {
    /** Its priority is higher, or the same and its device id larger. */
    predicate Beats(priority: int, deviceID: uint64) {
      rank.priority as int > priority || (rank.priority as int == priority && rank.deviceID > deviceID)
    }
  }

  /** Announcements of this phase: the winner's own, or those of devices it outranks. */
  predicate Fair(d: Delivery, win: Winner) {
    if d.device.deviceID == win.rank.deviceID
    then d.device == win.rank && d.timelineID == win.timelineID && d.src == win.w
    else d.timelineID != INVALID_TIMELINE && win.Beats(d.device.priority, d.device.deviceID)
  }

  predicate Obeys(n: Node, win: Winner) {
    n.state == CLIENT && n.clientMaster == win.rank && n.timelineID == win.timelineID && n.masterEP == Some(win.w)
  }

  /** The winner is master; nobody else ranks as high, and nobody follows a device that does. */
  ghost predicate Led(nodes: seq<Node>, win: Winner) {
    && win.w < |nodes|
    && win.timelineID != INVALID_TIMELINE
    && nodes[win.w].state == MASTER
    && win.rank.priority as int == Standing(nodes[win.w]) && win.rank.deviceID == nodes[win.w].deviceID
    && nodes[win.w].timelineID == win.timelineID
    && Online(nodes)
    && forall i | 0 <= i < |nodes| && i != win.w :: LedNode(nodes[i], win)
  }

  predicate LedNode(n: Node, win: Winner) {
    && n.deviceID != win.rank.deviceID
    && (n.state == CLIENT ==> Obeys(n, win) || win.Beats(n.clientMaster.priority, n.clientMaster.deviceID))
    && (n.state == MASTER ==> win.Beats(Standing(n), n.deviceID))
  }

  /** All nodes are on the network and in good order. */
  ghost predicate Online(nodes: seq<Node>) {
    forall i | 0 <= i < |nodes| :: NodeInv(nodes[i]) && nodes[i].socket
  }

  ghost predicate Deliverable(deliveries: seq<Delivery>, size: nat) {
    forall d | d in deliveries :: d.i < size && d.timelineID != INVALID_TIMELINE
  }

  function Deliver(nodes: seq<Node>, d: Delivery): seq<Node>
    requires Online(nodes) && d.i < |nodes|
  {
    nodes[d.i := HandleMasterAnnouncement(nodes[d.i], MasterAnnouncement(d.timelineID, d.device), d.src).node]
  }

  lemma DeliverKeepsOnline(nodes: seq<Node>, d: Delivery)
    requires Online(nodes) && d.i < |nodes| && d.timelineID != INVALID_TIMELINE
    ensures Online(Deliver(nodes, d)) && |Deliver(nodes, d)| == |nodes|
  {
    hide NodeInv;
    var message := Message(d.src, None, MasterAnnouncement(d.timelineID, d.device));
    HandlePacketKeeps(nodes[d.i], message, Timing(false, false, false));
  }

  function DeliverAll(nodes: seq<Node>, deliveries: seq<Delivery>): seq<Node>
    requires Online(nodes) && Deliverable(deliveries, |nodes|)
    decreases |deliveries|
  {
    if deliveries == [] then nodes
    else
      assert deliveries[0] in deliveries;
      DeliverKeepsOnline(nodes, deliveries[0]);
      DeliverAll(Deliver(nodes, deliveries[0]), deliveries[1..])
  }

  /** One announcement: the winner stays as it is, the followers of the winner are those it had and
    * whoever now hears it, and the lead is kept. */
  lemma AnnouncementKeepsLead(nodes: seq<Node>, d: Delivery, win: Winner)
    requires Led(nodes, win) && d.i < |nodes| && Fair(d, win)
    ensures Led(Deliver(nodes, d), win)
    ensures Deliver(nodes, d)[win.w] == nodes[win.w]
    ensures forall i | 0 <= i < |nodes| && i != win.w ::
              Obeys(Deliver(nodes, d)[i], win) <==> Obeys(nodes[i], win) || (i == d.i && d.device == win.rank)
  {
    var n := nodes[d.i];
    if d.i != win.w {
      AnnouncementKeepsLedNode(n, d, win);
    }
  }

  lemma AnnouncementKeepsLedNode(n: Node, d: Delivery, win: Winner)
    requires NodeInv(n) && n.socket && LedNode(n, win) && Fair(d, win)
    requires win.timelineID != INVALID_TIMELINE
    ensures var after := HandleMasterAnnouncement(n, MasterAnnouncement(d.timelineID, d.device), d.src).node;
            && NodeInv(after) && after.socket && LedNode(after, win)
            && (Obeys(after, win) <==> Obeys(n, win) || d.device == win.rank)
  {
    hide BecomeClient, NodeInv;
    var message := Message(d.src, None, MasterAnnouncement(d.timelineID, d.device));
    HandlePacketKeeps(n, message, Timing(false, false, false));
    OfferOutcome(n, message, Timing(false, false, false));
    BecomeClientKeepsDevice(n, d.src, d.device, d.timelineID);
  }

  lemma BecomeClientKeepsDevice(n: Node, masterEP: Address, master: Rank, timelineID: uint64)
    requires n.socket
    ensures BecomeClient(n, masterEP, master, timelineID).node.deviceID == n.deviceID
  {
  }

  ghost predicate Hears(i: nat, deliveries: seq<Delivery>, win: Winner) {
    exists d :: d in deliveries && d.i == i && d.device == win.rank
  }

  lemma HearsFirst(i: nat, deliveries: seq<Delivery>, win: Winner)
    requires deliveries != []
    ensures Hears(i, deliveries, win) <==>
            (deliveries[0].i == i && deliveries[0].device == win.rank) || Hears(i, deliveries[1..], win)
  {
    assert deliveries == [deliveries[0]] + deliveries[1..];
  }

  /** Whatever announcements are delivered, in whatever order and however often, the winner stays master and
    * exactly those obey it that did or that heard it. */
  lemma {:induction false} WhoHearsObeys(nodes: seq<Node>, deliveries: seq<Delivery>, win: Winner, i: nat)
    requires Led(nodes, win) && Deliverable(deliveries, |nodes|) && i < |nodes| && i != win.w
    requires forall d | d in deliveries :: Fair(d, win)
    ensures var end := DeliverAll(nodes, deliveries);
            && |end| == |nodes| && Led(end, win) && end[win.w] == nodes[win.w]
            && (Obeys(end[i], win) <==> Obeys(nodes[i], win) || Hears(i, deliveries, win))
    decreases |deliveries|
  {
    hide Deliver, NodeInv, Obeys, Fair, LedNode, Hears;
    if deliveries == [] {
      NothingHeard(i, win);
    } else {
      var d, rest := deliveries[0], deliveries[1..];
      assert d in deliveries;
      AnnouncementKeepsLead(nodes, d, win);
      DeliverKeepsOnline(nodes, d);
      HearsFirst(i, deliveries, win);
      WhoHearsObeys(Deliver(nodes, d), rest, win, i);
    }
  }

  lemma NothingHeard(i: nat, win: Winner)
    ensures !Hears(i, [], win)
  {
  }

  /** Everyone ends as a client of the winner on its timeline exactly if the winner's announcement reaches
    * everyone who is not already one. */
  ghost predicate Converged(nodes: seq<Node>, win: Winner)
    requires win.w < |nodes|
  {
    nodes[win.w].state == MASTER && forall i | 0 <= i < |nodes| && i != win.w :: Obeys(nodes[i], win)
  }

  lemma AnnouncementsConverge(nodes: seq<Node>, deliveries: seq<Delivery>, win: Winner)
    requires Led(nodes, win) && Deliverable(deliveries, |nodes|)
    requires forall d | d in deliveries :: Fair(d, win)
    ensures var end := DeliverAll(nodes, deliveries);
            && |end| == |nodes| && end[win.w] == nodes[win.w]
            && (Converged(end, win) <==>
                forall i | 0 <= i < |nodes| && i != win.w :: Obeys(nodes[i], win) || Hears(i, deliveries, win))
  {
    hide DeliverAll, NodeInv, Obeys, Fair, LedNode, Hears, Online;
    forall i | 0 <= i < |nodes| && i != win.w
      ensures |DeliverAll(nodes, deliveries)| == |nodes|
      ensures Obeys(DeliverAll(nodes, deliveries)[i], win) <==> Obeys(nodes[i], win) || Hears(i, deliveries, win)
    {
      WhoHearsObeys(nodes, deliveries, win, i);
    }
    WinnerStays(nodes, deliveries, win);
  }

  lemma {:induction false} WinnerStays(nodes: seq<Node>, deliveries: seq<Delivery>, win: Winner)
    requires Led(nodes, win) && Deliverable(deliveries, |nodes|)
    requires forall d | d in deliveries :: Fair(d, win)
    ensures var end := DeliverAll(nodes, deliveries);
            |end| == |nodes| && end[win.w] == nodes[win.w]
    decreases |deliveries|
  {
    hide Deliver, NodeInv, Obeys, Fair, LedNode;
    if deliveries != [] {
      var d := deliveries[0];
      assert d in deliveries;
      AnnouncementKeepsLead(nodes, d, win);
      DeliverKeepsOnline(nodes, d);
      WinnerStays(Deliver(nodes, d), deliveries[1..], win);
    }
  }

  // ----- convergence of a run -----

  /** A turn of the system in which an announcement on the network arrives at a node, and nothing else. */
  predicate Announces(net: set<Message>, e: Event) {
    && e.TurnOf? && !e.wakeup.timedOut && e.wakeup.arrived.Some?
    && var m := e.wakeup.arrived.value;
    m in net && m.dst.None? && m.packet.MasterAnnouncement?
  }

  function DeliveryOf(e: Event): Delivery
    requires e.TurnOf? && e.wakeup.arrived.Some? && e.wakeup.arrived.value.packet.MasterAnnouncement?
  {
    var m := e.wakeup.arrived.value;
    Delivery(e.i, m.src, m.packet.device, m.packet.timelineID)
  }

  ghost predicate Steady(nodes: seq<Node>) {
    Online(nodes) && forall i | 0 <= i < |nodes| :: !Drops(nodes[i])
  }

  function Deliveries(net: set<Message>, events: seq<Event>): (deliveries: seq<Delivery>)
    requires forall e | e in events :: Announces(net, e)
    ensures |deliveries| == |events|
  {
    seq(|events|, k requires 0 <= k < |events| => assert Announces(net, events[k]); DeliveryOf(events[k]))
  }

  /** An announcement of the winner arrives at the node. */
  ghost predicate Reached(net: set<Message>, events: seq<Event>, win: Winner, i: nat)
    requires forall e | e in events :: Announces(net, e)
  {
    exists e :: e in events && Announces(net, e) && e.i == i && DeliveryOf(e).device == win.rank
  }

  lemma StepDelivers(s: System, e: Event)
    requires Inv(s) && e.i < |s.nodes| && DrawIsValid(e) && Announces(s.net, e) && Steady(s.nodes)
    ensures DeliveryOf(e).timelineID != INVALID_TIMELINE
    ensures Step(s, e).nodes == Deliver(s.nodes, DeliveryOf(e)) && s.net <= Step(s, e).net && Steady(Step(s, e).nodes)
  {
    hide NodeInv, HandleMasterAnnouncement;
    var n, m := s.nodes[e.i], e.wakeup.arrived.value;
    assert MessageOk(m, s.created);
    assert Turn(n, e.wakeup) == HandlePacket(n, m, e.wakeup.timing);
    HandlePacketKeeps(n, m, e.wakeup.timing);
  }

  /** Such a run of the system is a series of deliveries. */
  lemma {:induction false} RunDelivers(s: System, net: set<Message>, events: seq<Event>)
    requires Inv(s) && Fits(events, |s.nodes|) && Steady(s.nodes) && net <= s.net
    requires forall e | e in events :: Announces(net, e)
    ensures Deliverable(Deliveries(net, events), |s.nodes|)
    ensures Run(s, events).nodes == DeliverAll(s.nodes, Deliveries(net, events))
    decreases |events|
  {
    hide Inv, Step, Deliver, DrawIsValid, NodeInv, Announces, Drops;
    if events != [] {
      var e, rest := events[0], events[1..];
      assert e in events && forall d | d in rest :: d in events;
      StillAnnounces(net, s.net, e);
      StepDelivers(s, e);
      StepKeepsInv(s, e);
      RunDelivers(Step(s, e), net, rest);
      var deliveries := Deliveries(net, events);
      assert deliveries == [DeliveryOf(e)] + Deliveries(net, rest);
      assert deliveries[0] == DeliveryOf(e) && deliveries[1..] == Deliveries(net, rest);
    }
  }

  lemma StillAnnounces(net: set<Message>, more: set<Message>, e: Event)
    requires Announces(net, e) && net <= more
    ensures Announces(more, e)
  {
  }

  /** Along any run in which announcements that are on the network arrive, in any order and number, everyone
    * ends as a client of the winner exactly if the winner's announcement arrives wherever it is not obeyed
    * yet. */
  lemma RunConverges(s: System, events: seq<Event>, win: Winner)
    requires Inv(s) && Fits(events, |s.nodes|) && Steady(s.nodes) && Led(s.nodes, win)
    requires forall e | e in events :: Announces(s.net, e) && Fair(DeliveryOf(e), win)
    ensures |Run(s, events).nodes| == |s.nodes| && Run(s, events).nodes[win.w] == s.nodes[win.w]
    ensures Converged(Run(s, events).nodes, win) <==>
            forall i | 0 <= i < |s.nodes| && i != win.w ::
              Obeys(s.nodes[i], win) || Reached(s.net, events, win, i)
  {
    hide Inv, Run, DeliverAll, NodeInv, Obeys, Fair, LedNode, Announces, DeliveryOf, Drops, Led, Fits, Reached, Hears,
      Converged;
    var deliveries := Deliveries(s.net, events);
    RunDelivers(s, s.net, events);
    forall d | d in deliveries
      ensures Fair(d, win)
    {
      var k :| 0 <= k < |deliveries| && deliveries[k] == d;
      assert events[k] in events;
    }
    AnnouncementsConverge(s.nodes, deliveries, win);
    forall i: nat
      ensures Hears(i, deliveries, win) <==> Reached(s.net, events, win, i)
    {
      EventsHeard(s.net, events, win, i);
    }
  }

  lemma EventsHeard(net: set<Message>, events: seq<Event>, win: Winner, i: nat)
    requires forall e | e in events :: Announces(net, e)
    ensures Hears(i, Deliveries(net, events), win) <==> Reached(net, events, win, i)
  {
    var deliveries := Deliveries(net, events);
    if Hears(i, deliveries, win) {
      var d :| d in deliveries && d.i == i && d.device == win.rank;
      var k :| 0 <= k < |deliveries| && deliveries[k] == d;
      assert events[k] in events;
    }
    if Reached(net, events, win, i) {
      var e :| e in events && Announces(net, e) && e.i == i && DeliveryOf(e).device == win.rank;
      var k :| 0 <= k < |events| && events[k] == e;
      assert deliveries[k] in deliveries;
    }
  }

  /** A client changes masters only upwards: after any announcement or answer it is still a client, of
    * the same device or of one that outranks it. */
  lemma ClientsOnlyClimb(n: Node, packet: Packet, src: Address)
    requires NodeInv(n) && n.socket && n.state == CLIENT
    requires packet.MasterAnnouncement? || packet.WhoIsMasterResponse?
    ensures var after := HandlePacket(n, Message(src, None, packet), Timing(false, false, false)).node;
            && after.state == CLIENT
            && (after == n
                || (after.clientMaster == packet.device && after.timelineID == packet.timelineID
                    && after.masterEP == Some(src)
                    && (packet.device.priority > n.clientMaster.priority
                        || (packet.device.priority == n.clientMaster.priority
                            && packet.device.deviceID > n.clientMaster.deviceID))))
  {
  }
}
