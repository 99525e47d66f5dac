/** One node of the common-time service (CommonTimeServer): what each packet, timeout, socket change
  * and configuration call does to its state and what it sends, and what the outcome means for the node
  * and its peers.  The asserts of the original are preconditions here.  CommonTimeServer.dfy is the
  * object that updates its fields accordingly, ElectionRounds.dfy follows one node over many calls, and
  * ElectionSystem.dfy is about all runs of many nodes.
  */
module ElectionNode {
  import opened Common

  type Address = nat

  const INVALID_TIMELINE: uint64 := 0
  const INITIAL_WHO_IS_MASTER_RETRIES := 6
  const INITIAL_WHO_IS_MASTER_TIMEOUT_MS := 500
  const CLIENT_SYNC_REQUEST_RETRIES := 10
  const RONIN_WHO_IS_MASTER_RETRIES := 20
  const RONIN_WHO_IS_MASTER_TIMEOUT_MS := 500
  const WAIT_FOR_ELECTION_TIMEOUT_MS := 12500
  const SETUP_RETRY_TIMEOUT_MS := 30000
  const INFINITE_TIMEOUT := -1
  const STARTUP_FILTER_SIZE := 4
  const MAX_PRIORITY := 127
  const MIN_ANNOUNCE_INTERVAL_MS := 500
  const MAX_ANNOUNCE_INTERVAL_MS := 6 * 3600000
  const MIN_SYNC_INTERVAL_MS := 250
  const MAX_SYNC_INTERVAL_MS := 3600000
  const MIN_PANIC_THRESHOLD_US := 1000

  datatype State = INITIAL | CLIENT | MASTER | RONIN | WAIT_FOR_ELECTION

  /** What arbitration compares: effective priority first, then device id. */
  datatype Rank = Rank(priority: uint8, deviceID: uint64)

  datatype Packet =
    | WhoIsMasterRequest(timelineID: uint64, sender: Rank)
    | WhoIsMasterResponse(timelineID: uint64, device: Rank)
    | SyncRequest(timelineID: uint64)
    | SyncResponse(timelineID: uint64, nak: bool)
    | MasterAnnouncement(timelineID: uint64, device: Rank)

  /** A packet on the network; without a destination it goes to the election endpoint (everyone). */
  datatype Message = Message(src: Address, dst: Option<Address>, packet: Packet)

  /** The counters resetSyncStats clears. */
  datatype SyncStats = SyncStats(pending: bool, timeouts: nat, sent: nat, received: nat, expired: nat)

  /** The part of the clock the state machine depends on: whether common time has a basis, and how
    * many startup points have been collected towards one. */
  datatype ClockState = ClockState(valid: bool, startupPoints: nat)

  datatype Settings = Settings(
    masterPriority: uint8, bindIfaceValid: bool, bindIfaceDirty: bool,
    autoDisable: bool, hasClients: bool,
    announceIntervalMs: int, syncIntervalMs: int)
  {
    /** The ranges the configuration calls accept. */
    predicate InRange() {
      && masterPriority as int <= MAX_PRIORITY
      && MIN_ANNOUNCE_INTERVAL_MS <= announceIntervalMs <= MAX_ANNOUNCE_INTERVAL_MS
      && MIN_SYNC_INTERVAL_MS <= syncIntervalMs <= MAX_SYNC_INTERVAL_MS
    }
  }

  datatype Node = Node(
    address: Address,
    state: State, socket: bool, timelineID: uint64, deviceID: uint64,
    forceLowPriority: bool, masterEP: Option<Address>, clientMaster: Rank,
    initialTimeouts: nat, roninTimeouts: nat,
    sync: SyncStats, clock: ClockState, clockSynced: bool, timeout: int,
    settings: Settings)
  {
    predicate ShouldAutoDisable() { settings.autoDisable && !settings.hasClients }

    function EffectivePriority(): uint8 {
      settings.masterPriority % 128 + (if forceLowPriority then 0 else 128)
    }

    function OwnRank(): Rank { Rank(EffectivePriority(), deviceID) }
  }

  /** The node after a step and the messages it sent. */
  datatype Effect = Effect(node: Node, sent: seq<Message>)

  /** arbitrateMaster. */
  predicate Outranks(a: Rank, b: Rank) {
    a.priority > b.priority || (a.priority == b.priority && a.deviceID > b.deviceID)
  }

  const NO_STATS := SyncStats(false, 0, 0, 0, 0)

  // ----- the node invariant -----

  ghost predicate NodeInv(n: Node) {
    && (n.timelineID == INVALID_TIMELINE <==> n.state == INITIAL)
    && (n.masterEP.Some? <==> n.state == CLIENT)
    && (n.state == RONIN || n.state == WAIT_FOR_ELECTION ==> n.clock.valid)
    && (n.state == MASTER && n.socket ==> n.clock.valid)
    && (n.state == INITIAL ==> !n.clock.valid)
    && n.clock.startupPoints <= STARTUP_FILTER_SIZE
    && (!n.clock.valid ==> n.clock.startupPoints < STARTUP_FILTER_SIZE)
    && (n.state == INITIAL ==> n.initialTimeouts < INITIAL_WHO_IS_MASTER_RETRIES)
    && (n.state == RONIN ==> n.roninTimeouts < RONIN_WHO_IS_MASTER_RETRIES)
    && (n.state == CLIENT ==> n.sync.timeouts < CLIENT_SYNC_REQUEST_RETRIES)
    && n.settings.InRange()
  }

  /** On the network something will happen next. */
  ghost predicate Armed(n: Node) {
    n.socket ==> n.timeout > 0
  }

  /** A node as it is constructed. */
  function NewNode(address: Address, settings: Settings): Node {
    Node(address, INITIAL, false, INVALID_TIMELINE, 0, false, None, Rank(0, 0), 0, 0, NO_STATS,
         ClockState(false, 0), false, INFINITE_TIMEOUT, settings)
  }

  // ----- sending -----

  function SetForceLowPriority(n: Node, val: bool): Node {
    var m := n.(forceLowPriority := val);
    if n.state == MASTER then m.(clientMaster := Rank(m.EffectivePriority(), m.clientMaster.deviceID)) else m
  }

  function SendWhoIsMasterRequest(n: Node): Effect
    requires n.state == INITIAL || n.state == RONIN
    requires !n.socket ==> n.state == INITIAL
  {
    if !n.socket then Effect(n, [])
    else
      Effect(n.(timeout := if n.state == INITIAL then INITIAL_WHO_IS_MASTER_TIMEOUT_MS else RONIN_WHO_IS_MASTER_TIMEOUT_MS),
             [Message(n.address, None, WhoIsMasterRequest(INVALID_TIMELINE, n.OwnRank()))])
  }

  function SendSyncRequest(n: Node): Effect
    requires n.state == CLIENT && n.socket && n.masterEP.Some?
  {
    Effect(n.(sync := n.sync.(sent := n.sync.sent + 1, pending := true), timeout := n.settings.syncIntervalMs),
           [Message(n.address, n.masterEP, SyncRequest(n.timelineID))])
  }

  function SendMasterAnnouncement(n: Node): Effect
    requires n.state == MASTER
  {
    if !n.socket then Effect(n.(timeout := INFINITE_TIMEOUT), [])
    else
      Effect(n.(timeout := n.settings.announceIntervalMs),
             [Message(n.address, None, MasterAnnouncement(n.timelineID, n.OwnRank()))])
  }

  // ----- changing state -----

  function BecomeClient(n: Node, masterEP: Address, master: Rank, timelineID: uint64): Effect
    requires n.socket
  {
    var moved := if n.timelineID != timelineID
                 then n.(timelineID := timelineID, clock := ClockState(false, 0), clockSynced := false)
                 else n;
    var following := SetForceLowPriority(moved.(masterEP := Some(masterEP)), false);
    SendSyncRequest(following.(clientMaster := master, sync := NO_STATS, state := CLIENT))
  }

  /** newTimeline is what assignTimelineID draws; it is used only when there is no timeline yet. */
  function BecomeMaster(n: Node, newTimeline: uint64): Effect
    requires newTimeline != INVALID_TIMELINE
    requires n.timelineID == INVALID_TIMELINE ==> !n.clock.valid
  {
    var based := if n.timelineID == INVALID_TIMELINE
                 then n.(clock := n.clock.(valid := true), timelineID := newTimeline, clockSynced := true)
                 else n;
    SendMasterAnnouncement(
      based.(masterEP := None, clientMaster := based.OwnRank(), sync := NO_STATS, state := MASTER))
  }

  function BecomeInitial(n: Node): Effect {
    SendWhoIsMasterRequest(
      n.(state := INITIAL, clock := ClockState(false, 0), timeout := INFINITE_TIMEOUT, masterEP := None,
         timelineID := INVALID_TIMELINE, clockSynced := false, initialTimeouts := 0,
         clientMaster := Rank(0, 0), roninTimeouts := 0, sync := NO_STATS))
  }

  function BecomeRonin(n: Node): Effect
    requires n.clock.valid ==> n.socket
  {
    var lost := n.(masterEP := None);
    if n.clock.valid then SendWhoIsMasterRequest(lost.(roninTimeouts := 0, state := RONIN))
    else BecomeInitial(lost)
  }

  function BecomeWaitForElection(n: Node): Effect {
    Effect(n.(state := WAIT_FOR_ELECTION, timeout := WAIT_FOR_ELECTION_TIMEOUT_MS), [])
  }

  // ----- timeouts -----

  /** What the node's own clocks say at this step: whether good data has been missing for too long,
    * whether this response took too long to use, and whether clock recovery panics on it. */
  datatype Timing = Timing(noGoodData: bool, rttTooLarge: bool, panics: bool)

  function HandleTimeout(n: Node, timing: Timing, newTimeline: uint64): Effect
    requires NodeInv(n) && newTimeline != INVALID_TIMELINE
  {
    if !n.socket then Effect(n, [])
    else
      match n.state
      case INITIAL =>
        var m := n.(initialTimeouts := n.initialTimeouts + 1);
        if m.initialTimeouts == INITIAL_WHO_IS_MASTER_RETRIES then BecomeMaster(m, newTimeline)
        else SendWhoIsMasterRequest(m)
      case CLIENT => HandleTimeoutClient(n, timing)
      case MASTER => SendMasterAnnouncement(n)
      case RONIN =>
        var m := n.(roninTimeouts := n.roninTimeouts + 1);
        if m.roninTimeouts == RONIN_WHO_IS_MASTER_RETRIES then BecomeMaster(m, newTimeline)
        else SendWhoIsMasterRequest(m)
      case WAIT_FOR_ELECTION => BecomeRonin(n)
  }

  function HandleTimeoutClient(n: Node, timing: Timing): Effect
    requires n.state == CLIENT && n.socket && n.masterEP.Some?
  {
    if timing.noGoodData && n.sync.sent > 0 then BecomeInitial(n)
    else if n.sync.pending then
      var m := n.(sync := n.sync.(pending := false, timeouts := n.sync.timeouts + 1));
      if m.sync.timeouts < CLIENT_SYNC_REQUEST_RETRIES then SendSyncRequest(m) else BecomeRonin(m)
    else SendSyncRequest(n)
  }

  // ----- packets -----

  function HandleWhoIsMasterRequest(n: Node, request: Packet, src: Address): Effect
    requires NodeInv(n) && n.socket && request.WhoIsMasterRequest?
  {
    if request.sender.deviceID == n.deviceID then Effect(n, [])
    else if n.state == MASTER then
      if request.timelineID != INVALID_TIMELINE && request.timelineID != n.timelineID then Effect(n, [])
      else Effect(n, [Message(n.address, Some(src), WhoIsMasterResponse(n.timelineID, n.OwnRank()))])
    else if n.state == RONIN then
      if request.timelineID == n.timelineID && Outranks(request.sender, n.OwnRank())
      then BecomeWaitForElection(n) else Effect(n, [])
    else if n.state == INITIAL && request.timelineID == INVALID_TIMELINE && Outranks(request.sender, n.OwnRank())
    then Effect(n.(initialTimeouts := 0), [])
    else Effect(n, [])
  }

  function HandleWhoIsMasterResponse(n: Node, response: Packet, src: Address): Effect
    requires NodeInv(n) && n.socket && response.WhoIsMasterResponse?
  {
    if response.device.deviceID == n.deviceID then Effect(n, [])
    else if n.state == INITIAL || n.state == RONIN
            || (n.state == CLIENT && Outranks(response.device, n.clientMaster))
    then BecomeClient(n, src, response.device, response.timelineID)
    else Effect(n, [])
  }

  function HandleSyncRequest(n: Node, request: Packet, src: Address): Effect
    requires NodeInv(n) && n.socket && request.SyncRequest?
  {
    if n.state == MASTER && n.timelineID == request.timelineID then
      var m := SetForceLowPriority(n, false);
      if m.clock.valid
      then Effect(m, [Message(n.address, Some(src), SyncResponse(m.timelineID, false))])
      else Effect(m, [])
    else Effect(n, [Message(n.address, Some(src), SyncResponse(n.timelineID, true))])
  }

  function HandleSyncResponse(n: Node, response: Packet, src: Address, timing: Timing): Effect
    requires NodeInv(n) && n.socket && response.SyncResponse?
  {
    if n.state != CLIENT || Some(src) != n.masterEP then Effect(n, [])
    else if response.nak then BecomeRonin(n)
    else
      var m := n.(sync := n.sync.(pending := false, timeouts := 0, received := n.sync.received + 1));
      var again := m.(timeout := m.settings.syncIntervalMs);
      if n.sync.received == 0 then Effect(again, [])
      else if timing.rttTooLarge then
        var late := m.(sync := m.sync.(expired := m.sync.expired + 1));
        if timing.noGoodData && m.sync.sent > 0 then BecomeInitial(late)
        else Effect(late.(timeout := late.settings.syncIntervalMs), [])
      else PushDisciplineEvent(m, timing.panics)
  }

  /** pushDisciplineEvent as the state machine sees it: collect startup points until there is a
    * basis, and after that possibly panic. */
  function PushDisciplineEvent(n: Node, panics: bool): Effect
    requires n.clock.startupPoints <= STARTUP_FILTER_SIZE
  {
    if n.clock.valid && panics then BecomeInitial(n.(clockSynced := false))
    else
      var points := if !n.clock.valid && n.clock.startupPoints < STARTUP_FILTER_SIZE
                    then n.clock.startupPoints + 1 else n.clock.startupPoints;
      Effect(n.(clock := ClockState(n.clock.valid || points == STARTUP_FILTER_SIZE, points),
                clockSynced := true, timeout := n.settings.syncIntervalMs), [])
  }

  function HandleMasterAnnouncement(n: Node, packet: Packet, src: Address): Effect
    requires NodeInv(n) && n.socket && packet.MasterAnnouncement?
  {
    if packet.device.deviceID == n.deviceID then Effect(n, [])
    else if n.state == INITIAL || n.state == RONIN || n.state == WAIT_FOR_ELECTION
            || (n.state == CLIENT && Outranks(packet.device, n.clientMaster))
            || (n.state == MASTER && Outranks(packet.device, n.OwnRank()))
    then BecomeClient(n, src, packet.device, packet.timelineID)
    else Effect(n, [])
  }

  function HandlePacket(n: Node, message: Message, timing: Timing): Effect
    requires NodeInv(n) && n.socket
  {
    match message.packet
    case WhoIsMasterRequest(_, _) => HandleWhoIsMasterRequest(n, message.packet, message.src)
    case WhoIsMasterResponse(_, _) => HandleWhoIsMasterResponse(n, message.packet, message.src)
    case SyncRequest(_) => HandleSyncRequest(n, message.packet, message.src)
    case SyncResponse(_, _) => HandleSyncResponse(n, message.packet, message.src, timing)
    case MasterAnnouncement(_, _) => HandleMasterAnnouncement(n, message.packet, message.src)
  }

  // ----- one turn of the main loop -----

  /** What a turn of runStateMachine_l meets: whether the state timeout has expired, a packet if one
    * arrived, and - should the turn try to set one up - whether the socket comes up and with which
    * device id; newTimeline is the next draw of assignTimelineID. */
  datatype Wakeup = Wakeup(
    timedOut: bool, arrived: Option<Message>, timing: Timing,
    setupSucceeds: bool, setupDeviceID: uint64, newTimeline: uint64)

  function BoundInterface(n: Node): Effect
    requires n.socket
  {
    var low := SetForceLowPriority(n, true);
    if n.state == INITIAL then BecomeInitial(low) else BecomeRonin(low)
  }

  function EnterNetworkless(n: Node, newTimeline: uint64): Effect
    requires newTimeline != INVALID_TIMELINE && !n.socket
    requires n.timelineID == INVALID_TIMELINE ==> !n.clock.valid
  {
    if n.state == INITIAL || n.state == MASTER then Effect(n, [])
    else if n.timelineID == INVALID_TIMELINE then BecomeInitial(n)
    else BecomeMaster(n, newTimeline)
  }

  function Turn(n: Node, wakeup: Wakeup): Effect
    requires NodeInv(n) && wakeup.newTimeline != INVALID_TIMELINE
  {
    var m, dropped := Woken(n, wakeup), Drops(n);
    if !m.socket && m.settings.bindIfaceValid && !m.ShouldAutoDisable() then
      if wakeup.setupSucceeds then BoundInterface(m.(socket := true, deviceID := wakeup.setupDeviceID))
      else Effect(m.(timeout := SETUP_RETRY_TIMEOUT_MS), [])
    else if dropped then EnterNetworkless(m, wakeup.newTimeline)
    else if wakeup.timedOut then HandleTimeout(m, wakeup.timing, wakeup.newTimeline)
    else if m.socket && wakeup.arrived.Some? then HandlePacket(m, wakeup.arrived.value, wakeup.timing)
    else Effect(m, [])
  }

  // ----- configuration calls -----

  /** The calls of the configuration interface.  The interval calls look at what is left of the pending
    * timeout, which may be INFINITE_TIMEOUT; the group id and the panic threshold are outside the node. */
  datatype Call =
    | SetInterfaceBinding(valid: bool)
    | SetAutoDisable(on: bool)
    | ReevaluateAutoDisable(hasClients: bool)
    | SetMasterElectionPriority(priority: uint8)
    | SetMasterElectionEndpoint(acceptable: bool)
    | SetMasterElectionGroupId
    | SetMasterAnnounceInterval(interval: int, pendingMs: int)
    | SetClientSyncInterval(interval: int, pendingMs: int)
    | SetPanicThreshold(threshold: int)
    | ForceNetworklessMaster(newTimeline: uint64)
  {
    predicate DrawIsValid() { ForceNetworklessMaster? ==> newTimeline != INVALID_TIMELINE }
  }

  /** Whether the call returns OK, and what it does. */
  function Configure(n: Node, call: Call): (result: (bool, Effect))
    requires NodeInv(n) && call.DrawIsValid()
  {
    match call
    case SetInterfaceBinding(valid) =>
      (true, Effect(n.(settings := n.settings.(bindIfaceDirty := true, bindIfaceValid := valid)), []))
    case SetAutoDisable(on) => (true, Effect(n.(settings := n.settings.(autoDisable := on)), []))
    case ReevaluateAutoDisable(hasClients) =>
      (true, Effect(n.(settings := n.settings.(hasClients := hasClients)), []))
    case SetMasterElectionPriority(priority) =>
      if priority as int > MAX_PRIORITY then (false, Effect(n, []))
      else (true, Effect(n.(settings := n.settings.(masterPriority := priority)), []))
    case SetMasterElectionEndpoint(acceptable) =>
      if !acceptable then (false, Effect(n, []))
      else (true, Effect(n.(settings := n.settings.(bindIfaceDirty := true)), []))
    case SetMasterElectionGroupId => (true, Effect(n, []))
    case SetMasterAnnounceInterval(interval, pendingMs) =>
      if interval > MAX_ANNOUNCE_INTERVAL_MS || interval < MIN_ANNOUNCE_INTERVAL_MS then (false, Effect(n, []))
      else
        var m := n.(settings := n.settings.(announceIntervalMs := interval));
        (true, Effect(if n.state == MASTER then Sooner(m, interval, pendingMs) else m, []))
    case SetClientSyncInterval(interval, pendingMs) =>
      if interval > MAX_SYNC_INTERVAL_MS || interval < MIN_SYNC_INTERVAL_MS then (false, Effect(n, []))
      else
        var m := n.(settings := n.settings.(syncIntervalMs := interval));
        (true, Effect(if n.state == CLIENT then Sooner(m, interval, pendingMs) else m, []))
    case SetPanicThreshold(threshold) => (threshold >= MIN_PANIC_THRESHOLD_US, Effect(n, []))
    case ForceNetworklessMaster(newTimeline) =>
      if n.socket then (false, Effect(n, [])) else (true, BecomeMaster(n, newTimeline))
  }

  function Sooner(n: Node, interval: int, pendingMs: int): Node {
    if pendingMs == INFINITE_TIMEOUT || pendingMs > interval then n.(timeout := interval) else n
  }

  // ----- every step keeps the node invariant and the timer armed -----

  lemma BecomeClientKeeps(n: Node, masterEP: Address, master: Rank, timelineID: uint64)
    requires n.socket && timelineID != INVALID_TIMELINE && n.settings.InRange()
    requires n.clock.startupPoints <= STARTUP_FILTER_SIZE
    requires !n.clock.valid ==> n.clock.startupPoints < STARTUP_FILTER_SIZE
    ensures Keeps(n, BecomeClient(n, masterEP, master, timelineID).node)
  {
  }

  /** A packet a node may receive without losing its invariant: one that offers a master offers a
    * real timeline. */
  predicate WellFormed(packet: Packet) {
    IsOffer(packet) ==> packet.timelineID != INVALID_TIMELINE
  }

  predicate IsOffer(packet: Packet) { packet.WhoIsMasterResponse? || packet.MasterAnnouncement? }

  /** What a handler may do to a node: its place, its socket and its settings are not its business. */
  ghost predicate Keeps(n: Node, after: Node) {
    && NodeInv(after) && (Armed(n) ==> Armed(after))
    && after.socket == n.socket && after.settings == n.settings && after.address == n.address
  }

  /** The timeout that has just expired is replaced by another one. */
  lemma HandleTimeoutKeeps(n: Node, timing: Timing, newTimeline: uint64)
    requires NodeInv(n) && newTimeline != INVALID_TIMELINE
    ensures var after := HandleTimeout(n, timing, newTimeline).node; Keeps(n, after) && Armed(after)
  {
    hide BecomeInitial, BecomeRonin, BecomeMaster;
    ChangesKeep(n);
    if n.state == INITIAL || n.state == RONIN {
      BecomeMasterKeeps(n.(initialTimeouts := n.initialTimeouts + 1), newTimeline);
      BecomeMasterKeeps(n.(roninTimeouts := n.roninTimeouts + 1), newTimeline);
    }
    ChangesKeep(n.(sync := n.sync.(pending := false, timeouts := n.sync.timeouts + 1)));
  }

  lemma ChangesKeep(n: Node)
    requires n.settings.InRange() && n.clock.startupPoints <= STARTUP_FILTER_SIZE
    requires !n.clock.valid ==> n.clock.startupPoints < STARTUP_FILTER_SIZE
    requires n.clock.valid ==> n.timelineID != INVALID_TIMELINE
    ensures Keeps(n, BecomeInitial(n).node) && Armed(BecomeInitial(n).node)
    ensures (n.clock.valid ==> n.socket) ==> Keeps(n, BecomeRonin(n).node) && Armed(BecomeRonin(n).node)
  {
  }

  lemma BecomeMasterKeeps(n: Node, newTimeline: uint64)
    requires n.settings.InRange() && n.clock.startupPoints <= STARTUP_FILTER_SIZE && newTimeline != INVALID_TIMELINE
    requires !n.clock.valid ==> n.clock.startupPoints < STARTUP_FILTER_SIZE
    requires if n.timelineID == INVALID_TIMELINE then !n.clock.valid else n.socket ==> n.clock.valid
    ensures Keeps(n, BecomeMaster(n, newTimeline).node) && Armed(BecomeMaster(n, newTimeline).node)
  {
  }

  lemma HandlePacketKeeps(n: Node, message: Message, timing: Timing)
    requires NodeInv(n) && n.socket && WellFormed(message.packet)
    ensures Keeps(n, HandlePacket(n, message, timing).node)
  {
    hide BecomeClient, HandleSyncResponse, HandleWhoIsMasterRequest;
    match message.packet {
      case WhoIsMasterRequest(_, _) => RequestKeeps(n, message.packet, message.src);
      case SyncRequest(_) =>
      case SyncResponse(_, _) => SyncResponseKeeps(n, message.packet, message.src, timing);
      case WhoIsMasterResponse(timelineID, device) => BecomeClientKeeps(n, message.src, device, timelineID);
      case MasterAnnouncement(timelineID, device) => BecomeClientKeeps(n, message.src, device, timelineID);
    }
  }

  lemma RequestKeeps(n: Node, request: Packet, src: Address)
    requires NodeInv(n) && n.socket && request.WhoIsMasterRequest?
    ensures Keeps(n, HandleWhoIsMasterRequest(n, request, src).node)
  {
  }

  lemma SyncResponseKeeps(n: Node, response: Packet, src: Address, timing: Timing)
    requires NodeInv(n) && n.socket && response.SyncResponse?
    ensures Keeps(n, HandleSyncResponse(n, response, src, timing).node)
  {
    hide BecomeInitial, BecomeRonin;
    var m := n.(sync := n.sync.(pending := false, timeouts := 0, received := n.sync.received + 1));
    ChangesKeep(n);
    ChangesKeep(m.(sync := m.sync.(expired := m.sync.expired + 1)));
    ChangesKeep(m.(clockSynced := false));
  }

  lemma BoundInterfaceKeeps(n: Node)
    requires NodeInv(n.(socket := false)) && n.socket
    ensures NodeInv(BoundInterface(n).node) && Armed(BoundInterface(n).node)
  {
  }

  lemma EnterNetworklessKeeps(n: Node, newTimeline: uint64)
    requires NodeInv(n) && !n.socket && newTimeline != INVALID_TIMELINE
    ensures NodeInv(EnterNetworkless(n, newTimeline).node) && !EnterNetworkless(n, newTimeline).node.socket
  {
  }

  /** The node at the start of a turn, its socket dropped if it has to be. */
  function Woken(n: Node, wakeup: Wakeup): Node {
    var woken := if wakeup.timedOut then n.(timeout := INFINITE_TIMEOUT) else n;
    if Drops(n) then woken.(socket := false, settings := woken.settings.(bindIfaceDirty := false)) else woken
  }

  predicate Drops(n: Node) {
    n.settings.bindIfaceDirty || (n.socket && n.ShouldAutoDisable())
  }

  lemma WokenKeeps(n: Node, wakeup: Wakeup)
    requires NodeInv(n)
    ensures var m := Woken(n, wakeup);
            && NodeInv(m) && NodeInv(m.(socket := false, deviceID := wakeup.setupDeviceID))
            && (Armed(n) && !wakeup.timedOut ==> Armed(m))
  {
  }

  lemma TurnKeeps(n: Node, wakeup: Wakeup)
    requires NodeInv(n) && wakeup.newTimeline != INVALID_TIMELINE
    requires wakeup.arrived.Some? ==> WellFormed(wakeup.arrived.value.packet)
    ensures NodeInv(Turn(n, wakeup).node)
    ensures Armed(n) ==> Armed(Turn(n, wakeup).node)
  {
    hide NodeInv, HandleTimeout, HandlePacket, BoundInterface, EnterNetworkless, WellFormed;
    WokenKeeps(n, wakeup);
    var m := Woken(n, wakeup);
    if !m.socket {
      var joined := m.(socket := true, deviceID := wakeup.setupDeviceID);
      assert joined.(socket := false) == m.(socket := false, deviceID := wakeup.setupDeviceID);
      BoundInterfaceKeeps(joined);
      EnterNetworklessKeeps(m, wakeup.newTimeline);
      RetryKeeps(m);
    } else if wakeup.arrived.Some? {
      HandlePacketKeeps(m, wakeup.arrived.value, wakeup.timing);
    }
    HandleTimeoutKeeps(m, wakeup.timing, wakeup.newTimeline);
  }

  lemma RetryKeeps(n: Node)
    requires NodeInv(n)
    ensures NodeInv(n.(timeout := SETUP_RETRY_TIMEOUT_MS))
  {
  }

  lemma ConfigureKeeps(n: Node, call: Call)
    requires NodeInv(n) && call.DrawIsValid()
    ensures var (ok, effect) := Configure(n, call);
            NodeInv(effect.node) && (Armed(n) ==> Armed(effect.node)) && (!ok ==> effect == Effect(n, []))
  {
  }

  /** Which calls are accepted - priorities up to 127, announcements every half second to six hours, sync requests
    * every quarter of a second to an hour, panic thresholds from a millisecond -, and what they set.  A shorter
    * interval takes effect at once where it is being waited out. */
  lemma CallOutcome(n: Node, call: Call)
    requires NodeInv(n) && call.DrawIsValid()
    ensures var (ok, effect) := Configure(n, call);
            var after := effect.node;
            match call
            case SetInterfaceBinding(valid) =>
              ok && after == n.(settings := after.settings) && after.settings.bindIfaceDirty
              && after.settings == n.settings.(bindIfaceDirty := true, bindIfaceValid := valid)
            case SetAutoDisable(on) => ok && after == n.(settings := n.settings.(autoDisable := on))
            case ReevaluateAutoDisable(hasClients) => ok && after == n.(settings := n.settings.(hasClients := hasClients))
            case SetMasterElectionPriority(priority) =>
              (ok <==> priority as int <= 127) && (ok ==> after == n.(settings := n.settings.(masterPriority := priority)))
            case SetMasterElectionEndpoint(acceptable) =>
              ok == acceptable && (ok ==> after == n.(settings := n.settings.(bindIfaceDirty := true)))
            case SetMasterElectionGroupId => ok && after == n
            case SetMasterAnnounceInterval(interval, pendingMs) =>
              (ok <==> 500 <= interval <= 21600000)
              && (ok ==> after == n.(settings := n.settings.(announceIntervalMs := interval), timeout := after.timeout)
                         && after.timeout == (if n.state == MASTER && (pendingMs == -1 || pendingMs > interval)
                                              then interval else n.timeout))
            case SetClientSyncInterval(interval, pendingMs) =>
              (ok <==> 250 <= interval <= 3600000)
              && (ok ==> after == n.(settings := n.settings.(syncIntervalMs := interval), timeout := after.timeout)
                         && after.timeout == (if n.state == CLIENT && (pendingMs == -1 || pendingMs > interval)
                                              then interval else n.timeout))
            case SetPanicThreshold(threshold) => (ok <==> threshold >= 1000) && after == n
            case ForceNetworklessMaster(newTimeline) =>
              ok == !n.socket && (ok ==> Leads(n, effect, newTimeline))
    ensures Configure(n, call).1.sent == []
  {
  }

  // ----- what the outcomes mean -----

  /** The node has a new master: it knows where, on what timeline, and asks it for the time at once.  Its
    * clock survives exactly if the timeline is the one it was on. */
  ghost predicate Follows(n: Node, effect: Effect, masterEP: Address, master: Rank, timelineID: uint64) {
    var after := effect.node;
    && after.state == CLIENT && after.timelineID == timelineID
    && after.masterEP == Some(masterEP) && after.clientMaster == master && !after.forceLowPriority
    && after.clock == (if timelineID == n.timelineID then n.clock else ClockState(false, 0))
    && effect.sent == [Message(n.address, Some(masterEP), SyncRequest(timelineID))]
  }

  /** The node is master: of the timeline it was on, with what it knows of it, or else of the new one,
    * whose time it sets; everyone on its network is told. */
  ghost predicate Leads(n: Node, effect: Effect, newTimeline: uint64) {
    var after := effect.node;
    && after.state == MASTER && after.masterEP.None?
    && after.timelineID == (if n.timelineID == INVALID_TIMELINE then newTimeline else n.timelineID)
    && (after.clock.valid <==> n.timelineID == INVALID_TIMELINE || n.clock.valid)
    && after.clientMaster == after.OwnRank() == n.OwnRank()
    && effect.sent == (if n.socket then [Message(n.address, None, MasterAnnouncement(after.timelineID, n.OwnRank()))]
                       else [])
  }

  /** The node keeps nothing but its identity and its settings, and asks whether there is a master. */
  ghost predicate StartsOver(n: Node, effect: Effect) {
    var anew := NewNode(n.address, n.settings).(
      socket := n.socket, deviceID := n.deviceID, forceLowPriority := n.forceLowPriority,
      timeout := if n.socket then INITIAL_WHO_IS_MASTER_TIMEOUT_MS else INFINITE_TIMEOUT);
    && effect.node == anew
    && effect.sent == (if n.socket then [Message(n.address, None, WhoIsMasterRequest(INVALID_TIMELINE, n.OwnRank()))]
                       else [])
  }

  /** The node has lost its master.  If it knows the time it stands for its timeline, otherwise it starts over. */
  ghost predicate LosesMaster(n: Node, effect: Effect) {
    if n.clock.valid then
      && effect.node.state == RONIN && effect.node.masterEP.None? && effect.node.roninTimeouts == 0
      && effect.node.timelineID == n.timelineID && effect.node.clock == n.clock
      && effect.sent == [Message(n.address, None, WhoIsMasterRequest(INVALID_TIMELINE, n.OwnRank()))]
    else StartsOver(n, effect)
  }

  lemma BecomingClientFollows(n: Node, masterEP: Address, master: Rank, timelineID: uint64)
    requires n.socket
    ensures Follows(n, BecomeClient(n, masterEP, master, timelineID), masterEP, master, timelineID)
  {
  }

  lemma BecomingMasterLeads(n: Node, newTimeline: uint64)
    requires newTimeline != INVALID_TIMELINE
    requires n.timelineID == INVALID_TIMELINE ==> !n.clock.valid
    ensures Leads(n, BecomeMaster(n, newTimeline), newTimeline)
  {
  }

  lemma BecomingInitialStartsOver(n: Node)
    ensures StartsOver(n, BecomeInitial(n))
  {
  }

  lemma BecomingRoninLosesMaster(n: Node)
    requires n.clock.valid ==> n.socket
    ensures LosesMaster(n, BecomeRonin(n))
  {
  }

  /** The priority a node stands for election with: the configured one, and 128 more unless it defers. */
  function Standing(n: Node): int {
    n.settings.masterPriority + if n.forceLowPriority then 0 else 128
  }

  lemma StandingIs(n: Node)
    requires NodeInv(n)
    ensures n.EffectivePriority() as int == Standing(n) && n.OwnRank() == Rank(Standing(n), n.deviceID)
  {
  }

  /** The offers of a master that a node heeds: those of another device, when it has no master, or one of
    * lower priority, or of the same and with the smaller device id; only an announcement ends a wait or
    * unseats a master. */
  predicate Heeds(n: Node, offer: Packet)
    requires IsOffer(offer)
  {
    && offer.device.deviceID != n.deviceID
    && match n.state
       case INITIAL => true
       case RONIN => true
       case WAIT_FOR_ELECTION => offer.MasterAnnouncement?
       case CLIENT =>
         || offer.device.priority > n.clientMaster.priority
         || (offer.device.priority == n.clientMaster.priority && offer.device.deviceID > n.clientMaster.deviceID)
       case MASTER =>
         && offer.MasterAnnouncement?
         && (offer.device.priority as int > Standing(n)
             || (offer.device.priority as int == Standing(n) && offer.device.deviceID > n.deviceID))
  }

  /** An offer is heeded or nothing happens. */
  lemma OfferOutcome(n: Node, message: Message, timing: Timing)
    requires NodeInv(n) && n.socket && IsOffer(message.packet)
    ensures var effect := HandlePacket(n, message, timing);
            if Heeds(n, message.packet)
            then Follows(n, effect, message.src, message.packet.device, message.packet.timelineID)
            else effect == Effect(n, [])
  {
    hide BecomeClient;
    BecomingClientFollows(n, message.src, message.packet.device, message.packet.timelineID);
  }

  /** How many timeouts in a row make the node master. */
  function TimeoutsLeft(n: Node): (left: nat)
    requires NodeInv(n)
  {
    match n.state
    case MASTER => 0
    case INITIAL => INITIAL_WHO_IS_MASTER_RETRIES - n.initialTimeouts
    case RONIN => RONIN_WHO_IS_MASTER_RETRIES - n.roninTimeouts
    case WAIT_FOR_ELECTION => 1 + RONIN_WHO_IS_MASTER_RETRIES
    case CLIENT =>
      CLIENT_SYNC_REQUEST_RETRIES - n.sync.timeouts + (if n.sync.pending then 0 else 1)
      + if n.clock.valid then RONIN_WHO_IS_MASTER_RETRIES else INITIAL_WHO_IS_MASTER_RETRIES
  }

  /** A request is answered by a master of the timeline asked for, or of any if none is, and by nobody
    * else.  If the sender would win the election - by priority, or by device id at equal priority - an initial
    * node starts counting again and a ronin of the timeline asked for waits, and either puts off the moment it
    * becomes master.  No other node changes. */
  lemma RequestOutcome(n: Node, request: Packet, src: Address)
    requires NodeInv(n) && n.socket && request.WhoIsMasterRequest?
    ensures var effect := HandleWhoIsMasterRequest(n, request, src);
            var wins := && request.sender.deviceID != n.deviceID
                        && (request.sender.priority as int > Standing(n)
                            || (request.sender.priority as int == Standing(n) && request.sender.deviceID > n.deviceID));
            && effect.sent == (if && n.state == MASTER && request.sender.deviceID != n.deviceID
                                  && request.timelineID in {INVALID_TIMELINE, n.timelineID}
                               then [Message(n.address, Some(src),
                                             WhoIsMasterResponse(n.timelineID, Rank(Standing(n), n.deviceID)))]
                               else [])
            && NodeInv(effect.node)
            && effect.node == (
                 if wins && n.state == INITIAL && request.timelineID == INVALID_TIMELINE then n.(initialTimeouts := 0)
                 else if wins && n.state == RONIN && request.timelineID == n.timelineID
                 then n.(state := WAIT_FOR_ELECTION, timeout := WAIT_FOR_ELECTION_TIMEOUT_MS)
                 else n)
            && (effect.node != n ==> TimeoutsLeft(effect.node) > TimeoutsLeft(n))
  {
  }

  /** What a sync response does: nothing unless it comes from the node's master; a refusal loses the
    * master; otherwise the node starts over when the answers are no good, or it stays with its master and
    * learns the time with the fourth one it can use after the first. */
  lemma SyncResponseOutcome(n: Node, response: Packet, src: Address, timing: Timing)
    requires NodeInv(n) && n.socket && response.SyncResponse?
    ensures var effect := HandleSyncResponse(n, response, src, timing);
            if n.masterEP != Some(src) then effect == Effect(n, [])
            else if response.nak then LosesMaster(n, effect)
            else if NoGood(n, timing) then StartsOver(n, effect)
            else
              && effect.node.state == CLIENT && effect.node.masterEP == n.masterEP
              && effect.node.timelineID == n.timelineID && effect.sent == []
              && !effect.node.sync.pending && effect.node.sync.timeouts == 0
              && effect.node.sync.received == n.sync.received + 1
              && (effect.node.clock.valid <==>
                    n.clock.valid || (Usable(n, timing) && n.clock.startupPoints + 1 == STARTUP_FILTER_SIZE))
              && (!n.clock.valid ==>
                    effect.node.clock.startupPoints == n.clock.startupPoints + if Usable(n, timing) then 1 else 0)
  {
    hide BecomeInitial, BecomeRonin;
    BecomingRoninLosesMaster(n);
    if response.SyncResponse? && n.state == CLIENT {
      var m := n.(sync := n.sync.(pending := false, timeouts := 0, received := n.sync.received + 1));
      var late := m.(sync := m.sync.(expired := m.sync.expired + 1));
      BecomingInitialStartsOver(late);
      BecomingInitialStartsOver(m.(clockSynced := false));
    }
  }

  /** The first answer of a master and one that took too long are not used. */
  predicate Usable(n: Node, timing: Timing) { n.sync.received > 0 && !timing.rttTooLarge }

  predicate NoGood(n: Node, timing: Timing) {
    if Usable(n, timing) then n.clock.valid && timing.panics
    else n.sync.received > 0 && timing.noGoodData && n.sync.sent > 0
  }

  // ----- where a valid clock comes from -----

  /** A node that knows the time after a turn knew it before and is still on the same timeline, or has
    * just created the timeline, or is a client whose master's answer has just completed the points it
    * needs.  In particular no clock is ever carried over to another timeline. */
  lemma ClockStaysOnItsTimeline(n: Node, wakeup: Wakeup)
    requires NodeInv(n) && wakeup.newTimeline != INVALID_TIMELINE
    requires wakeup.arrived.Some? ==> WellFormed(wakeup.arrived.value.packet)
    ensures var after := Turn(n, wakeup).node;
            after.clock.valid ==>
              || (n.clock.valid && after.timelineID == n.timelineID)
              || (n.state == INITIAL && after.state == MASTER && after.timelineID == wakeup.newTimeline)
              || (wakeup.arrived.Some? && Learns(n, wakeup.arrived.value) && after.state == CLIENT
                  && after.timelineID == n.timelineID && after.masterEP == n.masterEP)
  {
    hide HandleTimeout, HandlePacket, BoundInterface, EnterNetworkless;
    var m := Woken(n, wakeup);
    if !m.socket {
      ClockAfterJoining(m.(socket := true, deviceID := wakeup.setupDeviceID));
      ClockAfterLeaving(m, wakeup.newTimeline);
    }
    ClockAfterTimeout(m, wakeup.timing, wakeup.newTimeline);
    if m.socket && wakeup.arrived.Some? {
      ClockAfterPacket(m, wakeup.arrived.value, wakeup.timing);
    }
  }

  lemma ClockAfterJoining(n: Node)
    requires NodeInv(n.(socket := false)) && n.socket
    ensures var after := BoundInterface(n).node;
            && (after.clock.valid ==> n.clock.valid && after.timelineID == n.timelineID)
            && (after.state == INITIAL || after.state == RONIN)
  {
  }

  lemma ClockAfterLeaving(n: Node, newTimeline: uint64)
    requires NodeInv(n) && !n.socket && newTimeline != INVALID_TIMELINE
    ensures var after := EnterNetworkless(n, newTimeline).node;
            && (after.clock.valid ==> n.clock.valid && after.timelineID == n.timelineID)
            && (Blind(after) <==> Blind(n) || (n.state == CLIENT && !n.clock.valid))
  {
  }

  predicate Learns(n: Node, message: Message) {
    && n.state == CLIENT && n.masterEP == Some(message.src) && message.packet.SyncResponse? && !message.packet.nak
    && n.sync.received > 0 && n.clock.startupPoints + 1 == STARTUP_FILTER_SIZE
  }

  lemma ClockAfterTimeout(n: Node, timing: Timing, newTimeline: uint64)
    requires NodeInv(n) && newTimeline != INVALID_TIMELINE
    ensures var after := HandleTimeout(n, timing, newTimeline).node;
            after.clock.valid ==>
              || (n.clock.valid && after.timelineID == n.timelineID)
              || (n.state == INITIAL && after.state == MASTER && after.timelineID == newTimeline)
  {
  }

  lemma ClockAfterPacket(n: Node, message: Message, timing: Timing)
    requires NodeInv(n) && n.socket
    ensures var after := HandlePacket(n, message, timing).node;
            after.clock.valid ==>
              || (n.clock.valid && after.timelineID == n.timelineID)
              || (Learns(n, message) && after.state == CLIENT
                  && after.timelineID == n.timelineID && after.masterEP == n.masterEP)
  {
    hide BecomeClient;
    match message.packet {
      case WhoIsMasterRequest(_, _) => RequestOutcome(n, message.packet, message.src);
      case SyncRequest(_) =>
      case SyncResponse(_, _) => SyncResponseOutcome(n, message.packet, message.src, timing);
      case WhoIsMasterResponse(_, _) => OfferOutcome(n, message, timing);
      case MasterAnnouncement(_, _) => OfferOutcome(n, message, timing);
    }
  }

  // ----- masters without the time -----

  ghost predicate Blind(n: Node) { n.state == MASTER && !n.clock.valid }

  /** A turn leaves a master that does not know the time exactly when a client that never synced loses its
    * socket and must not set up another one, or there was one before that does not join a network now. */
  lemma BlindAfterTurn(n: Node, wakeup: Wakeup)
    requires NodeInv(n) && wakeup.newTimeline != INVALID_TIMELINE
    requires wakeup.arrived.Some? ==> WellFormed(wakeup.arrived.value.packet)
    ensures var networkless := !n.settings.bindIfaceValid || n.ShouldAutoDisable();
            Blind(Turn(n, wakeup).node) <==>
              || (n.state == CLIENT && !n.clock.valid && Drops(n) && networkless)
              || (Blind(n) && (networkless || !wakeup.setupSucceeds))
  {
    hide HandleTimeout, HandlePacket, BoundInterface, EnterNetworkless, WellFormed;
    var m := Woken(n, wakeup);
    WokenKeeps(n, wakeup);
    HandleTimeoutKeeps(m, wakeup.timing, wakeup.newTimeline);
    if !m.socket {
      ClockAfterJoining(m.(socket := true, deviceID := wakeup.setupDeviceID));
      ClockAfterLeaving(m, wakeup.newTimeline);
      assert HandleTimeout(m, wakeup.timing, wakeup.newTimeline) == Effect(m, []) by { NoSocketNoTimeout(m, wakeup); }
    } else if wakeup.arrived.Some? {
      HandlePacketKeeps(m, wakeup.arrived.value, wakeup.timing);
    }
  }

  lemma NoSocketNoTimeout(n: Node, wakeup: Wakeup)
    requires NodeInv(n) && !n.socket && wakeup.newTimeline != INVALID_TIMELINE
    ensures HandleTimeout(n, wakeup.timing, wakeup.newTimeline) == Effect(n, [])
  {
  }

  /** A configuration call does exactly when it is forceNetworklessMaster on a client that never synced and
    * has no socket, or there was one before. */
  lemma BlindAfterCall(n: Node, call: Call)
    requires NodeInv(n) && call.DrawIsValid()
    ensures Blind(Configure(n, call).1.node) <==>
              || Blind(n)
              || (call.ForceNetworklessMaster? && !n.socket && n.state == CLIENT && !n.clock.valid)
  {
  }
}
