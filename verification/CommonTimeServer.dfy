/** The object behind a node: CommonTimeServer with its fields, updated handler by handler.  Each method
  * computes the function of ElectionNode that bears its name, and says what that means for its caller: the
  * node invariant is kept, and who is followed, led or given up, with which messages.  Play lets any
  * number of these objects run against one network.
  */
module CommonTimeServer {
  import opened Common
  import opened ElectionNode
  import opened ElectionSystem

  class Server {
    const address: Address
    var state: State
    var socket: bool
    var timelineID: uint64
    var deviceID: uint64
    var forceLowPriority: bool
    var masterEP: Option<Address>
    var clientMaster: Rank
    var initialTimeouts: nat
    var roninTimeouts: nat
    var sync: SyncStats
    var clock: ClockState
    var clockSynced: bool
    var timeout: int
    var settings: Settings

    /** The fields as a value. */
    ghost function View(): Node
      reads this
    {
      Node(address, state, socket, timelineID, deviceID, forceLowPriority, masterEP, clientMaster,
           initialTimeouts, roninTimeouts, sync, clock, clockSynced, timeout, settings)
    }

    constructor (address: Address, settings: Settings)
      ensures View() == NewNode(address, settings)
    {
      this.address := address;
      state, socket := INITIAL, false;
      timelineID, deviceID := INVALID_TIMELINE, 0;
      forceLowPriority := false;
      masterEP := None;
      clientMaster := Rank(0, 0);
      initialTimeouts, roninTimeouts := 0, 0;
      sync := NO_STATS;
      clock := ClockState(false, 0);
      clockSynced := false;
      timeout := INFINITE_TIMEOUT;
      this.settings := settings;
    }

    method EffectivePriority() returns (priority: uint8)
      ensures priority == View().EffectivePriority()
    {
      priority := settings.masterPriority % 128 + (if forceLowPriority then 0 else 128);
    }

    method DoSetForceLowPriority(val: bool)
      modifies this
      ensures View() == SetForceLowPriority(old(View()), val)
    {
      forceLowPriority := val;
      if state == MASTER {
        var priority := EffectivePriority();
        clientMaster := clientMaster.(priority := priority);
      }
    }

    method DoSendWhoIsMasterRequest() returns (sent: seq<Message>)
      requires state == INITIAL || state == RONIN
      requires !socket ==> state == INITIAL
      modifies this
      ensures Effect(View(), sent) == SendWhoIsMasterRequest(old(View()))
    {
      if !socket {
        return [];
      }
      var priority := EffectivePriority();
      sent := [Message(address, None, WhoIsMasterRequest(INVALID_TIMELINE, Rank(priority, deviceID)))];
      if state == INITIAL {
        timeout := INITIAL_WHO_IS_MASTER_TIMEOUT_MS;
      } else {
        timeout := RONIN_WHO_IS_MASTER_TIMEOUT_MS;
      }
    }

    method DoSendSyncRequest() returns (sent: seq<Message>)
      requires state == CLIENT && socket && masterEP.Some?
      modifies this
      ensures Effect(View(), sent) == SendSyncRequest(old(View()))
    {
      sent := [Message(address, masterEP, SyncRequest(timelineID))];
      sync := sync.(sent := sync.sent + 1);
      timeout := settings.syncIntervalMs;
      sync := sync.(pending := true);
    }

    method DoSendMasterAnnouncement() returns (sent: seq<Message>)
      requires state == MASTER
      modifies this
      ensures Effect(View(), sent) == SendMasterAnnouncement(old(View()))
    {
      if !socket {
        timeout := INFINITE_TIMEOUT;
        return [];
      }
      var priority := EffectivePriority();
      sent := [Message(address, None, MasterAnnouncement(timelineID, Rank(priority, deviceID)))];
      timeout := settings.announceIntervalMs;
    }

    method DoBecomeClient(newMasterEP: Address, master: Rank, newTimelineID: uint64) returns (sent: seq<Message>)
      requires socket
      modifies this
      ensures Effect(View(), sent) == BecomeClient(old(View()), newMasterEP, master, newTimelineID)
      ensures Follows(old(View()), Effect(View(), sent), newMasterEP, master, newTimelineID)
    {
      hide SendSyncRequest, Follows;
      ghost var before := View();
      BecomingClientFollows(before, newMasterEP, master, newTimelineID);
      MoveToTimeline(newTimelineID);
      masterEP := Some(newMasterEP);
      DoSetForceLowPriority(false);
      clientMaster := master;
      sync := NO_STATS;
      state := CLIENT;
      sent := DoSendSyncRequest();
      assert Effect(View(), sent) == BecomeClient(before, newMasterEP, master, newTimelineID);
    }

    method MoveToTimeline(newTimelineID: uint64)
      modifies this
      ensures View() == if old(timelineID) == newTimelineID then old(View())
                        else old(View()).(timelineID := newTimelineID, clock := ClockState(false, 0), clockSynced := false)
    {
      if timelineID != newTimelineID {
        timelineID := newTimelineID;
        clock := ClockState(false, 0);
        clockSynced := false;
      }
    }

    method DoBecomeMaster(newTimeline: uint64) returns (sent: seq<Message>)
      requires newTimeline != INVALID_TIMELINE
      requires timelineID == INVALID_TIMELINE ==> !clock.valid
      modifies this
      ensures Effect(View(), sent) == BecomeMaster(old(View()), newTimeline)
      ensures Leads(old(View()), Effect(View(), sent), newTimeline)
    {
      hide SendMasterAnnouncement, Leads;
      ghost var before := View();
      BecomingMasterLeads(before, newTimeline);
      CreateTimeline(newTimeline);
      masterEP := None;
      var priority := EffectivePriority();
      clientMaster := Rank(priority, deviceID);
      sync := NO_STATS;
      state := MASTER;
      sent := DoSendMasterAnnouncement();
      assert Effect(View(), sent) == BecomeMaster(before, newTimeline);
    }

    method CreateTimeline(newTimeline: uint64)
      requires timelineID == INVALID_TIMELINE ==> !clock.valid
      modifies this
      ensures View() == if old(timelineID) != INVALID_TIMELINE then old(View())
                        else old(View()).(clock := old(clock).(valid := true), timelineID := newTimeline, clockSynced := true)
    {
      if timelineID == INVALID_TIMELINE {
        assert !clock.valid;
        clock := clock.(valid := true);
        timelineID := newTimeline;
        clockSynced := true;
      }
    }

    method DoBecomeInitial() returns (sent: seq<Message>)
      modifies this
      ensures Effect(View(), sent) == BecomeInitial(old(View()))
      ensures StartsOver(old(View()), Effect(View(), sent))
    {
      hide SendWhoIsMasterRequest, StartsOver;
      BecomingInitialStartsOver(View());
      state := INITIAL;
      clock := ClockState(false, 0);
      ResetBookkeeping();
      sent := DoSendWhoIsMasterRequest();
    }

    method ResetBookkeeping()
      modifies this
      ensures View() == old(View()).(
        timeout := INFINITE_TIMEOUT, masterEP := None, timelineID := INVALID_TIMELINE, clockSynced := false,
        initialTimeouts := 0, clientMaster := Rank(0, 0), roninTimeouts := 0, sync := NO_STATS)
    {
      timeout := INFINITE_TIMEOUT;
      masterEP := None;
      timelineID := INVALID_TIMELINE;
      clockSynced := false;
      initialTimeouts := 0;
      clientMaster := Rank(0, 0);
      roninTimeouts := 0;
      sync := NO_STATS;
    }

    method DoBecomeRonin() returns (sent: seq<Message>)
      requires clock.valid ==> socket
      modifies this
      ensures Effect(View(), sent) == BecomeRonin(old(View()))
      ensures LosesMaster(old(View()), Effect(View(), sent))
    {
      hide LosesMaster, StartsOver;
      BecomingRoninLosesMaster(View());
      masterEP := None;
      if clock.valid {
        roninTimeouts := 0;
        state := RONIN;
        sent := DoSendWhoIsMasterRequest();
      } else {
        sent := DoBecomeInitial();
      }
    }

    method DoBecomeWaitForElection()
      modifies this
      ensures Effect(View(), []) == BecomeWaitForElection(old(View()))
    {
      state := WAIT_FOR_ELECTION;
      timeout := WAIT_FOR_ELECTION_TIMEOUT_MS;
    }

    method DoHandleTimeout(timing: Timing, newTimeline: uint64) returns (sent: seq<Message>)
      requires NodeInv(View()) && newTimeline != INVALID_TIMELINE
      modifies this
      ensures Effect(View(), sent) == HandleTimeout(old(View()), timing, newTimeline)
      ensures NodeInv(View()) && Armed(View())
    {
      hide SendWhoIsMasterRequest, SendSyncRequest, SendMasterAnnouncement, BecomeMaster, BecomeInitial, BecomeRonin,
        Follows, Leads, StartsOver, LosesMaster;
      HandleTimeoutKeeps(View(), timing, newTimeline);
      sent := [];
      if socket {
        match state {
          case INITIAL =>
            initialTimeouts := initialTimeouts + 1;
            if initialTimeouts == INITIAL_WHO_IS_MASTER_RETRIES {
              sent := DoBecomeMaster(newTimeline);
            } else {
              sent := DoSendWhoIsMasterRequest();
            }
          case CLIENT => sent := DoHandleTimeoutClient(timing);
          case MASTER => sent := DoSendMasterAnnouncement();
          case RONIN =>
            roninTimeouts := roninTimeouts + 1;
            if roninTimeouts == RONIN_WHO_IS_MASTER_RETRIES {
              sent := DoBecomeMaster(newTimeline);
            } else {
              sent := DoSendWhoIsMasterRequest();
            }
          case WAIT_FOR_ELECTION => sent := DoBecomeRonin();
        }
      }
    }

    method DoHandleTimeoutClient(timing: Timing) returns (sent: seq<Message>)
      requires state == CLIENT && socket && masterEP.Some?
      modifies this
      ensures Effect(View(), sent) == HandleTimeoutClient(old(View()), timing)
    {
      hide SendSyncRequest, BecomeInitial, BecomeRonin, StartsOver, LosesMaster;
      if timing.noGoodData && sync.sent > 0 {
        sent := DoBecomeInitial();
      } else if sync.pending {
        sync := sync.(pending := false, timeouts := sync.timeouts + 1);
        if sync.timeouts < CLIENT_SYNC_REQUEST_RETRIES {
          sent := DoSendSyncRequest();
        } else {
          sent := DoBecomeRonin();
        }
      } else {
        sent := DoSendSyncRequest();
      }
    }

    method DoHandleWhoIsMasterRequest(request: Packet, src: Address) returns (sent: seq<Message>)
      requires NodeInv(View()) && socket && request.WhoIsMasterRequest?
      modifies this
      ensures Effect(View(), sent) == HandleWhoIsMasterRequest(old(View()), request, src)
    {
      hide NodeInv;
      sent := [];
      if request.sender.deviceID == deviceID {
        return;
      }
      var priority := EffectivePriority();
      if state == MASTER {
        if request.timelineID != INVALID_TIMELINE && request.timelineID != timelineID {
          return;
        }
        sent := [Message(address, Some(src), WhoIsMasterResponse(timelineID, Rank(priority, deviceID)))];
      } else if state == RONIN {
        if request.timelineID != timelineID {
          return;
        }
        if Outranks(request.sender, Rank(priority, deviceID)) {
          DoBecomeWaitForElection();
        }
      } else if state == INITIAL {
        if request.timelineID == INVALID_TIMELINE && Outranks(request.sender, Rank(priority, deviceID)) {
          initialTimeouts := 0;
        }
      }
    }

    method DoHandleWhoIsMasterResponse(response: Packet, src: Address) returns (sent: seq<Message>)
      requires NodeInv(View()) && socket && response.WhoIsMasterResponse?
      modifies this
      ensures Effect(View(), sent) == HandleWhoIsMasterResponse(old(View()), response, src)
      ensures if Heeds(old(View()), response)
              then Follows(old(View()), Effect(View(), sent), src, response.device, response.timelineID)
              else View() == old(View()) && sent == []
    {
      hide NodeInv, BecomeClient, Follows;
      sent := [];
      if response.device.deviceID == deviceID {
        return;
      }
      if state == INITIAL || state == RONIN {
        sent := DoBecomeClient(src, response.device, response.timelineID);
      } else if state == CLIENT {
        if Outranks(response.device, clientMaster) {
          sent := DoBecomeClient(src, response.device, response.timelineID);
        }
      }
    }

    method DoHandleSyncRequest(request: Packet, src: Address) returns (sent: seq<Message>)
      requires NodeInv(View()) && socket && request.SyncRequest?
      modifies this
      ensures Effect(View(), sent) == HandleSyncRequest(old(View()), request, src)
    {
      hide NodeInv;
      if state == MASTER && timelineID == request.timelineID {
        DoSetForceLowPriority(false);
        if !clock.valid {
          return [];
        }
        sent := [Message(address, Some(src), SyncResponse(timelineID, false))];
      } else {
        sent := [Message(address, Some(src), SyncResponse(timelineID, true))];
      }
    }

    method DoHandleSyncResponse(response: Packet, src: Address, timing: Timing) returns (sent: seq<Message>)
      requires NodeInv(View()) && socket && response.SyncResponse?
      modifies this
      ensures Effect(View(), sent) == HandleSyncResponse(old(View()), response, src, timing)
    {
      hide BecomeInitial, BecomeRonin, StartsOver, LosesMaster;
      sent := [];
      if state != CLIENT {
        return;
      }
      assert masterEP.Some?;
      if src != masterEP.value {
        return;
      }
      if response.nak {
        sent := DoBecomeRonin();
        return;
      }
      sync := sync.(pending := false, timeouts := 0);
      var first := sync.received == 0;
      sync := sync.(received := sync.received + 1);
      if first {
      } else if timing.rttTooLarge {
        sync := sync.(expired := sync.expired + 1);
        if timing.noGoodData && sync.sent > 0 {
          sent := DoBecomeInitial();
          return;
        }
      } else if clock.valid && timing.panics {
        clockSynced := false;
        sent := DoBecomeInitial();
        return;
      } else {
        if !clock.valid {
          var points := clock.startupPoints;
          if points < STARTUP_FILTER_SIZE {
            points := points + 1;
          }
          clock := ClockState(points == STARTUP_FILTER_SIZE, points);
        }
        clockSynced := true;
      }
      timeout := settings.syncIntervalMs;
    }

    method DoHandleMasterAnnouncement(packet: Packet, src: Address) returns (sent: seq<Message>)
      requires NodeInv(View()) && socket && packet.MasterAnnouncement?
      modifies this
      ensures Effect(View(), sent) == HandleMasterAnnouncement(old(View()), packet, src)
      ensures if Heeds(old(View()), packet)
              then Follows(old(View()), Effect(View(), sent), src, packet.device, packet.timelineID)
              else View() == old(View()) && sent == []
    {
      hide NodeInv, BecomeClient, Follows;
      sent := [];
      if packet.device.deviceID == deviceID {
        return;
      }
      if state == INITIAL || state == RONIN || state == WAIT_FOR_ELECTION {
        sent := DoBecomeClient(src, packet.device, packet.timelineID);
      } else if state == CLIENT {
        if Outranks(packet.device, clientMaster) {
          sent := DoBecomeClient(src, packet.device, packet.timelineID);
        }
      } else if state == MASTER {
        var priority := EffectivePriority();
        StandingIs(View());
        if Outranks(packet.device, Rank(priority, deviceID)) {
          sent := DoBecomeClient(src, packet.device, packet.timelineID);
        }
      }
    }

    method DoHandlePacket(message: Message, timing: Timing) returns (sent: seq<Message>)
      requires NodeInv(View()) && socket
      modifies this
      ensures Effect(View(), sent) == HandlePacket(old(View()), message, timing)
      ensures WellFormed(message.packet) ==> Keeps(old(View()), View())
    {
      hide NodeInv, HandleWhoIsMasterRequest, HandleWhoIsMasterResponse, HandleSyncRequest, HandleSyncResponse,
        HandleMasterAnnouncement, Keeps, Follows, Heeds;
      if WellFormed(message.packet) {
        HandlePacketKeeps(View(), message, timing);
      }
      match message.packet {
        case WhoIsMasterRequest(_, _) => sent := DoHandleWhoIsMasterRequest(message.packet, message.src);
        case WhoIsMasterResponse(_, _) => sent := DoHandleWhoIsMasterResponse(message.packet, message.src);
        case SyncRequest(_) => sent := DoHandleSyncRequest(message.packet, message.src);
        case SyncResponse(_, _) => sent := DoHandleSyncResponse(message.packet, message.src, timing);
        case MasterAnnouncement(_, _) => sent := DoHandleMasterAnnouncement(message.packet, message.src);
      }
    }

    method DoBoundInterface() returns (sent: seq<Message>)
      requires socket
      modifies this
      ensures Effect(View(), sent) == BoundInterface(old(View()))
    {
      hide BecomeInitial, BecomeRonin, StartsOver, LosesMaster;
      DoSetForceLowPriority(true);
      if state == INITIAL {
        sent := DoBecomeInitial();
      } else {
        sent := DoBecomeRonin();
      }
    }

    /** The start of a turn: an expired timeout is over, and the socket is dropped if it has to be. */
    method DoWake(wakeup: Wakeup) returns (droppedSocket: bool)
      modifies this
      ensures View() == Woken(old(View()), wakeup) && droppedSocket == Drops(old(View()))
    {
      if wakeup.timedOut {
        timeout := INFINITE_TIMEOUT;
      }
      droppedSocket := false;
      var shouldAutoDisable := settings.autoDisable && !settings.hasClients;
      if settings.bindIfaceDirty || (socket && shouldAutoDisable) {
        socket := false;
        settings := settings.(bindIfaceDirty := false);
        droppedSocket := true;
      }
    }

    /** One turn of runStateMachine_l after its poll. */
    method DoTurn(wakeup: Wakeup) returns (sent: seq<Message>)
      requires NodeInv(View()) && wakeup.newTimeline != INVALID_TIMELINE
      modifies this
      ensures Effect(View(), sent) == Turn(old(View()), wakeup)
    {
      hide HandleTimeout, HandlePacket, BecomeInitial, BecomeRonin, BecomeMaster, BoundInterface, Leads, Keeps, Woken, NodeInv;
      WokenKeeps(View(), wakeup);
      sent := [];
      var droppedSocket := DoWake(wakeup);
      OnTimeline(View());
      var shouldAutoDisable := settings.autoDisable && !settings.hasClients;
      if !socket && settings.bindIfaceValid && !shouldAutoDisable {
        if wakeup.setupSucceeds {
          socket, deviceID := true, wakeup.setupDeviceID;
          sent := DoBoundInterface();
        } else {
          timeout := SETUP_RETRY_TIMEOUT_MS;
        }
      } else if droppedSocket {
        if state != INITIAL && state != MASTER {
          // Outside the initial state there is a timeline: the original's return to INITIAL is dead.
          sent := DoBecomeMaster(wakeup.newTimeline);
        }
      } else if wakeup.timedOut {
        sent := DoHandleTimeout(wakeup.timing, wakeup.newTimeline);
      } else if socket && wakeup.arrived.Some? {
        sent := DoHandlePacket(wakeup.arrived.value, wakeup.timing);
      }
    }

    lemma OnTimeline(n: Node)
      requires NodeInv(n)
      ensures n.state == INITIAL <==> n.timelineID == INVALID_TIMELINE
      ensures n.state != INITIAL && n.state != MASTER ==> n.timelineID != INVALID_TIMELINE
    {
    }

    /** The configuration interface. */
    method DoConfigure(call: Call) returns (ok: bool, sent: seq<Message>)
      requires NodeInv(View()) && call.DrawIsValid()
      modifies this
      ensures (ok, Effect(View(), sent)) == Configure(old(View()), call)
      ensures !ok ==> View() == old(View()) && sent == []
      ensures NodeInv(View())
    {
      hide NodeInv, BecomeMaster, Leads;
      ConfigureKeeps(View(), call);
      ok, sent := true, [];
      match call {
        case SetInterfaceBinding(valid) => settings := settings.(bindIfaceDirty := true, bindIfaceValid := valid);
        case SetAutoDisable(on) => settings := settings.(autoDisable := on);
        case ReevaluateAutoDisable(hasClients) => settings := settings.(hasClients := hasClients);
        case SetMasterElectionPriority(priority) =>
          if priority as int > MAX_PRIORITY {
            return false, [];
          }
          settings := settings.(masterPriority := priority);
        case SetMasterElectionEndpoint(acceptable) =>
          if !acceptable {
            return false, [];
          }
          settings := settings.(bindIfaceDirty := true);
        case SetMasterElectionGroupId =>
        case SetMasterAnnounceInterval(interval, pendingMs) =>
          if interval > MAX_ANNOUNCE_INTERVAL_MS || interval < MIN_ANNOUNCE_INTERVAL_MS {
            return false, [];
          }
          settings := settings.(announceIntervalMs := interval);
          if state == MASTER && (pendingMs == INFINITE_TIMEOUT || pendingMs > interval) {
            timeout := interval;
          }
        case SetClientSyncInterval(interval, pendingMs) =>
          if interval > MAX_SYNC_INTERVAL_MS || interval < MIN_SYNC_INTERVAL_MS {
            return false, [];
          }
          settings := settings.(syncIntervalMs := interval);
          if state == CLIENT && (pendingMs == INFINITE_TIMEOUT || pendingMs > interval) {
            timeout := interval;
          }
        case SetPanicThreshold(threshold) => ok := threshold >= MIN_PANIC_THRESHOLD_US;
        case ForceNetworklessMaster(newTimeline) => ok, sent := DoForceNetworklessMasterMode(newTimeline);
      }
    }

    method DoForceNetworklessMasterMode(newTimeline: uint64) returns (ok: bool, sent: seq<Message>)
      requires NodeInv(View()) && newTimeline != INVALID_TIMELINE
      modifies this
      ensures ok == !old(socket)
      ensures if ok then Effect(View(), sent) == BecomeMaster(old(View()), newTimeline)
              else View() == old(View()) && sent == []
      ensures ok ==> Leads(old(View()), Effect(View(), sent), newTimeline)
    {
      hide BecomeMaster, Leads;
      if socket {
        return false, [];
      }
      sent := DoBecomeMaster(newTimeline);
      ok := true;
    }

    method Handle(e: Event) returns (sent: seq<Message>)
      requires NodeInv(View()) && DrawIsValid(e)
      modifies this
      ensures Effect(View(), sent) == NodeStep(old(View()), e)
      ensures (e.TurnOf? && e.wakeup.arrived.Some? ==> WellFormed(e.wakeup.arrived.value.packet)) ==>
                NodeInv(View()) && (Armed(old(View())) ==> Armed(View()))
    {
      hide Turn, Configure, NodeInv, Armed;
      match e {
        case TurnOf(_, wakeup) =>
          if wakeup.arrived.Some? ==> WellFormed(wakeup.arrived.value.packet) {
            TurnKeeps(View(), wakeup);
          }
          sent := DoTurn(wakeup);
        case CallOn(_, call) =>
          ConfigureKeeps(View(), call);
          var _, replies := DoConfigure(call);
          sent := replies;
      }
    }
  }

  // ----- many servers on one network -----

  ghost predicate Distinct(servers: seq<Server>) {
    forall i, j | 0 <= i < j < |servers| :: servers[i] != servers[j]
  }

  ghost function Views(servers: seq<Server>): (nodes: seq<Node>)
    reads servers
    ensures |nodes| == |servers|
    ensures forall i | 0 <= i < |servers| :: nodes[i] == servers[i].View()
  {
    seq(|servers|, i requires 0 <= i < |servers| reads servers => servers[i].View())
  }

  /** Lets newly constructed servers run along any schedule of turns and calls, over a network that delivers
    * what was sent to its destination or to everyone, at any later time, any number of times or never.  The
    * servers end where the run of the system ends, so what is proved of reachable states holds of these
    * objects: nobody waits for an election, a master on the network and a ronin know the time, and who has
    * no timeline is in the initial state. */
  method Play(servers: seq<Server>, schedule: seq<Event>) returns (net: set<Message>, ghost created: set<uint64>)
    requires Distinct(servers) && Fits(schedule, |servers|)
    requires Initially(System(Views(servers), {}, {}))
    modifies servers
    ensures (InitiallyInv(System(old(Views(servers)), {}, {}));
             System(Views(servers), net, created) == Run(System(old(Views(servers)), {}, {}), schedule))
    ensures forall s | s in servers ::
              && s.state != WAIT_FOR_ELECTION
              && (s.state == RONIN || (s.state == MASTER && s.socket) ==> s.clock.valid)
              && (s.timelineID == INVALID_TIMELINE <==> s.state == INITIAL)
              && (s.socket ==> s.timeout > 0)
    ensures forall m | m in net && m.packet.MasterAnnouncement? :: m.packet.timelineID in created
  {
    hide Inv, Run, Step, DrawIsValid, Initially, Distinct;
    ghost var start := System(Views(servers), {}, {});
    InitiallyInv(start);
    net, created := {}, {};
    RunsOfNothing(start, schedule);
    for k := 0 to |schedule|
      invariant |start.nodes| == |servers|
      invariant System(Views(servers), net, created) == Run(start, schedule[..k])
    {
      assert schedule[k] in schedule;
      assert schedule[..k + 1] == schedule[..k] + [schedule[k]];
      RunExtends(start, schedule[..k], schedule[k]);
      net, created := PlayOne(servers, schedule[k], net, created);
    }
    assert schedule[..|schedule|] == schedule;
    RunKeepsInv(start, schedule);
    InvMeans(System(Views(servers), net, created));
    forall s | s in servers
      ensures s.View() in Views(servers)
    {
      var i :| 0 <= i < |servers| && servers[i] == s;
      assert Views(servers)[i] == s.View();
    }
  }

  method PlayOne(servers: seq<Server>, e: Event, net: set<Message>, ghost created: set<uint64>)
    returns (after: set<Message>, ghost createdAfter: set<uint64>)
    requires Distinct(servers) && e.i < |servers| && DrawIsValid(e)
    requires Inv(System(Views(servers), net, created))
    modifies servers[e.i]
    ensures System(Views(servers), after, createdAfter) == Step(System(old(Views(servers)), net, created), e)
  {
    hide NodeStep, NodeInv, Armed;
    ghost var s := System(Views(servers), net, created);
    ghost var before := servers[e.i].View();
    assert s.nodes[e.i] == before;
    var sent := servers[e.i].Handle(Received(net, e));
    after := net + set m | m in sent;
    createdAfter := Created(before, servers[e.i].View(), created);
    assert Views(servers) == s.nodes[e.i := servers[e.i].View()];
  }

  lemma RunsOfNothing(s: System, schedule: seq<Event>)
    requires Inv(s)
    ensures Run(s, schedule[..0]) == s
  {
  }

  lemma InvMeans(s: System)
    requires Inv(s)
    ensures forall n | n in s.nodes ::
              && n.state != WAIT_FOR_ELECTION
              && (n.state == RONIN || (n.state == MASTER && n.socket) ==> n.clock.valid)
              && (n.timelineID == INVALID_TIMELINE <==> n.state == INITIAL)
              && (n.socket ==> n.timeout > 0)
    ensures forall m | m in s.net && m.packet.MasterAnnouncement? :: m.packet.timelineID in s.created
  {
    forall n | n in s.nodes
      ensures NodeInv(n) && Armed(n) && n.state != WAIT_FOR_ELECTION
    {
      var i :| 0 <= i < |s.nodes| && s.nodes[i] == n;
      assert NodeOk(s.nodes[i], i, s.created);
    }
  }
}
