/** One node over many calls: how silence elects it, and how it joins a master and learns the time. */
module ElectionRounds {
  import opened Common
  import opened ElectionNode

  // ----- silence -----

  /** A turn in which the network says nothing and the state timeout expires. */
  predicate Silent(wakeup: Wakeup) {
    wakeup.timedOut && wakeup.arrived.None? && wakeup.newTimeline != INVALID_TIMELINE
  }

  /** The node after a series of turns without packets. */
  function AfterTurns(n: Node, turns: seq<Wakeup>): Node
    requires NodeInv(n) && forall t | t in turns :: Silent(t)
    decreases |turns|
  {
    if turns == [] then n
    else
      assert Silent(turns[0]);
      TurnKeeps(n, turns[0]);
      AfterTurns(Turn(n, turns[0]).node, turns[1..])
  }

  /** One timeout brings a node one step closer to being master, or more than one if it panics. */
  lemma TimeoutGetsCloser(n: Node, wakeup: Wakeup)
    requires NodeInv(n) && n.socket && !Drops(n) && Silent(wakeup)
    ensures var after := Turn(n, wakeup).node;
            && NodeInv(after) && after.socket && !Drops(after)
            && (if n.state == MASTER then after.state == MASTER && after.timelineID == n.timelineID
                else TimeoutsLeft(after) < TimeoutsLeft(n))
            && (n.state != MASTER && !wakeup.timing.noGoodData ==> TimeoutsLeft(after) == TimeoutsLeft(n) - 1)
            && (n.clock.valid && !wakeup.timing.noGoodData ==> after.timelineID == n.timelineID)
  {
    TurnKeeps(n, wakeup);
    var m := n.(timeout := INFINITE_TIMEOUT);
    assert Turn(n, wakeup) == HandleTimeout(m, wakeup.timing, wakeup.newTimeline) by { hide HandleTimeout; }
    HandleTimeoutKeeps(m, wakeup.timing, wakeup.newTimeline);
    TimeoutCounts(m, wakeup.timing, wakeup.newTimeline);
  }

  lemma TimeoutCounts(n: Node, timing: Timing, newTimeline: uint64)
    requires NodeInv(n) && n.socket && newTimeline != INVALID_TIMELINE
    ensures var after := HandleTimeout(n, timing, newTimeline).node;
            && NodeInv(after)
            && (if n.state == MASTER then after.state == MASTER && after.timelineID == n.timelineID
                else TimeoutsLeft(after) < TimeoutsLeft(n))
            && (n.state != MASTER && !timing.noGoodData ==> TimeoutsLeft(after) == TimeoutsLeft(n) - 1)
            && (n.clock.valid && !timing.noGoodData ==> after.timelineID == n.timelineID)
  {
    HandleTimeoutKeeps(n, timing, newTimeline);
  }

  /** A node left alone on its network becomes master, knowing the time, after as many timeouts as it has
    * left - never more than thirty-one - and stays master.  If it does not panic it is master no sooner,
    * and of the timeline it knew, if it knew one. */
  lemma {:induction false} SilenceElects(n: Node, turns: seq<Wakeup>)
    requires NodeInv(n) && n.socket && !Drops(n) && forall t | t in turns :: Silent(t)
    ensures TimeoutsLeft(n) <= 31
    ensures n.state == INITIAL ==> TimeoutsLeft(n) == 6 - n.initialTimeouts
    ensures n.state == RONIN ==> TimeoutsLeft(n) == 20 - n.roninTimeouts
    ensures n.state == CLIENT ==>
              TimeoutsLeft(n) == 10 - n.sync.timeouts + (if n.sync.pending then 0 else 1) + if n.clock.valid then 20 else 6
    ensures var after := AfterTurns(n, turns);
            && NodeInv(after) && after.socket
            && (|turns| >= TimeoutsLeft(n) ==> after.state == MASTER && after.clock.valid)
    ensures (forall t | t in turns :: !t.timing.noGoodData) ==>
              && (AfterTurns(n, turns).state == MASTER <==> |turns| >= TimeoutsLeft(n))
              && (n.clock.valid ==> AfterTurns(n, turns).timelineID == n.timelineID)
    decreases |turns|
  {
    hide Turn;
    if turns != [] {
      assert turns[0] in turns && forall t | t in turns[1..] :: t in turns;
      TimeoutGetsCloser(n, turns[0]);
      ClockAfterSilence(n, turns[0]);
      SilenceElects(Turn(n, turns[0]).node, turns[1..]);
    }
  }

  lemma ClockAfterSilence(n: Node, wakeup: Wakeup)
    requires NodeInv(n) && n.socket && !Drops(n) && Silent(wakeup)
    ensures n.clock.valid && !wakeup.timing.noGoodData ==> Turn(n, wakeup).node.clock.valid
  {
  }

  /** What a node on the network sends after a timeout, and how long it waits then: a client asks its master for the
    * time and a master announces itself, at the intervals configured; any other asks for a master, and waits half a
    * second for an answer. */
  lemma NextTimeout(n: Node, timing: Timing, newTimeline: uint64)
    requires NodeInv(n) && n.socket && newTimeline != INVALID_TIMELINE
    ensures var after := HandleTimeout(n, timing, newTimeline).node;
            after.timeout == match after.state
                             case CLIENT => n.settings.syncIntervalMs
                             case MASTER => n.settings.announceIntervalMs
                             case _ => 500
    ensures var effect := HandleTimeout(n, timing, newTimeline);
            effect.sent == match effect.node.state
                           case CLIENT => [Message(n.address, n.masterEP, SyncRequest(n.timelineID))]
                           case MASTER => [Message(n.address, None, MasterAnnouncement(
                                             effect.node.timelineID, Rank(Standing(n), n.deviceID)))]
                           case _ => [Message(n.address, None, WhoIsMasterRequest(
                                        INVALID_TIMELINE, Rank(Standing(n), n.deviceID)))]
  {
    HandleTimeoutKeeps(n, timing, newTimeline);
  }

  // ----- joining a master -----

  /** A master's answers, as they arrive at a client. */
  function AfterAnswers(n: Node, master: Address, timelineID: uint64, answers: seq<Timing>): Node
    requires NodeInv(n) && n.socket
    decreases |answers|
  {
    if answers == [] then n
    else
      var answer := Message(master, Some(n.address), SyncResponse(timelineID, false));
      HandlePacketKeeps(n, answer, answers[0]);
      AfterAnswers(HandlePacket(n, answer, answers[0]).node, master, timelineID, answers[1..])
  }

  /** How many of these answers can be used, when so many have been received before. */
  function UsableAnswers(received: nat, answers: seq<Timing>): nat
    decreases |answers|
  {
    if answers == [] then 0
    else (if received > 0 && !answers[0].rttTooLarge then 1 else 0) + UsableAnswers(received + 1, answers[1..])
  }

  /** Answers that do not make a client start over keep it with its master and timeline, and it knows the
    * time exactly if it did or has had four answers it can use. */
  lemma {:induction false} AnswersTeach(n: Node, answers: seq<Timing>)
    requires NodeInv(n) && n.socket && n.state == CLIENT
    requires forall t | t in answers :: !t.noGoodData && !t.panics
    ensures var after := AfterAnswers(n, n.masterEP.value, n.timelineID, answers);
            && after.state == CLIENT && after.timelineID == n.timelineID && after.masterEP == n.masterEP
            && (after.clock.valid <==>
                  n.clock.valid || n.clock.startupPoints + UsableAnswers(n.sync.received, answers) >= 4)
    decreases |answers|
  {
    hide HandleSyncResponse;
    if answers != [] {
      var response := SyncResponse(n.timelineID, false);
      var answer := Message(n.masterEP.value, Some(n.address), response);
      assert answers[0] in answers && forall t | t in answers[1..] :: t in answers;
      HandlePacketKeeps(n, answer, answers[0]);
      SyncResponseOutcome(n, response, n.masterEP.value, answers[0]);
      AnswersTeach(HandlePacket(n, answer, answers[0]).node, answers[1..]);
    }
  }

  /** A node without a master asks; the master answers; the node follows it and asks for the time; the
    * master grants that; and after one answer that is dropped and four more the node knows the time of the
    * master's timeline.  The master stays what it is. */
  lemma JoinsMaster(n: Node, master: Node, timing: Timing, answers: seq<Timing>)
    requires NodeInv(n) && n.socket && (n.state == INITIAL || n.state == RONIN)
    requires NodeInv(master) && master.socket && master.state == MASTER && master.deviceID != n.deviceID
    requires |answers| >= 5
    requires forall t | t in answers :: !t.noGoodData && !t.panics && !t.rttTooLarge
    ensures var asked := SendWhoIsMasterRequest(n);
            && |asked.sent| == 1 && asked.sent[0].dst.None?
            && NodeInv(asked.node) && asked.node.socket
            && var offered := HandlePacket(master, asked.sent[0], timing);
            && offered.node == master && |offered.sent| == 1 && offered.sent[0].dst == Some(n.address)
            && var following := HandlePacket(asked.node, offered.sent[0], timing);
            && |following.sent| == 1 && following.sent[0].dst == Some(master.address)
            && NodeInv(following.node) && following.node.socket && following.node.state == CLIENT
            && following.node.timelineID == master.timelineID
            && var granted := HandlePacket(master, following.sent[0], timing);
            && granted.node == master.(forceLowPriority := false, clientMaster := granted.node.clientMaster)
            && granted.sent == [Message(master.address, Some(n.address), SyncResponse(master.timelineID, false))]
            && var after := AfterAnswers(following.node, master.address, master.timelineID, answers);
            && after.state == CLIENT && after.masterEP == Some(master.address)
            && after.timelineID == master.timelineID && after.clock.valid
  {
    hide BecomeClient, AfterAnswers;
    var asked := SendWhoIsMasterRequest(n);
    var offered := HandlePacket(master, asked.sent[0], timing);
    assert NodeInv(asked.node) && WellFormed(offered.sent[0].packet);
    HandlePacketKeeps(asked.node, offered.sent[0], timing);
    OfferOutcome(asked.node, offered.sent[0], timing);
    var following := HandlePacket(asked.node, offered.sent[0], timing);
    FreshStats(asked.node, master.address, master.OwnRank(), master.timelineID);
    AnswersTeach(following.node, answers);
    AllUsable(0, answers);
  }

  lemma FreshStats(n: Node, masterEP: Address, master: Rank, timelineID: uint64)
    requires n.socket
    ensures BecomeClient(n, masterEP, master, timelineID).node.sync.received == 0
  {
  }

  lemma {:induction false} AllUsable(received: nat, answers: seq<Timing>)
    requires forall t | t in answers :: !t.rttTooLarge
    ensures UsableAnswers(received, answers) == if received > 0 || answers == [] then |answers| else |answers| - 1
    decreases |answers|
  {
    if answers != [] {
      assert answers[0] in answers && forall t | t in answers[1..] :: t in answers;
      AllUsable(received + 1, answers[1..]);
    }
  }

  // ----- two masters -----

  /** Two masters that announce themselves to each other settle it, whatever their timelines: the one with the
    * higher priority, or at equal priority the larger device id, stays exactly what it is, and the other becomes
    * its client, on its timeline, forgetting the time unless that was the timeline they shared.  Hearing the
    * announcement again changes nothing.  A device that defers loses to any that does not. */
  lemma TwoMastersSettle(a: Node, b: Node, timing: Timing) returns (aWins: bool)
    requires NodeInv(a) && a.socket && a.state == MASTER && NodeInv(b) && b.socket && b.state == MASTER
    requires a.deviceID != b.deviceID
    ensures var (fromA, fromB) := (SendMasterAnnouncement(a).sent, SendMasterAnnouncement(b).sent);
            && |fromA| == 1 && |fromB| == 1
            && Settled(a, b, fromA[0], fromB[0], timing) == aWins
            && Settled(b, a, fromB[0], fromA[0], timing) == !aWins
    ensures var (ofA, ofB) := (a.settings.masterPriority + (if a.forceLowPriority then 0 else 128),
                               b.settings.masterPriority + (if b.forceLowPriority then 0 else 128));
            aWins <==> ofA > ofB || (ofA == ofB && a.deviceID > b.deviceID)
    ensures !a.forceLowPriority && b.forceLowPriority ==> aWins
    ensures a.forceLowPriority && !b.forceLowPriority ==> !aWins
  {
    hide BecomeClient;
    aWins := Outranks(a.OwnRank(), b.OwnRank());
    var fromA, fromB := SendMasterAnnouncement(a).sent[0], SendMasterAnnouncement(b).sent[0];
    OfferOutcome(a, fromB, timing);
    OfferOutcome(b, fromA, timing);
    HandlePacketKeeps(a, fromB, timing);
    HandlePacketKeeps(b, fromA, timing);
    if aWins {
      OfferOutcome(HandlePacket(b, fromA, timing).node, fromA, timing);
    } else {
      OfferOutcome(HandlePacket(a, fromB, timing).node, fromB, timing);
    }
  }

  /** The winner is unmoved by the loser's announcement; the loser is the winner's client, and stays it. */
  ghost predicate Settled(winner: Node, loser: Node, ofWinner: Message, ofLoser: Message, timing: Timing)
    requires NodeInv(winner) && winner.socket && NodeInv(loser) && loser.socket
  {
    && HandlePacket(winner, ofLoser, timing) == Effect(winner, [])
    && var after := HandlePacket(loser, ofWinner, timing).node;
    && after.state == CLIENT && after.masterEP == Some(winner.address)
    && after.clientMaster.deviceID == winner.deviceID
    && after.clientMaster.priority as int == winner.settings.masterPriority + (if winner.forceLowPriority then 0 else 128)
    && after.timelineID == winner.timelineID
    && (after.clock.valid <==> winner.timelineID == loser.timelineID)
    && NodeInv(after) && after.socket
    && HandlePacket(after, ofWinner, timing) == Effect(after, [])
  }
}
