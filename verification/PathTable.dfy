/** The path switch read the other way round: not what each step does, but, component by component, which steps change
    it and to what. Both readings are the same machine. */
module PathTable {
  import opened PathSwitch

  // ----- the host's threads

  /** The UDP racer waits for a HELLO, answers it, reports, and is gone; it gives up when it is told to or when the race
      is decided, and a failure ends it while it waits or when it cannot answer. */
  function UdpAfter(s: State, e: Event): Racer {
    match s.host.udp
    case Waiting =>
      if e.UdpFails? || (e.UdpGivesUp? && (s.host.stop || s.host.raceWon)) then Exited
      else if e.UdpHello? && s.net.udpHello then (if e.sessionOk then Handshake else Exited)
      else Waiting
    case Handshake => if e.UdpAcks? then (if e.ok then Acked else Exited) else Handshake
    case Acked => if e.UdpReports? then Exited else Acked
    case Exited => Exited
  }

  /** The relay racer passes over anything but a HELLO. */
  function RelayAfter(s: State, e: Event): Racer {
    match s.host.relay
    case Waiting =>
      if e.RelayDisconnects? || (e.RelayGivesUp? && (s.host.stop || s.host.raceWon)) then Exited
      else if e.RelayReads? && s.net.toHost != [] && s.net.toHost[0] == Hello then Handshake
      else Waiting
    case Handshake => if e.RelayAcks? then (if e.ok then Acked else Exited) else Handshake
    case Acked => if e.RelayReports? then Exited else Acked
    case Exited => Exited
  }

  /** The main thread leaves the race with the first session reported, or when both racers are gone without one. */
  predicate Cancelled(s: State, e: Event) {
    && e.MainCancels? && s.host.main.Racing? && s.host.winners == []
    && s.host.udp.Exited? && s.host.relay.Exited?
  }

  predicate Enters(s: State, e: Event) {
    e.MainJoins? && s.host.main.Joining? && s.host.udp.Exited? && s.host.relay.Exited?
  }

  /** The host takes the first queued message for a request to switch. */
  predicate Asked(s: State, e: Event) {
    && e.Poll? && s.host.main == Encoding(Udp, true) && s.net.now >= s.host.graceUntil
    && s.net.toHost != [] && s.net.toHost[0] == Hello
  }

  function MainAfter(s: State, e: Event): Main {
    match s.host.main
    case Racing =>
      if e.MainPicks? && s.host.winners != [] then Joining(s.host.winners[0])
      else if Cancelled(s, e) then Over
      else Racing
    case Joining(won) => if Enters(s, e) then Encoding(won, s.host.returned > 0) else Joining(won)
    case Encoding(_, _) =>
      if e.LoopEnds? then Over else if Asked(s, e) then Switching else s.host.main
    case Switching => if e.SwitchAcks? then (if e.ok then SwitchAcked else Encoding(Udp, false)) else Switching
    case SwitchAcked => if e.SwitchMoves? then Encoding(Relay, false) else SwitchAcked
    case Over => Over
  }

  /** The function that holds the main thread's things returns. */
  predicate Returns(s: State, e: Event) {
    Cancelled(s, e) || (e.LoopEnds? && s.host.main.Encoding?)
  }

  function WinnersAfter(s: State, e: Event): seq<Path> {
    if Returns(s, e) then []
    else if e.UdpReports? && s.host.udp.Acked? then s.host.winners + [Udp]
    else if e.RelayReports? && s.host.relay.Acked? then s.host.winners + [Relay]
    else if e.MainPicks? && s.host.main.Racing? && s.host.winners != [] then s.host.winners[1..]
    else s.host.winners
  }

  /** Relay pairs on their way back to the main thread. */
  function ReturnedAfter(s: State, e: Event): nat {
    if Returns(s, e) then 0
    else if e.RelayGivesUp? && s.host.relay.Waiting? && (s.host.stop || s.host.raceWon) then s.host.returned + 1
    else if Enters(s, e) && s.host.returned > 0 then s.host.returned - 1
    else s.host.returned
  }

  /** A relay pair is let go by a racer whose tunnel fails, by a switch whose ACK fails, and on return. */
  function DroppedAfter(s: State, e: Event): nat {
    s.host.dropped
    + if Returns(s, e) then RelayCount(s.host.winners) + s.host.returned + MainHolds(s.host.main)
      else if e.RelayDisconnects? && s.host.relay.Waiting? then 1
      else if e.RelayAcks? && s.host.relay.Handshake? && !e.ok then 1
      else if e.SwitchAcks? && s.host.main.Switching? && !e.ok then 1
      else 0
  }

  function HostAfter(s: State, e: Event): Host {
    Host(s.host.stop || e.Stop?,
         s.host.raceWon || (e.MainPicks? && s.host.main.Racing? && s.host.winners != []),
         UdpAfter(s, e), RelayAfter(s, e), WinnersAfter(s, e), ReturnedAfter(s, e), MainAfter(s, e), DroppedAfter(s, e),
         if Enters(s, e) then s.net.now + 3000 else s.host.graceUntil)
  }

  // ----- the client

  /** The client reads an ACK, in the race or in an attempt. */
  predicate ReadsAck(s: State, e: Event) {
    && s.net.toClient != [] && s.net.toClient[0] == Ack
    && ((e.ClientRelayReads? && s.client.phase.Seeking? && s.client.slot)
        || (e.AttemptReads? && s.client.phase.Attempting?))
  }

  function PhaseAfter(s: State, e: Event): Phase {
    match s.client.phase
    case Idle => if e.ClientStarts? then Seeking else Idle
    case Seeking =>
      if e.ClientUdpAck? && s.net.udpAck then (if e.sessionOk then Connected(Udp) else Done)
      else if ReadsAck(s, e) then Connected(Relay)
      else if e.ClientRaceEnds? then Done
      else Seeking
    case Connected(on) =>
      if e.ClientEnds? then Done
      else if e.AttemptStarts? && e.sendOk && on.Udp? && s.client.slot then Attempting(s.net.now + 1500)
      else Connected(on)
    case Attempting(deadline) =>
      if ReadsAck(s, e) then Connected(Relay)
      else if e.AttemptEnds? && s.net.now >= deadline then Connected(Udp)
      else Attempting(deadline)
    case Done => Done
  }

  function ClientAfter(s: State, e: Event): Client {
    Client(PhaseAfter(s, e), s.client.slot && !ReadsAck(s, e), s.client.had)
  }

  // ----- what is on its way

  /** A HELLO is sent over the relay when the client starts and with every attempt. */
  predicate SendsHello(s: State, e: Event) {
    s.client.slot && ((e.ClientStarts? && s.client.phase.Idle?)
                      || (e.AttemptStarts? && e.sendOk && s.client.phase == Connected(Udp)))
  }

  /** The host takes one message from the relay: in the race, in a poll, whatever the time, or in its session. */
  predicate HostTakes(s: State, e: Event) {
    && s.net.toHost != []
    && (|| (e.RelayReads? && s.host.relay.Waiting?)
        || (e.Poll? && s.host.main == Encoding(Udp, true))
        || (e.HostReads? && s.host.main.Encoding? && s.host.main.on.Relay?))
  }

  function ToHostAfter(s: State, e: Event): seq<Msg> {
    if HostTakes(s, e) then s.net.toHost[1..]
    else if Enters(s, e) && s.host.returned > 0 then []
    else if SendsHello(s, e) then s.net.toHost + [Hello]
    else if e.ClientSends? && s.client.phase == Connected(Relay) then s.net.toHost + [Other]
    else s.net.toHost
  }

  /** An ACK is sent over the relay in the race and in a switch. */
  predicate SendsAck(s: State, e: Event) {
    (e.RelayAcks? && e.ok && s.host.relay.Handshake?) || (e.SwitchAcks? && e.ok && s.host.main.Switching?)
  }

  predicate ClientTakes(s: State, e: Event) {
    && s.net.toClient != []
    && (|| (e.ClientRelayReads? && s.client.phase.Seeking? && s.client.slot)
        || (e.AttemptReads? && s.client.phase.Attempting?)
        || (e.ClientReads? && s.client.phase == Connected(Relay)))
  }

  function ToClientAfter(s: State, e: Event): seq<Msg> {
    if ClientTakes(s, e) then s.net.toClient[1..]
    else if SendsAck(s, e) then s.net.toClient + [Ack]
    else if e.HostSends? && s.host.main.Encoding? && s.host.main.on.Relay? then s.net.toClient + [Other]
    else s.net.toClient
  }

  function NetAfter(s: State, e: Event): Net {
    Net(ToHostAfter(s, e), ToClientAfter(s, e),
        s.net.udpHello || (e.ClientStarts? && s.client.phase.Idle?),
        s.net.udpAck || (e.UdpAcks? && e.ok && s.host.udp.Handshake?),
        s.net.now + if e.Tick? then e.ms else 0)
  }

  // ----- both readings agree

  predicate UdpEvent(e: Event) {
    e.UdpGivesUp? || e.UdpFails? || e.UdpHello? || e.UdpAcks? || e.UdpReports?
  }

  lemma UdpAgreesHost(s: State, e: Event)
    requires UdpEvent(e)
    ensures UdpStep(s, e).host == HostAfter(s, e)
  {
    hide RelayCount, MainHolds;
  }

  lemma UdpAgreesClient(s: State, e: Event)
    requires UdpEvent(e)
    ensures UdpStep(s, e).client == ClientAfter(s, e)
  {
    hide RelayCount, MainHolds;
  }

  lemma UdpAgreesNet(s: State, e: Event)
    requires UdpEvent(e)
    ensures UdpStep(s, e).net == NetAfter(s, e)
  {
    hide RelayCount, MainHolds;
  }

  predicate RelayEvent(e: Event) {
    e.RelayGivesUp? || e.RelayReads? || e.RelayDisconnects? || e.RelayAcks? || e.RelayReports?
  }

  lemma RelayAgreesHost(s: State, e: Event)
    requires RelayEvent(e)
    ensures RelayStep(s, e).host == HostAfter(s, e)
  {
    hide RelayCount, MainHolds;
  }

  lemma RelayAgreesClient(s: State, e: Event)
    requires RelayEvent(e)
    ensures RelayStep(s, e).client == ClientAfter(s, e)
  {
    hide RelayCount, MainHolds;
  }

  lemma RelayAgreesNet(s: State, e: Event)
    requires RelayEvent(e)
    ensures RelayStep(s, e).net == NetAfter(s, e)
  {
    hide RelayCount, MainHolds;
  }

  predicate MainEvent(e: Event) {
    e.MainPicks? || e.MainCancels? || e.MainJoins? || e.LoopEnds?
  }

  lemma MainAgreesHost(s: State, e: Event)
    requires MainEvent(e)
    requires s.host.returned <= 1
    ensures MainStep(s, e).host == HostAfter(s, e)
  {
    hide RelayCount, MainHolds;
  }

  lemma MainAgreesClient(s: State, e: Event)
    requires MainEvent(e)
    ensures MainStep(s, e).client == ClientAfter(s, e)
  {
    hide RelayCount, MainHolds;
  }

  lemma MainAgreesNet(s: State, e: Event)
    requires MainEvent(e)
    requires s.host.returned <= 1
    ensures MainStep(s, e).net == NetAfter(s, e)
  {
    hide RelayCount, MainHolds;
  }

  predicate LoopEvent(e: Event) {
    e.Poll? || e.SwitchAcks? || e.SwitchMoves? || e.HostReads? || e.HostSends?
  }

  lemma LoopAgreesHost(s: State, e: Event)
    requires LoopEvent(e)
    ensures LoopStep(s, e).host == HostAfter(s, e)
  {
    hide RelayCount, MainHolds;
  }

  lemma LoopAgreesClient(s: State, e: Event)
    requires LoopEvent(e)
    ensures LoopStep(s, e).client == ClientAfter(s, e)
  {
    hide RelayCount, MainHolds;
  }

  lemma LoopAgreesNet(s: State, e: Event)
    requires LoopEvent(e)
    ensures LoopStep(s, e).net == NetAfter(s, e)
  {
    hide RelayCount, MainHolds;
  }

  predicate ClientEvent(e: Event) {
    e.ClientStarts? || e.ClientUdpAck? || e.ClientRelayReads? || e.ClientRaceEnds?
    || e.ClientSends? || e.ClientReads? || e.ClientEnds?
  }

  lemma ClientAgreesHost(s: State, e: Event)
    requires ClientEvent(e)
    ensures ClientStep(s, e).host == HostAfter(s, e)
  {
    hide RelayCount, MainHolds;
  }

  lemma ClientAgreesClient(s: State, e: Event)
    requires ClientEvent(e)
    ensures ClientStep(s, e).client == ClientAfter(s, e)
  {
    hide RelayCount, MainHolds;
  }

  lemma ClientAgreesNet(s: State, e: Event)
    requires ClientEvent(e)
    ensures ClientStep(s, e).net == NetAfter(s, e)
  {
    hide RelayCount, MainHolds;
  }

  predicate AttemptEvent(e: Event) {
    e.AttemptStarts? || e.AttemptReads? || e.AttemptEnds?
  }

  lemma AttemptAgreesHost(s: State, e: Event)
    requires AttemptEvent(e)
    ensures AttemptStep(s, e).host == HostAfter(s, e)
  {
    hide RelayCount, MainHolds;
  }

  lemma AttemptAgreesClient(s: State, e: Event)
    requires AttemptEvent(e)
    ensures AttemptStep(s, e).client == ClientAfter(s, e)
  {
    hide RelayCount, MainHolds;
  }

  lemma AttemptAgreesNet(s: State, e: Event)
    requires AttemptEvent(e)
    ensures AttemptStep(s, e).net == NetAfter(s, e)
  {
    hide RelayCount, MainHolds;
  }

  lemma ClockAgrees(s: State, e: Event)
    ensures var t := Next(s, e);
            e.Tick? || e.Stop? ==>
              t.host == HostAfter(s, e) && t.client == ClientAfter(s, e) && t.net == NetAfter(s, e)
  {
    hide RelayCount, MainHolds;
  }

  /** In every run, whatever step comes next, every component changes as the table says. */
  lemma TableAgrees(had: bool, events: seq<Event>, e: Event)
    ensures var s := Run(Init(had), events);
            var t := Run(Init(had), events + [e]);
            t.host == HostAfter(s, e) && t.client == ClientAfter(s, e) && t.net == NetAfter(s, e)
  {
    hide Run, UdpStep, RelayStep, MainStep, LoopStep, ClientStep, AttemptStep, HostAfter, ClientAfter, NetAfter;
    var s := Run(Init(had), events);
    RunKeeps(Init(had), events);
    OneReturned(s);
    RunSnoc(Init(had), events, e);
    if UdpEvent(e) {
      UdpAgreesHost(s, e);
      UdpAgreesClient(s, e);
      UdpAgreesNet(s, e);
    }
    if RelayEvent(e) {
      RelayAgreesHost(s, e);
      RelayAgreesClient(s, e);
      RelayAgreesNet(s, e);
    }
    if MainEvent(e) {
      MainAgreesHost(s, e);
      MainAgreesClient(s, e);
      MainAgreesNet(s, e);
    }
    if LoopEvent(e) {
      LoopAgreesHost(s, e);
      LoopAgreesClient(s, e);
      LoopAgreesNet(s, e);
    }
    if ClientEvent(e) {
      ClientAgreesHost(s, e);
      ClientAgreesClient(s, e);
      ClientAgreesNet(s, e);
    }
    if AttemptEvent(e) {
      AttemptAgreesHost(s, e);
      AttemptAgreesClient(s, e);
      AttemptAgreesNet(s, e);
    }
    ClockAgrees(s, e);
  }

  lemma OneReturned(s: State)
    requires Inv(s)
    ensures s.host.returned <= 1
  {
  }

  lemma {:induction false} RunSnoc(s: State, events: seq<Event>, e: Event)
    ensures Run(s, events + [e]) == Next(Run(s, events), e)
    decreases |events|
  {
    hide Next;
    if events == [] {
      assert [] + [e] == [e] && [e][1..] == [];
    } else {
      assert (events + [e])[1..] == events[1..] + [e];
      RunSnoc(Next(s, events[0]), events[1..], e);
    }
  }
}
