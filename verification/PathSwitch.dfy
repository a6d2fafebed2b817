/** The race between the UDP and the relay path at the start of a session, and the later switch from UDP to
    the relay, as a state machine over the steps of the host's three threads and of the client. The relay
    channel pair of each side is a resource that has an owner. */
module PathSwitch {

  datatype Path = Udp | Relay

  /** What the relay tunnel carries, as far as these steps look at it. */
  datatype Msg = Hello | Ack | Other

  /** A racer thread: waiting for HELLO, about to acknowledge, acknowledged but not reported, gone. */
  datatype Racer = Waiting | Handshake | Acked | Exited

  /** The host's main thread. `fallback` is a relay pair kept for a later switch; while switching, the pair
      is in the hands of the poll, before and after its ACK was queued. */
  datatype Main =
    | Racing
    | Joining(won: Path)
    | Encoding(on: Path, fallback: bool)
    | Switching
    | SwitchAcked
    | Over

  /** `winners` and `returned` are the two channels from the racers to the main thread; `dropped` counts
      relay pairs that were let go. */
  datatype Host = Host(
    stop: bool, raceWon: bool, udp: Racer, relay: Racer,
    winners: seq<Path>, returned: nat, main: Main, dropped: nat, graceUntil: nat)

  datatype Phase = Idle | Seeking | Connected(on: Path) | Attempting(deadline: nat) | Done

  /** `slot` tells whether the client's relay pair is in its slot, `had` whether it was given one. */
  datatype Client = Client(phase: Phase, slot: bool, had: bool)

  /** Relay messages are queued in order; a UDP datagram that was sent may be read any number of times or
      never. Time is in milliseconds. */
  datatype Net = Net(toHost: seq<Msg>, toClient: seq<Msg>, udpHello: bool, udpAck: bool, now: nat)

  /** What has happened so far. */
  datatype History = History(entered: nat, enteredAt: nat, switches: nat, switchedAt: nat,
                             raceAcks: nat, switchAcks: nat, hellos: nat)

  datatype State = State(host: Host, client: Client, net: Net, hist: History)

  const GRACE_MS: nat := 3000
  const ATTEMPT_MS: nat := 1500

  /** The steps. Flags are the answers of the operating system or of a channel. */
  datatype Event =
    | Tick(ms: nat)
    | Stop
    // UDP racer
    | UdpGivesUp | UdpFails | UdpHello(sessionOk: bool) | UdpAcks(ok: bool) | UdpReports
    // relay racer
    | RelayGivesUp | RelayReads | RelayDisconnects | RelayAcks(ok: bool) | RelayReports
    // main thread
    | MainPicks | MainCancels | MainJoins
    | Poll | SwitchAcks(ok: bool) | SwitchMoves | HostReads | HostSends | LoopEnds
    // client
    | ClientStarts | ClientUdpAck(sessionOk: bool) | ClientRelayReads | ClientRaceEnds
    | AttemptStarts(sendOk: bool) | AttemptReads | AttemptEnds | ClientSends | ClientReads | ClientEnds

  function Init(had: bool): State {
    State(Host(false, false, Waiting, Waiting, [], 0, Racing, 0, 0), Client(Idle, had, had),
          Net([], [], false, false, 0), History(0, 0, 0, 0, 0, 0, 0))
  }

  predicate ShouldStop(h: Host) {
    h.stop || h.raceWon
  }

  // ----- the racers

  function UdpStep(s: State, e: Event): State {
    var h := s.host;
    match e
    case UdpGivesUp => if h.udp.Waiting? && ShouldStop(h) then s.(host := h.(udp := Exited)) else s
    case UdpFails => if h.udp.Waiting? then s.(host := h.(udp := Exited)) else s
    case UdpHello(sessionOk) =>
      if h.udp.Waiting? && s.net.udpHello then s.(host := h.(udp := if sessionOk then Handshake else Exited)) else s
    case UdpAcks(ok) =>
      if !h.udp.Handshake? then s
      else if ok then s.(host := h.(udp := Acked), net := s.net.(udpAck := true))
      else s.(host := h.(udp := Exited))
    case UdpReports =>
      if h.udp.Acked? then s.(host := h.(udp := Exited, winners := h.winners + [Udp])) else s
    case _ => s
  }

  /** The relay racer hands its pair back when the race is decided, keeps it in its session when it
      acknowledges, and loses it when the tunnel is gone or the ACK cannot be sent. */
  function RelayStep(s: State, e: Event): State {
    var h := s.host;
    match e
    case RelayGivesUp =>
      if h.relay.Waiting? && ShouldStop(h) then s.(host := h.(relay := Exited, returned := h.returned + 1)) else s
    case RelayReads =>
      if h.relay.Waiting? && s.net.toHost != [] then
        s.(net := s.net.(toHost := s.net.toHost[1..]),
           host := h.(relay := if s.net.toHost[0].Hello? then Handshake else Waiting))
      else s
    case RelayDisconnects =>
      if h.relay.Waiting? then s.(host := h.(relay := Exited, dropped := h.dropped + 1)) else s
    case RelayAcks(ok) =>
      if !h.relay.Handshake? then s
      else if ok then
        s.(host := h.(relay := Acked), net := s.net.(toClient := s.net.toClient + [Ack]),
           hist := s.hist.(raceAcks := s.hist.raceAcks + 1))
      else s.(host := h.(relay := Exited, dropped := h.dropped + 1))
    case RelayReports =>
      if h.relay.Acked? then s.(host := h.(relay := Exited, winners := h.winners + [Relay])) else s
    case _ => s
  }

  // ----- the main thread

  function RelayCount(paths: seq<Path>): nat {
    if paths == [] then 0 else (if paths[0].Relay? then 1 else 0) + RelayCount(paths[1..])
  }

  /** Relay pairs that the main thread holds. */
  function MainHolds(m: Main): nat {
    match m
    case Joining(won) => if won.Relay? then 1 else 0
    case Encoding(on, fallback) => (if on.Relay? then 1 else 0) + (if fallback then 1 else 0)
    case Switching => 1
    case SwitchAcked => 1
    case _ => 0
  }

  /** Leaving the function drops everything it still owns, its channels' contents included. */
  function EndMain(h: Host): Host {
    h.(main := Over, winners := [], returned := 0,
       dropped := h.dropped + RelayCount(h.winners) + h.returned + MainHolds(h.main))
  }

  function MainStep(s: State, e: Event): State {
    var h := s.host;
    match e
    case MainPicks =>
      if h.main.Racing? && h.winners != [] then
        s.(host := h.(main := Joining(h.winners[0]), winners := h.winners[1..], raceWon := true))
      else s
    case MainCancels =>
      if h.main.Racing? && h.winners == [] && h.udp.Exited? && h.relay.Exited? then s.(host := EndMain(h)) else s
    case MainJoins =>
      if h.main.Joining? && h.udp.Exited? && h.relay.Exited? then
        var fallback := h.returned > 0;
        s.(host := h.(main := Encoding(h.main.won, fallback), returned := if fallback then h.returned - 1 else 0,
                      graceUntil := s.net.now + GRACE_MS),
           net := s.net.(toHost := if fallback then [] else s.net.toHost),
           hist := s.hist.(entered := s.hist.entered + 1, enteredAt := s.net.now))
      else s
    case LoopEnds => if h.main.Encoding? then s.(host := EndMain(h)) else s
    case _ => s
  }

  /** The poll of the encode loop, and ordinary traffic on a relay session. */
  function LoopStep(s: State, e: Event): State {
    var h := s.host;
    match e
    case Poll =>
      if h.main == Encoding(Udp, true) && s.net.toHost != [] then
        s.(net := s.net.(toHost := s.net.toHost[1..]),
           host := if s.net.now >= h.graceUntil && s.net.toHost[0].Hello? then h.(main := Switching) else h)
      else s
    case SwitchAcks(ok) =>
      if !h.main.Switching? then s
      else if ok then
        s.(host := h.(main := SwitchAcked), net := s.net.(toClient := s.net.toClient + [Ack]),
           hist := s.hist.(switchAcks := s.hist.switchAcks + 1))
      else s.(host := h.(main := Encoding(Udp, false), dropped := h.dropped + 1))
    case SwitchMoves =>
      if h.main.SwitchAcked? then
        s.(host := h.(main := Encoding(Relay, false)),
           hist := s.hist.(switches := s.hist.switches + 1, switchedAt := s.net.now))
      else s
    case HostReads =>
      if h.main.Encoding? && h.main.on.Relay? && s.net.toHost != [] then
        s.(net := s.net.(toHost := s.net.toHost[1..]))
      else s
    case HostSends =>
      if h.main.Encoding? && h.main.on.Relay? then s.(net := s.net.(toClient := s.net.toClient + [Other])) else s
    case _ => s
  }

  // ----- the client

  function ClientStep(s: State, e: Event): State {
    var c := s.client;
    match e
    case ClientStarts =>
      if c.phase.Idle? then
        s.(client := c.(phase := Seeking),
           net := s.net.(udpHello := true, toHost := if c.slot then s.net.toHost + [Hello] else s.net.toHost),
           hist := s.hist.(hellos := s.hist.hellos + if c.slot then 1 else 0))
      else s
    case ClientUdpAck(sessionOk) =>
      if c.phase.Seeking? && s.net.udpAck then s.(client := c.(phase := if sessionOk then Connected(Udp) else Done))
      else s
    case ClientRelayReads =>
      if c.phase.Seeking? && c.slot && s.net.toClient != [] then
        s.(net := s.net.(toClient := s.net.toClient[1..]),
           client := if s.net.toClient[0].Ack? then c.(phase := Connected(Relay), slot := false) else c)
      else s
    case ClientRaceEnds => if c.phase.Seeking? then s.(client := c.(phase := Done)) else s
    case ClientSends =>
      if c.phase == Connected(Relay) then s.(net := s.net.(toHost := s.net.toHost + [Other])) else s
    case ClientReads =>
      if c.phase == Connected(Relay) && s.net.toClient != [] then
        s.(net := s.net.(toClient := s.net.toClient[1..]))
      else s
    case ClientEnds => if c.phase.Connected? then s.(client := c.(phase := Done)) else s
    case _ => s
  }

  /** `attempt_switch_to_relay`: the pair leaves its slot only once an ACK was read. */
  function AttemptStep(s: State, e: Event): State {
    var c := s.client;
    match e
    case AttemptStarts(sendOk) =>
      if c.phase == Connected(Udp) && c.slot && sendOk then
        s.(client := c.(phase := Attempting(s.net.now + ATTEMPT_MS)), net := s.net.(toHost := s.net.toHost + [Hello]),
           hist := s.hist.(hellos := s.hist.hellos + 1))
      else s
    case AttemptReads =>
      if c.phase.Attempting? && s.net.toClient != [] then
        s.(net := s.net.(toClient := s.net.toClient[1..]),
           client := if s.net.toClient[0].Ack? then c.(phase := Connected(Relay), slot := false) else c)
      else s
    case AttemptEnds =>
      if c.phase.Attempting? && s.net.now >= c.phase.deadline then s.(client := c.(phase := Connected(Udp))) else s
    case _ => s
  }

  /** One step; an event that is not possible in a state leaves it as it is. */
  function Next(s: State, e: Event): State {
    match e
    case Tick(ms) => s.(net := s.net.(now := s.net.now + ms))
    case Stop => s.(host := s.host.(stop := true))
    case UdpGivesUp | UdpFails | UdpHello(_) | UdpAcks(_) | UdpReports => UdpStep(s, e)
    case RelayGivesUp | RelayReads | RelayDisconnects | RelayAcks(_) | RelayReports => RelayStep(s, e)
    case MainPicks | MainCancels | MainJoins | LoopEnds => MainStep(s, e)
    case Poll | SwitchAcks(_) | SwitchMoves | HostReads | HostSends => LoopStep(s, e)
    case AttemptStarts(_) | AttemptReads | AttemptEnds => AttemptStep(s, e)
    case ClientStarts | ClientUdpAck(_) | ClientRelayReads | ClientRaceEnds | ClientSends | ClientReads | ClientEnds =>
      ClientStep(s, e)
  }

  /** The state after any interleaving of steps. */
  function Run(s: State, events: seq<Event>): State
    decreases |events|
  {
    if events == [] then s else Run(Next(s, events[0]), events[1..])
  }

  // ----- what every step keeps

  /** Owners of the host's relay pair, apart from `dropped`. */
  function Owners(h: Host): nat {
    (if h.relay.Exited? then 0 else 1) + RelayCount(h.winners) + h.returned + MainHolds(h.main)
  }

  predicate OneOwner(h: Host) {
    Owners(h) + h.dropped == 1
  }

  predicate InLoop(m: Main) {
    m.Encoding? || m.Switching? || m.SwitchAcked?
  }

  /** At most one session has entered the encode loop, and only after both racers are gone. */
  predicate OneSession(s: State) {
    var m := s.host.main;
    && (m.Racing? || m.Joining? ==> s.hist.entered == 0)
    && (InLoop(m) ==> s.hist.entered == 1 && s.host.returned == 0)
    && s.hist.entered <= 1
    && (InLoop(m) || m.Over? ==> s.host.udp.Exited? && s.host.relay.Exited?)
    && (m.Racing? ==> !s.host.raceWon)
  }

  /** The relay racer's ACK and the switch's ACK exclude each other. */
  predicate AcksKnown(s: State) {
    var h := s.host;
    && s.hist.raceAcks <= 1 && s.hist.switchAcks <= 1 && s.hist.raceAcks + s.hist.switchAcks <= 1
    && (h.relay.Waiting? || h.relay.Handshake? ==> s.hist.raceAcks == 0)
    && (h.relay.Acked? || RelayCount(h.winners) > 0 || h.main == Joining(Relay) ==> s.hist.raceAcks == 1)
    && (h.returned > 0 || (h.main.Encoding? && h.main.fallback) || h.main.Switching? ==>
          s.hist.raceAcks == 0 && s.hist.switchAcks == 0)
    && (h.main.Racing? || h.main.Joining? ==> s.hist.switchAcks == 0)
    && ((h.main.Racing? || h.main.Joining?) && s.hist.raceAcks == 1 ==>
          h.relay.Acked? || RelayCount(h.winners) > 0 || h.main == Joining(Relay))
  }

  predicate Switched(s: State) {
    s.hist.switches == 1
  }

  /** A switch happens at most once, after the grace window, and after its ACK was queued. */
  predicate SwitchKnown(s: State) {
    var h := s.host;
    && s.hist.switches <= s.hist.switchAcks
    && (h.main.SwitchAcked? ==> s.hist.switchAcks == 1 && s.hist.switches == 0)
    && (s.hist.switchAcks == 1 ==> h.main.SwitchAcked? || Switched(s))
    && (Switched(s) ==> h.main == Encoding(Relay, false) || h.main.Over?)
    && (h.main == Encoding(Relay, false) ==> s.hist.raceAcks == 1 || Switched(s))
    && h.main != Encoding(Relay, true)
    && (s.hist.entered == 1 ==> h.graceUntil == s.hist.enteredAt + GRACE_MS)
    && (s.hist.entered == 0 ==> s.hist.switchAcks == 0)
    && (h.main.Switching? || h.main.SwitchAcked? ==> s.net.now >= h.graceUntil)
    && (Switched(s) ==> s.hist.switchedAt >= h.graceUntil)
  }

  /** Where a session on the UDP path without a fallback can stand while the relay racer has acknowledged. */
  predicate UdpSessionKnown(s: State) {
    s.host.main.Encoding? && s.host.main.on.Udp? && s.hist.raceAcks == 1 ==>
      !s.host.main.fallback && RelayCount(s.host.winners) == 1
  }

  /** ACKs and HELLOs on the relay come from somewhere. */
  predicate MessagesKnown(s: State) {
    && (Ack in s.net.toClient || s.client.phase == Connected(Relay) ==> s.hist.raceAcks + s.hist.switchAcks == 1)
    && (s.hist.raceAcks + s.hist.switchAcks == 1 ==>
          Ack in s.net.toClient || s.client.phase == Connected(Relay) || s.client.phase.Done?)
    && (Hello in s.net.toHost || s.host.relay.Handshake? || s.host.main.Switching? ==> s.hist.hellos > 0)
    && (s.hist.raceAcks + s.hist.switchAcks > 0 ==> s.hist.hellos > 0)
    && (s.hist.hellos > 0 ==> s.client.had)
  }

  /** The client's pair is in its slot until its session owns it. */
  predicate ClientKnown(c: Client) {
    && (c.phase.Idle? || c.phase.Seeking? || c.phase == Connected(Udp) ==> c.slot == c.had)
    && (c.phase.Attempting? ==> c.slot && c.had)
    && (c.phase == Connected(Relay) ==> !c.slot && c.had)
  }

  predicate Inv(s: State) {
    && OneOwner(s.host) && OneSession(s) && AcksKnown(s) && SwitchKnown(s) && UdpSessionKnown(s)
    && MessagesKnown(s) && ClientKnown(s.client)
  }

  lemma {:induction false} RelayCountSnoc(paths: seq<Path>, p: Path)
    ensures RelayCount(paths + [p]) == RelayCount(paths) + if p.Relay? then 1 else 0
  {
    if paths == [] {
      assert [] + [p] == [p] && [p][1..] == [];
    } else {
      RelayCountSnoc(paths[1..], p);
      assert (paths + [p])[1..] == paths[1..] + [p];
    }
  }

  lemma UdpReported(s: State)
    requires Inv(s) && s.host.udp.Acked?
    ensures Inv(s.(host := s.host.(udp := Exited, winners := s.host.winners + [Udp])))
  {
    hide RelayCount;
    RelayCountSnoc(s.host.winners, Udp);
  }

  lemma UdpMoved(s: State, udp: Racer, ack: bool)
    requires Inv(s) && !s.host.udp.Exited?
    ensures Inv(s.(host := s.host.(udp := udp), net := s.net.(udpAck := ack)))
  {
    hide RelayCount;
  }

  lemma UdpKeeps(s: State, e: Event)
    requires Inv(s)
    ensures Inv(UdpStep(s, e))
  {
    hide Inv;
    var s' := UdpStep(s, e);
    if s' != s {
      if e.UdpReports? {
        UdpReported(s);
      } else {
        UdpMoved(s, s'.host.udp, s'.net.udpAck);
      }
    }
  }

  lemma RelayKeeps(s: State, e: Event)
    requires Inv(s)
    ensures Inv(RelayStep(s, e))
  {
    hide RelayCount;
    RelayCountSnoc(s.host.winners, Relay);
    RelayCountSnoc(s.host.winners, Udp);
  }

  lemma MainKeeps(s: State, e: Event)
    requires Inv(s)
    ensures Inv(MainStep(s, e))
  {
  }

  lemma LoopKeeps(s: State, e: Event)
    requires Inv(s)
    ensures Inv(LoopStep(s, e))
  {
  }

  lemma ClientKeeps(s: State, e: Event)
    requires Inv(s)
    ensures Inv(ClientStep(s, e))
  {
  }

  lemma AttemptKeeps(s: State, e: Event)
    requires Inv(s)
    ensures Inv(AttemptStep(s, e))
  {
  }

  lemma ClockKeeps(s: State, ms: nat)
    requires Inv(s)
    ensures Inv(s.(net := s.net.(now := s.net.now + ms))) && Inv(s.(host := s.host.(stop := true)))
  {
    hide RelayCount;
  }

  lemma NextKeeps(s: State, e: Event)
    requires Inv(s)
    ensures Inv(Next(s, e))
  {
    hide UdpStep, RelayStep, MainStep, LoopStep, ClientStep, AttemptStep, Inv;
    ClockKeeps(s, if e.Tick? then e.ms else 0);
    UdpKeeps(s, e);
    RelayKeeps(s, e);
    MainKeeps(s, e);
    LoopKeeps(s, e);
    ClientKeeps(s, e);
    AttemptKeeps(s, e);
  }

  lemma {:induction false} RunKeeps(s: State, events: seq<Event>)
    requires Inv(s)
    ensures Inv(Run(s, events))
    decreases |events|
  {
    hide Inv, Next;
    if events != [] {
      NextKeeps(s, events[0]);
      RunKeeps(Next(s, events[0]), events[1..]);
    }
  }

  // ----- what holds in every interleaving

  /** At most one session enters the encode loop; the relay pair has one owner or was dropped; the host
      switches at most once, three seconds or more after entering the loop, and never without having
      queued its only relay ACK in answer to a HELLO. */
  lemma HostIsSafe(had: bool, events: seq<Event>)
    ensures var s := Run(Init(had), events);
            && s.hist.entered <= 1
            && Owners(s.host) + s.host.dropped == 1
            && s.hist.switches <= s.hist.switchAcks <= 1
            && s.hist.raceAcks + s.hist.switchAcks <= 1
            && (s.hist.switches == 1 ==> s.hist.switchedAt >= s.hist.enteredAt + GRACE_MS)
            && (s.hist.raceAcks + s.hist.switchAcks == 1 ==> s.hist.hellos > 0)
  {
    hide Run;
    RunKeeps(Init(had), events);
  }

  /** A client on UDP still has the pair it was given, whatever attempts have failed, and can try again. */
  lemma ClientCanRetry(had: bool, events: seq<Event>)
    ensures var s := Run(Init(had), events);
            && (s.client.phase == Connected(Udp) ==> s.client.slot == had)
            && (s.client.phase == Connected(Udp) && had ==> Next(s, AttemptStarts(true)).client.phase.Attempting?)
            && (s.client.phase == Connected(Relay) ==> !s.client.slot)
  {
    hide Run, Inv;
    StartsSafe(had);
    RunKeeps(Init(had), events);
    HadStays(Init(had), events);
    var s := Run(Init(had), events);
    ClientPair(s);
    if s.client.phase == Connected(Udp) {
      AttemptPossible(s);
    }
  }

  lemma StartsSafe(had: bool)
    ensures Inv(Init(had))
  {
  }

  lemma ClientPair(s: State)
    requires Inv(s)
    ensures ClientKnown(s.client)
  {
  }

  lemma AttemptPossible(s: State)
    requires s.client.phase == Connected(Udp)
    ensures s.client.slot ==> Next(s, AttemptStarts(true)).client.phase.Attempting?
  {
  }

  lemma {:induction false} HadStays(s: State, events: seq<Event>)
    ensures Run(s, events).client.had == s.client.had
    decreases |events|
  {
    if events != [] {
      HadStays(Next(s, events[0]), events[1..]);
    }
  }

  /** A client on the relay is matched by a host that has switched or is about to, or that has left the
      loop, unless the relay racer had acknowledged in the race. */
  lemma ClientOnRelay(had: bool, events: seq<Event>)
    ensures var s := Run(Init(had), events);
            s.client.phase == Connected(Relay) ==>
              || s.hist.raceAcks == 1
              || s.host.main.SwitchAcked?
              || (s.hist.switches == 1 && (s.host.main == Encoding(Relay, false) || s.host.main.Over?))
  {
    hide Run;
    RunKeeps(Init(had), events);
  }

  /** The two sides can be on different paths with the client on the relay only when both racers
      acknowledged: then the relay session lies unread among the winners and the host has no fallback. */
  lemma DisagreementNeedsTwoAcks(had: bool, events: seq<Event>)
    ensures var s := Run(Init(had), events);
            s.client.phase == Connected(Relay) && s.host.main.Encoding? && s.host.main.on.Udp? ==>
              s.hist.raceAcks == 1 && !s.host.main.fallback && RelayCount(s.host.winners) == 1
  {
    hide Run;
    RunKeeps(Init(had), events);
  }

  /** A host on UDP without a fallback never reaches the relay. */
  lemma {:induction false} StrandedForever(s: State, events: seq<Event>)
    requires s.host.main == Encoding(Udp, false) || s.host.main.Over?
    ensures var m := Run(s, events).host.main; m == Encoding(Udp, false) || m.Over?
    decreases |events|
  {
    if events != [] {
      StrandedForever(Next(s, events[0]), events[1..]);
    }
  }

  /** The host encodes on UDP and has no fallback left; the client has its pair and is not on the relay. */
  predicate UdpWithoutFallback(s: State) {
    && Inv(s) && s.host.main == Encoding(Udp, false) && s.client.slot
    && (s.client.phase.Seeking? || s.client.phase.Attempting? || s.client.phase == Connected(Udp))
  }

  /** No ACK is on its way to the client and the host can queue none. */
  predicate NoMoreAcks(s: State) {
    && (s.host.main == Encoding(Udp, false) || s.host.main.Over?)
    && s.host.relay.Exited? && Ack !in s.net.toClient && s.client.phase != Connected(Relay)
  }

  lemma NoAckRacers(s: State, e: Event)
    requires NoMoreAcks(s)
    ensures NoMoreAcks(UdpStep(s, e)) && NoMoreAcks(RelayStep(s, e))
  {
  }

  lemma NoAckMain(s: State, e: Event)
    requires NoMoreAcks(s)
    ensures NoMoreAcks(MainStep(s, e)) && NoMoreAcks(LoopStep(s, e))
  {
    hide RelayCount;
  }

  lemma NoAckClient(s: State, e: Event)
    requires NoMoreAcks(s)
    ensures NoMoreAcks(ClientStep(s, e)) && NoMoreAcks(AttemptStep(s, e))
  {
  }

  lemma NoAckClock(s: State, ms: nat)
    requires NoMoreAcks(s)
    ensures NoMoreAcks(s.(net := s.net.(now := s.net.now + ms))) && NoMoreAcks(s.(host := s.host.(stop := true)))
  {
  }

  lemma NoAckStep(s: State, e: Event)
    requires NoMoreAcks(s)
    ensures NoMoreAcks(Next(s, e))
  {
    hide NoMoreAcks, UdpStep, RelayStep, MainStep, LoopStep, ClientStep, AttemptStep;
    NoAckClock(s, if e.Tick? then e.ms else 0);
    NoAckRacers(s, e);
    NoAckMain(s, e);
    NoAckClient(s, e);
  }

  lemma {:induction false} NoAckNoSwitch(s: State, events: seq<Event>)
    requires NoMoreAcks(s)
    ensures NoMoreAcks(Run(s, events))
    decreases |events|
  {
    hide Next, NoMoreAcks;
    if events != [] {
      NoAckStep(s, events[0]);
      NoAckNoSwitch(Next(s, events[0]), events[1..]);
    }
  }

  /** A client that listens to the relay, in the race or in an attempt, reads on until it finds the ACK. */
  lemma {:induction false} ReadsUntilAck(s: State) returns (events: seq<Event>)
    requires s.client.phase.Attempting? || (s.client.phase.Seeking? && s.client.slot)
    requires Ack in s.net.toClient
    ensures Run(s, events).client.phase == Connected(Relay)
    decreases |s.net.toClient|
  {
    var read := if s.client.phase.Attempting? then AttemptReads else ClientRelayReads;
    if s.net.toClient[0].Ack? {
      events := [read];
      assert events[1..] == [];
    } else {
      var rest := ReadsUntilAck(Next(s, read));
      events := [read] + rest;
      assert events[1..] == rest;
    }
  }

  /** A client on UDP starts an attempt first. */
  lemma ReachesRelay(s: State) returns (events: seq<Event>)
    requires s.client.slot && Ack in s.net.toClient
    requires s.client.phase.Seeking? || s.client.phase.Attempting? || s.client.phase == Connected(Udp)
    ensures Run(s, events).client.phase == Connected(Relay)
  {
    hide Run;
    if s.client.phase == Connected(Udp) {
      var rest := ReadsUntilAck(Next(s, AttemptStarts(true)));
      events := [AttemptStarts(true)] + rest;
      assert events[1..] == rest;
      RunStep(s, events);
    } else {
      events := ReadsUntilAck(s);
    }
  }

  /** From there, in the race, in an attempt or connected, the client can still move to the relay, which the
      host never reads, exactly when an ACK of the race lies unread in its relay channel. */
  lemma SplitIffStaleAck(s: State)
    requires UdpWithoutFallback(s)
    ensures (exists events :: Run(s, events).client.phase == Connected(Relay)) <==> Ack in s.net.toClient
    ensures forall events :: var m := Run(s, events).host.main; m == Encoding(Udp, false) || m.Over?
  {
    hide Run;
    if Ack in s.net.toClient {
      var events := ReachesRelay(s);
      assert Run(s, events).client.phase == Connected(Relay);
    } else {
      forall events ensures Run(s, events).client.phase != Connected(Relay) {
        NoAckNoSwitch(s, events);
      }
    }
    forall events ensures var m := Run(s, events).host.main; m == Encoding(Udp, false) || m.Over? {
      StrandedForever(s, events);
    }
  }

  /** The mirror image: the host is on the relay, because its relay session won the race or because it has
      switched, or is about to be. In every run the client is then on the relay, or has ended, or the host's
      ACK lies unread in its channel and it can still follow. */
  lemma SwitchedAhead(had: bool, events: seq<Event>)
    ensures var s := Run(Init(had), events);
            s.host.main == Encoding(Relay, false) || s.host.main.SwitchAcked? || s.hist.switchAcks == 1 ==>
              || s.client.phase == Connected(Relay) || s.client.phase.Done?
              || (Ack in s.net.toClient && exists more :: Run(s, more).client.phase == Connected(Relay))
  {
    hide Run;
    RunKeeps(Init(had), events);
    HadStays(Init(had), events);
    var s := Run(Init(had), events);
    if (s.host.main == Encoding(Relay, false) || s.host.main.SwitchAcked? || s.hist.switchAcks == 1)
       && s.client.phase != Connected(Relay) && !s.client.phase.Done? {
      AckedClient(s);
      if s.client.phase.Idle? {
        var more := FromIdle(s);
        assert Run(s, more).client.phase == Connected(Relay);
      } else {
        var more := ReachesRelay(s);
        assert Run(s, more).client.phase == Connected(Relay);
      }
    }
  }

  /** A host that has acknowledged on the relay faces a client with a pair. */
  lemma AckedClient(s: State)
    requires Inv(s)
    requires s.host.main == Encoding(Relay, false) || s.host.main.SwitchAcked? || s.hist.switchAcks == 1
    requires s.client.phase != Connected(Relay) && !s.client.phase.Done?
    ensures Ack in s.net.toClient && s.client.slot
    ensures var p := s.client.phase; p.Idle? || p.Seeking? || p.Attempting? || p == Connected(Udp)
  {
    if s.client.phase.Connected? {
      assert s.client.phase.on.Udp?;
    }
  }

  lemma FromIdle(s: State) returns (events: seq<Event>)
    requires s.client.phase.Idle? && s.client.slot && Ack in s.net.toClient
    ensures Run(s, events).client.phase == Connected(Relay)
  {
    hide Run;
    var rest := ReachesRelay(Next(s, ClientStarts));
    events := [ClientStarts] + rest;
    assert events[1..] == rest;
    RunStep(s, events);
  }

  lemma RunStep(s: State, events: seq<Event>)
    requires events != []
    ensures Run(s, events) == Run(Next(s, events[0]), events[1..])
  {
  }

  /** Both racers acknowledge, both sides pick UDP, and the client later takes the race's relay ACK for
      the answer to its switch HELLO: it is on the relay and the host is not. */
  const STALE_ACK: seq<Event> := [
    ClientStarts, UdpHello(true), UdpAcks(true), RelayReads, RelayAcks(true), UdpReports, RelayReports,
    MainPicks, MainJoins, ClientUdpAck(true), AttemptStarts(true), AttemptReads]

  lemma StaleAckSplitsThePaths()
    ensures var s := Run(Init(true), STALE_ACK);
            s.client.phase == Connected(Relay) && s.host.main == Encoding(Udp, false)
  {
    hide Next, Run, Init, Settled, AfterRace;
    var race := RaceStates();
    var s8, s9 := SettlingStates();
    var s11, s12 := AttemptStates();
    var rest := [s8, s9, Settled(), s11, s12];
    var states := race + rest;
    forall i | 0 <= i < |STALE_ACK| ensures states[i + 1] == Next(states[i], STALE_ACK[i]) {
      if i >= 7 {
        assert states[i + 1] == rest[i - 7];
      }
    }
    RunUnrolls(Init(true), STALE_ACK, states);
  }

  /** The state after the race in which both racers have acknowledged and reported. */
  function AfterRace(): State {
    State(Host(false, false, Exited, Exited, [Udp, Relay], 0, Racing, 0, 0), Client(Seeking, true, true),
          Net([], [Ack], true, true, 0), History(0, 0, 0, 0, 1, 0, 1))
  }

  lemma RaceStates() returns (states: seq<State>)
    ensures |states| == 8 && states[0] == Init(true) && states[7] == AfterRace()
    ensures states[3] == State(Host(false, false, Acked, Waiting, [], 0, Racing, 0, 0), Client(Seeking, true, true),
                               Net([Hello], [], true, true, 0), History(0, 0, 0, 0, 0, 0, 1))
    ensures states[5] == State(Host(false, false, Acked, Acked, [], 0, Racing, 0, 0), Client(Seeking, true, true),
                               Net([], [Ack], true, true, 0), History(0, 0, 0, 0, 1, 0, 1))
    ensures forall i :: 0 <= i < 7 ==> states[i + 1] == Next(states[i], STALE_ACK[i])
  {
    var h, c := Init(true).host, Client(Seeking, true, true);
    var t := History(0, 0, 0, 0, 0, 0, 1);
    var s1 := State(h, c, Net([Hello], [], true, false, 0), t);
    var s2 := s1.(host := h.(udp := Handshake));
    var s3 := State(h.(udp := Acked), c, Net([Hello], [], true, true, 0), t);
    var s4 := State(h.(udp := Acked, relay := Handshake), c, Net([], [], true, true, 0), t);
    var s5 := State(h.(udp := Acked, relay := Acked), c, Net([], [Ack], true, true, 0), t.(raceAcks := 1));
    var s6 := s5.(host := h.(udp := Exited, relay := Acked, winners := [Udp]));
    states := [Init(true), s1, s2, s3, s4, s5, s6, AfterRace()];
  }

  /** The state once both sides have settled on UDP; the relay ACK is still unread. */
  function Settled(): State {
    State(Host(false, true, Exited, Exited, [Relay], 0, Encoding(Udp, false), 0, GRACE_MS),
          Client(Connected(Udp), true, true),
          Net([], [Ack], true, true, 0), History(1, 0, 0, 0, 1, 0, 1))
  }

  lemma SettlingStates() returns (s8: State, s9: State)
    ensures s8 == Next(AfterRace(), MainPicks) && s9 == Next(s8, MainJoins) && Settled() == Next(s9, ClientUdpAck(true))
    ensures s9 == Settled().(client := Client(Seeking, true, true))
  {
    var c, n := Client(Seeking, true, true), Net([], [Ack], true, true, 0);
    s8 := State(Host(false, true, Exited, Exited, [Relay], 0, Joining(Udp), 0, 0), c, n, History(0, 0, 0, 0, 1, 0, 1));
    s9 := Settled().(client := c);
  }

  lemma AttemptStates() returns (s11: State, s12: State)
    ensures s11 == Next(Settled(), AttemptStarts(true)) && s12 == Next(s11, AttemptReads)
    ensures s12.client.phase == Connected(Relay) && s12.host.main == Encoding(Udp, false)
  {
    s11 := State(Settled().host, Client(Attempting(ATTEMPT_MS), true, true), Net([Hello], [Ack], true, true, 0),
                 History(1, 0, 0, 0, 1, 0, 2));
    s12 := State(s11.host, Client(Connected(Relay), false, true), Net([Hello], [], true, true, 0), s11.hist);
  }

  /** The split can also happen in the race itself: the client reads the relay's ACK first. */
  const RACE_SPLIT: seq<Event> := [
    ClientStarts, UdpHello(true), UdpAcks(true), RelayReads, RelayAcks(true), UdpReports, RelayReports,
    MainPicks, MainJoins, ClientRelayReads]

  lemma RaceSplitsThePaths()
    ensures var s := Run(Init(true), RACE_SPLIT);
            s.client.phase == Connected(Relay) && s.host.main == Encoding(Udp, false)
  {
    hide Next, Run, Init, Settled, AfterRace;
    var race := RaceStates();
    var s8, s9 := SettlingStates();
    var s10 := RelayFirst(s9);
    var states := race + [s8, s9, s10];
    forall i | 0 <= i < |RACE_SPLIT| ensures states[i + 1] == Next(states[i], RACE_SPLIT[i]) {
      if i < 7 {
        assert RACE_SPLIT[i] == STALE_ACK[i];
      }
    }
    RunUnrolls(Init(true), RACE_SPLIT, states);
  }

  lemma RelayFirst(s: State) returns (s': State)
    requires Settled() == Next(s, ClientUdpAck(true)) && s == Settled().(client := Client(Seeking, true, true))
    ensures s' == Next(s, ClientRelayReads)
    ensures s'.client.phase == Connected(Relay) && s'.host.main == Encoding(Udp, false)
  {
    s' := Next(s, ClientRelayReads);
  }

  /** The host polls the client's HELLO after the client gave its attempt up: it is on the relay alone. */
  const LATE_POLL: seq<Event> := [
    ClientStarts, UdpHello(true), UdpAcks(true), UdpReports, MainPicks, RelayGivesUp, MainJoins, ClientUdpAck(true),
    Tick(4000), AttemptStarts(true), Tick(1500), AttemptEnds, Poll, SwitchAcks(true), SwitchMoves]

  lemma LatePollSplitsThePaths()
    ensures var s := Run(Init(true), LATE_POLL);
            && s.host.main == Encoding(Relay, false) && s.client.phase == Connected(Udp) && Ack in s.net.toClient
  {
    hide Next, Run, Init, OnUdp, TimedOut, AfterRace;
    var race := RaceStates();
    var first := UdpWins(race[3]);
    var middle := AttemptTimesOut();
    var last := HostFollows();
    var states := race[..4] + first + middle + last;
    forall i | 0 <= i < |LATE_POLL| ensures states[i + 1] == Next(states[i], LATE_POLL[i]) {
      if i < 3 {
        assert LATE_POLL[i] == STALE_ACK[i];
      }
    }
    RunUnrolls(Init(true), LATE_POLL, states);
  }

  /** Both sides on UDP, the relay pair kept as a fallback. */
  function OnUdp(): State {
    State(Host(false, true, Exited, Exited, [], 0, Encoding(Udp, true), 0, GRACE_MS),
          Client(Connected(Udp), true, true),
          Net([], [], true, true, 0), History(1, 0, 0, 0, 0, 0, 1))
  }

  /** The client's attempt is over; its HELLO is still on its way. */
  function TimedOut(): State {
    OnUdp().(net := Net([Hello], [], true, true, 5500), hist := History(1, 0, 0, 0, 0, 0, 2))
  }

  /** From the state in which only the UDP racer has acknowledged. */
  lemma UdpWins(s: State) returns (states: seq<State>)
    requires s == State(Host(false, false, Acked, Waiting, [], 0, Racing, 0, 0), Client(Seeking, true, true),
                        Net([Hello], [], true, true, 0), History(0, 0, 0, 0, 0, 0, 1))
    ensures |states| == 5 && states[0] == Next(s, LATE_POLL[3]) && states[4] == OnUdp()
    ensures forall i :: 0 <= i < 4 ==> states[i + 1] == Next(states[i], LATE_POLL[4 + i])
  {
    var s4 := s.(host := s.host.(udp := Exited, winners := [Udp]));
    var s5 := s.(host := Host(false, true, Exited, Waiting, [], 0, Joining(Udp), 0, 0));
    var s6 := s.(host := Host(false, true, Exited, Exited, [], 1, Joining(Udp), 0, 0));
    var s7 := OnUdp().(client := s.client);
    states := [s4, s5, s6, s7, OnUdp()];
  }

  lemma AttemptTimesOut() returns (states: seq<State>)
    ensures |states| == 4 && states[3] == TimedOut() && states[0] == Next(OnUdp(), LATE_POLL[8])
    ensures forall i :: 0 <= i < 3 ==> states[i + 1] == Next(states[i], LATE_POLL[9 + i])
  {
    var s9 := OnUdp().(net := Net([], [], true, true, 4000));
    var s10 := TimedOut().(client := Client(Attempting(5500), true, true), net := Net([Hello], [], true, true, 4000));
    var s11 := TimedOut().(client := Client(Attempting(5500), true, true));
    states := [s9, s10, s11, TimedOut()];
  }

  lemma HostFollows() returns (states: seq<State>)
    ensures |states| == 3 && states[0] == Next(TimedOut(), LATE_POLL[12])
    ensures forall i :: 0 <= i < 2 ==> states[i + 1] == Next(states[i], LATE_POLL[13 + i])
    ensures states[2].host.main == Encoding(Relay, false) && states[2].client.phase == Connected(Udp)
    ensures Ack in states[2].net.toClient
  {
    var s13 := TimedOut().(host := TimedOut().host.(main := Switching), net := Net([], [], true, true, 5500));
    var s14 := Next(s13, SwitchAcks(true));
    var s15 := Next(s14, SwitchMoves);
    states := [s13, s14, s15];
  }

  /** The host takes the relay session for the winner while the client takes the UDP one: the host is on the
      relay alone without any switch. */
  const RELAY_FIRST: seq<Event> := [
    ClientStarts, UdpHello(true), UdpAcks(true), RelayReads, RelayAcks(true), RelayReports, UdpReports,
    MainPicks, MainJoins, ClientUdpAck(true)]

  lemma RelayWinSplitsThePaths()
    ensures var s := Run(Init(true), RELAY_FIRST);
            && s.host.main == Encoding(Relay, false) && s.client.phase == Connected(Udp)
            && s.hist.switchAcks == 0 && Ack in s.net.toClient
  {
    hide Next, Run, Init, AfterRace;
    var race := RaceStates();
    var last := RelayWins(race[5]);
    var states := race[..6] + last;
    forall i | 0 <= i < |RELAY_FIRST| ensures states[i + 1] == Next(states[i], RELAY_FIRST[i]) {
      if i < 5 {
        assert RELAY_FIRST[i] == STALE_ACK[i];
      } else {
        assert states[i + 1] == last[i - 5];
      }
    }
    RunUnrolls(Init(true), RELAY_FIRST, states);
  }

  /** From the state in which both racers have acknowledged and none has reported. */
  lemma RelayWins(s: State) returns (states: seq<State>)
    requires s.host == Host(false, false, Acked, Acked, [], 0, Racing, 0, 0)
    requires s.client == Client(Seeking, true, true) && s.net == Net([], [Ack], true, true, 0)
    requires s.hist == History(0, 0, 0, 0, 1, 0, 1)
    ensures |states| == 5 && states[0] == Next(s, RELAY_FIRST[5])
    ensures forall i :: 0 <= i < 4 ==> states[i + 1] == Next(states[i], RELAY_FIRST[6 + i])
    ensures states[4].host.main == Encoding(Relay, false) && states[4].client.phase == Connected(Udp)
    ensures states[4].hist.switchAcks == 0 && Ack in states[4].net.toClient
  {
    var s6 := s.(host := s.host.(relay := Exited, winners := [Relay]));
    var s7 := s.(host := s.host.(relay := Exited, udp := Exited, winners := [Relay, Udp]));
    var s8 := s.(host := Host(false, true, Exited, Exited, [Udp], 0, Joining(Relay), 0, 0));
    var s9 := s.(host := Host(false, true, Exited, Exited, [Udp], 0, Encoding(Relay, false), 0, GRACE_MS),
                 hist := History(1, 0, 0, 0, 1, 0, 1));
    var s10 := s9.(client := Client(Connected(Udp), true, true));
    states := [s6, s7, s8, s9, s10];
  }

  lemma {:induction false} RunUnrolls(s: State, events: seq<Event>, states: seq<State>)
    requires |states| == |events| + 1 && states[0] == s
    requires forall i :: 0 <= i < |events| ==> states[i + 1] == Next(states[i], events[i])
    ensures Run(s, events) == states[|events|]
    decreases |events|
  {
    hide Next;
    if events != [] {
      RunUnrolls(states[1], events[1..], states[1..]);
    }
  }
}
