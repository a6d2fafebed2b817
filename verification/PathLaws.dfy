/** What makes the host switch to the relay, over whole runs: a HELLO that was sent by an attempt, was still queued
    when the grace window ended, and was polled after it. */
module PathLaws {
  import opened PathSwitch

  // ----- a session that nobody asked to switch

  /** UDP traffic and a session on the UDP path need a client that has started. */
  predicate UdpNeedsClient(s: State) {
    var h := s.host;
    (|| s.net.udpHello || h.udp.Handshake? || h.udp.Acked? || Udp in h.winners || h.main == Joining(Udp)
     || (h.main.Encoding? && h.main.on.Udp?) || h.main.Switching? || h.main.SwitchAcked?)
    ==> !s.client.phase.Idle?
  }

  lemma NeedsClientRacers(s: State, e: Event)
    requires UdpNeedsClient(s)
    ensures UdpNeedsClient(UdpStep(s, e)) && UdpNeedsClient(RelayStep(s, e))
  {
  }

  lemma NeedsClientMain(s: State, e: Event)
    requires UdpNeedsClient(s)
    ensures UdpNeedsClient(MainStep(s, e))
  {
    hide RelayCount;
  }

  lemma NeedsClientLoop(s: State, e: Event)
    requires UdpNeedsClient(s)
    ensures UdpNeedsClient(LoopStep(s, e)) && UdpNeedsClient(ClientStep(s, e)) && UdpNeedsClient(AttemptStep(s, e))
  {
  }

  lemma NeedsClientNext(s: State, e: Event)
    requires UdpNeedsClient(s)
    ensures UdpNeedsClient(Next(s, e))
  {
    hide UdpStep, RelayStep, MainStep, LoopStep, ClientStep, AttemptStep;
    NeedsClientRacers(s, e);
    NeedsClientMain(s, e);
    NeedsClientLoop(s, e);
  }

  lemma {:induction false} NeedsClientRun(s: State, events: seq<Event>)
    requires UdpNeedsClient(s)
    ensures UdpNeedsClient(Run(s, events))
    decreases |events|
  {
    hide UdpNeedsClient, Next;
    if events != [] {
      NeedsClientNext(s, events[0]);
      NeedsClientRun(Next(s, events[0]), events[1..]);
    }
  }

  /** The client starts no attempt to switch. */
  predicate NoAttempts(events: seq<Event>) {
    forall e :: e in events ==> !e.AttemptStarts?
  }

  /** The host has not switched, is not about to, and no HELLO is queued that could make it. */
  predicate Unasked(s: State) {
    && s.hist.switches == 0 && s.hist.switchAcks == 0 && !s.host.main.Switching? && !s.host.main.SwitchAcked?
    && (s.host.main == Encoding(Udp, true) ==> Hello !in s.net.toHost)
  }

  lemma UnaskedRacers(s: State, e: Event)
    requires Unasked(s)
    ensures Unasked(UdpStep(s, e)) && Unasked(RelayStep(s, e))
  {
  }

  lemma UnaskedMain(s: State, e: Event)
    requires Unasked(s)
    ensures Unasked(MainStep(s, e))
  {
    hide RelayCount, MainHolds;
  }

  lemma UnaskedLoop(s: State, e: Event)
    requires Unasked(s)
    ensures Unasked(LoopStep(s, e))
  {
  }

  lemma UnaskedHost(s: State, e: Event)
    requires Unasked(s)
    ensures Unasked(UdpStep(s, e)) && Unasked(RelayStep(s, e)) && Unasked(MainStep(s, e)) && Unasked(LoopStep(s, e))
  {
    hide UdpStep, RelayStep, MainStep, LoopStep, Unasked;
    UnaskedRacers(s, e);
    UnaskedMain(s, e);
    UnaskedLoop(s, e);
  }

  lemma UnaskedClient(s: State, e: Event)
    requires Unasked(s) && UdpNeedsClient(s) && !e.AttemptStarts?
    ensures Unasked(ClientStep(s, e)) && Unasked(AttemptStep(s, e))
  {
  }

  lemma {:induction false} StaysUnasked(s: State, events: seq<Event>)
    requires Unasked(s) && UdpNeedsClient(s) && NoAttempts(events)
    ensures Unasked(Run(s, events))
    decreases |events|
  {
    hide UdpNeedsClient, Unasked, UdpStep, RelayStep, MainStep, LoopStep, ClientStep, AttemptStep;
    if events != [] {
      UnaskedHost(s, events[0]);
      UnaskedClient(s, events[0]);
      UnaskedClock(s, events[0]);
      NeedsClientNext(s, events[0]);
      StaysUnasked(Next(s, events[0]), events[1..]);
    }
  }

  lemma UnaskedClock(s: State, e: Event)
    requires Unasked(s)
    ensures e.Tick? || e.Stop? ==> Unasked(Next(s, e))
  {
  }

  lemma {:induction false} RunAppend(s: State, a: seq<Event>, b: seq<Event>)
    ensures Run(s, a + b) == Run(Run(s, a), b)
    decreases |a|
  {
    hide Next;
    if a == [] {
      assert [] + b == b;
    } else {
      assert (a + b)[1..] == a[1..] + b;
      RunAppend(Next(s, a[0]), a[1..], b);
    }
  }

  lemma Starts(had: bool)
    ensures UdpNeedsClient(Init(had)) && Inv(Init(had))
  {
  }

  /** Whatever was queued on the relay before the host entered its loop, attempts of the client included: unless
      an attempt starts afterwards the host never switches. */
  lemma OnlyAttemptsSwitch(had: bool, before: seq<Event>, after: seq<Event>)
    requires var m := Run(Init(had), before).host.main; m.Racing? || m.Joining?
    requires NoAttempts(after)
    ensures var s := Run(Init(had), before + after);
            s.hist.switches == 0 && s.hist.switchAcks == 0 && !s.host.main.Switching? && !s.host.main.SwitchAcked?
  {
    hide Run, UdpNeedsClient;
    Starts(had);
    RunKeeps(Init(had), before);
    NeedsClientRun(Init(had), before);
    StaysUnasked(Run(Init(had), before), after);
    RunAppend(Init(had), before, after);
  }

  // ----- what the grace window swallows

  /** How often the host polled. */
  function Polls(events: seq<Event>): nat {
    if events == [] then 0 else (if events[0].Poll? then 1 else 0) + Polls(events[1..])
  }

  /** A HELLO lies in the queue behind its first `n` messages. */
  predicate HelloBehind(queue: seq<Msg>, n: nat) {
    exists i :: n <= i < |queue| && queue[i].Hello?
  }

  /** On the UDP path with a fallback, past the race. */
  predicate CanSwitch(s: State) {
    && s.host.main == Encoding(Udp, true) && !s.client.phase.Idle?
    && s.host.udp.Exited? && s.host.relay.Exited?
  }

  /** A step inside the window. */
  lemma GraceStep(s: State, e: Event)
    requires CanSwitch(s) && s.net.now < s.host.graceUntil && !e.AttemptStarts?
    ensures Swallows(s, e, Next(s, e))
  {
    hide Swallows, UdpStep, RelayStep, MainStep, LoopStep, ClientStep, AttemptStep;
    if e.Poll? {
      SwallowsPoll(s);
    } else {
      SwallowsHost(s, e);
      SwallowsMain(s, e);
      SwallowsLoop(s, e);
      SwallowsClient(s, e);
      SwallowsClock(s, e);
    }
  }

  /** What a step inside the window does. */
  predicate Swallows(s: State, e: Event, s': State) {
    && (CanSwitch(s') || s'.host.main.Over?) && s'.net.now >= s.net.now
    && s'.host.graceUntil == s.host.graceUntil && s'.hist.switches == s.hist.switches
    && s'.hist.switchAcks == s.hist.switchAcks
    && (e.Poll? ==> s'.net.toHost == if s.net.toHost == [] then [] else s.net.toHost[1..])
    && (!e.Poll? ==> s'.net.toHost == s.net.toHost || s'.net.toHost == s.net.toHost + [Other])
  }

  lemma SwallowsPoll(s: State)
    requires CanSwitch(s) && s.net.now < s.host.graceUntil
    ensures Swallows(s, Poll, Next(s, Poll))
  {
  }

  lemma SwallowsHost(s: State, e: Event)
    requires CanSwitch(s) && !e.Poll?
    ensures Swallows(s, e, UdpStep(s, e)) && Swallows(s, e, RelayStep(s, e))
  {
  }

  lemma SwallowsMain(s: State, e: Event)
    requires CanSwitch(s) && !e.Poll?
    ensures Swallows(s, e, MainStep(s, e))
  {
    hide RelayCount, MainHolds;
  }

  lemma SwallowsLoop(s: State, e: Event)
    requires CanSwitch(s) && !e.Poll?
    ensures Swallows(s, e, LoopStep(s, e))
  {
  }

  lemma SwallowsClient(s: State, e: Event)
    requires CanSwitch(s) && !e.Poll? && !e.AttemptStarts?
    ensures Swallows(s, e, ClientStep(s, e)) && Swallows(s, e, AttemptStep(s, e))
  {
  }

  lemma SwallowsClock(s: State, e: Event)
    requires CanSwitch(s)
    ensures e.Tick? || e.Stop? ==> Swallows(s, e, Next(s, e))
  {
  }

  lemma {:induction false} OverStays(s: State, events: seq<Event>)
    requires s.host.main.Over?
    ensures Run(s, events).host.main.Over? && Run(s, events).hist.switches == s.hist.switches
    ensures Run(s, events).hist.switchAcks == s.hist.switchAcks
    decreases |events|
  {
    if events != [] {
      OverStep(s, events[0]);
      OverStays(Next(s, events[0]), events[1..]);
    }
  }

  lemma OverStep(s: State, e: Event)
    requires s.host.main.Over?
    ensures Next(s, e).host.main.Over? && Next(s, e).hist.switches == s.hist.switches
    ensures Next(s, e).hist.switchAcks == s.hist.switchAcks
  {
    hide UdpStep, RelayStep, MainStep, LoopStep, ClientStep, AttemptStep;
    OverHost(s, e);
    OverMain(s, e);
    OverClient(s, e);
  }

  lemma OverHost(s: State, e: Event)
    requires s.host.main.Over?
    ensures SameMain(s, UdpStep(s, e)) && SameMain(s, RelayStep(s, e))
  {
  }

  lemma OverMain(s: State, e: Event)
    requires s.host.main.Over?
    ensures SameMain(s, MainStep(s, e)) && SameMain(s, LoopStep(s, e))
  {
  }

  lemma OverClient(s: State, e: Event)
    ensures SameMain(s, ClientStep(s, e)) && SameMain(s, AttemptStep(s, e))
  {
  }

  predicate SameMain(s: State, s': State) {
    && s'.host.main == s.host.main && s'.hist.switches == s.hist.switches
    && s'.hist.switchAcks == s.hist.switchAcks
  }

  lemma {:induction false} TimePasses(s: State, events: seq<Event>)
    ensures Run(s, events).net.now >= s.net.now
    decreases |events|
  {
    hide Next;
    if events != [] {
      TimeStep(s, events[0]);
      TimePasses(Next(s, events[0]), events[1..]);
    }
  }

  lemma BehindStep(queue: seq<Msg>, queue': seq<Msg>, n: nat)
    ensures queue' == queue || queue' == queue + [Other] ==> (HelloBehind(queue', n) <==> HelloBehind(queue, n))
    ensures queue' == (if queue == [] then [] else queue[1..]) ==>
              (HelloBehind(queue', n) <==> HelloBehind(queue, n + 1))
  {
    if HelloBehind(queue, n) && queue' == queue + [Other] {
      var i :| n <= i < |queue| && queue[i].Hello?;
      assert queue'[i].Hello?;
    }
    if queue != [] && queue' == queue[1..] && HelloBehind(queue, n + 1) {
      var i :| n + 1 <= i < |queue| && queue[i].Hello?;
      assert queue'[i - 1].Hello?;
    }
  }

  /** Inside the window every poll takes one message off the queue, and the host stays where it is. */
  lemma {:induction false} GraceRun(s: State, events: seq<Event>)
    requires CanSwitch(s) && Run(s, events).net.now < s.host.graceUntil
    requires NoAttempts(events)
    ensures var t := Run(s, events);
            && t.hist.switches == s.hist.switches && t.hist.switchAcks == s.hist.switchAcks
            && (CanSwitch(t) || t.host.main.Over?)
            && (CanSwitch(t) ==> t.host.graceUntil == s.host.graceUntil)
            && (CanSwitch(t) ==> (HelloBehind(t.net.toHost, 0) <==> HelloBehind(s.net.toHost, Polls(events))))
    decreases |events|
  {
    hide Next, HelloBehind, CanSwitch;
    if events != [] {
      var e, s' := events[0], Next(s, events[0]);
      TimePasses(s', events[1..]);
      TimeStep(s, e);
      GraceStep(s, e);
      BehindStep(s.net.toHost, s'.net.toHost, Polls(events[1..]));
      if s'.host.main.Over? {
        OverStays(s', events[1..]);
        OverCannot(Run(s, events));
      } else {
        GraceRun(s', events[1..]);
      }
    }
  }

  lemma TimeStep(s: State, e: Event)
    ensures Next(s, e).net.now >= s.net.now
  {
    hide RelayCount, MainHolds, UdpStep, RelayStep, MainStep, LoopStep, ClientStep, AttemptStep;
    SameClockRacers(s, e);
    SameClockMain(s, e);
    SameClockClient(s, e);
  }

  lemma SameClockRacers(s: State, e: Event)
    ensures UdpStep(s, e).net.now == s.net.now && RelayStep(s, e).net.now == s.net.now
  {
  }

  lemma SameClockMain(s: State, e: Event)
    ensures MainStep(s, e).net.now == s.net.now && LoopStep(s, e).net.now == s.net.now
  {
    hide RelayCount, MainHolds;
  }

  lemma SameClockClient(s: State, e: Event)
    ensures ClientStep(s, e).net.now == s.net.now && AttemptStep(s, e).net.now == s.net.now
  {
  }

  lemma OverCannot(s: State)
    ensures s.host.main.Over? ==> !CanSwitch(s)
  {
  }

  /** After the window the host polls on until it finds the HELLO, acknowledges it and moves. */
  lemma {:induction false} PollsUntilHello(s: State) returns (events: seq<Event>)
    requires CanSwitch(s) && s.net.now >= s.host.graceUntil && HelloBehind(s.net.toHost, 0)
    ensures Run(s, events).hist.switches == s.hist.switches + 1
    ensures NoAttempts(events)
    decreases |s.net.toHost|
  {
    hide Run, Next;
    var s' := Next(s, Poll);
    PollAfter(s);
    if s.net.toHost[0].Hello? {
      var acked := Next(s', SwitchAcks(true));
      events := [Poll, SwitchAcks(true), SwitchMoves];
      assert events[1..] == [SwitchAcks(true), SwitchMoves] && events[1..][1..] == [SwitchMoves];
      assert [SwitchMoves][1..] == [];
      RunStep(s, events);
      RunStep(s', events[1..]);
      RunStep(acked, [SwitchMoves]);
      RunEnds(Next(acked, SwitchMoves));
    } else {
      var rest := PollsUntilHello(s');
      events := [Poll] + rest;
      assert events[1..] == rest;
      RunStep(s, events);
    }
  }

  /** A poll after the window: the host takes a HELLO for a request, and passes over anything else. */
  lemma PollAfter(s: State)
    requires CanSwitch(s) && s.net.now >= s.host.graceUntil && s.net.toHost != []
    ensures var s' := Next(s, Poll);
            && s'.net.toHost == s.net.toHost[1..] && s'.net.now == s.net.now && s'.host.graceUntil == s.host.graceUntil
            && s'.hist == s.hist && (!s.net.toHost[0].Hello? ==> CanSwitch(s'))
            && (s.net.toHost[0].Hello? ==>
                  Next(Next(s', SwitchAcks(true)), SwitchMoves).hist.switches == s.hist.switches + 1)
  {
  }

  lemma RunEnds(s: State)
    ensures Run(s, []) == s
  {
  }

  lemma WaitsAndPolls(s: State) returns (events: seq<Event>)
    requires CanSwitch(s) && HelloBehind(s.net.toHost, 0)
    ensures Run(s, events).hist.switches == s.hist.switches + 1
    ensures NoAttempts(events)
  {
    hide Run;
    var s' := Next(s, Tick(s.host.graceUntil));
    var rest := PollsUntilHello(s');
    events := [Tick(s.host.graceUntil)] + rest;
    assert events[1..] == rest;
    RunStep(s, events);
  }

  lemma Reached(had: bool, before: seq<Event>)
    ensures var s := Run(Init(had), before);
            && UdpNeedsClient(s)
            && (s.host.main == Encoding(Udp, true) ==> CanSwitch(s) && s.hist.switches == 0 && s.hist.switchAcks == 0)
  {
    hide Run;
    Starts(had);
    RunKeeps(Init(had), before);
    NeedsClientRun(Init(had), before);
  }

  lemma NoHelloLeft(s: State)
    requires CanSwitch(s) && s.hist.switches == 0 && s.hist.switchAcks == 0 && !HelloBehind(s.net.toHost, 0)
    ensures Unasked(s)
  {
    assert forall i :: 0 <= i < |s.net.toHost| ==> !s.net.toHost[i].Hello?;
  }

  /** The grace window: what is polled inside it is gone. A host on UDP with a fallback that gets no further attempt
      can still switch if and only if a HELLO that was queued at the start lies behind the messages that were
      polled inside the window. */
  lemma GraceWindow(had: bool, before: seq<Event>, early: seq<Event>)
    requires Run(Init(had), before).host.main == Encoding(Udp, true)
    requires NoAttempts(early)
    requires var s := Run(Init(had), before);
             Run(s, early).host.main == Encoding(Udp, true) && Run(s, early).net.now < s.host.graceUntil
    ensures var s := Run(Init(had), before);
            (exists late :: NoAttempts(late) && Run(Run(s, early), late).hist.switches > 0)
            <==> HelloBehind(s.net.toHost, Polls(early))
  {
    hide Run, CanSwitch, HelloBehind, Unasked, UdpNeedsClient;
    Reached(had, before);
    var s := Run(Init(had), before);
    GraceRun(s, early);
    NeedsClientRun(s, early);
    var t := Run(s, early);
    if HelloBehind(s.net.toHost, Polls(early)) {
      var late := WaitsAndPolls(t);
      assert Run(t, late).hist.switches > 0;
    } else {
      NoHelloLeft(t);
      forall late | NoAttempts(late) ensures Run(t, late).hist.switches == 0 {
        StaysUnasked(t, late);
        UnaskedFacts(Run(t, late));
      }
    }
  }

  lemma UnaskedFacts(s: State)
    requires Unasked(s)
    ensures s.hist.switches == 0 && s.hist.switchAcks == 0 && !s.host.main.Switching? && !s.host.main.SwitchAcked?
  {
  }

  /** In particular, if every HELLO is polled inside the window and none is sent later, the host stays on UDP. */
  lemma DrainedStays(had: bool, before: seq<Event>, early: seq<Event>, late: seq<Event>)
    requires Run(Init(had), before).host.main == Encoding(Udp, true)
    requires NoAttempts(early + late)
    requires var s := Run(Init(had), before);
             Run(s, early).net.now < s.host.graceUntil && !HelloBehind(s.net.toHost, Polls(early))
    ensures var m := Run(Run(Init(had), before), early + late).host.main; m == Encoding(Udp, true) || m.Over?
  {
    hide Run, CanSwitch, HelloBehind, Unasked, UdpNeedsClient;
    Reached(had, before);
    var s := Run(Init(had), before);
    GraceRun(s, early);
    NeedsClientRun(s, early);
    RunAppend(s, early, late);
    forall e | e in late ensures !e.AttemptStarts? {
      assert e in early + late;
    }
    forall e | e in early ensures !e.AttemptStarts? {
      assert e in early + late;
    }
    if Run(s, early).host.main.Over? {
      OverStays(Run(s, early), late);
    } else {
      NoHelloLeft(Run(s, early));
      StaysOnUdp(Run(s, early), late);
    }
  }

  lemma {:induction false} StaysOnUdp(s: State, events: seq<Event>)
    requires CanSwitch(s) && Unasked(s) && UdpNeedsClient(s) && NoAttempts(events)
    ensures var m := Run(s, events).host.main; m == Encoding(Udp, true) || m.Over?
    decreases |events|
  {
    hide CanSwitch, Unasked, UdpNeedsClient, Next;
    OnUdpFacts(s);
    if events != [] {
      var s' := Next(s, events[0]);
      UnaskedStep(s, events[0]);
      NeedsClientNext(s, events[0]);
      if s'.host.main.Over? {
        OverStays(s', events[1..]);
      } else {
        StaysOnUdp(s', events[1..]);
      }
    }
  }

  lemma OnUdpFacts(s: State)
    requires CanSwitch(s)
    ensures s.host.main == Encoding(Udp, true)
  {
  }

  lemma UnaskedStep(s: State, e: Event)
    requires CanSwitch(s) && Unasked(s) && UdpNeedsClient(s) && !e.AttemptStarts?
    ensures Unasked(Next(s, e)) && (CanSwitch(Next(s, e)) || Next(s, e).host.main.Over?)
  {
    hide UdpStep, RelayStep, MainStep, LoopStep, ClientStep, AttemptStep, UdpNeedsClient, Unasked, CanSwitch;
    UnaskedHost(s, e);
    UnaskedClient(s, e);
    UnaskedClock(s, e);
    LeavesOnlyAsked(s, e);
  }

  lemma LeavesOnlyAsked(s: State, e: Event)
    requires CanSwitch(s) && Unasked(s)
    ensures CanSwitch(Next(s, e)) || Next(s, e).host.main.Over?
  {
    hide UdpStep, RelayStep, MainStep, LoopStep, ClientStep, AttemptStep, CanSwitch;
    StaysHost(s, e);
    StaysMain(s, e);
    StaysLoop(s, e);
    StaysClient(s, e);
  }

  lemma StaysHost(s: State, e: Event)
    requires CanSwitch(s)
    ensures CanSwitch(UdpStep(s, e)) && CanSwitch(RelayStep(s, e))
  {
  }

  lemma StaysMain(s: State, e: Event)
    requires CanSwitch(s)
    ensures CanSwitch(MainStep(s, e)) || MainStep(s, e).host.main.Over?
  {
    hide RelayCount, MainHolds;
  }

  lemma StaysLoop(s: State, e: Event)
    requires CanSwitch(s) && Unasked(s)
    ensures CanSwitch(LoopStep(s, e))
  {
    if s.net.toHost != [] {
      assert s.net.toHost[0] in s.net.toHost;
    }
  }

  lemma StaysClient(s: State, e: Event)
    requires CanSwitch(s)
    ensures CanSwitch(ClientStep(s, e)) && CanSwitch(AttemptStep(s, e))
    ensures CanSwitch(s.(net := s.net.(now := s.net.now + if e.Tick? then e.ms else 0)))
    ensures CanSwitch(s.(host := s.host.(stop := true)))
  {
  }
}
