/** Frames lost for good among frames that overlap: what comes out of one key frame and the deltas after it, whatever
    part of their packets arrives in whatever order. */
module LostFrames {
  import opened Bytes
  import opened EvrtWire
  import opened EvrtVideo
  import opened Availability
  import opened ReceiveBuffer
  import opened Reassembler
  import opened Streams
  import opened StreamModel
  import opened BufferedStream
  import opened Arrivals
  import opened Reordering

  /** All frames but the first are deltas. */
  ghost predicate OneKey(sent: map<u32, SentFrame>, first: nat) {
    forall id :: id in sent && id > first ==> !sent[id].key
  }

  /** All data packets belong to frames up to the last one within the window ahead of frame `j`. */
  predicate AllNear(stream: seq<Packet>, j: nat) {
    forall p :: p in stream && !IsParityPacket(p) ==> p.header.frameId <= j + REORDER_WINDOW
  }

  /** At some time enough of frame `j` has arrived, but not of any newer one, and no data packet was ahead of it by
      more than the window. */
  ghost predicate InTurn(sent: map<u32, SentFrame>, stream: seq<Packet>, j: nat) {
    exists k :: 0 <= k <= |stream| && TurnAt(sent, stream, j, k)
  }

  ghost predicate TurnAt(sent: map<u32, SentFrame>, stream: seq<Packet>, j: nat, k: nat)
    requires k <= |stream|
  {
    && j < 0x1_0000_0000 && Whole(sent, stream[..k], j) && AllNear(stream[..k], j)
    && forall i :: i in sent && i > j ==> !Whole(sent, stream[..k], i)
  }

  // ----- what is left is what arrived

  lemma {:induction false} AllLeft(sent: map<u32, SentFrame>, first: nat, stream: seq<Packet>, k: nat, id: u32)
    requires k <= |stream| && AllSent(sent, stream) && OneKey(sent, first) && id >= first
    ensures DataLeft(stream[..k], id) == DataIn(stream[..k], id)
    ensures ParityLeft(stream[..k], id) == ParityIn(stream[..k], id)
  {
    hide DataLeft, ParityLeft, DataIn, ParityIn, Sent, WellFormed, IsKey;
    if k == 0 {
      NothingIn(stream[..0], id);
    } else {
      AllLeft(sent, first, stream, k - 1, id);
      LeftStep(stream, k - 1, id);
      ArrivedStep(stream, k - 1, id);
      SentKey(sent, stream[k - 1]);
    }
  }

  lemma NothingIn(stream: seq<Packet>, id: u32)
    requires stream == []
    ensures DataLeft(stream, id) == DataIn(stream, id) == {} && ParityLeft(stream, id) == ParityIn(stream, id) == {}
  {
  }

  lemma DoneIffWhole(sent: map<u32, SentFrame>, first: nat, stream: seq<Packet>, k: nat, id: u32)
    requires k <= |stream| && AllSent(sent, stream) && OneKey(sent, first) && id >= first
    ensures Done(sent, stream[..k], id) <==> Whole(sent, stream[..k], id)
  {
    hide Whole, Sent, WellFormed, DataLeft, ParityLeft, DataIn, ParityIn, Recoverable;
    if Whole(sent, stream[..k], id) {
      AllLeft(sent, first, stream, k, id);
      WholeIsReady(sent, stream[..k], id);
      assert stream[..k][..k] == stream[..k];
      assert Ready(sent, stream[..k][..k], id);
    }
    if Done(sent, stream[..k], id) {
      DoneIsWhole(sent, stream[..k], id);
    }
  }

  lemma WholeIsReady(sent: map<u32, SentFrame>, stream: seq<Packet>, id: u32)
    requires DataLeft(stream, id) == DataIn(stream, id) && ParityLeft(stream, id) == ParityIn(stream, id)
    ensures Whole(sent, stream, id) <==> Ready(sent, stream, id)
  {
    hide DataLeft, ParityLeft, DataIn, ParityIn, Recoverable;
  }

  lemma WholeStays(sent: map<u32, SentFrame>, stream: seq<Packet>, j: nat, k: nat, id: u32)
    requires j <= k <= |stream| && Whole(sent, stream[..j], id)
    ensures Whole(sent, stream[..k], id)
  {
    assert stream[..k][..j] == stream[..j];
    WholeGrows(sent, stream[..k], j, id);
  }

  // ----- after a frame was missed

  /** A loss is pending, or the frame after the last completed one is gone: no delta comes out any more. */
  predicate Stuck(first: nat, x: Rx) {
    x.completed.Some? && x.completed.value >= first && (x.waiting || Gone(x, x.completed.value + 1))
  }

  lemma StaysStuck(sent: map<u32, SentFrame>, first: nat, x: Rx, p: Packet)
    requires Sent(sent, p) && OneKey(sent, first) && Stuck(first, x) && p.header.frameId >= first
    ensures Stuck(first, Take(x, sent, p)) && !Emission(x, Take(x, sent, p))
  {
    hide Recoverable, Sent, GroupsKnown, IsKey, GroupParity;
    SentFacts(sent, p);
    if !x.waiting {
      GoneStays(x, sent, p, x.completed.value + 1);
    }
  }

  // ----- packet by packet

  /** The first `m` frames came out in turn, and the next one can still do so. */
  ghost predicate Running(sent: map<u32, SentFrame>, first: nat, n: nat, stream: seq<Packet>, k: nat, m: nat)
    requires k <= |stream| && AllSent(sent, stream)
  {
    OnTrack(sent, first, n, stream[..k], After(sent, stream, k), m) && AllNear(stream[..k], first + m)
  }

  /** The first `m` frames came out in turn, and the next one missed it. */
  ghost predicate Halted(sent: map<u32, SentFrame>, first: nat, stream: seq<Packet>, k: nat, m: nat)
    requires k <= |stream| && AllSent(sent, stream)
  {
    Stuck(first, After(sent, stream, k)) && !InTurn(sent, stream, first + m)
  }

  lemma NearStep(stream: seq<Packet>, k: nat, j: nat, j': nat)
    requires k < |stream| && AllNear(stream[..k], j) && j <= j'
    ensures AllNear(stream[..k + 1], j') <==>
            IsParityPacket(stream[k]) || stream[k].header.frameId <= j' + REORDER_WINDOW
  {
    assert stream[..k + 1] == stream[..k] + [stream[k]];
    assert stream[k] in stream[..k + 1];
  }

  /** A frame that is done next is done in turn. */
  lemma ComesInTurn(sent: map<u32, SentFrame>, first: nat, n: nat, stream: seq<Packet>, k: nat, x: Rx, m: nat)
    requires k <= |stream| && AllSent(sent, stream) && OneKey(sent, first) && Session(sent, first, n)
    requires OnTrack(sent, first, n, stream[..k], x, m + 1) && AllNear(stream[..k], first + m)
    ensures InTurn(sent, stream, first + m)
  {
    hide Whole, Done, Sent, WellFormed, AllNear, OnTrack;
    TrackFacts(sent, first, n, stream[..k], x, m + 1);
    assert first + m in sent;
    forall i | i in sent && i >= first + m ensures Whole(sent, stream[..k], i) <==> i == first + m {
      DoneIffWhole(sent, first, stream, k, i);
    }
    assert TurnAt(sent, stream, first + m, k);
  }

  /** A frame misses its turn when a newer one is complete before it, or a packet is too far ahead of it. */
  lemma MissesTurn(sent: map<u32, SentFrame>, stream: seq<Packet>, k: nat, j: u32)
    requires k < |stream| && !Whole(sent, stream[..k], j)
    requires !AllNear(stream[..k + 1], j) || exists i :: i in sent && i > j && Whole(sent, stream[..k + 1], i)
    ensures !InTurn(sent, stream, j)
  {
    hide Whole;
    forall l | 0 <= l <= |stream| ensures !TurnAt(sent, stream, j, l) {
      if l <= k {
        if Whole(sent, stream[..l], j) {
          WholeStays(sent, stream, l, k, j);
        }
      } else if !AllNear(stream[..k + 1], j) {
        var p :| p in stream[..k + 1] && !IsParityPacket(p) && p.header.frameId > j + REORDER_WINDOW;
        assert stream[..k + 1] <= stream[..l];
        assert p in stream[..l];
      } else {
        var i :| i in sent && i > j && Whole(sent, stream[..k + 1], i);
        WholeStays(sent, stream, k + 1, l, i);
      }
    }
  }

  /** A frame of which too little arrives has no turn. */
  lemma NeverWhole(sent: map<u32, SentFrame>, stream: seq<Packet>, j: u32)
    requires !Whole(sent, stream, j)
    ensures !InTurn(sent, stream, j)
  {
    hide Whole;
    assert stream[..|stream|] == stream;
    forall l | 0 <= l <= |stream| ensures !TurnAt(sent, stream, j, l) {
      if Whole(sent, stream[..l], j) {
        WholeStays(sent, stream, l, |stream|, j);
      }
    }
  }

  /** A packet too far ahead: the frame that is due is missed. */
  lemma HaltsAhead(sent: map<u32, SentFrame>, first: nat, n: nat, stream: seq<Packet>, k: nat, m: nat)
    requires k < |stream| && AllSent(sent, stream) && OneKey(sent, first) && Session(sent, first, n) && m > 0
    requires Running(sent, first, n, stream, k, m) && !Near(first, stream[k], m)
    ensures Halted(sent, first, stream, k + 1, m) && !Emission(After(sent, stream, k), After(sent, stream, k + 1))
  {
    hide Whole, Sent, WellFormed, Done, Take, AllNear, InTurn, Gone, OnTrack;
    var x, p := After(sent, stream, k), stream[k];
    SentFacts(sent, p);
    TrackFacts(sent, first, n, stream[..k], x, m);
    assert first + m in sent;
    DoneIffWhole(sent, first, stream, k, first + m);
    NearStep(stream, k, first + m, first + m);
    MissesTurn(sent, stream, k, first + m);
    LeftBehind(sent, first, n, stream, k, x, m);
    GapOrSame(sent, x, p);
  }

  /** What a delta that does not follow the last completed frame does to the completion state. */
  lemma GapOrSame(sent: map<u32, SentFrame>, x: Rx, p: Packet)
    requires Sent(sent, p) && p.header.frameId in sent && !sent[p.header.frameId].key
    requires x.completed.Some? && x.completed.value + 1 != p.header.frameId
    ensures var x' := Take(x, sent, p);
            || x'.completed == x.completed
            || (x'.completed == Some(p.header.frameId) && x'.waiting
                && (x.completed.Some? ==> x.completed.value < p.header.frameId))
  {
    hide Sent, Recoverable, GroupParity, Reveals, From, GroupsKnown;
    SentFacts(sent, p);
  }

  /** A frame that is complete too early: the frame that is due is missed. */
  lemma HaltsEarly(sent: map<u32, SentFrame>, first: nat, n: nat, stream: seq<Packet>, k: nat, m: nat)
    requires k < |stream| && AllSent(sent, stream) && OneKey(sent, first) && Session(sent, first, n) && m > 0
    requires Running(sent, first, n, stream, k, m) && Near(first, stream[k], m)
    requires !FirstOnes(sent, first, stream[..k + 1])
    ensures Halted(sent, first, stream, k + 1, m) && !Emission(After(sent, stream, k), After(sent, stream, k + 1))
  {
    hide Whole, Sent, WellFormed, Done, Take, AllNear, InTurn, OnTrack, FirstOnes, Near;
    var x, id := After(sent, stream, k), stream[k].header.frameId;
    TooEarly(sent, first, n, stream, k, x, m);
    TrackFacts(sent, first, n, stream[..k], x, m);
    assert first + m in sent;
    DoneIffWhole(sent, first, stream, k, first + m);
    DoneIffWhole(sent, first, stream, k + 1, id);
    MissesTurn(sent, stream, k, first + m);
  }

  /** One packet, while the next frame can still come out. */
  lemma RunningStep(sent: map<u32, SentFrame>, first: nat, n: nat, stream: seq<Packet>, k: nat, m: nat)
    returns (m': nat)
    requires k < |stream| && AllSent(sent, stream) && OneKey(sent, first) && Session(sent, first, n)
    requires Running(sent, first, n, stream, k, m) && (m == 0 ==> InTurn(sent, stream, first))
    ensures Running(sent, first, n, stream, k + 1, m') || (m == m' > 0 && Halted(sent, first, stream, k + 1, m'))
    ensures if Emission(After(sent, stream, k), After(sent, stream, k + 1)) then
              m' == m + 1 && stream[k].header.frameId == first + m && InTurn(sent, stream, first + m)
            else m' == m
  {
    hide Sent, WellFormed, Take, AllNear, InTurn, OnTrack, FirstOnes, Near, Halted;
    var x := After(sent, stream, k);
    if Near(first, stream[k], m) && FirstOnes(sent, first, stream[..k + 1]) {
      m' := TrackStep(sent, first, n, stream, k, x, m);
      NearStaysNear(stream, k, first, m, m');
      if m' > m {
        NearStaysNear(stream, k, first, m, m);
        ComesInTurn(sent, first, n, stream, k + 1, After(sent, stream, k + 1), m);
      }
    } else {
      m' := m;
      if m == 0 {
        FirstIsMissed(sent, first, n, stream, k);
      } else if Near(first, stream[k], m) {
        HaltsEarly(sent, first, n, stream, k, m);
      } else {
        HaltsAhead(sent, first, n, stream, k, m);
      }
    }
  }

  lemma NearStaysNear(stream: seq<Packet>, k: nat, first: nat, m: nat, m': nat)
    requires k < |stream| && AllNear(stream[..k], first + m) && Near(first, stream[k], m) && m <= m'
    ensures AllNear(stream[..k + 1], first + m')
  {
    hide AllNear;
    NearStep(stream, k, first + m, first + m');
  }

  /** A violation before the first frame is done contradicts that it has its turn. */
  lemma FirstIsMissed(sent: map<u32, SentFrame>, first: nat, n: nat, stream: seq<Packet>, k: nat)
    requires k < |stream| && AllSent(sent, stream) && OneKey(sent, first) && Session(sent, first, n)
    requires Running(sent, first, n, stream, k, 0)
    requires !Near(first, stream[k], 0) || !FirstOnes(sent, first, stream[..k + 1])
    ensures !InTurn(sent, stream, first)
  {
    hide Whole, Sent, WellFormed, Done, Take, AllNear, InTurn, OnTrack, FirstOnes;
    var x := After(sent, stream, k);
    TrackFacts(sent, first, n, stream[..k], x, 0);
    SentFacts(sent, stream[k]);
    assert first in sent;
    DoneIffWhole(sent, first, stream, k, first);
    if Near(first, stream[k], 0) {
      TooEarly(sent, first, n, stream, k, x, 0);
      DoneIffWhole(sent, first, stream, k + 1, stream[k].header.frameId);
    } else {
      NearStep(stream, k, first, first);
    }
    MissesTurn(sent, stream, k, first);
  }

  /** After `k` packets the frames that had their turn have come out, up to the first one that missed it. */
  lemma {:induction false} Course(sent: map<u32, SentFrame>, first: nat, n: nat, stream: seq<Packet>,
                                  config: Option<seq<byte>>, k: nat)
    returns (m: nat)
    requires k <= |stream| && AllSent(sent, stream) && OneKey(sent, first) && Session(sent, first, n)
    requires InTurn(sent, stream, first)
    ensures m <= n && OutputAfter(sent, stream, config, k) == FramesOut(sent, first, n, m, config)
    ensures forall j :: first <= j < first + m ==> InTurn(sent, stream, j)
    ensures Running(sent, first, n, stream, k, m) || (m > 0 && Halted(sent, first, stream, k, m))
  {
    hide Take, FrameOut, OnTrack, Sent, WellFormed, InTurn, Emission, Running, Halted;
    if k == 0 {
      m := 0;
      StartsRunning(sent, first, n, stream);
    } else {
      var m0 := Course(sent, first, n, stream, config, k - 1);
      if Running(sent, first, n, stream, k - 1, m0) {
        m := RunningStep(sent, first, n, stream, k - 1, m0);
        RunningFacts(sent, first, n, stream, k, m);
      } else {
        m := m0;
        StaysHalted(sent, first, n, stream, k - 1, m);
      }
    }
  }

  lemma StartsRunning(sent: map<u32, SentFrame>, first: nat, n: nat, stream: seq<Packet>)
    requires AllSent(sent, stream) && Session(sent, first, n)
    ensures Running(sent, first, n, stream, 0, 0)
  {
    hide Sent, WellFormed, OnTrack;
    NothingArrived(sent, first, n, stream[..0]);
  }

  lemma RunningFacts(sent: map<u32, SentFrame>, first: nat, n: nat, stream: seq<Packet>, k: nat, m: nat)
    requires k <= |stream| && AllSent(sent, stream)
    ensures Running(sent, first, n, stream, k, m) ==> m <= n
  {
    hide Sent, WellFormed, Done, DataOf, GroupsKnown, DataLeft, ParityLeft;
  }

  lemma StaysHalted(sent: map<u32, SentFrame>, first: nat, n: nat, stream: seq<Packet>, k: nat, m: nat)
    requires k < |stream| && AllSent(sent, stream) && OneKey(sent, first) && Session(sent, first, n)
    requires Halted(sent, first, stream, k, m)
    ensures Halted(sent, first, stream, k + 1, m)
    ensures !Emission(After(sent, stream, k), After(sent, stream, k + 1))
  {
    hide Sent, WellFormed, Take, Stuck, InTurn;
    SentFacts(sent, stream[k]);
    StaysStuck(sent, first, After(sent, stream, k), stream[k]);
  }

  /** In the end the next frame has missed its turn. */
  lemma NextMissed(sent: map<u32, SentFrame>, first: nat, n: nat, stream: seq<Packet>, m: nat)
    requires AllSent(sent, stream) && OneKey(sent, first) && Session(sent, first, n) && m < n
    requires Running(sent, first, n, stream, |stream|, m) || Halted(sent, first, stream, |stream|, m)
    ensures !InTurn(sent, stream, first + m)
  {
    hide Sent, WellFormed, OnTrack, InTurn, Whole, AllNear, Stuck, Take;
    if !Halted(sent, first, stream, |stream|, m) {
      NotYetWhole(sent, first, n, stream, |stream|, m);
      assert stream[..|stream|] == stream;
      NeverWhole(sent, stream, first + m);
    }
  }

  lemma NotYetWhole(sent: map<u32, SentFrame>, first: nat, n: nat, stream: seq<Packet>, k: nat, m: nat)
    requires k <= |stream| && AllSent(sent, stream) && OneKey(sent, first) && Session(sent, first, n) && m < n
    requires Running(sent, first, n, stream, k, m)
    ensures !Whole(sent, stream[..k], first + m)
  {
    hide Sent, WellFormed, OnTrack, Whole, Done, AllNear, Take;
    TrackFacts(sent, first, n, stream[..k], After(sent, stream, k), m);
    assert first + m in sent;
    DoneIffWhole(sent, first, stream, k, first + m);
  }

  /** One key frame and the deltas after it; their packets arrive in any order, with losses and duplicates, any
      number of frames at once, and frames may be lost for good. If the key frame has its turn, a frame comes out
      if and only if it and all frames before it have their turn, and nothing else comes out. */
  method ReceiveDespiteLoss(ghost sent: map<u32, SentFrame>, ghost first: nat, ghost n: nat, stream: seq<Packet>,
                            config: Option<seq<byte>>)
    returns (out: seq<Output>)
    requires AllSent(sent, stream) && WindowsFit(sent) && Session(sent, first, n) && OneKey(sent, first)
    requires InTurn(sent, stream, first)
    ensures |out| <= n && out == FramesOut(sent, first, n, |out|, config)
    ensures forall id :: id in sent ==>
              (id < first + |out| <==> forall j :: first <= j <= id ==> InTurn(sent, stream, j))
  {
    hide AllSent, WindowsFit, Session, OutputAfter, ComesOut, InTurn, Running, Halted, FramesOut;
    out := ReceiveExactly(sent, stream, config);
    RoomSuffices(sent, stream, config, |stream|);
    ghost var m := Course(sent, first, n, stream, config, |stream|);
    if m < n {
      NextMissed(sent, first, n, stream, m);
    }
    SessionIds(sent, first, n);
  }

  lemma SessionIds(sent: map<u32, SentFrame>, first: nat, n: nat)
    requires Session(sent, first, n)
    ensures forall id :: id in sent ==> first <= id < first + n
  {
  }
}
