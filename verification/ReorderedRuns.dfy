/** Runs in which nothing is lost and every packet stays inside the reorder window, and yet frames are missing from
    the output. */
module ReorderedRuns {
  import opened Bytes
  import opened EvrtWire
  import opened EvrtFec
  import opened EvrtVideo
  import opened Availability
  import opened Reassembler
  import opened Streams
  import opened StreamModel
  import opened BufferedStream
  import opened ReceiveBuffer

  ghost function ThreeFrames(c: seq<seq<byte>>, time: u64): map<u32, SentFrame>
    requires |c| == 3
  {
    map[0 := SentFrame([c[0]], true, time), 1 := SentFrame([c[1]], false, time), 2 := SentFrame([c[2]], false, time)]
  }

  /** Two deltas of one packet each change places, well within the window and with nothing lost: neither comes
      out. Delta 2 is complete before delta 1 and is withheld, and delta 1 is then refused. */
  method SwappedDeltas(c: seq<seq<byte>>, time: u64) returns (out: seq<Output>)
    requires |c| == 3 && forall i :: 0 <= i < 3 ==> SmallChunk(c[i])
    ensures out == [Output(0, c[0], true, time)]
  {
    hide Holds, Flatten, Total, FrameBytes, Step, From;
    hide ChannelReassembler.Kept, ChannelReassembler.Windowed, ChannelReassembler.FitsAfter, ChannelReassembler.Sincere;
    var receiver := new ChannelReassembler(ThreeFrames(c, time));
    var p0 := DataPacket(0, SentFrame([c[0]], true, time), 0);
    var p1 := DataPacket(1, SentFrame([c[1]], false, time), 0);
    var p2 := DataPacket(2, SentFrame([c[2]], false, time), 0);
    EmptyFits(receiver, p0);
    var r0 := ReceiveSingle(receiver, p0);
    assert receiver.frames == map[];
    EmptyFits(receiver, p2);
    var r2 := ReceiveSingle(receiver, p2);
    var r1 := receiver.OnPacket(p1, {}, {});
    FlattenOne(c[0]);
    out := Emitted(r0) + Emitted(r2) + Emitted(r1);
  }

  // ----- a key frame that overtakes a delta

  /** Key frame 0 of one packet, delta 1 and key frame 2 of two packets each. */
  ghost function OvertakenFrames(c: seq<seq<byte>>, time: u64): map<u32, SentFrame>
    requires |c| == 5
  {
    map[0 := SentFrame([c[0]], true, time), 1 := SentFrame([c[1], c[2]], false, time),
        2 := SentFrame([c[3], c[4]], true, time)]
  }

  lemma {:induction false} FewBytes(sent: map<u32, SentFrame>, lo: nat, n: nat, max: nat)
    requires forall id :: id in sent ==> FrameBytes(sent[id]) <= max
    ensures SentBytes(sent, lo, n) <= n * max
  {
    hide FrameBytes;
    if n > 0 {
      FewBytes(sent, lo, n - 1, max);
      assert n * max == (n - 1) * max + max;
    }
  }

  /** A whole frame is completed at once. */
  lemma WholeArrives(x: Rx, id: u32, s: SentFrame, i: nat)
    requires LetIn(x, id, s.key) && x.parity == map[] && !x.waiting
    requires Recoverable(|s.chunks|, With(DataOf(Forget(x, Bound(x, id, s.key)), id), i), {})
    requires Decodable(s.key, false, x.completed, id)
    ensures TakeData(x, id, s, i)
         == Rx(Some(id), false, if Newer(x, id) then Some(id) else x.seen,
               Forget(x, Bound(x, id, s.key)).data - {id}, map[])
  {
    hide Recoverable, Reveals, With;
    NoGroups();
    NothingPending(x.parity, Bound(x, id, s.key), id);
    var y := Forget(x, Bound(x, id, s.key));
    var data := y.data[id := With(DataOf(y, id), i)];
    SamePut(y.data, id, With(DataOf(y, id), i));
    assert y.parity == map[];
  }

  /** A part of a frame is kept. */
  lemma PartArrives(x: Rx, id: u32, s: SentFrame, i: nat, kept: map<u32, set<nat>>)
    requires LetIn(x, id, s.key) && x.parity == map[] && !x.waiting && kept == From(x.data, Bound(x, id, s.key))
    requires id !in kept && |s.chunks| == 2
    ensures TakeData(x, id, s, i)
         == Rx(x.completed, false, if Newer(x, id) then Some(id) else x.seen, kept[id := With({}, i)], map[])
  {
    hide Reveals;
    NoGroups();
    OneOfTwo(With({}, i), i);
  }

  lemma OneOfTwo(a: set<nat>, i: nat)
    requires forall j :: j in a ==> j == i
    ensures !Recoverable(2, a, {})
  {
    assert !Avail(2, a, {}, if i == 0 then 1 else 0);
  }

  lemma BothOfTwo()
    ensures Recoverable(2, With(With({}, 0), 1), {}) && Recoverable(1, With({}, 0), {})
  {
    assert (0 as nat) in With({}, 0);
  }

  /** Key frame 0, the first half of delta 1, the first half of key frame 2, and then the second halves. Nothing is
      lost, every packet is inside the window and frames become complete in order, but delta 1 does not come out:
      at the first packet of key frame 2 the receiver forgets its first half. */
  method OvertakenDelta(c: seq<seq<byte>>, time: u64) returns (out: seq<Output>)
    requires |c| == 5 && forall i :: 0 <= i < 5 ==> SmallChunk(c[i])
    ensures out == [Output(0, c[0], true, time), Output(2, c[3] + c[4], true, time)]
  {
    hide Take, Flatten, FrameBytes, After, OutputAfter, ComesOut, HeldAfter, DataPacket, WindowsFit, Sent, WellFormed;
    ghost var sent := OvertakenFrames(c, time);
    OvertakenFacts(c, time);
    var f, d, k := SentFrame([c[0]], true, time), SentFrame([c[1], c[2]], false, time),
                   SentFrame([c[3], c[4]], true, time);
    assert f == sent[0] && d == sent[1] && k == sent[2];
    var stream := [DataPacket(0, f, 0), DataPacket(1, d, 0), DataPacket(2, k, 0), DataPacket(1, d, 1),
                   DataPacket(2, k, 1)];
    IsSent(sent, 0, 0);
    IsSent(sent, 1, 0);
    IsSent(sent, 1, 1);
    IsSent(sent, 2, 0);
    IsSent(sent, 2, 1);
    out := ReceiveExactly(sent, stream, None);
    RoomSuffices(sent, stream, None, |stream|);
    OvertakenRun(c, sent, stream);
    FlattenOne(c[0]);
    FlattenTwo(c[3], c[4]);
  }

  lemma OvertakenFacts(c: seq<seq<byte>>, time: u64)
    requires |c| == 5 && forall i :: 0 <= i < 5 ==> SmallChunk(c[i])
    ensures var sent := OvertakenFrames(c, time); WindowsFit(sent) && forall id :: id in sent ==> WellFormed(sent[id])
  {
    hide Flatten;
    var sent := OvertakenFrames(c, time);
    forall id | id in sent ensures FrameBytes(sent[id]) <= 2400 {
      FlattenBound(sent[id].chunks, MAX_PAYLOAD_SIZE - FEC_HEADER_LEN);
    }
    forall lo: nat ensures WindowFits(sent, lo) {
      FewBytes(sent, lo, REORDER_WINDOW + 1, 2400);
    }
  }

  lemma IsSent(sent: map<u32, SentFrame>, id: u32, i: nat)
    requires id in sent && WellFormed(sent[id]) && i < |sent[id].chunks|
    ensures var p := DataPacket(id, sent[id], i);
            && Sent(sent, p) && p.header.frameId == id && forall x :: Take(x, sent, p) == TakeData(x, id, sent[id], i)
  {
    hide TakeData, WellFormed;
  }

  lemma FlattenTwo(a: seq<byte>, b: seq<byte>)
    ensures Flatten([a, b]) == a + b
  {
    assert [a, b][1..] == [b];
    FlattenOne(b);
  }

  /** What the model makes of the run. */
  lemma OvertakenRun(c: seq<seq<byte>>, sent: map<u32, SentFrame>, stream: seq<Packet>)
    requires sent.Keys == {0, 1, 2} && |stream| == 5 && AllSent(sent, stream)
    requires |sent[0].chunks| == 1 && |sent[1].chunks| == |sent[2].chunks| == 2
    requires sent[0].key && !sent[1].key && sent[2].key
    requires forall x :: Take(x, sent, stream[0]) == TakeData(x, 0, sent[0], 0)
    requires forall x :: Take(x, sent, stream[1]) == TakeData(x, 1, sent[1], 0)
    requires forall x :: Take(x, sent, stream[2]) == TakeData(x, 2, sent[2], 0)
    requires forall x :: Take(x, sent, stream[3]) == TakeData(x, 1, sent[1], 1)
    requires forall x :: Take(x, sent, stream[4]) == TakeData(x, 2, sent[2], 1)
    requires stream[0].header.frameId == 0 && stream[4].header.frameId == 2
    ensures OutputAfter(sent, stream, None, 5) == [FrameOut(sent, 0, None), FrameOut(sent, 2, None)]
  {
    hide Take, TakeData, FrameOut, Sent, WellFormed, After, OutputAfter;
    var x1 := Rx(Some(0), false, Some(0), map[], map[]);
    var x2 := Rx(Some(0), false, Some(1), map[1 := With({}, 0)], map[]);
    var x3 := Rx(Some(0), false, Some(2), map[2 := With({}, 0)], map[]);
    var x4 := Rx(Some(0), false, Some(2), map[2 := With({}, 0), 1 := With({}, 1)], map[]);
    var x5 := Rx(Some(2), false, Some(2), map[], map[]);
    OvertakenStates(sent, x1, x2, x3, x4, x5);
    StreamStarts(sent, stream);
    StreamStep(sent, stream, 0, NOTHING);
    StreamStep(sent, stream, 1, x1);
    StreamStep(sent, stream, 2, x2);
    StreamStep(sent, stream, 3, x3);
    StreamStep(sent, stream, 4, x4);
  }

  lemma StreamStarts(sent: map<u32, SentFrame>, stream: seq<Packet>)
    requires AllSent(sent, stream)
    ensures After(sent, stream, 0) == NOTHING && OutputAfter(sent, stream, None, 0) == []
  {
  }

  lemma StreamStep(sent: map<u32, SentFrame>, stream: seq<Packet>, k: nat, x: Rx)
    requires k < |stream| && AllSent(sent, stream) && After(sent, stream, k) == x
    ensures var x' := Take(x, sent, stream[k]);
            && After(sent, stream, k + 1) == x' && stream[k].header.frameId in sent
            && OutputAfter(sent, stream, None, k + 1)
               == OutputAfter(sent, stream, None, k)
                  + if Emission(x, x') then [FrameOut(sent, stream[k].header.frameId, None)] else []
  {
    hide Take, Sent, WellFormed;
    SentFacts(sent, stream[k]);
  }

  lemma OvertakenStates(sent: map<u32, SentFrame>, x1: Rx, x2: Rx, x3: Rx, x4: Rx, x5: Rx)
    requires sent.Keys == {0, 1, 2} && |sent[0].chunks| == 1 && |sent[1].chunks| == |sent[2].chunks| == 2
    requires sent[0].key && !sent[1].key && sent[2].key
    requires x1 == Rx(Some(0), false, Some(0), map[], map[])
    requires x2 == Rx(Some(0), false, Some(1), map[1 := With({}, 0)], map[])
    requires x3 == Rx(Some(0), false, Some(2), map[2 := With({}, 0)], map[])
    requires x4 == Rx(Some(0), false, Some(2), map[2 := With({}, 0), 1 := With({}, 1)], map[])
    requires x5 == Rx(Some(2), false, Some(2), map[], map[])
    ensures TakeData(NOTHING, 0, sent[0], 0) == x1 && TakeData(x1, 1, sent[1], 0) == x2
    ensures TakeData(x2, 2, sent[2], 0) == x3 && TakeData(x3, 1, sent[1], 1) == x4
    ensures TakeData(x4, 2, sent[2], 1) == x5
  {
    hide TakeData, Recoverable, With;
    BothOfTwo();
    assert From(NOTHING.data, 0) == map[];
    WholeArrives(NOTHING, 0, sent[0], 0);
    PartArrives(x1, 1, sent[1], 0, map[]);
    PartArrives(x2, 2, sent[2], 0, map[]);
    assert From(x3.data, 0) == x3.data;
    PartArrives(x3, 1, sent[1], 1, x3.data);
    assert From(x4.data, 2) == x3.data;
    WholeArrives(x4, 2, sent[2], 1);
  }
}
