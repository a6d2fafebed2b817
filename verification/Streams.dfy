/** Packets of many frames in any order: what the receiver may emit, and when a delta frame is emitted
    that does not follow the frame before it. */
module Streams {
  import opened Bytes
  import opened EvrtWire
  import opened EvrtFec
  import opened EvrtVideo
  import opened Availability
  import opened ReceiveBuffer
  import opened Reassembler

  /** A packet of some sent frame. */
  ghost predicate Sent(sent: map<u32, SentFrame>, p: Packet) {
    if p.header.packetType == TYPE_FEC then IsFec(sent, p) else IsData(sent, p)
  }

  /** The frame as the receiver should see it. */
  ghost predicate IsFrame(sent: map<u32, SentFrame>, o: Output) {
    o.id in sent && o == Output(o.id, Flatten(sent[o.id].chunks), sent[o.id].key, sent[o.id].time)
  }

  /** Output `k` is the frame directly after output `k - 1`. */
  predicate Follows(out: seq<Output>, k: nat)
    requires k < |out|
  {
    k > 0 && out[k].id == out[k - 1].id + 1
  }

  /** Every delta frame but the first output follows directly after its predecessor. */
  predicate DeltasFollow(out: seq<Output>) {
    forall k :: 0 < k < |out| && !out[k].key ==> Follows(out, k)
  }

  /** Every delta frame follows directly after its predecessor, so that none comes first. */
  predicate WellFounded(out: seq<Output>) {
    forall k :: 0 <= k < |out| && !out[k].key ==> Follows(out, k)
  }

  predicate Increasing(out: seq<Output>, completed: Option<u32>) {
    && (forall j, k :: 0 <= j < k < |out| ==> out[j].id < out[k].id)
    && (out != [] ==> completed.Some? && out[|out| - 1].id <= completed.value)
  }

  // ----- the base of the next delta

  /** The part of the receiver's state that decides on emission, and the number of frames emitted. */
  datatype Base = Base(completed: Option<u32>, waiting: bool, seen: Option<u32>, count: nat)

  /** The last completed frame is not the last one that was emitted. */
  predicate Withheld(b: Base, out: seq<Output>)
    requires b.count <= |out|
  {
    b.completed.Some? && (b.count == 0 || out[b.count - 1].id != b.completed.value)
  }

  /** The receiver would accept a delta on top of a frame that it never emitted. */
  predicate OffBase(b: Base, out: seq<Output>)
    requires b.count <= |out|
  {
    Withheld(b, out) && !b.waiting
  }

  /** The receiver has completed nothing yet, or is off base. */
  predicate Baseless(b: Base, out: seq<Output>)
    requires b.count <= |out|
  {
    b.completed.None? || OffBase(b, out)
  }

  /** A data packet of a key frame that is neither completed nor out of the reorder window. */
  predicate Opens(b: Base, p: Packet) {
    && p.header.packetType != TYPE_FEC && IsKey(p)
    && !(b.completed.Some? && p.header.frameId <= b.completed.value)
    && !(b.seen.Some? && Min(p.header.frameId + REORDER_WINDOW, U32_MAX) < b.seen.value)
  }

  predicate EmitsAt(b: Base, b': Base) {
    b'.count == b.count + 1
  }

  /** One packet. A delta that is emitted follows the last output exactly if the receiver was neither off base
      nor without any completed frame; the latter ends with the first frame that is completed. Off base is
      reached exactly by letting in a data packet of a key frame that does not complete it, while a loss is
      pending and the last completed frame was withheld; and it is left exactly by emitting a frame or by
      another loss. */
  predicate Law(b: Base, p: Packet, b': Base, out: seq<Output>) {
    && b.count <= b'.count <= |out| && (b'.count == b.count || EmitsAt(b, b'))
    && (b.completed.None? ==> b.count == 0)
    && (EmitsAt(b, b') ==> out[b.count].id == p.header.frameId && out[b.count].key == IsKey(p))
    && (b'.completed != b.completed ==> EmitsAt(b, b') || b'.waiting)
    && (EmitsAt(b, b') && !IsKey(p) && b.completed.Some? ==> b.completed.value + 1 == p.header.frameId)
    && (EmitsAt(b, b') && !IsKey(p) ==>
          (Follows(out, b.count) <==> !Baseless(b, out)))
    && (b.completed.None? ==> (b'.completed.None? <==> !EmitsAt(b, b') && b'.completed == b.completed))
    && (b.completed.Some? ==> b'.completed.Some?)
    && (!OffBase(b, out) && OffBase(b', out) <==>
          b.waiting && Withheld(b, out) && Opens(b, p) && !EmitsAt(b, b'))
    && (OffBase(b, out) ==> (!OffBase(b', out) <==> EmitsAt(b, b') || b'.waiting))
  }

  lemma LawHolds(b: Base, p: Packet, b': Base, out: seq<Output>, r: Option<Output>)
    requires Step(p.header.frameId, IsKey(p), Opens(b, p), b.completed, b.waiting, b'.completed, b'.waiting, r)
    requires b.count == |out| && Increasing(out, b.completed)
    requires b'.count == |out| + if r.Some? then 1 else 0
    ensures var out' := if r.Some? then out + [r.value] else out;
            Law(b, p, b', out') && Increasing(out', b'.completed)
  {
    hide IsKey;
    var out' := if r.Some? then out + [r.value] else out;
    if out != [] {
      assert out'[|out| - 1] == out[|out| - 1];
    }
    if r.Some? {
      assert out'[|out|] == r.value && b'.completed == Some(r.value.id);
      assert !OffBase(b', out');
    } else {
      assert b'.completed != b.completed ==> b'.waiting;
    }
  }

  lemma LawExtends(b: Base, p: Packet, b': Base, out: seq<Output>, o: Output)
    requires Law(b, p, b', out)
    ensures Law(b, p, b', out + [o])
  {
    hide IsKey, Opens;
  }

  /** A delta that is not the first output is emitted off base. */
  predicate DeltaOffBase(b: Base, p: Packet, b': Base, out: seq<Output>) {
    0 < b.count <= |out| && EmitsAt(b, b') && !IsKey(p) && OffBase(b, out)
  }

  predicate NeverOffBase(trace: seq<Base>, stream: seq<Packet>, out: seq<Output>)
    requires |trace| <= |stream| + 1
  {
    forall k :: 0 <= k < |trace| - 1 ==> !DeltaOffBase(trace[k], stream[k], trace[k + 1], out)
  }

  /** A delta is emitted by a receiver that has completed nothing yet or is off base. */
  predicate DeltaBaseless(b: Base, p: Packet, b': Base, out: seq<Output>) {
    b.count <= |out| && EmitsAt(b, b') && !IsKey(p) && Baseless(b, out)
  }

  predicate NeverBaseless(trace: seq<Base>, stream: seq<Packet>, out: seq<Output>)
    requires |trace| <= |stream| + 1
  {
    forall k :: 0 <= k < |trace| - 1 ==> !DeltaBaseless(trace[k], stream[k], trace[k + 1], out)
  }

  /** The state of reception after the packets that the trace covers. */
  ghost predicate Traced(receiver: ChannelReassembler, sent: map<u32, SentFrame>, stream: seq<Packet>,
                         trace: seq<Base>, out: seq<Output>)
    reads receiver
  {
    && receiver.Valid() && receiver.honest && receiver.sent == sent && receiver.codecConfig == None
    && 0 < |trace| <= |stream| + 1 && trace[0] == Base(None, false, None, 0)
    && trace[|trace| - 1] == Base(receiver.latestCompleted, receiver.waitingAfterLoss, receiver.latestSeen, |out|)
    && (forall k :: 0 <= k < |trace| ==> trace[k].count <= |out|)
    && (forall k :: 0 <= k < |trace| - 1 ==> Law(trace[k], stream[k], trace[k + 1], out))
    && (forall o :: o in out ==> IsFrame(sent, o))
    && Increasing(out, receiver.latestCompleted)
  }

  /** What one packet adds to the output. */
  function Emitted(r: Option<Output>): seq<Output> {
    if r.Some? then [r.value] else []
  }

  /** Hands one packet to the reassembler. */
  method Receive(receiver: ChannelReassembler, p: Packet, ghost sent: map<u32, SentFrame>, ghost b: Base)
    returns (r: Option<Output>)
    requires receiver.Valid() && receiver.honest && receiver.sent == sent && receiver.codecConfig == None
    requires Sent(sent, p)
    requires b.completed == receiver.latestCompleted && b.waiting == receiver.waitingAfterLoss
             && b.seen == receiver.latestSeen
    modifies receiver
    ensures receiver.Valid() && receiver.honest && receiver.codecConfig == None
    ensures r.Some? ==> IsFrame(sent, r.value)
    ensures Step(p.header.frameId, IsKey(p), Opens(b, p), b.completed, b.waiting,
                 receiver.latestCompleted, receiver.waitingAfterLoss, r)
  {
    hide Step, IsFec, Flatten, IsKey, WellFormed;
    hide ChannelReassembler.Kept, ChannelReassembler.Windowed, ChannelReassembler.Tracks, ChannelReassembler.FitsAfter;
    if p.header.packetType == TYPE_FEC {
      r := receiver.OnFecPacket(p, {}, {});
    } else {
      DataFacts(sent, p);
      r := receiver.OnPacket(p, {}, {});
    }
  }

  /** One more packet keeps the account of the run. */
  lemma TraceStep(trace: seq<Base>, stream: seq<Packet>, out: seq<Output>, b': Base, r: Option<Output>)
    requires 0 < |trace| <= |stream| && trace[|trace| - 1].count == |out|
    requires forall k :: 0 <= k < |trace| ==> trace[k].count <= |out|
    requires forall k :: 0 <= k < |trace| - 1 ==> Law(trace[k], stream[k], trace[k + 1], out)
    requires b'.count == |out| + if r.Some? then 1 else 0
    requires Law(trace[|trace| - 1], stream[|trace| - 1], b', if r.Some? then out + [r.value] else out)
    ensures var out', trace' := if r.Some? then out + [r.value] else out, trace + [b'];
            && (forall k :: 0 <= k < |trace'| ==> trace'[k].count <= |out'|)
            && (forall k :: 0 <= k < |trace'| - 1 ==> Law(trace'[k], stream[k], trace'[k + 1], out'))
  {
    hide Law, IsKey;
    if r.Some? {
      forall k | 0 <= k < |trace| - 1 ensures Law(trace[k], stream[k], trace[k + 1], out + [r.value]) {
        LawExtends(trace[k], stream[k], trace[k + 1], out, r.value);
      }
    }
  }

  /** The step of a run that emits output `i`. */
  lemma EmittingStep(trace: seq<Base>, stream: seq<Packet>, out: seq<Output>, i: nat) returns (k: nat)
    requires 0 < |trace| <= |stream| + 1 && trace[0].count == 0 && i < trace[|trace| - 1].count
    requires forall j :: 0 <= j < |trace| - 1 ==> Law(trace[j], stream[j], trace[j + 1], out)
    ensures k < |trace| - 1 && trace[k].count == i && EmitsAt(trace[k], trace[k + 1])
  {
    hide IsKey, Opens, Baseless, OffBase;
    k := |trace| - 1;
    while trace[k].count > i
      invariant k < |trace|
      decreases k
      invariant trace[k].count <= i ==> k < |trace| - 1 && trace[k].count == i && EmitsAt(trace[k], trace[k + 1])
    {
      assert Law(trace[k - 1], stream[k - 1], trace[k], out);
      k := k - 1;
    }
  }

  /** The deltas of the output follow their predecessors exactly if no step emitted one off base, and none of
      them comes first exactly if no step emitted one without a base. */
  lemma FollowIff(trace: seq<Base>, stream: seq<Packet>, out: seq<Output>)
    requires 0 < |trace| <= |stream| + 1 && trace[0].count == 0 && |out| == trace[|trace| - 1].count
    requires forall j :: 0 <= j < |trace| - 1 ==> Law(trace[j], stream[j], trace[j + 1], out)
    ensures DeltasFollow(out) <==> NeverOffBase(trace, stream, out)
    ensures WellFounded(out) <==> NeverBaseless(trace, stream, out)
  {
    hide Law, IsKey, OffBase, Baseless, Follows, EmitsAt;
    forall i | 0 <= i < |out| && !out[i].key
      ensures exists k :: 0 <= k < |trace| - 1 && trace[k].count == i && EmitsAt(trace[k], trace[k + 1])
                          && !IsKey(stream[k]) && (Follows(out, i) <==> !Baseless(trace[k], out))
                          && (i > 0 ==> (Baseless(trace[k], out) <==> OffBase(trace[k], out)))
    {
      var k := EmittingStep(trace, stream, out, i);
      EmittedDelta(trace[k], stream[k], trace[k + 1], out);
    }
    forall k | 0 <= k < |trace| - 1 && EmitsAt(trace[k], trace[k + 1])
      ensures trace[k].count < |out| && out[trace[k].count].key == IsKey(stream[k])
      ensures !IsKey(stream[k]) ==> (Follows(out, trace[k].count) <==> !Baseless(trace[k], out))
      ensures trace[k].count > 0 ==> (Baseless(trace[k], out) <==> OffBase(trace[k], out))
    {
      EmittedDelta(trace[k], stream[k], trace[k + 1], out);
    }
  }

  lemma EmittedDelta(b: Base, p: Packet, b': Base, out: seq<Output>)
    requires Law(b, p, b', out) && EmitsAt(b, b')
    ensures b.count < |out| && out[b.count].key == IsKey(p)
    ensures !IsKey(p) ==> (Follows(out, b.count) <==> !Baseless(b, out))
    ensures b.count > 0 ==> (Baseless(b, out) <==> OffBase(b, out))
  {
    hide IsKey, Follows, Withheld;
  }

  /** The next packet of a stream. */
  method ReceiveNext(receiver: ChannelReassembler, ghost sent: map<u32, SentFrame>, stream: seq<Packet>,
                     trace: seq<Base>, out: seq<Output>)
    returns (out': seq<Output>, trace': seq<Base>)
    requires Traced(receiver, sent, stream, trace, out) && |trace| <= |stream|
    requires Sent(sent, stream[|trace| - 1])
    modifies receiver
    ensures Traced(receiver, sent, stream, trace', out') && |trace'| == |trace| + 1
  {
    hide IsFrame, Sent, Law, Step, Opens, IsKey;
    hide ChannelReassembler.Kept, ChannelReassembler.Windowed;
    var k := |trace| - 1;
    ghost var b := trace[k];
    var r := Receive(receiver, stream[k], sent, b);
    var b' := Base(receiver.latestCompleted, receiver.waitingAfterLoss, receiver.latestSeen,
                   if r.Some? then |out| + 1 else |out|);
    LawHolds(b, stream[k], b', out, r);
    TraceStep(trace, stream, out, b', r);
    out' := out + Emitted(r);
    assert out' == if r.Some? then out + [r.value] else out;
    trace' := trace + [b'];
  }

  /** Packets of any frames of the sender arrive in any order, with losses and duplicates. Every emitted frame
      is the sent one and the frame numbers increase. Every step obeys the law above, so that the deltas of
      the output all follow their predecessors if and only if none was emitted off base or, as far as the first
      output is concerned, before any frame was completed. */
  method ReceiveStream(ghost sent: map<u32, SentFrame>, stream: seq<Packet>)
    returns (out: seq<Output>, trace: seq<Base>)
    requires forall id :: id in sent ==> WellFormed(sent[id])
    requires forall k :: 0 <= k < |stream| ==> Sent(sent, stream[k])
    ensures forall o :: o in out ==> IsFrame(sent, o)
    ensures forall j, k :: 0 <= j < k < |out| ==> out[j].id < out[k].id
    ensures |trace| == |stream| + 1 && trace[0] == Base(None, false, None, 0) && trace[|stream|].count == |out|
    ensures forall k :: 0 <= k < |stream| ==> Law(trace[k], stream[k], trace[k + 1], out)
    ensures forall k :: 0 <= k < |trace| ==> trace[k].count <= |out|
    ensures DeltasFollow(out) <==> NeverOffBase(trace, stream, out)
    ensures WellFounded(out) <==> NeverBaseless(trace, stream, out)
    ensures KeyOrdered(stream) ==> DeltasFollow(out)
  {
    hide IsFrame, Sent, WellFormed, Law, NeverOffBase, DeltasFollow, NeverBaseless, WellFounded, KeyOrdered;
    hide ChannelReassembler.Kept, ChannelReassembler.Windowed;
    var receiver := new ChannelReassembler(sent);
    out, trace := [], [Base(None, false, None, 0)];
    for k := 0 to |stream|
      invariant fresh(receiver) && |trace| == k + 1 && Traced(receiver, sent, stream, trace, out)
    {
      out, trace := ReceiveNext(receiver, sent, stream, trace, out);
    }
    FollowIff(trace, stream, out);
    if KeyOrdered(stream) {
      KeyOrderIsSafe(sent, stream, trace, out);
    }
  }

  // ----- an order of arrival that is safe

  /** No packet of an older frame arrives after a packet of a key frame. */
  ghost predicate KeyOrdered(stream: seq<Packet>) {
    forall j, k :: 0 <= j < k < |stream| && IsKey(stream[j]) ==>
      stream[j].header.frameId <= stream[k].header.frameId
  }

  /** The newest key frame of which a packet arrived. */
  ghost function NewestKey(stream: seq<Packet>): (key: int)
    ensures forall j :: 0 <= j < |stream| && IsKey(stream[j]) ==> stream[j].header.frameId <= key
    ensures key == -1 || exists j :: 0 <= j < |stream| && IsKey(stream[j]) && stream[j].header.frameId == key
  {
    if stream == [] then -1
    else
      var last := |stream| - 1;
      assert stream == stream[..last] + [stream[last]];
      var key := NewestKey(stream[..last]);
      if IsKey(stream[last]) then Max(key, stream[last].header.frameId) else key
  }

  lemma NewestKeyStep(stream: seq<Packet>, k: nat)
    requires k < |stream|
    ensures NewestKey(stream[..k + 1])
         == if IsKey(stream[k]) then Max(NewestKey(stream[..k]), stream[k].header.frameId) else NewestKey(stream[..k])
  {
    assert stream[..k + 1][..k] == stream[..k];
  }

  /** Packets of one frame agree on its key flag. */
  lemma KeyFlagOf(sent: map<u32, SentFrame>, p: Packet)
    requires Sent(sent, p)
    ensures p.header.frameId in sent && IsKey(p) == sent[p.header.frameId].key
  {
    hide GroupParity, FecPayload, WellFormed, GroupCount;
  }

  lemma KeyFacts(sent: map<u32, SentFrame>, stream: seq<Packet>, k: nat)
    requires k < |stream| && KeyOrdered(stream) && forall j :: 0 <= j < |stream| ==> Sent(sent, stream[j])
    ensures var id, newest := stream[k].header.frameId, NewestKey(stream[..k]);
            && newest <= id && (newest == id ==> IsKey(stream[k]))
            && NewestKey(stream[..k + 1]) == if IsKey(stream[k]) then id else newest
  {
    hide Sent, IsKey;
    var newest := NewestKey(stream[..k]);
    NewestKeyStep(stream, k);
    if newest != -1 {
      var j :| 0 <= j < k && IsKey(stream[j]) && stream[j].header.frameId == newest;
      KeyFlagOf(sent, stream[j]);
      KeyFlagOf(sent, stream[k]);
    }
  }

  /** Off base, a key frame newer than the last completed one has begun to arrive. */
  lemma {:induction false} OffBaseBehindKey(sent: map<u32, SentFrame>, stream: seq<Packet>, trace: seq<Base>,
                                            out: seq<Output>, k: nat)
    requires k < |trace| == |stream| + 1 && trace[0] == Base(None, false, None, 0)
    requires forall j :: 0 <= j < |stream| ==> Law(trace[j], stream[j], trace[j + 1], out)
    requires trace[k].count <= |out|
    ensures OffBase(trace[k], out) ==> trace[k].completed.value < NewestKey(stream[..k])
  {
    hide IsKey, NewestKey;
    if k > 0 {
      assert Law(trace[k - 1], stream[k - 1], trace[k], out);
      OffBaseBehindKey(sent, stream, trace, out, k - 1);
      NewestKeyStep(stream, k - 1);
    }
  }

  /** If no packet of an older frame arrives behind a packet of a key frame, no delta is emitted off base. */
  lemma KeyOrderIsSafe(sent: map<u32, SentFrame>, stream: seq<Packet>, trace: seq<Base>, out: seq<Output>)
    requires |trace| == |stream| + 1 && trace[0] == Base(None, false, None, 0)
    requires forall j :: 0 <= j < |stream| ==> Law(trace[j], stream[j], trace[j + 1], out)
    requires KeyOrdered(stream) && forall j :: 0 <= j < |stream| ==> Sent(sent, stream[j])
    ensures NeverOffBase(trace, stream, out)
  {
    hide IsKey, NewestKey, Sent, KeyOrdered;
    forall k | 0 <= k < |stream| ensures !DeltaOffBase(trace[k], stream[k], trace[k + 1], out) {
      assert Law(trace[k], stream[k], trace[k + 1], out);
      OffBaseBehindKey(sent, stream, trace, out, k);
      KeyFacts(sent, stream, k);
    }
  }

  // ----- a run that goes off base

  /** A packet that is its whole frame. */
  method ReceiveSingle(receiver: ChannelReassembler, p: Packet) returns (r: Option<Output>)
    requires receiver.Valid() && receiver.honest && receiver.codecConfig == None && IsData(receiver.sent, p)
    requires |receiver.sent[p.header.frameId].chunks| == 1
    requires receiver.pendingFec == map[] && p.header.frameId !in receiver.frames
    requires receiver.Admissible(p) && receiver.FitsAfter(p)
    modifies receiver
    ensures var id := p.header.frameId;
            && receiver.Valid() && receiver.honest && receiver.codecConfig == None && receiver.pendingFec == map[]
            && receiver.frames == From(old(receiver.frames), old(receiver.Cutoff(p))) - {id}
            && receiver.latestCompleted == Some(id) && receiver.latestSeen == old(receiver.SeenWith(id))
            && (r.Some? <==> Decodable(IsKey(p), false, old(receiver.latestCompleted), id))
            && (receiver.waitingAfterLoss <==> r.None?)
            && (r.Some? ==> IsFrame(receiver.sent, r.value) && r.value.id == id)
  {
    hide IsKey, Holds, Flatten, WellFormed, Total, FrameBytes, From, IsData;
    hide ChannelReassembler.Kept, ChannelReassembler.Windowed, ChannelReassembler.TakenAs, ChannelReassembler.FirstNeed;
    ghost var id, first, completed := p.header.frameId, receiver.FirstNeed(p), receiver.latestCompleted;
    ghost var kept, parity := From(receiver.frames, receiver.Cutoff(p)), From(receiver.pendingFec, receiver.Cutoff(p));
    DataFacts(receiver.sent, p);
    OnlyPacket();
    NothingPending(receiver.pendingFec, receiver.Cutoff(p), id);
    r := receiver.OnPacket(p, {}, {});
    receiver.RoomyTaken(kept, parity, id, first, With({}, 0), {}, completed, false, r);
  }

  lemma NothingPending<V>(m: map<u32, V>, cutoff: nat, id: u32)
    requires m == map[]
    ensures From(m, cutoff) - {id} == map[]
  {
  }

  lemma OnlyPacket()
    ensures Recoverable(1, With({}, 0), {})
  {
    assert (0 as nat) in With({}, 0);
  }

  lemma HalfAFrame()
    ensures !Recoverable(2, With({}, 0), {})
  {
    assert !Avail(2, With({}, 0), {}, 1);
  }

  predicate SmallChunk(c: seq<byte>) {
    0 < |c| <= MAX_PAYLOAD_SIZE - FEC_HEADER_LEN
  }

  /** Frame 0 and frame 4 are key frames, the latter of two packets; frame 1 is not among those that arrive. */
  ghost function FourFrames(c: seq<seq<byte>>, time: u64): map<u32, SentFrame>
    requires |c| == 5
  {
    map[0 := SentFrame([c[0]], true, time), 2 := SentFrame([c[1]], false, time), 3 := SentFrame([c[2]], false, time),
        4 := SentFrame([c[3], c[4]], true, time)]
  }

  lemma EmptyFits(receiver: ChannelReassembler, p: Packet)
    requires receiver.Valid() && IsData(receiver.sent, p) && receiver.frames == map[]
    ensures receiver.FitsAfter(p)
  {
    hide FrameBytes;
    DataFacts(receiver.sent, p);
    OneFrameFits(receiver.sent[p.header.frameId]);
    assert From(receiver.frames, receiver.Cutoff(p)) - {p.header.frameId} == map[];
  }

  /** Beside half a frame of two packets there is room for one more packet. */
  lemma SmallFits(receiver: ChannelReassembler, p: Packet)
    requires receiver.Valid() && receiver.honest && IsData(receiver.sent, p)
    requires !IsKey(p) && !receiver.Newest(p.header.frameId)
    requires receiver.frames.Keys == {4} && |receiver.sent[4].chunks| == 2 && p.header.frameId != 4
    requires |receiver.sent[p.header.frameId].chunks| == 1
    ensures receiver.FitsAfter(p)
  {
    hide Total, Flatten, IsKey;
    hide ChannelReassembler.Windowed;
    var id := p.header.frameId;
    DataFacts(receiver.sent, p);
    var m := receiver.frames;
    assert From(m, 0) - {id} == m && m - {4} == map[];
    TotalSplit(m, 4);
    NoBytes();
    AssembledBytes(receiver.sent[4], m[4]);
    FlattenBound(receiver.sent[4].chunks, MAX_PAYLOAD_SIZE - FEC_HEADER_LEN);
    FlattenBound(receiver.sent[id].chunks, MAX_PAYLOAD_SIZE - FEC_HEADER_LEN);
  }

  /** The first packet of a two-packet key frame, when nothing else is in flight. */
  method ReceiveHalf(receiver: ChannelReassembler, p: Packet) returns (r: Option<Output>)
    requires receiver.Valid() && receiver.honest && receiver.codecConfig == None && IsData(receiver.sent, p) && IsKey(p)
    requires |receiver.sent[p.header.frameId].chunks| == 2 && p.header.index == 0
    requires receiver.pendingFec == map[] && receiver.frames == map[] && receiver.Admissible(p)
    modifies receiver
    ensures receiver.Valid() && receiver.honest && receiver.codecConfig == None && receiver.pendingFec == map[]
    ensures r.None? && receiver.latestCompleted == old(receiver.latestCompleted) && !receiver.waitingAfterLoss
    ensures receiver.latestSeen == old(receiver.SeenWith(p.header.frameId))
    ensures receiver.frames.Keys == {p.header.frameId}
  {
    hide IsKey, Holds, Flatten, WellFormed, Total, FrameBytes, IsData;
    hide ChannelReassembler.Kept, ChannelReassembler.Windowed, ChannelReassembler.FitsAfter;
    var id := p.header.frameId;
    DataFacts(receiver.sent, p);
    HalfAFrame();
    r := receiver.OnPacket(p, {}, {});
    assert (0 as nat) in With({}, 0);
    assert receiver.frames - {id} == map[];
    assert receiver.frames.Keys == (receiver.frames - {id}).Keys + {id};
  }

  /** The deltas of the output need not follow each other. Key frame 0 is emitted; frame 1 is lost, so delta 2
      completes and is withheld; the first packet of key frame 4 ends the pending loss before that frame is
      complete; and delta 3, which builds on the withheld frame 2, is emitted after frame 0. */
  method StaleBaseRun(c: seq<seq<byte>>, time: u64) returns (out: seq<Output>)
    requires |c| == 5 && forall i :: 0 <= i < 5 ==> SmallChunk(c[i])
    ensures out == [Output(0, c[0], true, time), Output(3, c[2], false, time)] && !DeltasFollow(out)
  {
    hide Holds, Flatten, Total, FrameBytes, Step, From;
    hide ChannelReassembler.Kept, ChannelReassembler.Windowed, ChannelReassembler.FitsAfter, ChannelReassembler.Sincere;
    ghost var sent := FourFrames(c, time);
    var receiver := new ChannelReassembler(sent);
    var p0 := DataPacket(0, SentFrame([c[0]], true, time), 0);
    var p2 := DataPacket(2, SentFrame([c[1]], false, time), 0);
    var p4 := DataPacket(4, SentFrame([c[3], c[4]], true, time), 0);
    var p3 := DataPacket(3, SentFrame([c[2]], false, time), 0);
    EmptyFits(receiver, p0);
    var r0 := ReceiveSingle(receiver, p0);
    assert receiver.frames == map[];
    EmptyFits(receiver, p2);
    var r2 := ReceiveSingle(receiver, p2);
    assert receiver.frames == map[];
    var r4 := ReceiveHalf(receiver, p4);
    SmallFits(receiver, p3);
    var r3 := ReceiveSingle(receiver, p3);
    FlattenOne(c[0]);
    FlattenOne(c[2]);
    out := Emitted(r0) + Emitted(r2) + Emitted(r4) + Emitted(r3);
    assert !out[1].key && out[1].id != out[0].id + 1;
  }

  lemma FlattenOne(c: seq<byte>)
    ensures Flatten([c]) == c
  {
    assert [c][1..] == [];
  }
}
