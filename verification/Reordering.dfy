/** Reordering that the receiver tolerates: exactly when all frames that can be rebuilt from what arrives come out,
    for packets of any number of frames in any order. */
module Reordering {
  import opened Bytes
  import opened EvrtWire
  import opened EvrtFec
  import opened EvrtVideo
  import opened Availability
  import opened Reassembler
  import opened Streams
  import opened StreamModel
  import opened BufferedStream
  import opened ReceiveBuffer
  import opened Arrivals

  // ----- the conditions

  /** The frames of a session, numbered from `first` on. */
  ghost predicate Session(sent: map<u32, SentFrame>, first: nat, n: nat) {
    first + n <= 0x1_0000_0000 && forall id: int :: id in sent <==> first <= id < first + n
  }

  /** Data packet `k` is not ahead by more than the window of a frame that arrives but is not done by then. */
  ghost predicate WithinReach(sent: map<u32, SentFrame>, stream: seq<Packet>, k: nat)
    requires k < |stream|
  {
    !IsParityPacket(stream[k]) ==>
      forall j :: j in sent && j + REORDER_WINDOW < stream[k].header.frameId && Whole(sent, stream, j) ==>
        Done(sent, stream[..k], j)
  }

  /** The frames that are done are the first ones. */
  ghost predicate FirstOnes(sent: map<u32, SentFrame>, first: nat, stream: seq<Packet>) {
    forall id :: id in sent && id > first && Done(sent, stream, id) ==> Done(sent, stream, id - 1)
  }

  /** Up to packet `n`: nothing runs ahead by more than the window, and frames become complete in order. */
  ghost predicate InOrder(sent: map<u32, SentFrame>, first: nat, stream: seq<Packet>, n: nat)
    requires n <= |stream|
  {
    && (forall k :: 0 <= k < n ==> WithinReach(sent, stream, k))
    && (forall k :: 0 <= k <= n ==> FirstOnes(sent, first, stream[..k]))
  }

  /** No key frame costs the stream an older frame: every frame of which enough arrives is done at some time. */
  ghost predicate NothingForgotten(sent: map<u32, SentFrame>, stream: seq<Packet>) {
    forall id :: id in sent && Whole(sent, stream, id) ==> Done(sent, stream, id)
  }

  /** Exactly the first `m` frames can be rebuilt from all that arrives. */
  ghost predicate WholeUpto(sent: map<u32, SentFrame>, first: nat, stream: seq<Packet>, m: nat) {
    forall id :: id in sent ==> (Whole(sent, stream, id) <==> id < first + m)
  }

  /** Of the frame after the first `m` enough arrives at some time. */
  ghost predicate Awaited(sent: map<u32, SentFrame>, first: nat, stream: seq<Packet>, m: nat) {
    first + m < 0x1_0000_0000 && Whole(sent, stream, first + m)
  }

  /** A data packet is not ahead of the frame after the first `m` by more than the window. */
  predicate Near(first: nat, p: Packet, m: nat) {
    !IsParityPacket(p) ==> p.header.frameId <= first + m + REORDER_WINDOW
  }

  // ----- as long as the conditions hold

  /** After `k` packets exactly the first `m` frames are done; the model has completed them, knows what is left of
      the others, and has no loss pending. */
  ghost predicate OnTrack(sent: map<u32, SentFrame>, first: nat, n: nat, stream: seq<Packet>, x: Rx, m: nat) {
    && m <= n && !x.waiting && x.completed == (if m == 0 then None else Some(first + m - 1))
    && (x.seen.Some? ==> x.seen.value <= first + m + REORDER_WINDOW)
    && (forall id :: id in sent ==> (Done(sent, stream, id) <==> id < first + m))
    && (forall id :: id in sent && id >= first + m ==>
          DataOf(x, id) == DataLeft(stream, id) && GroupsKnown(x, id) == ParityLeft(stream, id))
    && (forall id :: id in x.data ==> id in sent && id >= first + m && x.data[id] != {})
  }

  /** A packet of a frame that is already complete changes nothing. */
  lemma LatePacket(sent: map<u32, SentFrame>, first: nat, n: nat, stream: seq<Packet>, k: nat, x: Rx, m: nat)
    requires k < |stream| && Sent(sent, stream[k]) && Session(sent, first, n)
    requires OnTrack(sent, first, n, stream[..k], x, m) && stream[k].header.frameId < first + m
    ensures Take(x, sent, stream[k]) == x && OnTrack(sent, first, n, stream[..k + 1], x, m)
  {
    hide DataLeft, ParityLeft, DataOf, GroupsKnown, Sent, Done, Settled;
    SentFacts(sent, stream[k]);
    forall id | id in sent
      ensures Done(sent, stream[..k + 1], id) <==> id < first + m
      ensures id >= first + m ==> DataLeft(stream[..k + 1], id) == DataLeft(stream[..k], id)
                                  && ParityLeft(stream[..k + 1], id) == ParityLeft(stream[..k], id)
    {
      DoneStep(sent, stream, k, id);
      LeftStep(stream, k, id);
    }
  }

  /** A packet of a frame that is not complete is never too late, and a data packet is let in. */
  lemma GetsIn(sent: map<u32, SentFrame>, first: nat, n: nat, stream: seq<Packet>, k: nat, x: Rx, m: nat)
    requires k < |stream| && stream[k].header.frameId in sent && Session(sent, first, n)
    requires Near(first, stream[k], m)
    requires OnTrack(sent, first, n, stream[..k], x, m) && stream[k].header.frameId >= first + m
    ensures var p, id := stream[k], stream[k].header.frameId;
            && !Late(x, id)
            && (!IsParityPacket(p) ==>
                  && LetIn(x, id, IsKey(p)) && id <= first + m + REORDER_WINDOW
                  && var bound := Bound(x, id, IsKey(p)); if IsKey(p) then bound == id else bound <= first + m)
  {
    hide DataLeft, ParityLeft, DataOf, GroupsKnown, Done, IsKey;
  }

  lemma ReachIsNear(sent: map<u32, SentFrame>, first: nat, n: nat, stream: seq<Packet>, k: nat, x: Rx, m: nat)
    requires k < |stream| && Session(sent, first, n) && OnTrack(sent, first, n, stream[..k], x, m)
    requires WithinReach(sent, stream, k) && Awaited(sent, first, stream, m)
    ensures Near(first, stream[k], m)
  {
    hide DataLeft, ParityLeft, DataOf, GroupsKnown, DataIn, ParityIn, Recoverable, Done;
    assert first + m in sent && !Done(sent, stream[..k], first + m);
  }

  /** The model before settling: as `OnTrack`, with the packet at hand among those known. */
  ghost predicate Stocked(sent: map<u32, SentFrame>, first: nat, stream: seq<Packet>, y: Rx, m: nat) {
    && !y.waiting && y.completed == (if m == 0 then None else Some(first + m - 1))
    && (y.seen.Some? ==> y.seen.value <= first + m + REORDER_WINDOW)
    && (forall id :: id in sent && id >= first + m ==>
          DataOf(y, id) == DataLeft(stream, id) && GroupsKnown(y, id) == ParityLeft(stream, id))
    && (forall id :: id in y.data ==> id in sent && id >= first + m && y.data[id] != {})
  }

  lemma StockedData(sent: map<u32, SentFrame>, first: nat, n: nat, stream: seq<Packet>, k: nat, x: Rx, m: nat,
                    bound: nat, seen: Option<u32>)
    requires k < |stream| && !IsParityPacket(stream[k]) && OnTrack(sent, first, n, stream[..k], x, m)
    requires stream[k].header.frameId in sent && stream[k].header.frameId >= first + m
    requires if IsKey(stream[k]) then bound == stream[k].header.frameId else bound <= first + m
    requires seen.Some? ==> seen.value <= first + m + REORDER_WINDOW
    ensures var y, id := Forget(x, bound), stream[k].header.frameId;
            Stocked(sent, first, stream[..k + 1],
                    y.(waiting := false, seen := seen,
                       data := y.data[id := With(DataOf(y, id), stream[k].header.index)]), m)
  {
    hide DataLeft, ParityLeft, Done, With, GroupsOf, From, DataOf, IsKey;
    var y, id := Forget(x, bound), stream[k].header.frameId;
    var i := stream[k].header.index;
    var z := y.(waiting := false, seen := seen, data := y.data[id := With(DataOf(y, id), i)]);
    NotEmpty(DataOf(y, id), i);
    forall j | j in sent && j >= first + m
      ensures DataOf(z, j) == DataLeft(stream[..k + 1], j) && GroupsKnown(z, j) == ParityLeft(stream[..k + 1], j)
    {
      LeftStep(stream, k, j);
      ForgetIs(x, bound, j);
      DataPut(y, z, id, DataOf(y, id), i, j);
    }
  }

  lemma ForgetIs(x: Rx, bound: nat, j: u32)
    ensures DataOf(Forget(x, bound), j) == (if j >= bound then DataOf(x, j) else {})
    ensures GroupsKnown(Forget(x, bound), j) == (if j >= bound then GroupsKnown(x, j) else {})
  {
    NoGroups();
  }

  lemma DataPut(y: Rx, z: Rx, id: u32, a: set<nat>, i: nat, j: u32)
    requires z.data == y.data[id := With(a, i)]
    ensures DataOf(z, j) == if j == id then With(a, i) else DataOf(y, j)
  {
  }

  lemma StockedParity(sent: map<u32, SentFrame>, first: nat, n: nat, stream: seq<Packet>, k: nat, x: Rx, m: nat,
                      meta: FecMeta)
    requires k < |stream| && IsParityPacket(stream[k]) && OnTrack(sent, first, n, stream[..k], x, m)
    requires meta.base / FEC_GROUP_SIZE == stream[k].header.index
    ensures var id := stream[k].header.frameId;
            Stocked(sent, first, stream[..k + 1], x.(parity := x.parity[id := ParityListOf(x, id) + [meta]]), m)
  {
    hide DataLeft, ParityLeft, Done, With, GroupsOf;
    var id := stream[k].header.frameId;
    GroupsWith(ParityListOf(x, id), meta);
    forall j | j in sent && j >= first + m
      ensures DataLeft(stream[..k + 1], j) == DataLeft(stream[..k], j)
      ensures ParityLeft(stream[..k + 1], j)
           == if j == id then With(ParityLeft(stream[..k], j), stream[k].header.index) else ParityLeft(stream[..k], j)
    {
      LeftStep(stream, k, j);
    }
  }

  /** Settling completes the next frame. */
  lemma CompletesNext(sent: map<u32, SentFrame>, first: nat, n: nat, stream: seq<Packet>, y: Rx, m: nat, id: u32)
    requires Session(sent, first, n) && Stocked(sent, first, stream, y, m) && id == first + m && id in y.data
    requires forall j :: j in sent ==> (Done(sent, stream, j) <==> j <= id)
    requires Recoverable(|sent[id].chunks|, y.data[id], GroupsKnown(y, id))
    ensures OnTrack(sent, first, n, stream, Settled(y, id, sent[id]), m + 1)
    ensures Settled(y, id, sent[id]).completed == Some(id) && !Settled(y, id, sent[id]).waiting
  {
    hide DataLeft, ParityLeft, Recoverable, GroupsOf, Done, DataOf, GroupsKnown;
    var x' := Settled(y, id, sent[id]);
    forall j | j in sent && j > id ensures DataOf(x', j) == DataOf(y, j) && GroupsKnown(x', j) == GroupsKnown(y, j) {
      OthersKnown(y, x', id, j);
    }
  }

  lemma OthersKnown(y: Rx, x: Rx, id: u32, j: u32)
    requires x.data == y.data - {id} && x.parity == y.parity - {id} && j != id
    ensures DataOf(x, j) == DataOf(y, j) && GroupsKnown(x, j) == GroupsKnown(y, j)
  {
  }

  /** A packet makes no other frame done. */
  lemma OnlyThisDone(sent: map<u32, SentFrame>, first: nat, n: nat, stream: seq<Packet>, k: nat, x: Rx, m: nat)
    requires k < |stream| && OnTrack(sent, first, n, stream[..k], x, m) && m <= n
    requires stream[k].header.frameId in sent && stream[k].header.frameId >= first + m
    ensures var id := stream[k].header.frameId;
            && (forall j :: j in sent && j != id ==> (Done(sent, stream[..k + 1], j) <==> j < first + m))
            && (Done(sent, stream[..k + 1], id) <==> Ready(sent, stream[..k + 1], id))
  {
    hide Done, Ready, DataLeft, ParityLeft, DataOf, GroupsKnown;
    forall j | j in sent && j != stream[k].header.frameId
      ensures Done(sent, stream[..k + 1], j) <==> j < first + m
    {
      DoneStep(sent, stream, k, j);
    }
    DoneStep(sent, stream, k, stream[k].header.frameId);
  }

  /** Settling completes the next frame or none. */
  lemma SettlesNext(sent: map<u32, SentFrame>, first: nat, n: nat, stream: seq<Packet>, k: nat, x: Rx, y: Rx, m: nat)
    returns (m': nat)
    requires k < |stream| && Session(sent, first, n) && FirstOnes(sent, first, stream[..k + 1])
    requires stream[k].header.frameId in sent && stream[k].header.frameId >= first + m
    requires OnTrack(sent, first, n, stream[..k], x, m) && Stocked(sent, first, stream[..k + 1], y, m)
    ensures var id := stream[k].header.frameId;
            var x' := Settled(y, id, sent[id]);
            && OnTrack(sent, first, n, stream[..k + 1], x', m')
            && (if Emission(x, x') then m' == m + 1 && id == first + m else m' == m)
  {
    hide DataLeft, ParityLeft, Recoverable, Done, Ready, OnTrack, Stocked, Settled, DataOf, GroupsKnown;
    var id := stream[k].header.frameId;
    TrackFacts(sent, first, n, stream[..k], x, m);
    OnlyThisDone(sent, first, n, stream, k, x, m);
    StockedFacts(sent, first, stream[..k + 1], y, m, id);
    ReadyIsKnown(sent, stream[..k + 1], y, id);
    m' := m;
    if Ready(sent, stream[..k + 1], id) {
      m' := m + 1;
      assert id > first ==> id - 1 in sent && Done(sent, stream[..k + 1], id - 1);
      CompletesNext(sent, first, n, stream[..k + 1], y, m, id);
      TrackFacts(sent, first, n, stream[..k + 1], Settled(y, id, sent[id]), m');
    } else {
      CompletesNone(sent, first, n, stream[..k + 1], y, m, id);
    }
  }

  lemma StockedFacts(sent: map<u32, SentFrame>, first: nat, stream: seq<Packet>, y: Rx, m: nat, id: u32)
    requires Stocked(sent, first, stream, y, m) && id in sent && id >= first + m
    ensures !y.waiting && y.completed == (if m == 0 then None else Some(first + m - 1))
    ensures DataOf(y, id) == DataLeft(stream, id) && GroupsKnown(y, id) == ParityLeft(stream, id)
    ensures id in y.data ==> y.data[id] != {}
  {
    hide DataLeft, ParityLeft, DataOf, GroupsKnown;
  }

  /** Settling completes nothing. */
  lemma CompletesNone(sent: map<u32, SentFrame>, first: nat, n: nat, stream: seq<Packet>, y: Rx, m: nat, id: u32)
    requires Stocked(sent, first, stream, y, m) && m <= n && id in sent
    requires forall j :: j in sent ==> (Done(sent, stream, j) <==> j < first + m)
    requires id in y.data ==> !Recoverable(|sent[id].chunks|, y.data[id], GroupsKnown(y, id))
    ensures Settled(y, id, sent[id]) == y && OnTrack(sent, first, n, stream, y, m)
  {
    hide DataLeft, ParityLeft, DataOf, GroupsKnown, Recoverable, Done;
  }

  lemma ReadyIsKnown(sent: map<u32, SentFrame>, stream: seq<Packet>, y: Rx, id: u32)
    requires id in sent && DataOf(y, id) == DataLeft(stream, id) && GroupsKnown(y, id) == ParityLeft(stream, id)
    requires id in y.data ==> y.data[id] != {}
    ensures Ready(sent, stream, id) <==>
            id in y.data && Recoverable(|sent[id].chunks|, y.data[id], GroupsKnown(y, id))
  {
    hide DataLeft, ParityLeft, Recoverable;
  }

  /** What the model does with a packet of a frame that is not complete, up to settling. */
  lemma TakesStock(sent: map<u32, SentFrame>, first: nat, n: nat, stream: seq<Packet>, k: nat, x: Rx, m: nat)
    returns (y: Rx)
    requires k < |stream| && Sent(sent, stream[k]) && Session(sent, first, n)
    requires Near(first, stream[k], m)
    requires OnTrack(sent, first, n, stream[..k], x, m) && stream[k].header.frameId >= first + m
    ensures Stocked(sent, first, stream[..k + 1], y, m) && stream[k].header.frameId in sent
    ensures Take(x, sent, stream[k]) == Settled(y, stream[k].header.frameId, sent[stream[k].header.frameId])
  {
    hide OnTrack, Sent, Near, Session, Stocked, Settled, LetIn, Late, Bound, Forget, GroupParity;
    var p, id := stream[k], stream[k].header.frameId;
    SentFacts(sent, p);
    SentKey(sent, p);
    GetsIn(sent, first, n, stream, k, x, m);
    if IsParityPacket(p) {
      var meta := GroupParity(sent[id], p.header.index);
      StockedParity(sent, first, n, stream, k, x, m, meta);
      y := x.(parity := x.parity[id := ParityListOf(x, id) + [meta]]);
    } else {
      var kept, seen := Forget(x, Bound(x, id, IsKey(p))), if Newer(x, id) then Some(id) else x.seen;
      SeenNear(sent, first, n, stream[..k], x, m);
      StockedData(sent, first, n, stream, k, x, m, Bound(x, id, IsKey(p)), seen);
      y := kept.(waiting := false, seen := seen, data := kept.data[id := With(DataOf(kept, id), p.header.index)]);
    }
  }

  /** One packet keeps the model on track. */
  lemma TrackStep(sent: map<u32, SentFrame>, first: nat, n: nat, stream: seq<Packet>, k: nat, x: Rx, m: nat)
    returns (m': nat)
    requires k < |stream| && Sent(sent, stream[k]) && Session(sent, first, n)
    requires Near(first, stream[k], m)
    requires OnTrack(sent, first, n, stream[..k], x, m) && FirstOnes(sent, first, stream[..k + 1])
    ensures var x' := Take(x, sent, stream[k]);
            && OnTrack(sent, first, n, stream[..k + 1], x', m')
            && (if Emission(x, x') then m' == m + 1 && stream[k].header.frameId == first + m else m' == m)
  {
    hide OnTrack, Sent, Near, FirstOnes, Session, Stocked, Settled, Take;
    if stream[k].header.frameId < first + m {
      LatePacket(sent, first, n, stream, k, x, m);
      m' := m;
    } else {
      var y := TakesStock(sent, first, n, stream, k, x, m);
      m' := SettlesNext(sent, first, n, stream, k, x, y, m);
    }
  }

  lemma SeenNear(sent: map<u32, SentFrame>, first: nat, n: nat, stream: seq<Packet>, x: Rx, m: nat)
    requires OnTrack(sent, first, n, stream, x, m)
    ensures x.seen.Some? ==> x.seen.value <= first + m + REORDER_WINDOW
  {
  }

  lemma SentKey(sent: map<u32, SentFrame>, p: Packet)
    requires Sent(sent, p)
    ensures p.header.frameId in sent && IsKey(p) == sent[p.header.frameId].key
    ensures IsParityPacket(p) ==>
            var s, g := sent[p.header.frameId], p.header.index;
            WellFormed(s) && g < GroupCount(|s.chunks|) && GroupParity(s, g).base / FEC_GROUP_SIZE == g
  {
    KeyFlagOf(sent, p);
    SentFacts(sent, p);
  }

  /** The first `m` frames of a session as they come out. */
  ghost function FramesOut(sent: map<u32, SentFrame>, first: nat, n: nat, m: nat, config: Option<seq<byte>>)
    : (out: seq<Output>)
    requires Session(sent, first, n) && m <= n
    ensures |out| == m
  {
    if m == 0 then [] else FramesOut(sent, first, n, m - 1, config) + [FrameOut(sent, first + m - 1, config)]
  }

  lemma NothingArrived(sent: map<u32, SentFrame>, first: nat, n: nat, stream: seq<Packet>)
    requires stream == [] && Session(sent, first, n)
    ensures OnTrack(sent, first, n, stream, NOTHING, 0)
  {
    hide Recoverable;
    NoGroups();
  }

  lemma TrackFacts(sent: map<u32, SentFrame>, first: nat, n: nat, stream: seq<Packet>, x: Rx, m: nat)
    requires OnTrack(sent, first, n, stream, x, m)
    ensures m <= n && x.completed == (if m == 0 then None else Some(first + m - 1))
    ensures forall id :: id in sent ==> (Done(sent, stream, id) <==> id < first + m)
  {
  }

  // ----- when all frames that arrive are done

  /** The model knows only what arrived. */
  ghost predicate OnlyArrived(stream: seq<Packet>, x: Rx) {
    && (forall id :: id in x.data ==> x.data[id] != {})
    && forall id: u32 :: DataOf(x, id) <= DataIn(stream, id) && GroupsKnown(x, id) <= ParityIn(stream, id)
  }

  lemma {:induction false} KnowsArrived(sent: map<u32, SentFrame>, stream: seq<Packet>, k: nat)
    requires k <= |stream| && AllSent(sent, stream)
    ensures OnlyArrived(stream[..k], After(sent, stream, k))
  {
    hide OnlyArrived, Take, Sent, WellFormed, NOTHING;
    if k == 0 {
      KnowsNothing(stream[..0]);
    } else {
      KnowsArrived(sent, stream, k - 1);
      TakesArrived(sent, stream, k - 1, After(sent, stream, k - 1));
    }
  }

  lemma KnowsNothing(stream: seq<Packet>)
    requires stream == []
    ensures OnlyArrived(stream, NOTHING)
  {
    NoGroups();
  }

  lemma ForgetsSome(stream: seq<Packet>, x: Rx, bound: nat, y: Rx)
    requires OnlyArrived(stream, x) && y.data == From(x.data, bound) && y.parity == From(x.parity, bound)
    ensures OnlyArrived(stream, y)
  {
    hide DataIn, ParityIn, GroupsOf;
    forall j: u32 ensures DataOf(y, j) <= DataIn(stream, j) && GroupsKnown(y, j) <= ParityIn(stream, j) {
      NoGroups();
      assert DataOf(x, j) <= DataIn(stream, j) && GroupsKnown(x, j) <= ParityIn(stream, j);
    }
  }

  lemma MoreArrived(stream: seq<Packet>, k: nat, x: Rx)
    requires k < |stream| && OnlyArrived(stream[..k], x)
    ensures OnlyArrived(stream[..k + 1], x)
  {
    hide DataIn, ParityIn, DataOf, GroupsKnown;
    forall j: u32
      ensures DataOf(x, j) <= DataIn(stream[..k + 1], j) && GroupsKnown(x, j) <= ParityIn(stream[..k + 1], j)
    {
      ArrivedStep(stream, k, j);
    }
  }

  lemma DataKnown(stream: seq<Packet>, k: nat, x: Rx, y: Rx)
    requires k < |stream| && !IsParityPacket(stream[k]) && OnlyArrived(stream[..k], x) && y.parity == x.parity
    requires var id := stream[k].header.frameId; y.data == x.data[id := With(DataOf(x, id), stream[k].header.index)]
    ensures OnlyArrived(stream[..k + 1], y)
  {
    hide DataIn, ParityIn, DataOf, With;
    var id, i := stream[k].header.frameId, stream[k].header.index;
    NotEmpty(DataOf(x, id), i);
    forall j: u32
      ensures DataOf(y, j) <= DataIn(stream[..k + 1], j) && GroupsKnown(y, j) <= ParityIn(stream[..k + 1], j)
    {
      ArrivedStep(stream, k, j);
      DataPut(x, y, id, DataOf(x, id), i, j);
      WithMonotone(DataOf(x, j), DataIn(stream[..k], j), i);
      assert GroupsKnown(y, j) == GroupsKnown(x, j);
    }
  }

  lemma WithMonotone(a: set<nat>, b: set<nat>, i: nat)
    requires a <= b
    ensures With(a, i) <= With(b, i)
  {
  }

  lemma ParityKnown(stream: seq<Packet>, k: nat, x: Rx, y: Rx, meta: FecMeta)
    requires k < |stream| && IsParityPacket(stream[k]) && OnlyArrived(stream[..k], x) && y.data == x.data
    requires meta.base / FEC_GROUP_SIZE == stream[k].header.index
    requires var id := stream[k].header.frameId; y.parity == x.parity[id := ParityListOf(x, id) + [meta]]
    ensures OnlyArrived(stream[..k + 1], y)
  {
    hide DataIn, ParityIn, With, GroupsOf;
    var id := stream[k].header.frameId;
    GroupsWith(ParityListOf(x, id), meta);
    forall j: u32
      ensures DataOf(y, j) <= DataIn(stream[..k + 1], j) && GroupsKnown(y, j) <= ParityIn(stream[..k + 1], j)
    {
      ArrivedStep(stream, k, j);
      assert DataOf(x, j) <= DataIn(stream[..k], j) && GroupsKnown(x, j) <= ParityIn(stream[..k], j);
      WithMonotone(GroupsKnown(x, j), ParityIn(stream[..k], j), stream[k].header.index);
    }
  }

  /** Up to settling, what the model knows after a packet was known before or is in the packet. */
  lemma BeforeSettling(sent: map<u32, SentFrame>, stream: seq<Packet>, k: nat, x: Rx)
    returns (y: Rx, settles: bool)
    requires k < |stream| && Sent(sent, stream[k]) && OnlyArrived(stream[..k], x)
    ensures var p, id := stream[k], stream[k].header.frameId;
            && id in sent && Take(x, sent, p) == (if settles then Settled(y, id, sent[id]) else y)
            && y.completed == x.completed && (settles ==> !Late(x, id)) && OnlyArrived(stream[..k + 1], y)
  {
    hide OnlyArrived, Sent, DataOf, GroupsOf, With, Settled, GroupParity, From, Late, IsKey, Reveals;
    var p, id := stream[k], stream[k].header.frameId;
    SentFacts(sent, p);
    SentKey(sent, p);
    settles := !Late(x, id) && (IsParityPacket(p) || LetIn(x, id, IsKey(p)));
    if !settles {
      y := Take(x, sent, p);
      if y != x {
        ForgetsSome(stream[..k], x, Min(id as int + 1, U32_MAX), y);
      }
      MoreArrived(stream, k, y);
    } else if IsParityPacket(p) {
      var meta := GroupParity(sent[id], p.header.index);
      y := x.(parity := x.parity[id := ParityListOf(x, id) + [meta]]);
      ParityKnown(stream, k, x, y, meta);
    } else {
      var kept, seen := Forget(x, Bound(x, id, IsKey(p))), if Newer(x, id) then Some(id) else x.seen;
      y := kept.(waiting := false, seen := seen, data := kept.data[id := With(DataOf(kept, id), p.header.index)]);
      ForgetsSome(stream[..k], x, Bound(x, id, IsKey(p)), kept);
      DataKnown(stream, k, kept, y);
    }
  }

  /** What is completed, in order or not, can be rebuilt from what arrived. */
  lemma TakesArrived(sent: map<u32, SentFrame>, stream: seq<Packet>, k: nat, x: Rx)
    requires k < |stream| && Sent(sent, stream[k]) && OnlyArrived(stream[..k], x)
    ensures var x', id := Take(x, sent, stream[k]), stream[k].header.frameId;
            && OnlyArrived(stream[..k + 1], x')
            && (x'.completed != x.completed ==>
                  x'.completed == Some(id) && !Late(x, id) && Whole(sent, stream[..k + 1], id))
  {
    hide Take, Late, DataIn, ParityIn, Recoverable, GroupsKnown;
    var y, settles := BeforeSettling(sent, stream, k, x);
    var id := stream[k].header.frameId;
    if settles && Settled(y, id, sent[id]) != y {
      assert DataOf(y, id) == y.data[id] != {};
      RecoverableMore(|sent[id].chunks|, DataOf(y, id), GroupsKnown(y, id), DataIn(stream[..k + 1], id),
                      ParityIn(stream[..k + 1], id));
      WithoutOne(stream[..k + 1], y, id, Settled(y, id, sent[id]));
    }
  }

  lemma WithoutOne(stream: seq<Packet>, y: Rx, id: u32, x: Rx)
    requires OnlyArrived(stream, y) && x.data == y.data - {id} && x.parity == y.parity - {id}
    ensures OnlyArrived(stream, x)
  {
    hide DataIn, ParityIn, GroupsOf;
    forall j: u32 ensures DataOf(x, j) <= DataIn(stream, j) && GroupsKnown(x, j) <= ParityIn(stream, j) {
      NoGroups();
      assert DataOf(y, j) <= DataIn(stream, j) && GroupsKnown(y, j) <= ParityIn(stream, j);
    }
  }

  lemma WholeGrows(sent: map<u32, SentFrame>, stream: seq<Packet>, k: nat, id: u32)
    requires k <= |stream| && Whole(sent, stream[..k], id)
    ensures Whole(sent, stream, id)
  {
    hide DataIn, ParityIn, Recoverable;
    EarlierIn(stream, k, id);
    RecoverableMore(|sent[id].chunks|, DataIn(stream[..k], id), ParityIn(stream[..k], id), DataIn(stream, id),
                    ParityIn(stream, id));
  }

  /** Once all frames that can be rebuilt are completed, nothing more is. */
  lemma NothingMore(sent: map<u32, SentFrame>, first: nat, n: nat, stream: seq<Packet>, k: nat, total: nat)
    requires k < |stream| && AllSent(sent, stream) && Session(sent, first, n) && WholeUpto(sent, first, stream, total)
    requires var done := After(sent, stream, k).completed; total > 0 ==> done.Some? && done.value >= first + total - 1
    ensures After(sent, stream, k + 1).completed == After(sent, stream, k).completed
  {
    hide Take, Sent, WellFormed, OnlyArrived, Whole;
    var x, id := After(sent, stream, k), stream[k].header.frameId;
    KnowsArrived(sent, stream, k);
    TakesArrived(sent, stream, k, x);
    if Take(x, sent, stream[k]).completed != x.completed {
      SentFacts(sent, stream[k]);
      WholeGrows(sent, stream, k + 1, id);
    }
  }

  /** As long as the conditions hold, the frames that are done come out, up to the last one that can be rebuilt. */
  lemma {:induction false} Progress(sent: map<u32, SentFrame>, first: nat, n: nat, stream: seq<Packet>,
                                    config: Option<seq<byte>>, total: nat, k: nat)
    returns (m: nat)
    requires k <= |stream| && AllSent(sent, stream) && Session(sent, first, n) && InOrder(sent, first, stream, k)
    requires total <= n && WholeUpto(sent, first, stream, total)
    ensures m <= total && OutputAfter(sent, stream, config, k) == FramesOut(sent, first, n, m, config)
    ensures m < total ==> OnTrack(sent, first, n, stream[..k], After(sent, stream, k), m)
    ensures m == total > 0 ==>
            var done := After(sent, stream, k).completed; done.Some? && done.value >= first + total - 1
    ensures forall id :: id in sent && id < first + m ==> Done(sent, stream[..k], id)
  {
    hide WithinReach, FirstOnes, Take, FrameOut, OnTrack, Sent, WellFormed, NOTHING, Done, Whole, WholeUpto;
    if k == 0 {
      m := 0;
      NothingArrived(sent, first, n, stream[..0]);
    } else {
      var m0 := Progress(sent, first, n, stream, config, total, k - 1);
      if m0 < total {
        NextAwaited(sent, first, n, stream, total, m0);
        ReachIsNear(sent, first, n, stream, k - 1, After(sent, stream, k - 1), m0);
        m := TrackStep(sent, first, n, stream, k - 1, After(sent, stream, k - 1), m0);
        TrackFacts(sent, first, n, stream[..k], After(sent, stream, k), m);
      } else {
        m := m0;
        NothingMore(sent, first, n, stream, k - 1, total);
        forall id | id in sent && id < first + m ensures Done(sent, stream[..k], id) {
          DoneStep(sent, stream, k - 1, id);
        }
      }
    }
  }

  lemma NextAwaited(sent: map<u32, SentFrame>, first: nat, n: nat, stream: seq<Packet>, total: nat, m: nat)
    requires m < total <= n && Session(sent, first, n) && WholeUpto(sent, first, stream, total)
    ensures first + m in sent && Awaited(sent, first, stream, m)
  {
    hide Whole;
    assert first + m in sent;
  }

  // ----- a frame that becomes complete too early, or is left behind

  /** A frame that is complete too early is completed in place of the one that is due. */
  lemma TooEarly(sent: map<u32, SentFrame>, first: nat, n: nat, stream: seq<Packet>, k: nat, x: Rx, m: nat)
    requires k < |stream| && AllSent(sent, stream) && Session(sent, first, n)
    requires Near(first, stream[k], m)
    requires OnTrack(sent, first, n, stream[..k], x, m) && !FirstOnes(sent, first, stream[..k + 1])
    ensures stream[k].header.frameId > first + m
    ensures var id, x' := stream[k].header.frameId, Take(x, sent, stream[k]);
            && id in sent && id - 1 in sent && x'.completed == Some(id) && Done(sent, stream[..k + 1], id)
            && x'.waiting == !Decodable(sent[id].key, false, x.completed, id)
  {
    hide Recoverable, Sent, WellFormed, DataLeft, ParityLeft, GroupsOf, Take, Done, Ready, Near;
    var j :| j in sent && j > first && Done(sent, stream[..k + 1], j) && !Done(sent, stream[..k + 1], j - 1);
    var id := stream[k].header.frameId;
    assert j - 1 in sent;
    DoneStep(sent, stream, k, j);
    DoneStep(sent, stream, k, j - 1);
    assert j == id && id - 1 >= first + m;
    var y := TakesStock(sent, first, n, stream, k, x, m);
    ReadyIsKnown(sent, stream[..k + 1], y, id);
    SettledTurn(y, id, sent[id]);
  }

  /** Nothing is held of frame `j`, and the window has passed it. */
  predicate Gone(x: Rx, j: nat) {
    x.seen.Some? && j + REORDER_WINDOW < x.seen.value && j !in x.data
  }

  /** A data packet too far ahead leaves the frame that is due behind. */
  lemma LeftBehind(sent: map<u32, SentFrame>, first: nat, n: nat, stream: seq<Packet>, k: nat, x: Rx, m: nat)
    requires k < |stream| && Sent(sent, stream[k]) && Session(sent, first, n) && first + m in sent
    requires OnTrack(sent, first, n, stream[..k], x, m) && !Near(first, stream[k], m)
    ensures stream[k].header.frameId > first + m && Gone(Take(x, sent, stream[k]), first + m)
  {
    hide Recoverable, Sent, DataLeft, ParityLeft, DataOf, GroupsKnown, Done, IsKey;
    SentFacts(sent, stream[k]);
    SentKey(sent, stream[k]);
  }

  lemma OutOfReach(sent: map<u32, SentFrame>, first: nat, n: nat, stream: seq<Packet>, k: nat, x: Rx, m: nat)
    requires k < |stream| && Session(sent, first, n) && OnTrack(sent, first, n, stream[..k], x, m)
    requires !WithinReach(sent, stream, k)
    ensures !Near(first, stream[k], m)
  {
    hide DataLeft, ParityLeft, DataOf, GroupsKnown, Done, Whole;
    var j :| j in sent && j + REORDER_WINDOW < stream[k].header.frameId && Whole(sent, stream, j)
             && !Done(sent, stream[..k], j);
    assert j >= first + m;
  }

  lemma GoneStays(x: Rx, sent: map<u32, SentFrame>, p: Packet, j: nat)
    requires Sent(sent, p) && Gone(x, j)
    ensures Gone(Take(x, sent, p), j) && (p.header.frameId == j ==> Take(x, sent, p) == x)
  {
    hide Recoverable, Sent, GroupsKnown, IsKey, GroupParity;
    SentFacts(sent, p);
  }

  /** A frame that is gone never comes out. */
  lemma {:induction false} NeverOut(sent: map<u32, SentFrame>, stream: seq<Packet>, config: Option<seq<byte>>,
                                    k: nat, n: nat, j: nat)
    requires k <= n <= |stream| && AllSent(sent, stream) && Gone(After(sent, stream, k), j)
    ensures Gone(After(sent, stream, n), j)
    ensures OutputAfter(sent, stream, config, k) <= OutputAfter(sent, stream, config, n)
    ensures forall i :: |OutputAfter(sent, stream, config, k)| <= i < |OutputAfter(sent, stream, config, n)| ==>
              OutputAfter(sent, stream, config, n)[i].id != j
  {
    hide Sent, WellFormed, Take, Gone;
    if k < n {
      NeverOut(sent, stream, config, k, n - 1, j);
      GoneStays(After(sent, stream, n - 1), sent, stream[n - 1], j);
    }
  }

  /** Frames that come out later are newer than the last completed one. */
  lemma {:induction false} LaterOutputs(sent: map<u32, SentFrame>, stream: seq<Packet>, config: Option<seq<byte>>,
                                        k: nat, n: nat)
    requires k <= n <= |stream| && AllSent(sent, stream) && After(sent, stream, k).completed.Some?
    ensures var done := After(sent, stream, k).completed.value;
            && After(sent, stream, n).completed.Some? && done <= After(sent, stream, n).completed.value
            && OutputAfter(sent, stream, config, k) <= OutputAfter(sent, stream, config, n)
            && forall i :: |OutputAfter(sent, stream, config, k)| <= i < |OutputAfter(sent, stream, config, n)| ==>
                 done < OutputAfter(sent, stream, config, n)[i].id
  {
    hide Sent, WellFormed, Take;
    if k < n {
      LaterOutputs(sent, stream, config, k, n - 1);
      Completes(After(sent, stream, n - 1), sent, stream[n - 1]);
    }
  }

  lemma Completes(x: Rx, sent: map<u32, SentFrame>, p: Packet)
    requires Sent(sent, p)
    ensures var x' := Take(x, sent, p);
            x'.completed == x.completed
            || (x'.completed == Some(p.header.frameId) && (x.completed.Some? ==> x.completed.value < p.header.frameId))
  {
    hide Sent, Recoverable, GroupParity, Reveals, From, GroupsKnown;
    SentFacts(sent, p);
  }

  /** After the first violation of a condition the frame that is due does not come out in its place. */
  lemma NotInPlace(sent: map<u32, SentFrame>, first: nat, n: nat, stream: seq<Packet>, config: Option<seq<byte>>,
                   k: nat, m: nat)
    requires k < |stream| && AllSent(sent, stream) && Session(sent, first, n)
    requires first + m in sent && Awaited(sent, first, stream, m)
    requires OnTrack(sent, first, n, stream[..k], After(sent, stream, k), m)
    requires !WithinReach(sent, stream, k) || !FirstOnes(sent, first, stream[..k + 1])
    requires |OutputAfter(sent, stream, config, k)| == m < |OutputAfter(sent, stream, config, |stream|)|
    ensures OutputAfter(sent, stream, config, |stream|)[m].id != first + m
  {
    hide WithinReach, FirstOnes, Sent, WellFormed, Take, Gone, OnTrack, Session, Awaited, Flatten;
    var x, id := After(sent, stream, k), stream[k].header.frameId;
    assert After(sent, stream, k + 1) == Take(x, sent, stream[k]);
    if WithinReach(sent, stream, k) {
      ReachIsNear(sent, first, n, stream, k, x, m);
      TooEarly(sent, first, n, stream, k, x, m);
      LaterOutputs(sent, stream, config, k + 1, |stream|);
    } else {
      OutOfReach(sent, first, n, stream, k, x, m);
      LeftBehind(sent, first, n, stream, k, x, m);
      NeverOut(sent, stream, config, k + 1, |stream|, first + m);
    }
    var out := OutputAfter(sent, stream, config, |stream|);
    assert OutputAfter(sent, stream, config, k + 1) <= out;
    if |OutputAfter(sent, stream, config, k + 1)| > m {
      assert out[m] == OutputAfter(sent, stream, config, k + 1)[m];
    }
  }

  // ----- the theorem

  lemma {:induction false} FramesOutAt(sent: map<u32, SentFrame>, first: nat, n: nat, m: nat,
                                       config: Option<seq<byte>>, i: nat)
    requires Session(sent, first, n) && i < m <= n
    ensures FramesOut(sent, first, n, m, config)[i].id == first + i
  {
    hide Flatten;
    if i < m - 1 {
      FramesOutAt(sent, first, n, m - 1, config, i);
    }
  }

  /** Exactly the frames that can be rebuilt from what arrived come out, each once and in order. */
  ghost predicate AllComeOut(sent: map<u32, SentFrame>, first: nat, n: nat, stream: seq<Packet>,
                             config: Option<seq<byte>>, out: seq<Output>)
    requires Session(sent, first, n)
  {
    && |out| <= n && out == FramesOut(sent, first, n, |out|, config)
    && WholeUpto(sent, first, stream, |out|)
  }

  /** With all frames done that can be rebuilt, the conditions hold from then on. */
  lemma NoViolation(sent: map<u32, SentFrame>, first: nat, n: nat, stream: seq<Packet>, k: nat, total: nat)
    requires k < |stream| && Session(sent, first, n) && WholeUpto(sent, first, stream, total)
    requires forall id :: id in sent && id < first + total ==> Done(sent, stream[..k], id)
    ensures WithinReach(sent, stream, k) && FirstOnes(sent, first, stream[..k + 1])
  {
    hide Done, Whole, IsKey;
    forall id | id in sent && id > first && Done(sent, stream[..k + 1], id)
      ensures Done(sent, stream[..k + 1], id - 1)
    {
      DoneIsWhole(sent, stream[..k + 1], id);
      WholeGrows(sent, stream, k + 1, id);
      assert id - 1 in sent;
      DoneStep(sent, stream, k, id - 1);
    }
  }

  /** After the first violation of a condition something is missing from the output. */
  lemma SomethingMissing(sent: map<u32, SentFrame>, first: nat, n: nat, stream: seq<Packet>,
                         config: Option<seq<byte>>, k: nat)
    requires k < |stream| && AllSent(sent, stream) && Session(sent, first, n) && InOrder(sent, first, stream, k)
    requires !WithinReach(sent, stream, k) || !FirstOnes(sent, first, stream[..k + 1])
    ensures !AllComeOut(sent, first, n, stream, config, OutputAfter(sent, stream, config, |stream|))
  {
    hide WithinReach, FirstOnes, Sent, WellFormed, OnTrack, Session, InOrder, WholeUpto, OutputAfter, FramesOut, Done;
    var out := OutputAfter(sent, stream, config, |stream|);
    if AllComeOut(sent, first, n, stream, config, out) {
      var m := Progress(sent, first, n, stream, config, |out|, k);
      if m == |out| {
        NoViolation(sent, first, n, stream, k, m);
      } else {
        NextAwaited(sent, first, n, stream, |out|, m);
        NotInPlace(sent, first, n, stream, config, k, m);
        FramesOutAt(sent, first, n, |out|, config, m);
      }
    }
  }

  lemma FirstViolation(sent: map<u32, SentFrame>, first: nat, stream: seq<Packet>) returns (k: nat)
    requires !InOrder(sent, first, stream, |stream|)
    ensures k < |stream| && InOrder(sent, first, stream, k)
    ensures !WithinReach(sent, stream, k) || !FirstOnes(sent, first, stream[..k + 1])
  {
    hide InOrder, FirstOnes, WithinReach;
    OrderStarts(sent, first, stream);
    k := 0;
    while WithinReach(sent, stream, k) && FirstOnes(sent, first, stream[..k + 1])
      invariant k < |stream| && InOrder(sent, first, stream, k)
      decreases |stream| - k
    {
      OrderStep(sent, first, stream, k);
      k := k + 1;
    }
  }

  lemma OrderStarts(sent: map<u32, SentFrame>, first: nat, stream: seq<Packet>)
    ensures InOrder(sent, first, stream, 0)
  {
    hide FirstOnes;
    NothingDone(sent, first, stream[..0]);
  }

  lemma OrderStep(sent: map<u32, SentFrame>, first: nat, stream: seq<Packet>, k: nat)
    requires k < |stream| && InOrder(sent, first, stream, k)
    requires WithinReach(sent, stream, k) && FirstOnes(sent, first, stream[..k + 1])
    ensures InOrder(sent, first, stream, k + 1)
  {
    hide FirstOnes, WithinReach;
  }

  lemma NothingDone(sent: map<u32, SentFrame>, first: nat, stream: seq<Packet>)
    requires stream == []
    ensures FirstOnes(sent, first, stream)
  {
    hide Recoverable;
    assert stream[..0] == [];
  }

  /** The frames that are done are the first ones, up to some number. */
  lemma InitialSegment(sent: map<u32, SentFrame>, first: nat, n: nat, stream: seq<Packet>) returns (total: nat)
    requires Session(sent, first, n) && FirstOnes(sent, first, stream)
    ensures total <= n && forall id :: id in sent ==> (Done(sent, stream, id) <==> id < first + total)
  {
    hide Done;
    total := 0;
    while total < n && Done(sent, stream, first + total)
      invariant total <= n && forall id :: id in sent && id < first + total ==> Done(sent, stream, id)
      decreases n - total
    {
      assert first + total in sent;
      total := total + 1;
    }
    forall id | id in sent && id >= first + total ensures !Done(sent, stream, id) {
      if Done(sent, stream, id) {
        DoneBelow(sent, first, n, stream, id, first + total);
      }
    }
  }

  lemma {:induction false} DoneBelow(sent: map<u32, SentFrame>, first: nat, n: nat, stream: seq<Packet>, id: u32,
                                     j: nat)
    requires Session(sent, first, n) && FirstOnes(sent, first, stream)
    requires first <= j <= id && id in sent && Done(sent, stream, id)
    ensures j in sent && Done(sent, stream, j)
  {
    hide Done;
    if j < id {
      DoneBelow(sent, first, n, stream, id - 1, j);
    }
  }

  /** Packets of the frames of a session arrive in any order, with losses and duplicates, any number of frames at
      once. All frames that can be rebuilt from what arrives come out, each once and in order and nothing else
      with them, if and only if no data packet runs ahead by more than the window of such a frame that is not
      done yet, frames become complete in order, and no key frame makes the receiver forget part of one. */
  method ReceiveReordered(ghost sent: map<u32, SentFrame>, ghost first: nat, ghost n: nat, stream: seq<Packet>,
                          config: Option<seq<byte>>)
    returns (out: seq<Output>)
    requires AllSent(sent, stream) && WindowsFit(sent) && Session(sent, first, n)
    ensures AllComeOut(sent, first, n, stream, config, out) <==>
            InOrder(sent, first, stream, |stream|) && NothingForgotten(sent, stream)
  {
    hide AllSent, WindowsFit, Session, InOrder, NothingForgotten, OutputAfter, AllComeOut;
    out := ReceiveExactly(sent, stream, config);
    RoomSuffices(sent, stream, config, |stream|);
    if !InOrder(sent, first, stream, |stream|) {
      ghost var k := FirstViolation(sent, first, stream);
      SomethingMissing(sent, first, n, stream, config, k);
    } else if NothingForgotten(sent, stream) {
      AllDoneComeOut(sent, first, n, stream, config);
    } else {
      ForgottenIsMissing(sent, first, n, stream, config);
    }
  }

  lemma AllDoneComeOut(sent: map<u32, SentFrame>, first: nat, n: nat, stream: seq<Packet>,
                       config: Option<seq<byte>>)
    requires AllSent(sent, stream) && Session(sent, first, n)
    requires InOrder(sent, first, stream, |stream|) && NothingForgotten(sent, stream)
    ensures AllComeOut(sent, first, n, stream, config, OutputAfter(sent, stream, config, |stream|))
  {
    hide Sent, WellFormed, WithinReach, FirstOnes, Session, OutputAfter, FramesOut, Done, Whole, OnTrack;
    assert stream[..|stream|] == stream;
    var total := InitialSegment(sent, first, n, stream);
    forall id | id in sent && Done(sent, stream, id) ensures Whole(sent, stream, id) {
      DoneIsWhole(sent, stream, id);
    }
    var m := Progress(sent, first, n, stream, config, total, |stream|);
    if m < total {
      NextAwaited(sent, first, n, stream, total, m);
      TrackFacts(sent, first, n, stream, After(sent, stream, |stream|), m);
    }
  }

  lemma ForgottenIsMissing(sent: map<u32, SentFrame>, first: nat, n: nat, stream: seq<Packet>,
                           config: Option<seq<byte>>)
    requires AllSent(sent, stream) && Session(sent, first, n)
    requires InOrder(sent, first, stream, |stream|) && !NothingForgotten(sent, stream)
    ensures !AllComeOut(sent, first, n, stream, config, OutputAfter(sent, stream, config, |stream|))
  {
    hide Sent, WellFormed, InOrder, Session, OutputAfter, FramesOut, Done, Whole, OnTrack;
    assert stream[..|stream|] == stream;
    var out := OutputAfter(sent, stream, config, |stream|);
    if AllComeOut(sent, first, n, stream, config, out) {
      var m := Progress(sent, first, n, stream, config, |out|, |stream|);
    }
  }
}
