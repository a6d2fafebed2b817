/** Packets of many frames in flight at once: what the receiver emits, exactly, for every order of arrival and
    whatever it has to give up for lack of room. */
module BufferedStream {
  import opened Bytes
  import opened EvrtWire
  import opened EvrtFec
  import opened EvrtVideo
  import opened FrameAssembly
  import opened Availability
  import opened ReceiveBuffer
  import opened Reassembler
  import opened Streams
  import opened StreamModel

  /** What the receiver knows, and the bytes that it holds of each frame in flight. */
  datatype Held = Held(rx: Rx, bytes: map<u32, nat>)

  const EMPTY: Held := Held(NOTHING, map[])

  function BytesOf(h: Held, id: u32): nat {
    if id in h.bytes then h.bytes[id] else 0
  }

  /** The bytes that frame `id` needs at once for its packet `i`: those it holds and the packet's own, unless that
      part is known. */
  ghost function FirstBytes(h: Held, id: u32, s: SentFrame, i: nat): nat {
    var a := DataOf(h.rx, id);
    BytesOf(h, id) + if (a != {} && Avail(|s.chunks|, a, GroupsKnown(h.rx, id), i)) || i >= |s.chunks| then 0
                     else |s.chunks[i]|
  }

  /** Nothing is known any more of the frames `ids`. */
  function GiveUp(x: Rx, ids: set<u32>): Rx {
    x.(data := x.data - ids, parity := x.parity - ids)
  }

  /** A frame that comes to need `need` bytes gets them beside the others, a key frame in their place. */
  ghost predicate FitsBeside(others: map<u32, nat>, key: bool, need: nat) {
    key || Sum(others) + need <= MAX_BUFFERED_BYTES
  }

  /** The frames that stay beside one that comes to need `need` bytes, and `first` of them at once. */
  ghost function Staying(others: map<u32, nat>, key: bool, first: nat, need: nat): map<u32, nat> {
    Survivors(others,
              if FitsBeside(others, key, need) || Sum(others) + first <= MAX_BUFFERED_BYTES then need else first)
  }

  /** Room is made for frame `id`, the oldest of the others going first, and it settles. A delta frame for which
      that is not enough, or would be needed at all, is given up, and a loss is pending. */
  ghost function Housed(y: Rx, bytes: map<u32, nat>, id: u32, s: SentFrame, first: nat): Held {
    if id !in y.data then Held(y, bytes)
    else
      var others, need := bytes - {id}, KnownBytes(s.chunks, y.data[id], GroupsKnown(y, id));
      var left := Staying(others, s.key, first, need);
      var kept := GiveUp(y, others.Keys - left.Keys);
      if !FitsBeside(others, s.key, need) then Held(GiveUp(kept, {id}).(waiting := true), left)
      else
        var z := Settled(kept, id, s);
        Held(z, if id in z.data then left[id := need] else left)
  }

  ghost function BufferData(h: Held, id: u32, s: SentFrame, i: nat): Held {
    var x := h.rx;
    if LetIn(x, id, s.key) then
      Housed(WithData(x, id, s.key, i), From(h.bytes, Bound(x, id, s.key)), id, s, FirstBytes(h, id, s, i))
    else if !s.key && !x.waiting && !Late(x, id) then Held(Revealed(x, id), From(h.bytes, Min(id + 1, U32_MAX)))
    else h
  }

  ghost function BufferParity(h: Held, id: u32, s: SentFrame, m: FecMeta): Held {
    if Late(h.rx, id) then h else Housed(WithParity(h.rx, id, m), h.bytes, id, s, BytesOf(h, id))
  }

  ghost function Buffer(h: Held, sent: map<u32, SentFrame>, p: Packet): Held
    requires Sent(sent, p)
  {
    SentFacts(sent, p);
    var id := p.header.frameId;
    if p.header.packetType == TYPE_FEC then BufferParity(h, id, sent[id], GroupParity(sent[id], p.header.index))
    else BufferData(h, id, sent[id], p.header.index)
  }

  /** The state after the first `k` packets. */
  ghost function HeldAfter(sent: map<u32, SentFrame>, stream: seq<Packet>, k: nat): Held
    requires k <= |stream| && AllSent(sent, stream)
  {
    if k == 0 then EMPTY else Buffer(HeldAfter(sent, stream, k - 1), sent, stream[k - 1])
  }

  /** What comes out of the first `k` packets. */
  ghost function ComesOut(sent: map<u32, SentFrame>, stream: seq<Packet>, config: Option<seq<byte>>, k: nat)
    : seq<Output>
    requires k <= |stream| && AllSent(sent, stream)
  {
    if k == 0 then []
    else
      SentFacts(sent, stream[k - 1]);
      ComesOut(sent, stream, config, k - 1)
      + if Emission(HeldAfter(sent, stream, k - 1).rx, HeldAfter(sent, stream, k).rx)
        then [FrameOut(sent, stream[k - 1].header.frameId, config)] else []
  }

  // ----- the receiver does what the model says

  /** What is stored of frame `id` is what can be known from `a` and `f`. */
  ghost predicate Stored(frames: map<u32, Assembly>, id: u32, a: set<nat>, f: set<nat>) {
    && (id in frames <==> a != {})
    && (id in frames ==> Holds(frames[id].parts, a, f) && !frames[id].IsComplete())
  }

  /** All that is stored is what can be known. */
  ghost predicate Knows(sent: map<u32, SentFrame>, frames: map<u32, Assembly>, x: Rx) {
    && frames.Keys == x.data.Keys
    && forall j :: j in sent ==> Stored(frames, j, DataOf(x, j), GroupsKnown(x, j))
  }

  ghost predicate Mirrors(receiver: ChannelReassembler, h: Held)
    reads receiver
  {
    var x := h.rx;
    && receiver.Valid() && receiver.honest
    && x.completed == receiver.latestCompleted && x.waiting == receiver.waitingAfterLoss
    && x.seen == receiver.latestSeen && x.parity == receiver.pendingFec
    && Knows(receiver.sent, receiver.frames, x) && h.bytes == Sizes(receiver.frames)
  }

  lemma MirrorTracks(receiver: ChannelReassembler, h: Held, id: u32)
    requires Mirrors(receiver, h) && id in receiver.sent
    ensures receiver.Tracks(id, DataOf(h.rx, id), GroupsKnown(h.rx, id))
    ensures receiver.Stale(id) <==> Late(h.rx, id)
    ensures id in receiver.frames <==> DataOf(h.rx, id) != {}
    ensures receiver.Pending(id) == ParityListOf(h.rx, id) && receiver.HeldFor(id) == BytesOf(h, id)
  {
    hide ChannelReassembler.Kept, ChannelReassembler.Windowed, Holds;
    NoGroups();
  }

  lemma AdmissionMatches(receiver: ChannelReassembler, h: Held, p: Packet)
    requires Mirrors(receiver, h) && ValidFragment(p.header)
    ensures var x, id, key := h.rx, p.header.frameId, IsKey(p);
            && (receiver.Admissible(p) <==> LetIn(x, id, key))
            && (receiver.Overdue(p) <==> !key && !x.waiting && !Late(x, id) && Reveals(x, id))
            && receiver.Cutoff(p) == Bound(x, id, key)
            && receiver.SeenWith(id) == if Newer(x, id) then Some(id) else x.seen
  {
    hide ChannelReassembler.Kept, ChannelReassembler.Windowed, Stored, IsKey, ValidFragment, OlderKeys;
    OlderThanWindow(receiver.frames, h.rx, p.header.frameId);
  }

  lemma OlderThanWindow(frames: map<u32, Assembly>, x: Rx, id: u32)
    requires frames.Keys == x.data.Keys
    ensures OlderKeys(frames, SaturatingSub(id, REORDER_WINDOW)) != {} <==>
            exists o :: o in x.data && o + REORDER_WINDOW < id
  {
    var older := OlderKeys(frames, SaturatingSub(id, REORDER_WINDOW));
    assert forall o :: o in older <==> o in x.data && o + REORDER_WINDOW < id;
    if older != {} {
      var o :| o in older;
    }
  }

  /** The packet's frame needs what the model says. */
  lemma FirstNeedMatches(receiver: ChannelReassembler, h: Held, p: Packet)
    requires Mirrors(receiver, h) && IsData(receiver.sent, p)
    ensures var id := p.header.frameId;
            receiver.FirstNeed(p) == FirstBytes(h, id, receiver.sent[id], p.header.index)
  {
    hide ChannelReassembler.Windowed, Avail, GroupsKnown, Flatten, Total, Shape, IsParity;
    var id := p.header.frameId;
    DataFacts(receiver.sent, p);
    MirrorTracks(receiver, h, id);
    receiver.OpenedSlots(p);
    if id in receiver.frames {
      receiver.KeyOf(id);
    }
  }

  /** Forgetting old frames forgets what is known of them. */
  lemma StoredForget(frames: map<u32, Assembly>, x: Rx, bound: nat, id: u32)
    requires Stored(frames, id, DataOf(x, id), GroupsKnown(x, id))
    ensures var y := Forget(x, bound); Stored(From(frames, bound), id, DataOf(y, id), GroupsKnown(y, id))
  {
    hide Holds;
  }

  lemma ForgetAll(sent: map<u32, SentFrame>, frames: map<u32, Assembly>, x: Rx, bound: nat)
    requires Knows(sent, frames, x)
    ensures Knows(sent, From(frames, bound), Forget(x, bound))
    ensures Sizes(From(frames, bound)) == From(Sizes(frames), bound)
  {
    hide Stored, DataOf, GroupsKnown;
    var y := Forget(x, bound);
    forall j | j in sent ensures Stored(From(frames, bound), j, DataOf(y, j), GroupsKnown(y, j)) {
      StoredForget(frames, x, bound, j);
    }
  }

  lemma ForgetKeeps(x: Rx, bound: nat, id: u32)
    ensures bound <= id ==> DataOf(Forget(x, bound), id) == DataOf(x, id)
                            && GroupsKnown(Forget(x, bound), id) == GroupsKnown(x, id)
  {
  }

  /** The other frames stay known, but for those that are gone. */
  lemma StoredOther(frames: map<u32, Assembly>, after: map<u32, Assembly>, x: Rx, z: Rx, gone: set<u32>, j: u32)
    requires Stored(frames, j, DataOf(x, j), GroupsKnown(x, j))
    requires j in after <==> j in frames && j !in gone
    requires j in after ==> after[j] == frames[j]
    requires j in z.data <==> j in x.data && j !in gone
    requires j in z.data ==> z.data[j] == x.data[j]
    requires j !in gone ==> ParityListOf(z, j) == ParityListOf(x, j)
    requires j in gone ==> j in frames
    ensures Stored(after, j, DataOf(z, j), GroupsKnown(z, j))
  {
    hide Holds, GroupsOf;
  }

  /** The outcome for the frames, in terms of the bytes held. */
  lemma OutcomeIs(before: map<u32, Assembly>, after: map<u32, Assembly>, parity: map<u32, seq<FecMeta>>,
                  parity': map<u32, seq<FecMeta>>, id: u32, key: bool, first: nat, need: nat, whole: bool)
    requires Outcome(before, after, parity, parity', id, key, first, need, whole)
    ensures var others := Sizes(before) - {id};
            var left := Staying(others, key, first, need);
            var stays, gone := FitsBeside(others, key, need) && !whole, others.Keys - left.Keys;
            && Sizes(after) - {id} == left && gone <= before.Keys - {id} && (id in after <==> stays)
            && (forall j :: j != id ==>
                  (j in after <==> j in before && j !in gone) && (j in after ==> after[j] == before[j]))
            && parity' == (if stays then parity - gone else parity - gone - {id})
  {
    hide Sum, Survivors, Sizes;
    var others := Sizes(before) - {id};
    var left := Staying(others, key, first, need);
    SizesWithout(before, id);
    SizesWithout(after, id);
    KeysWithout(after, id);
    assert left.Keys == after.Keys - {id};
    forall j | j != id && j in after ensures j in before && after[j] == before[j] {
      assert j in after - {id};
    }
    assert others.Keys - left.Keys == before.Keys - {id} - after.Keys;
    assert parity' == parity' - {};
  }

  /** After a packet of frame `id` the others are known as before, but for those that had to go. */
  lemma OthersStored(sent: map<u32, SentFrame>, frames: map<u32, Assembly>, after: map<u32, Assembly>, x: Rx, z: Rx,
                     id: u32, gone: set<u32>)
    requires Knows(sent, frames, x) && gone <= frames.Keys - {id}
    requires forall j :: j != id ==>
               (j in after <==> j in frames && j !in gone) && (j in after ==> after[j] == frames[j])
    requires z.data - {id} == x.data - gone - {id} && z.parity - {id} == x.parity - gone - {id}
    ensures forall j :: j in sent && j != id ==> Stored(after, j, DataOf(z, j), GroupsKnown(z, j))
    ensures after.Keys - {id} == z.data.Keys - {id}
  {
    hide Stored, DataOf, GroupsKnown;
    KeysWithout(z.data, id);
    KeysWithout(x.data - gone, id);
    assert after.Keys - {id} == z.data.Keys - {id};
    forall j | j in sent && j != id ensures Stored(after, j, DataOf(z, j), GroupsKnown(z, j)) {
      SameButGone(x.data, z.data, gone, id, j);
      SameButGone(x.parity, z.parity, gone, id, j);
      StoredOther(frames, after, x, z, gone, j);
    }
  }

  lemma SameButGone<V>(m: map<u32, V>, m': map<u32, V>, gone: set<u32>, id: u32, j: u32)
    requires m' - {id} == m - gone - {id} && j != id
    ensures (j in m' <==> j in m && j !in gone) && (j in m' ==> m'[j] == m[j])
  {
    assert j in m' <==> j in m' - {id};
    assert j in m && j !in gone <==> j in m - gone - {id};
    assert j in m' ==> (m' - {id})[j] == m'[j];
  }

  lemma StoredSelf(receiver: ChannelReassembler, id: u32, a: set<nat>, f: set<nat>)
    ensures receiver.Tracks(id, a, f) || (id !in receiver.frames && a == {}) ==> Stored(receiver.frames, id, a, f)
    ensures receiver.Tracks(id, a, f) ==> (id in receiver.frames <==> a != {})
  {
    hide Holds;
  }

  /** A frame that is tracked holds the bytes that can be known. */
  lemma TracksBytes(receiver: ChannelReassembler, id: u32, a: set<nat>, f: set<nat>)
    requires receiver.Valid() && receiver.Tracks(id, a, f) && id in receiver.frames
    ensures id in receiver.sent && receiver.frames[id].buffered == KnownBytes(receiver.sent[id].chunks, a, f)
  {
    hide Holds, KnownParts;
    receiver.KeyOf(id);
    HoldsIsKnown(receiver.sent[id], receiver.frames[id].parts, a, f);
  }

  /** The packet's frame is not among those that had to go. */
  lemma KeptParts(y: Rx, gone: set<u32>, id: u32)
    requires id !in gone && id in y.data
    ensures var kept := GiveUp(y, gone);
            id in kept.data && kept.data[id] == y.data[id] && GroupsKnown(kept, id) == GroupsKnown(y, id)
  {
  }

  lemma OthersGone(x: Rx, y: Rx, z: Rx, gone: set<u32>, id: u32)
    requires y.data - {id} == x.data - {id} && y.parity - {id} == x.parity - {id}
    requires z.data == y.data - gone || z.data == y.data - gone - {id}
    requires z.parity == y.parity - gone || z.parity == y.parity - gone - {id}
    ensures z.data - {id} == x.data - gone - {id} && z.parity - {id} == x.parity - gone - {id}
  {
    WithoutBoth(x.data, gone, id);
    WithoutBoth(y.data, gone, id);
    WithoutBoth(x.parity, gone, id);
    WithoutBoth(y.parity, gone, id);
  }

  lemma WithoutBoth<V>(m: map<u32, V>, gone: set<u32>, id: u32)
    ensures m - gone - {id} == m - {id} - gone == m - gone - {id} - {id}
  {
  }

  /** What housing does: the packet's frame stays, is completed or is given up. */
  lemma HousedIs(y: Rx, bytes: map<u32, nat>, id: u32, s: SentFrame, first: nat)
    requires id in y.data
    ensures var h', others, a, f := Housed(y, bytes, id, s, first), bytes - {id}, y.data[id], GroupsKnown(y, id);
            var need, whole := KnownBytes(s.chunks, a, f), Recoverable(|s.chunks|, a, f);
            var left, fits := Staying(others, s.key, first, need), FitsBeside(others, s.key, need);
            var gone := others.Keys - left.Keys;
            && h'.bytes == (if fits && !whole then left[id := need] else left)
            && h'.rx.data == (if fits && !whole then y.data - gone else y.data - gone - {id})
            && h'.rx.parity == (if fits && !whole then y.parity - gone else y.parity - gone - {id})
            && h'.rx.completed == (if fits && whole then Some(id) else y.completed) && h'.rx.seen == y.seen
            && h'.rx.waiting == (if !fits then true
                                 else if whole then !Decodable(s.key, y.waiting, y.completed, id) else y.waiting)
            && (fits && !whole ==> DataOf(h'.rx, id) == a && GroupsKnown(h'.rx, id) == f)
  {
    hide Staying, FitsBeside, KnownBytes, Recoverable, GroupsKnown, Sum;
    var others, need := bytes - {id}, KnownBytes(s.chunks, y.data[id], GroupsKnown(y, id));
    KeptParts(y, others.Keys - Staying(others, s.key, first, need).Keys, id);
  }

  lemma SizesBack(frames: map<u32, Assembly>, left: map<u32, nat>, id: u32)
    requires Sizes(frames) - {id} == left
    ensures Sizes(frames) == if id in frames then left[id := frames[id].buffered] else left
  {
  }

  /** After a packet of frame `id` was taken in, what is stored is what the model knows. */
  lemma HousedKnows(receiver: ChannelReassembler, frames: map<u32, Assembly>, x: Rx, y: Rx, id: u32, first: nat,
                    r: Option<Output>)
    requires receiver.Valid() && id in receiver.sent && Knows(receiver.sent, frames, x)
    requires id in y.data && y.data[id] != {}
    requires y.data - {id} == x.data - {id} && y.parity - {id} == x.parity - {id}
    requires receiver.TakenAs(frames, y.parity, id, first, y.data[id], GroupsKnown(y, id), y.completed, y.waiting, r)
    ensures var h' := Housed(y, Sizes(frames), id, receiver.sent[id], first);
            && Knows(receiver.sent, receiver.frames, h'.rx) && h'.bytes == Sizes(receiver.frames)
            && h'.rx.parity == receiver.pendingFec
  {
    hide Sum, Sizes, Recoverable, KnownBytes, Stored, Holds, GroupsKnown, Staying, Housed, Decodable, Outcome;
    hide ChannelReassembler.Kept, ChannelReassembler.Windowed, ChannelReassembler.Tracks;
    var s, a, f := receiver.sent[id], y.data[id], GroupsKnown(y, id);
    var others, need, whole := Sizes(frames) - {id}, KnownBytes(s.chunks, a, f), Recoverable(|s.chunks|, a, f);
    var left := Staying(others, s.key, first, need);
    var gone := others.Keys - left.Keys;
    OutcomeIs(frames, receiver.frames, y.parity, receiver.pendingFec, id, s.key, first, need, whole);
    HousedIs(y, Sizes(frames), id, s, first);
    var h' := Housed(y, Sizes(frames), id, s, first);
    OthersGone(x, y, h'.rx, gone, id);
    OthersStored(receiver.sent, frames, receiver.frames, x, h'.rx, id, gone);
    SizesWithout(frames, id);
    StoredSelf(receiver, id, DataOf(h'.rx, id), GroupsKnown(h'.rx, id));
    if id in receiver.frames {
      TracksBytes(receiver, id, a, f);
    }
    SizesBack(receiver.frames, left, id);
    KeysWithout(h'.rx.data, id);
    KeysWithout(receiver.frames, id);
  }

  /** After a packet of frame `id` was taken in, the receiver is where the model is. */
  lemma HousedMirrors(receiver: ChannelReassembler, frames: map<u32, Assembly>, x: Rx, y: Rx, id: u32, first: nat,
                      r: Option<Output>)
    requires receiver.Valid() && receiver.honest && id in receiver.sent && Knows(receiver.sent, frames, x)
    requires id in y.data && y.data[id] != {}
    requires y.data - {id} == x.data - {id} && y.parity - {id} == x.parity - {id}
    requires receiver.TakenAs(frames, y.parity, id, first, y.data[id], GroupsKnown(y, id), y.completed, y.waiting, r)
    requires receiver.latestSeen == y.seen && y.completed != Some(id)
    requires receiver.latestCompleted != y.completed ==>
               && (r.Some? <==> Decodable(receiver.sent[id].key, y.waiting, y.completed, id))
               && (receiver.waitingAfterLoss <==> r.None?)
    ensures var h' := Housed(y, Sizes(frames), id, receiver.sent[id], first);
            Mirrors(receiver, h') && (r.Some? <==> Emission(y, h'.rx))
  {
    hide Sum, Sizes, Recoverable, KnownBytes, Knows, GroupsKnown, Staying, Housed, Decodable, Outcome;
    hide ChannelReassembler.Kept, ChannelReassembler.Windowed, ChannelReassembler.Tracks;
    HousedKnows(receiver, frames, x, y, id, first, r);
    HousedIs(y, Sizes(frames), id, receiver.sent[id], first);
    SizesWithout(frames, id);
  }

  /** A data packet that was let in: the receiver is where the model is. */
  lemma DataTaken(receiver: ChannelReassembler, frames: map<u32, Assembly>, h: Held, id: u32, i: nat, r: Option<Output>)
    requires receiver.Valid() && receiver.honest && id in receiver.sent
    requires Knows(receiver.sent, frames, h.rx) && h.bytes == Sizes(frames) && LetIn(h.rx, id, receiver.sent[id].key)
    requires var x, s := h.rx, receiver.sent[id];
             && receiver.latestSeen == (if Newer(x, id) then Some(id) else x.seen)
             && receiver.TakenAs(From(frames, Bound(x, id, s.key)), From(x.parity, Bound(x, id, s.key)), id,
                                 FirstBytes(h, id, s, i), With(DataOf(x, id), i), GroupsKnown(x, id), x.completed,
                                 false, r)
             && (receiver.latestCompleted != x.completed ==>
                   && (r.Some? <==> Decodable(s.key, x.waiting, x.completed, id))
                   && (receiver.waitingAfterLoss <==> r.None?))
    ensures var h' := BufferData(h, id, receiver.sent[id], i);
            Mirrors(receiver, h') && (r.Some? <==> Emission(h.rx, h'.rx))
  {
    hide Stored, From, With, Knows, Settled, Reveals, Housed, FirstBytes, Mirrors, Sizes;
    hide ChannelReassembler.Kept, ChannelReassembler.Windowed, ChannelReassembler.TakenAs;
    var x, s := h.rx, receiver.sent[id];
    var bound := Bound(x, id, s.key);
    var kept, y := Forget(x, bound), WithData(x, id, s.key, i);
    ForgetAll(receiver.sent, frames, x, bound);
    ForgetKeeps(x, bound, id);
    NotEmpty(DataOf(x, id), i);
    SamePut(kept.data, id, With(DataOf(x, id), i));
    assert GroupsKnown(y, id) == GroupsKnown(kept, id);
    HousedMirrors(receiver, From(frames, bound), kept, y, id, FirstBytes(h, id, s, i), r);
  }

  /** One data packet. */
  method HandData(receiver: ChannelReassembler, p: Packet, ghost h: Held) returns (r: Option<Output>)
    requires Mirrors(receiver, h) && IsData(receiver.sent, p)
    modifies receiver
    ensures var id := p.header.frameId;
            var h' := BufferData(h, id, receiver.sent[id], p.header.index);
            && Mirrors(receiver, h') && receiver.codecConfig == old(receiver.codecConfig)
            && (r.Some? <==> Emission(h.rx, h'.rx)) && (r.Some? ==> r.value == receiver.OutputOf(id))
  {
    hide Knows, Holds, From, Sizes, IsKey, IsData, ValidFragment, WellFormed, With, FirstBytes, Housed;
    hide Step, Reveals, DataOf, GroupsKnown, Bound;
    hide ChannelReassembler.Kept, ChannelReassembler.Windowed, ChannelReassembler.OutputOf, ChannelReassembler.Sincere;
    hide ChannelReassembler.Admissible, ChannelReassembler.Overdue, ChannelReassembler.TakenAs;
    hide ChannelReassembler.Cutoff, ChannelReassembler.SeenWith, ChannelReassembler.Tracks;
    hide ChannelReassembler.FirstNeed;
    ghost var id, x := p.header.frameId, h.rx;
    ghost var frames, opens, overdue := receiver.frames, IsKey(p) && receiver.Admissible(p), receiver.Overdue(p);
    DataFacts(receiver.sent, p);
    AdmissionMatches(receiver, h, p);
    FirstNeedMatches(receiver, h, p);
    MirrorTracks(receiver, h, id);
    ForgetAll(receiver.sent, frames, x, Min(id as int + 1, U32_MAX));
    r := receiver.OnPacket(p, DataOf(x, id), GroupsKnown(x, id));
    StepFacts(id, IsKey(p), opens, x.completed, x.waiting, receiver.latestCompleted, receiver.waitingAfterLoss, r);
    if LetIn(x, id, receiver.sent[id].key) {
      DataTaken(receiver, frames, h, id, p.header.index, r);
    } else if overdue {
      KnowsSame(receiver.sent, receiver.frames, Forget(x, Min(id as int + 1, U32_MAX)), Revealed(x, id));
    }
  }

  lemma KnowsSame(sent: map<u32, SentFrame>, frames: map<u32, Assembly>, x: Rx, y: Rx)
    requires Knows(sent, frames, x) && x.data == y.data && x.parity == y.parity
    ensures Knows(sent, frames, y)
  {
    hide Stored;
  }

  /** Parity that was kept: the receiver is where the model is. */
  lemma ParityTaken(receiver: ChannelReassembler, frames: map<u32, Assembly>, h: Held, id: u32, m: FecMeta,
                    r: Option<Output>)
    requires receiver.Valid() && receiver.honest && id in receiver.sent
    requires Knows(receiver.sent, frames, h.rx) && h.bytes == Sizes(frames)
    requires !Late(h.rx, id) && receiver.latestSeen == h.rx.seen
    requires var x, s, f' := h.rx, receiver.sent[id], With(GroupsKnown(h.rx, id), m.base / FEC_GROUP_SIZE);
             && (id !in frames ==>
                   && r.None? && receiver.frames == frames && receiver.pendingFec == WithParity(x, id, m).parity
                   && receiver.latestCompleted == x.completed && receiver.waitingAfterLoss == x.waiting
                   && receiver.Tracks(id, DataOf(x, id), f'))
             && (id in frames ==>
                   receiver.TakenAs(frames, WithParity(x, id, m).parity, id, BytesOf(h, id), DataOf(x, id), f',
                                    x.completed, x.waiting, r))
             && (receiver.latestCompleted != x.completed ==>
                   && (r.Some? <==> Decodable(s.key, x.waiting, x.completed, id))
                   && (receiver.waitingAfterLoss <==> r.None?))
    ensures var h' := BufferParity(h, id, receiver.sent[id], m);
            Mirrors(receiver, h') && (r.Some? <==> Emission(h.rx, h'.rx))
  {
    hide Stored, With, Settled, GroupsOf, Housed, Sizes, Knows, Mirrors;
    hide ChannelReassembler.Kept, ChannelReassembler.Windowed, ChannelReassembler.TakenAs, ChannelReassembler.Tracks;
    var x, y := h.rx, WithParity(h.rx, id, m);
    GroupsWith(ParityListOf(x, id), m);
    SamePut(x.parity, id, ParityListOf(x, id) + [m]);
    if id in frames {
      HeldIsKnown(receiver.sent, frames, x, id);
      HousedMirrors(receiver, frames, x, y, id, BytesOf(h, id), r);
    } else {
      OnlyParity(receiver, h, id, m);
    }
  }

  lemma HeldIsKnown(sent: map<u32, SentFrame>, frames: map<u32, Assembly>, x: Rx, id: u32)
    requires Knows(sent, frames, x) && id in frames && id in sent
    ensures id in x.data && x.data[id] != {} && DataOf(x, id) == x.data[id]
  {
    hide Holds;
    assert Stored(frames, id, DataOf(x, id), GroupsKnown(x, id));
  }

  /** Parity of a frame of which no data has arrived. */
  lemma OnlyParity(receiver: ChannelReassembler, h: Held, id: u32, m: FecMeta)
    requires receiver.Valid() && receiver.honest && id in receiver.sent
    requires Knows(receiver.sent, receiver.frames, h.rx) && h.bytes == Sizes(receiver.frames)
    requires id !in receiver.frames && !Late(h.rx, id) && receiver.latestSeen == h.rx.seen
    requires receiver.pendingFec == WithParity(h.rx, id, m).parity
    requires receiver.latestCompleted == h.rx.completed && receiver.waitingAfterLoss == h.rx.waiting
    requires receiver.Tracks(id, DataOf(h.rx, id), With(GroupsKnown(h.rx, id), m.base / FEC_GROUP_SIZE))
    ensures Mirrors(receiver, BufferParity(h, id, receiver.sent[id], m))
    ensures BufferParity(h, id, receiver.sent[id], m).rx == WithParity(h.rx, id, m)
  {
    hide Stored, Holds, With, GroupsOf, Sizes;
    hide ChannelReassembler.Kept, ChannelReassembler.Windowed, ChannelReassembler.Tracks;
    var y := WithParity(h.rx, id, m);
    GroupsWith(ParityListOf(h.rx, id), m);
    StoredSelf(receiver, id, DataOf(y, id), GroupsKnown(y, id));
    forall j | j in receiver.sent && j != id ensures Stored(receiver.frames, j, DataOf(y, j), GroupsKnown(y, j)) {
      StoredOther(receiver.frames, receiver.frames, h.rx, y, {}, j);
    }
  }

  /** One parity packet. */
  method HandParity(receiver: ChannelReassembler, p: Packet, ghost h: Held) returns (r: Option<Output>)
    requires Mirrors(receiver, h) && IsFec(receiver.sent, p)
    modifies receiver
    ensures var id := p.header.frameId;
            var h' := BufferParity(h, id, receiver.sent[id], GroupParity(receiver.sent[id], p.header.index));
            && Mirrors(receiver, h') && receiver.codecConfig == old(receiver.codecConfig)
            && (r.Some? <==> Emission(h.rx, h'.rx)) && (r.Some? ==> r.value == receiver.OutputOf(id))
  {
    hide Knows, Holds, Sizes, IsKey, IsFec, WellFormed, With, ParseFecPayload, GroupParity, Housed;
    hide Step, DataOf, GroupsKnown, ParityListOf, BytesOf;
    hide ChannelReassembler.Kept, ChannelReassembler.Windowed, ChannelReassembler.OutputOf, ChannelReassembler.Sincere;
    hide ChannelReassembler.Stale, ChannelReassembler.TakenAs, ChannelReassembler.Tracks, ChannelReassembler.Pending;
    hide ChannelReassembler.HeldFor;
    ghost var id, x, frames := p.header.frameId, h.rx, receiver.frames;
    receiver.FecReadBack(p);
    ParsedParity(receiver.sent[id], p);
    MirrorTracks(receiver, h, id);
    r := receiver.OnFecPacket(p, DataOf(x, id), GroupsKnown(x, id));
    StepFacts(id, IsKey(p), false, x.completed, x.waiting, receiver.latestCompleted, receiver.waitingAfterLoss, r);
    if !Late(x, id) {
      ParityTaken(receiver, frames, h, id, GroupParity(receiver.sent[id], p.header.index), r);
    }
  }

  lemma ParsedParity(s: SentFrame, p: Packet)
    requires WellFormed(s) && ParseFecPayload(p.payload).Some?
    requires var m := ParseFecPayload(p.payload).value; m.base / FEC_GROUP_SIZE == p.header.index && IsParity(s, m)
    ensures p.header.index < GroupCount(|s.chunks|)
    ensures ParseFecPayload(p.payload) == Some(GroupParity(s, p.header.index))
    ensures GroupParity(s, p.header.index).base / FEC_GROUP_SIZE == p.header.index
  {
    hide GroupParity, ParseFecPayload;
  }

  method Listen(ghost sent: map<u32, SentFrame>, config: Option<seq<byte>>) returns (receiver: ChannelReassembler)
    requires forall id :: id in sent ==> WellFormed(sent[id])
    ensures fresh(receiver) && receiver.sent == sent && receiver.codecConfig == config && Mirrors(receiver, EMPTY)
  {
    hide WellFormed, Holds;
    receiver := new ChannelReassembler(sent);
    if config.Some? {
      receiver.SetCodecConfig(config.value);
    }
  }

  /** One packet. */
  method Hand(receiver: ChannelReassembler, p: Packet, ghost h: Held) returns (r: Option<Output>)
    requires Mirrors(receiver, h) && Sent(receiver.sent, p)
    modifies receiver
    ensures var h' := Buffer(h, receiver.sent, p);
            && Mirrors(receiver, h') && receiver.codecConfig == old(receiver.codecConfig)
            && (r.Some? <==> Emission(h.rx, h'.rx))
            && (r.Some? ==> p.header.frameId in receiver.sent
                            && r.value == FrameOut(receiver.sent, p.header.frameId, receiver.codecConfig))
  {
    hide Mirrors, IsData, IsFec, Emission, BufferData, BufferParity, GroupParity, Flatten;
    SentFacts(receiver.sent, p);
    if p.header.packetType == TYPE_FEC {
      r := HandParity(receiver, p, h);
    } else {
      r := HandData(receiver, p, h);
    }
  }

  /** Packets of any frames of the sender arrive in any order, with losses and duplicates. The output is exactly
      that of the model: a frame comes out with the packet by which enough of it was let in, if there is room for
      it and it is decodable then, and with no other. */
  method ReceiveExactly(ghost sent: map<u32, SentFrame>, stream: seq<Packet>, config: Option<seq<byte>>)
    returns (out: seq<Output>)
    requires AllSent(sent, stream)
    ensures out == ComesOut(sent, stream, config, |stream|)
  {
    hide Mirrors, WellFormed, Sent, Emission, Buffer, FrameOut;
    var receiver := Listen(sent, config);
    out := [];
    for k := 0 to |stream|
      invariant fresh(receiver) && receiver.sent == sent && receiver.codecConfig == config
      invariant Mirrors(receiver, HeldAfter(sent, stream, k)) && out == ComesOut(sent, stream, config, k)
    {
      var r := Hand(receiver, stream[k], HeldAfter(sent, stream, k));
      if r.Some? {
        out := out + [r.value];
      }
    }
  }

  // ----- with room for all

  /** What is held belongs to the reorder window. */
  ghost predicate InWindow(sent: map<u32, SentFrame>, h: Held) {
    && h.bytes.Keys == h.rx.data.Keys
    && forall j :: j in h.bytes ==>
         && j in sent && h.bytes[j] <= FrameBytes(sent[j])
         && h.rx.seen.Some? && j <= h.rx.seen.value <= j + REORDER_WINDOW
  }

  /** Where the five frames of the window fit, nothing is given up. */
  lemma HousedWithRoom(sent: map<u32, SentFrame>, y: Rx, bytes: map<u32, nat>, id: u32, first: nat)
    requires id in sent && WindowsFit(sent) && y.seen.Some? && id <= y.seen.value <= id + REORDER_WINDOW
    requires bytes.Keys - {id} == y.data.Keys - {id}
    requires forall j :: j in bytes && j != id ==>
               j in sent && bytes[j] <= FrameBytes(sent[j]) && j <= y.seen.value <= j + REORDER_WINDOW
    ensures id in y.data ==>
              var h' := Housed(y, bytes, id, sent[id], first);
              h'.rx == Settled(y, id, sent[id]) && InWindow(sent, h')
  {
    hide Sum, Survivors, Recoverable, KnownBytes, FrameBytes, SentBytes, GroupsKnown;
    if id in y.data {
      var s, others := sent[id], bytes - {id};
      var lo, need := SaturatingSub(y.seen.value, REORDER_WINDOW), KnownBytes(s.chunks, y.data[id], GroupsKnown(y, id));
      assert WindowFits(sent, lo) && HeldOf(others, sent, lo, REORDER_WINDOW + 1);
      HeldBeside(others, sent, id, lo, REORDER_WINDOW + 1);
      KnownFits(s, y.data[id], GroupsKnown(y, id));
      SurvivorsFit(others, need);
      assert others.Keys - others.Keys == {} && GiveUp(y, {}) == y;
    }
  }

  /** One packet, with room for all. */
  lemma BufferWithRoom(sent: map<u32, SentFrame>, h: Held, p: Packet)
    requires Sent(sent, p) && WindowsFit(sent) && InWindow(sent, h)
    ensures Buffer(h, sent, p).rx == Take(h.rx, sent, p) && InWindow(sent, Buffer(h, sent, p))
  {
    hide Sent, GroupParity, FrameBytes, WindowsFit, Housed, Settled, FirstBytes, GroupsKnown, Reveals, With;
    SentFacts(sent, p);
    var x, id, s := h.rx, p.header.frameId, sent[p.header.frameId];
    if p.header.packetType == TYPE_FEC {
      if !Late(x, id) && id in x.data {
        HousedWithRoom(sent, WithParity(x, id, GroupParity(s, p.header.index)), h.bytes, id, BytesOf(h, id));
      } else if !Late(x, id) {
        NotHoused(WithParity(x, id, GroupParity(s, p.header.index)), h.bytes, id, s, BytesOf(h, id));
      }
    } else if LetIn(x, id, s.key) {
      var y := WithData(x, id, s.key, p.header.index);
      HousedWithRoom(sent, y, From(h.bytes, Bound(x, id, s.key)), id, FirstBytes(h, id, s, p.header.index));
    } else {
      RevealsNewer(x, id);
    }
  }

  lemma RevealsNewer(x: Rx, id: u32)
    ensures Reveals(x, id) ==> Newer(x, id)
  {
  }

  lemma NotHoused(y: Rx, bytes: map<u32, nat>, id: u32, s: SentFrame, first: nat)
    requires id !in y.data
    ensures Housed(y, bytes, id, s, first) == Held(y, bytes) && Settled(y, id, s) == y
  {
  }

  /** If the frames that can be in flight together fit the receive buffer, what comes out does not depend on it. */
  lemma {:induction false} RoomSuffices(sent: map<u32, SentFrame>, stream: seq<Packet>, config: Option<seq<byte>>,
                                        k: nat)
    requires k <= |stream| && AllSent(sent, stream) && WindowsFit(sent)
    ensures HeldAfter(sent, stream, k).rx == After(sent, stream, k) && InWindow(sent, HeldAfter(sent, stream, k))
    ensures ComesOut(sent, stream, config, k) == OutputAfter(sent, stream, config, k)
  {
    hide Sent, WellFormed, WindowsFit, Take, Buffer, FrameBytes, FrameOut, Emission;
    if k > 0 {
      RoomSuffices(sent, stream, config, k - 1);
      BufferWithRoom(sent, HeldAfter(sent, stream, k - 1), stream[k - 1]);
    }
  }

  // ----- parity is not part of the byte account

  /** Every copy of a parity packet is kept while nothing of its frame is in flight, on arbitrary packets and
      for frame numbers that are any distance ahead. */
  method ParityPilesUp(receiver: ChannelReassembler, p: Packet, n: nat)
    requires receiver.Valid() && ParseFecPayload(p.payload).Some?
    requires !receiver.Stale(p.header.frameId) && p.header.frameId !in receiver.frames
    modifies receiver
    ensures receiver.Valid() && receiver.frames == old(receiver.frames) && receiver.buffered == old(receiver.buffered)
    ensures var id := p.header.frameId;
            && receiver.Pending(id) == old(receiver.Pending(id)) + seq(n, _ => ParseFecPayload(p.payload).value)
            && receiver.pendingFec - {id} == old(receiver.pendingFec) - {id}
  {
    hide ParseFecPayload, IsFec, Total;
    hide ChannelReassembler.Kept, ChannelReassembler.Windowed, ChannelReassembler.Tracks;
    ghost var id, m := p.header.frameId, ParseFecPayload(p.payload).value;
    AccountOf(receiver);
    assert receiver.Pending(id) + seq(0, _ => m) == receiver.Pending(id);
    for k := 0 to n
      invariant receiver.Valid() && receiver.frames == old(receiver.frames) && !receiver.Stale(id)
      invariant receiver.Pending(id) == old(receiver.Pending(id)) + seq(k, _ => m)
      invariant receiver.pendingFec - {id} == old(receiver.pendingFec) - {id}
    {
      SamePut(receiver.pendingFec, id, receiver.Pending(id) + [m]);
      var _ := receiver.OnFecPacket(p, {}, {});
      assert seq(k + 1, _ => m) == seq(k, _ => m) + [m];
    }
    AccountOf(receiver);
  }

  lemma AccountOf(receiver: ChannelReassembler)
    requires receiver.Valid()
    ensures receiver.buffered == Total(receiver.frames)
  {
  }

  /** Bytes are held of the frames in flight. */
  predicate SameFrames(h: Held) {
    h.bytes.Keys == h.rx.data.Keys
  }

  /** In housing a frame, parity goes with the frames that go. */
  lemma HousedParity(y: Rx, bytes: map<u32, nat>, id: u32, s: SentFrame, first: nat)
    requires bytes.Keys - {id} == y.data.Keys - {id}
    ensures var h' := Housed(y, bytes, id, s, first);
            && (id in y.data || id !in bytes ==> SameFrames(h')) && h'.rx.seen == y.seen
            && (forall j :: j in h'.rx.parity <==> j in y.parity && (j in y.data ==> j in h'.rx.data))
            && (forall j :: j in h'.rx.parity ==> h'.rx.parity[j] == y.parity[j])
  {
    hide Sum, Survivors, Recoverable, KnownBytes, GroupsKnown, FitsBeside, Housed, Decodable;
    if id in y.data {
      HousedIs(y, bytes, id, s, first);
    } else {
      NotHoused(y, bytes, id, s, first);
      assert y.data.Keys - {id} == y.data.Keys && (id !in bytes ==> bytes.Keys - {id} == bytes.Keys);
    }
  }

  /** Frame `j` is in flight, or would be with the packet at hand. */
  predicate InFlight(x: Rx, p: Packet, j: u32) {
    j in x.data || (p.header.packetType != TYPE_FEC && p.header.frameId == j && LetIn(x, j, IsKey(p)))
  }

  /** Parity of frame `j` is forgotten exactly when the frame is completed or given up, when a data packet is let
      in that puts the frame behind the bound, or when one reveals a loss; otherwise it stays, with every further
      copy. */
  lemma ParityLeaves(h: Held, sent: map<u32, SentFrame>, p: Packet, j: u32)
    requires Sent(sent, p) && SameFrames(h) && j in h.rx.parity
    ensures var x, x', id, key := h.rx, Buffer(h, sent, p).rx, p.header.frameId, IsKey(p);
            var isData := p.header.packetType != TYPE_FEC;
            && (j !in x'.parity <==>
                  || (InFlight(x, p, j) && j !in x'.data)
                  || (isData && LetIn(x, id, key) && j < Bound(x, id, key))
                  || (isData && !key && !x.waiting && !Late(x, id) && Reveals(x, id) && j < Min(id + 1, U32_MAX)))
            && (j in x'.parity ==>
                  x'.parity[j] == x.parity[j] || (!isData && id == j && |x'.parity[j]| == |x.parity[j]| + 1))
  {
    hide Sent, GroupParity, IsKey, GroupsKnown, Housed, Settled, FirstBytes, With, Reveals;
    SentFacts(sent, p);
    KeyFlagOf(sent, p);
    var x, id, s := h.rx, p.header.frameId, sent[p.header.frameId];
    if p.header.packetType == TYPE_FEC {
      HousedParity(WithParity(x, id, GroupParity(s, p.header.index)), h.bytes, id, s, BytesOf(h, id));
    } else if LetIn(x, id, s.key) {
      HousedParity(WithData(x, id, s.key, p.header.index), From(h.bytes, Bound(x, id, s.key)), id, s,
                   FirstBytes(h, id, s, p.header.index));
    }
  }

  /** The parity that is kept belongs to frames in the reorder window or ahead of it. */
  predicate Ahead(x: Rx) {
    x.seen.Some? ==> forall j :: j in x.parity ==> x.seen.value <= j + REORDER_WINDOW
  }

  lemma AheadStep(h: Held, sent: map<u32, SentFrame>, p: Packet)
    requires Sent(sent, p) && SameFrames(h) && Ahead(h.rx)
    ensures SameFrames(Buffer(h, sent, p)) && Ahead(Buffer(h, sent, p).rx)
  {
    hide Sent, GroupParity, IsKey, GroupsKnown, Housed, Settled, FirstBytes, With, ParityListOf;
    SentFacts(sent, p);
    var x, id, s := h.rx, p.header.frameId, sent[p.header.frameId];
    if p.header.packetType == TYPE_FEC {
      HousedParity(WithParity(x, id, GroupParity(s, p.header.index)), h.bytes, id, s, BytesOf(h, id));
    } else if LetIn(x, id, s.key) {
      HousedParity(WithData(x, id, s.key, p.header.index), From(h.bytes, Bound(x, id, s.key)), id, s,
                   FirstBytes(h, id, s, p.header.index));
    }
  }

  lemma {:induction false} ParityAhead(sent: map<u32, SentFrame>, stream: seq<Packet>, k: nat)
    requires k <= |stream| && AllSent(sent, stream)
    ensures SameFrames(HeldAfter(sent, stream, k)) && Ahead(HeldAfter(sent, stream, k).rx)
  {
    hide Sent, Buffer, Ahead;
    if k > 0 {
      ParityAhead(sent, stream, k - 1);
      AheadStep(HeldAfter(sent, stream, k - 1), sent, stream[k - 1]);
    } else {
      NothingAhead();
    }
  }

  lemma NothingAhead()
    ensures Ahead(NOTHING)
  {
  }
}
