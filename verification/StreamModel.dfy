/** Packets of many frames in flight at once: what comes out, for every order of arrival, as long as the receive
    buffer is never full. */
module StreamModel {
  import opened Bytes
  import opened EvrtWire
  import opened EvrtFec
  import opened EvrtVideo
  import opened Availability
  import opened ReceiveBuffer
  import opened Reassembler
  import opened Streams

  /** What the receiver knows: the last completed frame, whether a loss is pending, the newest frame seen, and
      for every frame in flight the data packets and the parity that were let in. */
  datatype Rx = Rx(completed: Option<u32>, waiting: bool, seen: Option<u32>,
                   data: map<u32, set<nat>>, parity: map<u32, seq<FecMeta>>)

  const NOTHING: Rx := Rx(None, false, None, map[], map[])

  ghost function DataOf(x: Rx, id: u32): set<nat> {
    if id in x.data then x.data[id] else {}
  }

  function ParityListOf(x: Rx, id: u32): seq<FecMeta> {
    if id in x.parity then x.parity[id] else []
  }

  ghost function GroupsKnown(x: Rx, id: u32): set<nat> {
    GroupsOf(ParityListOf(x, id))
  }

  /** Frame `id` was completed or overtaken by a completed frame, or the window has passed it. */
  predicate Late(x: Rx, id: u32) {
    (x.completed.Some? && id <= x.completed.value) || (x.seen.Some? && id + REORDER_WINDOW < x.seen.value)
  }

  predicate Newer(x: Rx, id: u32) {
    x.seen.None? || id > x.seen.value
  }

  /** Frame `id` shows that a frame in flight has left the window. */
  predicate Reveals(x: Rx, id: u32) {
    Newer(x, id) && exists o :: o in x.data && o + REORDER_WINDOW < id
  }

  predicate LetIn(x: Rx, id: u32, key: bool) {
    !Late(x, id) && (key || (!x.waiting && !Reveals(x, id)))
  }

  /** The frames below this number are forgotten when a data packet is let in. */
  function Bound(x: Rx, id: u32, key: bool): nat {
    if key then id else if Newer(x, id) then SaturatingSub(id, REORDER_WINDOW) else 0
  }

  function Forget(x: Rx, bound: nat): Rx {
    x.(data := From(x.data, bound), parity := From(x.parity, bound))
  }

  /** Frame `id` is completed if enough of it was let in; a loss is pending afterwards if it is not decodable. */
  ghost function Settled(x: Rx, id: u32, s: SentFrame): Rx {
    if id in x.data && Recoverable(|s.chunks|, x.data[id], GroupsKnown(x, id)) then
      Rx(Some(id), !Decodable(s.key, x.waiting, x.completed, id), x.seen, x.data - {id}, x.parity - {id})
    else x
  }

  /** A data packet of frame `id` was let in. */
  ghost function WithData(x: Rx, id: u32, key: bool, i: nat): Rx {
    var y := Forget(x, Bound(x, id, key));
    y.(waiting := false, seen := if Newer(x, id) then Some(id) else x.seen,
       data := y.data[id := With(DataOf(y, id), i)])
  }

  /** A data packet of delta frame `id` is refused because it reveals a loss. */
  function Revealed(x: Rx, id: u32): Rx {
    Forget(x, Min(id + 1, U32_MAX)).(waiting := true, seen := Some(id))
  }

  /** A parity packet of frame `id` is kept. */
  function WithParity(x: Rx, id: u32, m: FecMeta): Rx {
    x.(parity := x.parity[id := ParityListOf(x, id) + [m]])
  }

  ghost function TakeData(x: Rx, id: u32, s: SentFrame, i: nat): Rx {
    if LetIn(x, id, s.key) then Settled(WithData(x, id, s.key, i), id, s)
    else if !s.key && !x.waiting && !Late(x, id) then Revealed(x, id)
    else x
  }

  ghost function TakeParity(x: Rx, id: u32, s: SentFrame, m: FecMeta): Rx {
    if Late(x, id) then x else Settled(WithParity(x, id, m), id, s)
  }

  ghost function Take(x: Rx, sent: map<u32, SentFrame>, p: Packet): Rx
    requires Sent(sent, p)
  {
    SentFacts(sent, p);
    var id := p.header.frameId;
    if p.header.packetType == TYPE_FEC then TakeParity(x, id, sent[id], GroupParity(sent[id], p.header.index))
    else TakeData(x, id, sent[id], p.header.index)
  }

  lemma SentFacts(sent: map<u32, SentFrame>, p: Packet)
    requires Sent(sent, p)
    ensures p.header.frameId in sent && WellFormed(sent[p.header.frameId])
    ensures p.header.packetType == TYPE_FEC ==> p.header.index < GroupCount(|sent[p.header.frameId].chunks|)
  {
    hide WellFormed, GroupParity, FecPayload, GroupCount;
  }

  /** A frame comes out when it is completed and no loss is pending then. */
  predicate Emission(x: Rx, x': Rx) {
    x'.completed != x.completed && !x'.waiting
  }

  ghost predicate AllSent(sent: map<u32, SentFrame>, stream: seq<Packet>) {
    && (forall id :: id in sent ==> WellFormed(sent[id]))
    && (forall k :: 0 <= k < |stream| ==> Sent(sent, stream[k]))
  }

  /** The state after the first `k` packets. */
  ghost function After(sent: map<u32, SentFrame>, stream: seq<Packet>, k: nat): Rx
    requires k <= |stream| && AllSent(sent, stream)
  {
    if k == 0 then NOTHING else Take(After(sent, stream, k - 1), sent, stream[k - 1])
  }

  /** A sent frame as it comes out; key frames carry the codec configuration in front. */
  ghost function FrameOut(sent: map<u32, SentFrame>, id: u32, config: Option<seq<byte>>): Output
    requires id in sent
  {
    var s, bytes := sent[id], Flatten(sent[id].chunks);
    Output(id, if s.key && config.Some? then config.value + bytes else bytes, s.key, s.time)
  }

  /** What comes out of the first `k` packets. */
  ghost function OutputAfter(sent: map<u32, SentFrame>, stream: seq<Packet>, config: Option<seq<byte>>, k: nat)
    : seq<Output>
    requires k <= |stream| && AllSent(sent, stream)
  {
    if k == 0 then []
    else
      SentFacts(sent, stream[k - 1]);
      OutputAfter(sent, stream, config, k - 1)
      + if Emission(After(sent, stream, k - 1), After(sent, stream, k))
        then [FrameOut(sent, stream[k - 1].header.frameId, config)] else []
  }

  // ----- facts

  /** What settling does besides the frames. */
  lemma SettledTurn(x: Rx, id: u32, s: SentFrame)
    requires id in x.data
    ensures var x', whole := Settled(x, id, s), Recoverable(|s.chunks|, x.data[id], GroupsKnown(x, id));
            && x'.completed == (if whole then Some(id) else x.completed) && x'.seen == x.seen
            && x'.waiting == (if whole then !Decodable(s.key, x.waiting, x.completed, id) else x.waiting)
  {
    hide Recoverable;
  }

  lemma GroupsWith(list: seq<FecMeta>, m: FecMeta)
    ensures GroupsOf(list + [m]) == With(GroupsOf(list), m.base / FEC_GROUP_SIZE)
  {
    GroupsOfSnoc(list + [m], |list|);
    assert (list + [m])[..|list|] == list && (list + [m])[..|list| + 1] == list + [m];
  }

  /** The five frames from number `lo` on fit the receive buffer together. */
  ghost predicate WindowFits(sent: map<u32, SentFrame>, lo: nat) {
    SentBytes(sent, lo, REORDER_WINDOW + 1) <= MAX_BUFFERED_BYTES
  }

  /** All frames that can be in flight together fit the receive buffer. */
  ghost predicate WindowsFit(sent: map<u32, SentFrame>) {
    forall lo: nat :: WindowFits(sent, lo)
  }
}
