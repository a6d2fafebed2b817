/** What of each frame has arrived, and what of it is left once key frames made the receiver forget. */
module Arrivals {
  import opened Bytes
  import opened EvrtWire
  import opened EvrtVideo
  import opened Availability
  import opened Reassembler

  predicate IsParityPacket(p: Packet) {
    p.header.packetType == TYPE_FEC
  }

  // ----- what arrived

  /** The data packets of frame `id` in a stream. */
  ghost function DataIn(stream: seq<Packet>, id: u32): set<nat> {
    set p | p in stream && !IsParityPacket(p) && p.header.frameId == id :: p.header.index as nat
  }

  /** The parity packets of frame `id` in a stream. */
  ghost function ParityIn(stream: seq<Packet>, id: u32): set<nat> {
    set p | p in stream && IsParityPacket(p) && p.header.frameId == id :: p.header.index as nat
  }

  lemma ArrivedStep(stream: seq<Packet>, k: nat, id: u32)
    requires k < |stream|
    ensures var p := stream[k];
            && DataIn(stream[..k + 1], id) == (if !IsParityPacket(p) && p.header.frameId == id
                                               then With(DataIn(stream[..k], id), p.header.index)
                                               else DataIn(stream[..k], id))
            && ParityIn(stream[..k + 1], id) == (if IsParityPacket(p) && p.header.frameId == id
                                                 then With(ParityIn(stream[..k], id), p.header.index)
                                                 else ParityIn(stream[..k], id))
  {
    assert stream[..k + 1] == stream[..k] + [stream[k]];
  }

  /** Frame `id` can be rebuilt from all the packets in a stream. */
  ghost predicate Whole(sent: map<u32, SentFrame>, stream: seq<Packet>, id: u32) {
    && id in sent && DataIn(stream, id) != {}
    && Recoverable(|sent[id].chunks|, DataIn(stream, id), ParityIn(stream, id))
  }

  // ----- what is left of it

  /** A data packet of a key frame makes the receiver forget all older frames. */
  predicate Restarts(p: Packet, id: u32) {
    !IsParityPacket(p) && IsKey(p) && p.header.frameId > id
  }

  /** The data packets of frame `id` since the last data packet of a newer key frame. */
  ghost function DataLeft(stream: seq<Packet>, id: u32): (a: set<nat>)
    ensures a <= DataIn(stream, id)
  {
    if stream == [] then {}
    else
      var k := |stream| - 1;
      var before, p := DataLeft(stream[..k], id), stream[k];
      ArrivedStep(stream, k, id);
      assert stream[..k + 1] == stream;
      if Restarts(p, id) then {}
      else if !IsParityPacket(p) && p.header.frameId == id then With(before, p.header.index) else before
  }

  /** The parity packets of frame `id` since the last data packet of a newer key frame. */
  ghost function ParityLeft(stream: seq<Packet>, id: u32): (f: set<nat>)
    ensures f <= ParityIn(stream, id)
  {
    if stream == [] then {}
    else
      var k := |stream| - 1;
      var before, p := ParityLeft(stream[..k], id), stream[k];
      ArrivedStep(stream, k, id);
      assert stream[..k + 1] == stream;
      if Restarts(p, id) then {}
      else if IsParityPacket(p) && p.header.frameId == id then With(before, p.header.index) else before
  }

  lemma LeftStep(stream: seq<Packet>, k: nat, id: u32)
    requires k < |stream|
    ensures var p := stream[k];
            && DataLeft(stream[..k + 1], id) == (if Restarts(p, id) then {}
                                                 else if !IsParityPacket(p) && p.header.frameId == id
                                                 then With(DataLeft(stream[..k], id), p.header.index)
                                                 else DataLeft(stream[..k], id))
            && ParityLeft(stream[..k + 1], id) == (if Restarts(p, id) then {}
                                                   else if IsParityPacket(p) && p.header.frameId == id
                                                   then With(ParityLeft(stream[..k], id), p.header.index)
                                                   else ParityLeft(stream[..k], id))
  {
    assert stream[..k + 1][..k] == stream[..k];
  }

  /** Frame `id` can be rebuilt from what is left of it. */
  ghost predicate Ready(sent: map<u32, SentFrame>, stream: seq<Packet>, id: u32) {
    && id in sent && DataLeft(stream, id) != {}
    && Recoverable(|sent[id].chunks|, DataLeft(stream, id), ParityLeft(stream, id))
  }

  /** At some time frame `id` could be rebuilt from what was left of it. */
  ghost predicate Done(sent: map<u32, SentFrame>, stream: seq<Packet>, id: u32) {
    exists k :: 0 <= k <= |stream| && Ready(sent, stream[..k], id)
  }

  lemma DoneStep(sent: map<u32, SentFrame>, stream: seq<Packet>, k: nat, id: u32)
    requires k < |stream|
    ensures Done(sent, stream[..k + 1], id) <==> Done(sent, stream[..k], id) || Ready(sent, stream[..k + 1], id)
    ensures stream[k].header.frameId != id ==> (Done(sent, stream[..k + 1], id) <==> Done(sent, stream[..k], id))
  {
    hide Ready;
    assert forall j :: 0 <= j <= k ==> stream[..k + 1][..j] == stream[..j] == stream[..k][..j];
    assert stream[..k + 1][..k + 1] == stream[..k + 1];
    if Done(sent, stream[..k], id) {
      var j :| 0 <= j <= k && Ready(sent, stream[..k][..j], id);
      assert Ready(sent, stream[..k + 1][..j], id);
    }
    if Ready(sent, stream[..k + 1], id) {
      assert Ready(sent, stream[..k + 1][..k + 1], id);
      if stream[k].header.frameId != id {
        ReadyBefore(sent, stream, k, id);
        assert Ready(sent, stream[..k][..k], id);
      }
    }
    if Done(sent, stream[..k + 1], id) {
      var j :| 0 <= j <= k + 1 && Ready(sent, stream[..k + 1][..j], id);
      if j <= k {
        assert Ready(sent, stream[..k][..j], id);
      }
    }
  }

  /** A packet of another frame does not make a frame ready. */
  lemma ReadyBefore(sent: map<u32, SentFrame>, stream: seq<Packet>, k: nat, id: u32)
    requires k < |stream| && stream[k].header.frameId != id && Ready(sent, stream[..k + 1], id)
    ensures Ready(sent, stream[..k], id)
  {
    hide Recoverable, DataLeft, ParityLeft;
    LeftStep(stream, k, id);
  }

  lemma {:induction false} DoneStays(sent: map<u32, SentFrame>, stream: seq<Packet>, j: nat, k: nat, id: u32)
    requires j <= k <= |stream| && Done(sent, stream[..j], id)
    ensures Done(sent, stream[..k], id)
  {
    hide Done;
    if j < k {
      DoneStays(sent, stream, j, k - 1, id);
      DoneStep(sent, stream, k - 1, id);
    }
  }

  /** What was ready once is whole in the end. */
  lemma DoneIsWhole(sent: map<u32, SentFrame>, stream: seq<Packet>, id: u32)
    requires Done(sent, stream, id)
    ensures Whole(sent, stream, id)
  {
    hide Recoverable, DataLeft, ParityLeft;
    var k :| 0 <= k <= |stream| && Ready(sent, stream[..k], id);
    var a, f := DataLeft(stream[..k], id), ParityLeft(stream[..k], id);
    EarlierIn(stream, k, id);
    RecoverableMore(|sent[id].chunks|, a, f, DataIn(stream, id), ParityIn(stream, id));
  }

  lemma EarlierIn(stream: seq<Packet>, k: nat, id: u32)
    requires k <= |stream|
    ensures DataIn(stream[..k], id) <= DataIn(stream, id) && ParityIn(stream[..k], id) <= ParityIn(stream, id)
  {
  }

  lemma RecoverableMore(n: nat, a: set<nat>, f: set<nat>, a': set<nat>, f': set<nat>)
    requires Recoverable(n, a, f) && a <= a' && f <= f'
    ensures Recoverable(n, a', f')
  {
    AvailMonotone(n, a, f, a', f');
  }
}
