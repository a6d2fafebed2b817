/** Cutting a frame into MTU-safe datagrams. */
module EvrtPacketizer {
  import opened Bytes
  import opened EvrtWire

  /** Chunk `i` of `payload.chunks(size)`. */
  function Chunk(payload: seq<byte>, size: nat, i: nat): (c: seq<byte>)
    requires size > 0 && i < DivCeil(|payload|, size)
    ensures 0 < |c| <= size
  {
    DivCeilStart(|payload|, size, i);
    payload[i * size..Min((i + 1) * size, |payload|)]
  }

  function Chunks(payload: seq<byte>, size: nat): (cs: seq<seq<byte>>)
    requires size > 0
    ensures |cs| == DivCeil(|payload|, size)
    ensures forall i :: 0 <= i < |cs| ==> 0 < |cs[i]| <= size
  {
    seq(DivCeil(|payload|, size), i requires 0 <= i < DivCeil(|payload|, size) => Chunk(payload, size, i))
  }

  lemma {:induction false} ChunksPrefixJoin(payload: seq<byte>, size: nat, n: nat)
    requires size > 0 && n <= DivCeil(|payload|, size)
    ensures Flatten(Chunks(payload, size)[..n]) == payload[..CutLen(size, n, |payload|)]
  {
    hide DivCeil, CutLen, Flatten;
    var cs := Chunks(payload, size);
    if n == 0 {
      CutLenStart(size, |payload|);
      assert cs[..0] == [] && Flatten([]) == [] by { NothingToJoin(); }
    } else {
      ChunksPrefixJoin(payload, size, n - 1);
      assert cs[..n] == cs[..n - 1] + [cs[n - 1]];
      FlattenSnoc(cs[..n - 1], cs[n - 1]);
      ChunkExtends(payload, size, n - 1);
    }
  }

  /** The bytes in the first `n` chunks. */
  function CutLen(size: nat, n: nat, len: nat): (k: nat)
    ensures k <= len
  {
    Min(n * size, len)
  }

  lemma CutLenStart(size: nat, len: nat)
    ensures CutLen(size, 0, len) == 0
  {
  }

  lemma NothingToJoin()
    ensures Flatten([]) == []
  {
  }

  lemma ChunkExtends(payload: seq<byte>, size: nat, i: nat)
    requires size > 0 && i < DivCeil(|payload|, size)
    ensures Chunks(payload, size)[i] == Chunk(payload, size, i)
    ensures payload[..CutLen(size, i, |payload|)] + Chunk(payload, size, i) == payload[..CutLen(size, i + 1, |payload|)]
  {
    hide DivCeil;
    DivCeilStart(|payload|, size, i);
  }

  /** Joining the chunks in index order gives the frame back. */
  lemma ChunksJoin(payload: seq<byte>, size: nat)
    requires size > 0
    ensures Flatten(Chunks(payload, size)) == payload
  {
    hide Flatten;
    var n := DivCeil(|payload|, size);
    ChunksPrefixJoin(payload, size, n);
    assert CutLen(size, n, |payload|) == |payload|;
    assert Chunks(payload, size)[..n] == Chunks(payload, size);
    assert payload[..|payload|] == payload;
  }

  /** The packet that carries chunk `i`. */
  function FragmentPacket(kind: u8, flags: u16, frameId: u32, time: u64, chunks: seq<seq<byte>>, i: nat): Packet
    requires i < |chunks| <= MAX_FRAME_PACKET_COUNT
  {
    Packet(Header(kind, flags, frameId, i, |chunks|, time), chunks[i])
  }

  method PacketizeWithLimit(kind: u8, flags: u16, frameId: u32, time: u64, payload: seq<byte>,
                            maxPayload: nat, auth: Auth)
    returns (packets: seq<seq<byte>>)
    ensures packets == [] <==>
            payload == [] || maxPayload == 0 || DivCeil(|payload|, maxPayload) > MAX_FRAME_PACKET_COUNT
    ensures packets != [] ==>
            var chunks := Chunks(payload, maxPayload);
            |packets| == |chunks| &&
            forall i :: 0 <= i < |chunks| ==>
              packets[i] == BuildAuthenticated(FragmentPacket(kind, flags, frameId, time, chunks, i), auth)
  {
    packets := [];
    if payload == [] {
      return;
    }
    if maxPayload == 0 {
      return;
    }
    var packetCount := DivCeil(|payload|, maxPayload);
    if packetCount > MAX_FRAME_PACKET_COUNT {
      return;
    }
    var chunks := Chunks(payload, maxPayload);
    for i := 0 to |chunks|
      invariant |packets| == i
      invariant forall k :: 0 <= k < i ==>
        packets[k] == BuildAuthenticated(FragmentPacket(kind, flags, frameId, time, chunks, k), auth)
    {
      var p := Packet(Header(kind, flags, frameId, AsU16(i), AsU16(packetCount), time), chunks[i]);
      assert p == FragmentPacket(kind, flags, frameId, time, chunks, i);
      packets := packets + [BuildAuthenticated(p, auth)];
    }
  }

  /** Datagram `i` of a frame that is cut into pieces of `size` bytes. */
  ghost predicate IsPiece(d: seq<byte>, kind: u8, flags: u16, frameId: u32, time: u64, payload: seq<byte>, size: nat,
                          i: nat, count: u16, auth: Auth)
    requires i * size <= |payload|
  {
    var piece := payload[i * size..Min(i * size + size, |payload|)];
    i < 0x1_0000 && LaidOut(d, Packet(Header(kind, flags, frameId, i, count, time), piece), auth)
  }

  lemma FragmentIsPiece(
    kind: u8, flags: u16, frameId: u32, time: u64, payload: seq<byte>, size: nat, i: nat, auth: Auth)
    requires 0 < size <= MaxPayload(auth) && |Chunks(payload, size)| <= MAX_FRAME_PACKET_COUNT
    requires i < |Chunks(payload, size)|
    ensures i * size < |payload|
    ensures var d := BuildAuthenticated(FragmentPacket(kind, flags, frameId, time, Chunks(payload, size), i), auth);
            IsPiece(d, kind, flags, frameId, time, payload, size, i, |Chunks(payload, size)|, auth)
  {
    hide DivCeil, LaidOut;
    DivCeilStart(|payload|, size, i);
    var p := FragmentPacket(kind, flags, frameId, time, Chunks(payload, size), i);
    DatagramLaidOut(p, auth);
  }

  /** `packetize_authenticated` (and, on a plain session, `packetize`): pieces of 1176 bytes, or of 1160 on a keyed
      session, numbered from 0, of at most 16384 each. */
  method Packetize(kind: u8, flags: u16, frameId: u32, time: u64, payload: seq<byte>, auth: Auth)
    returns (packets: seq<seq<byte>>)
    ensures packets == [] <==> payload == [] || |payload| > MaxPayload(auth) * MAX_FRAME_PACKET_COUNT
    ensures packets != [] ==>
            var chunks := Chunks(payload, MaxPayload(auth));
            && |packets| == |chunks| && Flatten(chunks) == payload
            && forall i :: 0 <= i < |packets| ==>
              && |packets[i]| <= MAX_PACKET_SIZE
              && ParseAuthenticated(packets[i], |packets[i]|, auth)
                 == Some(FragmentPacket(kind, flags, frameId, time, chunks, i))
    ensures var size := if auth.Keyed? then 1160 else 1176;
            && (packets == [] <==> payload == [] || |payload| > size * 16384)
            && forall i :: 0 <= i < |packets| ==>
                 i * size < |payload|
                 && IsPiece(packets[i], kind, flags, frameId, time, payload, size, i, AsU16(|packets|), auth)
  {
    hide IsPiece;
    packets := PacketizeWithLimit(kind, flags, frameId, time, payload, MaxPayload(auth), auth);
    CountWithinLimit(|payload|, MaxPayload(auth), MAX_FRAME_PACKET_COUNT);
    if packets != [] {
      var chunks := Chunks(payload, MaxPayload(auth));
      ChunksJoin(payload, MaxPayload(auth));
      forall i | 0 <= i < |packets|
        ensures |packets[i]| <= MAX_PACKET_SIZE
        ensures ParseAuthenticated(packets[i], |packets[i]|, auth)
             == Some(FragmentPacket(kind, flags, frameId, time, chunks, i))
      {
        SendReceive(FragmentPacket(kind, flags, frameId, time, chunks, i), auth);
      }
      forall i | 0 <= i < |packets|
        ensures i * MaxPayload(auth) < |payload|
        ensures IsPiece(packets[i], kind, flags, frameId, time, payload, MaxPayload(auth), i, |packets|, auth)
      {
        FragmentIsPiece(kind, flags, frameId, time, payload, MaxPayload(auth), i, auth);
      }
    }
  }

  lemma CountWithinLimit(len: nat, size: nat, limit: nat)
    requires size > 0
    ensures DivCeil(len, size) > limit <==> len > size * limit
  {
    hide DivCeil;
    var q := DivCeil(len, size);
    if q > limit {
      assert (q - 1) * size >= limit * size;
    } else if len > 0 {
      assert q * size <= limit * size;
    }
  }
}
