/** The sender of a protected video frame: data datagrams and their parity datagrams. */
module EvrtVideo {
  import opened Bytes
  import opened EvrtWire
  import opened EvrtPacketizer
  import opened EvrtFec

  /** Data chunks leave room for the parity header, so that the parity fits one datagram. */
  function ProtectedChunkSize(auth: Auth): (size: nat)
    ensures 0 < size && size + FEC_HEADER_LEN == MaxPayload(auth)
  {
    Max(MaxPayload(auth) - FEC_HEADER_LEN, 1)
  }

  function KeyFlags(key: bool): u16 {
    if key then 1 else 0
  }

  /** What the sender emits for one frame. */
  datatype SentFrame = SentFrame(chunks: seq<seq<byte>>, key: bool, time: u64)

  predicate WellFormed(s: SentFrame) {
    0 < |s.chunks| <= MAX_FRAME_PACKET_COUNT
    && forall i :: 0 <= i < |s.chunks| ==> 0 < |s.chunks[i]| <= MAX_PAYLOAD_SIZE - FEC_HEADER_LEN
  }

  lemma GroupsAreSmall(s: SentFrame, g: nat)
    requires WellFormed(s) && g < GroupCount(|s.chunks|)
    ensures MaxLen(Group(s.chunks, g)) <= MAX_PAYLOAD_SIZE - FEC_HEADER_LEN
    ensures g * FEC_GROUP_SIZE + |Group(s.chunks, g)| <= |s.chunks|
    ensures g < GroupCount(|s.chunks|) <= |s.chunks|
  {
  }

  /** Data packet `i` of frame `id`. */
  function DataPacket(id: u32, s: SentFrame, i: nat): Packet
    requires WellFormed(s) && i < |s.chunks|
  {
    FragmentPacket(TYPE_VIDEO_FRAME, KeyFlags(s.key), id, s.time, s.chunks, i)
  }

  /** The parity of group `g`. */
  ghost function GroupParity(s: SentFrame, g: nat): FecMeta
    requires WellFormed(s) && g < GroupCount(|s.chunks|)
  {
    GroupsAreSmall(s, g);
    ParityOf(g * FEC_GROUP_SIZE, Group(s.chunks, g))
  }

  /** Parity packet `g` of frame `id`. */
  ghost function FecPacket(id: u32, s: SentFrame, g: nat): Packet
    requires WellFormed(s) && g < GroupCount(|s.chunks|)
  {
    GroupsAreSmall(s, g);
    Packet(Header(TYPE_FEC, KeyFlags(s.key), id, g, GroupCount(|s.chunks|), s.time), FecPayload(GroupParity(s, g)))
  }

  lemma ParityPayloadSize(s: SentFrame, auth: Auth, g: nat)
    requires WellFormed(s) && g < GroupCount(|s.chunks|)
    requires forall i :: 0 <= i < |s.chunks| ==> |s.chunks[i]| <= ProtectedChunkSize(auth)
    ensures GroupFits(s.chunks, auth, g)
    ensures |FecPayload(GroupParity(s, g))| <= MaxPayload(auth)
  {
    var group := Group(s.chunks, g);
    var i :| 0 <= i < |group| && |group[i]| == MaxLen(group);
    assert group[i] == s.chunks[g * FEC_GROUP_SIZE + i];
  }

  /** No group is left unprotected: the "group too large" branch is never taken. */
  lemma {:induction false} EveryGroupFits(id: u32, s: SentFrame, auth: Auth, n: nat)
    requires WellFormed(s) && n <= GroupCount(|s.chunks|)
    requires forall i :: 0 <= i < |s.chunks| ==> |s.chunks[i]| <= ProtectedChunkSize(auth)
    ensures |ParityDatagrams(KeyFlags(s.key), id, s.time, s.chunks, auth, n)| == n
  {
    hide BuildAuthenticated, GroupFits, WellFormed, GroupParity, FecPayload, GroupCount;
    if n > 0 {
      EveryGroupFits(id, s, auth, n - 1);
      ParityPayloadSize(s, auth, n - 1);
    }
  }

  lemma LastGroupProtected(id: u32, s: SentFrame, auth: Auth, g: nat)
    requires WellFormed(s) && g < GroupCount(|s.chunks|)
    requires forall i :: 0 <= i < |s.chunks| ==> |s.chunks[i]| <= ProtectedChunkSize(auth)
    ensures ParityDatagrams(KeyFlags(s.key), id, s.time, s.chunks, auth, g + 1)
         == ParityDatagrams(KeyFlags(s.key), id, s.time, s.chunks, auth, g)
            + [BuildAuthenticated(FecPacket(id, s, g), auth)]
  {
    ParityPayloadSize(s, auth, g);
    GroupsAreSmall(s, g);
    assert ParityPacket(KeyFlags(s.key), id, s.time, s.chunks, g) == FecPacket(id, s, g);
  }

  lemma {:induction false} EveryGroupProtected(id: u32, s: SentFrame, auth: Auth, n: nat, g: nat)
    requires WellFormed(s) && g < n <= GroupCount(|s.chunks|)
    requires forall i :: 0 <= i < |s.chunks| ==> |s.chunks[i]| <= ProtectedChunkSize(auth)
    ensures var ds := ParityDatagrams(KeyFlags(s.key), id, s.time, s.chunks, auth, n);
            |ds| == n && ds[g] == BuildAuthenticated(FecPacket(id, s, g), auth)
  {
    hide BuildAuthenticated, ParityDatagrams, FecPacket;
    EveryGroupFits(id, s, auth, n - 1);
    LastGroupProtected(id, s, auth, n - 1);
    if g < n - 1 {
      EveryGroupProtected(id, s, auth, n - 1, g);
    }
  }

  /** Parity datagram `g` of a frame that is cut into `n` chunks: it covers chunks 8 * g to 8 * g + 7, as far as they
      exist. */
  ghost predicate ProtectsGroup(
    d: seq<byte>, id: u32, time: u64, key: bool, chunks: seq<seq<byte>>, g: nat, auth: Auth)
  {
    var n := |chunks|;
    && 8 * g < n <= 16384
    && exists payload :: CarriesParity(d, id, time, key, chunks, g, auth, payload)
  }

  ghost predicate CarriesParity(d: seq<byte>, id: u32, time: u64, key: bool, chunks: seq<seq<byte>>, g: nat, auth: Auth,
                                payload: seq<byte>)
    requires 8 * g < |chunks| <= 16384
  {
    var n := |chunks|;
    && LaidOut(d, Packet(Header(10, if key then 1 else 0, id, g, (n + 7) / 8, time), payload), auth)
    && ParityLaidOut(payload, 8 * g, chunks[8 * g..Min(8 * g + 8, n)])
  }

  lemma FecProtects(id: u32, s: SentFrame, g: nat, auth: Auth)
    requires WellFormed(s) && g < GroupCount(|s.chunks|)
    requires |FecPacket(id, s, g).payload| <= MaxPayload(auth)
    ensures ProtectsGroup(BuildAuthenticated(FecPacket(id, s, g), auth), id, s.time, s.key, s.chunks, g, auth)
  {
    hide LaidOut, ParityLaidOut, FecPayload, ParityOf, BuildPacket, MaxLen;
    GroupsAreSmall(s, g);
    var p := FecPacket(id, s, g);
    FecPayloadLaidOut(8 * g, Group(s.chunks, g));
    DatagramLaidOut(p, auth);
    assert LaidOut(BuildAuthenticated(p, auth), p, auth);
    assert p.payload == FecPayload(ParityOf(8 * g, Group(s.chunks, g)));
    assert CarriesParity(BuildAuthenticated(p, auth), id, s.time, s.key, s.chunks, g, auth, p.payload);
  }

  /** What the datagrams of a frame are, byte by byte. */
  ghost predicate SenderSays(data: seq<seq<byte>>, fec: seq<seq<byte>>, id: u32, time: u64, key: bool,
                             payload: seq<byte>, auth: Auth)
  {
    var size, n := if auth.Keyed? then 1155 else 1171, |data|;
    && (data == [] <==> payload == [] || |payload| > size * 16384) && n <= 16384
    && (forall i: nat :: i < n ==>
          i * size < |payload| && IsPiece(data[i], 3, if key then 1 else 0, id, time, payload, size, i, n, auth))
    && |fec| == (if n >= 2 then (n + 7) / 8 else 0)
    && forall g: nat :: g < |fec| ==> ProtectsGroup(fec[g], id, time, key, Chunks(payload, size), g, auth)
  }

  lemma SenderIsSaid(data: seq<seq<byte>>, fec: seq<seq<byte>>, id: u32, payload: seq<byte>, auth: Auth, s: SentFrame)
    requires WellFormed(s) && s.chunks == Chunks(payload, ProtectedChunkSize(auth)) && Flatten(s.chunks) == payload
    requires |data| == |s.chunks| && |fec| == (if |s.chunks| >= 2 then GroupCount(|s.chunks|) else 0)
    requires payload != [] && |payload| <= ProtectedChunkSize(auth) * MAX_FRAME_PACKET_COUNT
    requires forall i :: 0 <= i < |s.chunks| ==> |s.chunks[i]| <= ProtectedChunkSize(auth)
    requires forall i :: 0 <= i < |data| ==> data[i] == BuildAuthenticated(DataPacket(id, s, i), auth)
    requires forall g :: 0 <= g < |fec| ==> fec[g] == BuildAuthenticated(FecPacket(id, s, g), auth)
    ensures SenderSays(data, fec, id, s.time, s.key, payload, auth)
  {
    hide IsPiece, ProtectsGroup, BuildAuthenticated, FecPacket, Flatten, Chunks, WellFormed;
    var size := ProtectedChunkSize(auth);
    forall i: nat | i < |data|
      ensures i * size < |payload|
      ensures IsPiece(data[i], 3, if s.key then 1 else 0, id, s.time, payload, size, i, |data|, auth)
    {
      SmallEnough(s);
      FragmentIsPiece(3, if s.key then 1 else 0, id, s.time, payload, size, i, auth);
    }
    forall g: nat | g < |fec| ensures ProtectsGroup(fec[g], id, s.time, s.key, s.chunks, g, auth) {
      ParityPayloadSize(s, auth, g);
      PayloadOfFec(id, s, g);
      FecProtects(id, s, g, auth);
    }
    SmallEnough(s);
  }

  lemma SmallEnough(s: SentFrame)
    requires WellFormed(s)
    ensures 0 < |s.chunks| <= MAX_FRAME_PACKET_COUNT
  {
  }

  lemma PayloadOfFec(id: u32, s: SentFrame, g: nat)
    requires WellFormed(s) && g < GroupCount(|s.chunks|)
    ensures FecPacket(id, s, g).payload == FecPayload(GroupParity(s, g))
  {
  }

  /** `packetize_video_with_fec`: every datagram fits the MTU and is read back as the packet it was
      built from; the chunks join to the payload; multi-packet frames get one parity per group. */
  method PacketizeVideoWithFec(id: u32, time: u64, key: bool, payload: seq<byte>, auth: Auth)
    returns (data: seq<seq<byte>>, fec: seq<seq<byte>>, ghost s: SentFrame)
    ensures s == SentFrame(Chunks(payload, ProtectedChunkSize(auth)), key, time)
    ensures Flatten(s.chunks) == payload
    ensures data == [] <==> payload == [] || |payload| > ProtectedChunkSize(auth) * MAX_FRAME_PACKET_COUNT
    ensures data == [] ==> fec == []
    ensures data != [] ==>
            && WellFormed(s) && |data| == |s.chunks|
            && |fec| == (if |s.chunks| >= 2 then GroupCount(|s.chunks|) else 0)
            && (forall i :: 0 <= i < |data| ==>
                  |data[i]| <= MAX_PACKET_SIZE
                  && ParseAuthenticated(data[i], |data[i]|, auth) == Some(DataPacket(id, s, i)))
            && (forall g :: 0 <= g < |fec| ==>
                  |fec[g]| <= MAX_PACKET_SIZE
                  && ParseAuthenticated(fec[g], |fec[g]|, auth) == Some(FecPacket(id, s, g)))
    ensures SenderSays(data, fec, id, time, key, payload, auth)
  {
    hide SenderSays;
    var chunkSize := ProtectedChunkSize(auth);
    s := SentFrame(Chunks(payload, chunkSize), key, time);
    ChunksJoin(payload, chunkSize);
    CountWithinLimit(|payload|, chunkSize, MAX_FRAME_PACKET_COUNT);
    data, fec := [], [];
    if payload == [] {
      NothingSaid(id, time, key, payload, auth);
      return;
    }
    var packetCount := DivCeil(|payload|, chunkSize);
    if packetCount == 0 || packetCount > MAX_FRAME_PACKET_COUNT {
      NothingSaid(id, time, key, payload, auth);
      return;
    }
    data := BuildDataPackets(id, time, key, Chunks(payload, chunkSize), auth, s);
    if packetCount >= 2 {
      GroupsAreSmall(s, 0);
      fec := BuildFecPackets(id, time, KeyFlags(key), Chunks(payload, chunkSize), auth);
      AllGroupsProtected(id, s, auth);
    }
    ReadBack(id, s, auth, data, fec);
    SenderIsSaid(data, fec, id, payload, auth, s);
  }

  lemma NothingSaid(id: u32, time: u64, key: bool, payload: seq<byte>, auth: Auth)
    requires payload == [] || |payload| > ProtectedChunkSize(auth) * MAX_FRAME_PACKET_COUNT
    ensures SenderSays([], [], id, time, key, payload, auth)
  {
  }

  method BuildDataPackets(id: u32, time: u64, key: bool, chunks: seq<seq<byte>>, auth: Auth, ghost s: SentFrame)
    returns (data: seq<seq<byte>>)
    requires s == SentFrame(chunks, key, time) && WellFormed(s)
    ensures |data| == |chunks|
    ensures forall i :: 0 <= i < |data| ==> data[i] == BuildAuthenticated(DataPacket(id, s, i), auth)
  {
    hide BuildAuthenticated;
    data := [];
    for i := 0 to |chunks|
      invariant |data| == i
      invariant forall k :: 0 <= k < i ==> data[k] == BuildAuthenticated(DataPacket(id, s, k), auth)
    {
      var p := Packet(Header(TYPE_VIDEO_FRAME, KeyFlags(key), id, AsU16(i), AsU16(|chunks|), time), chunks[i]);
      assert p == DataPacket(id, s, i);
      data := data + [BuildAuthenticated(p, auth)];
    }
  }

  lemma AllGroupsProtected(id: u32, s: SentFrame, auth: Auth)
    requires WellFormed(s)
    requires forall i :: 0 <= i < |s.chunks| ==> |s.chunks[i]| <= ProtectedChunkSize(auth)
    ensures var n := GroupCount(|s.chunks|);
            var ds := ParityDatagrams(KeyFlags(s.key), id, s.time, s.chunks, auth, n);
            |ds| == n && forall g :: 0 <= g < n ==> ds[g] == BuildAuthenticated(FecPacket(id, s, g), auth)
  {
    var n := GroupCount(|s.chunks|);
    EveryGroupFits(id, s, auth, n);
    forall g | 0 <= g < n
      ensures ParityDatagrams(KeyFlags(s.key), id, s.time, s.chunks, auth, n)[g]
           == BuildAuthenticated(FecPacket(id, s, g), auth)
    {
      EveryGroupProtected(id, s, auth, n, g);
    }
  }

  lemma ReadBack(id: u32, s: SentFrame, auth: Auth, data: seq<seq<byte>>, fec: seq<seq<byte>>)
    requires WellFormed(s) && |data| == |s.chunks| && |fec| <= GroupCount(|s.chunks|)
    requires forall i :: 0 <= i < |s.chunks| ==> |s.chunks[i]| <= ProtectedChunkSize(auth)
    requires forall i :: 0 <= i < |data| ==> data[i] == BuildAuthenticated(DataPacket(id, s, i), auth)
    requires forall g :: 0 <= g < |fec| ==> fec[g] == BuildAuthenticated(FecPacket(id, s, g), auth)
    ensures forall i :: 0 <= i < |data| ==>
              |data[i]| <= MAX_PACKET_SIZE
              && ParseAuthenticated(data[i], |data[i]|, auth) == Some(DataPacket(id, s, i))
    ensures forall g :: 0 <= g < |fec| ==>
              |fec[g]| <= MAX_PACKET_SIZE
              && ParseAuthenticated(fec[g], |fec[g]|, auth) == Some(FecPacket(id, s, g))
  {
    forall i | 0 <= i < |data|
      ensures |data[i]| <= MAX_PACKET_SIZE
      ensures ParseAuthenticated(data[i], |data[i]|, auth) == Some(DataPacket(id, s, i))
    {
      SendReceive(DataPacket(id, s, i), auth);
    }
    forall g | 0 <= g < |fec|
      ensures |fec[g]| <= MAX_PACKET_SIZE
      ensures ParseAuthenticated(fec[g], |fec[g]|, auth) == Some(FecPacket(id, s, g))
    {
      ParityPayloadSize(s, auth, g);
      GroupsAreSmall(s, g);
      SendReceive(FecPacket(id, s, g), auth);
    }
  }
}
