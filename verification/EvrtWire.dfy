/** The EVRT datagram: a 24-byte header, the payload and, on keyed sessions, a 16-byte tag. */
module EvrtWire {
  import opened Bytes

  const MAGIC: u32 := 0x4556_5254
  const VERSION: u8 := 3
  const HEADER_SIZE: nat := 24
  const MAX_PACKET_SIZE: nat := 1200
  const MAX_PAYLOAD_SIZE: nat := MAX_PACKET_SIZE - HEADER_SIZE
  const AUTH_TAG_SIZE: nat := 16
  const MAX_AUTH_PAYLOAD_SIZE: nat := MAX_PACKET_SIZE - HEADER_SIZE - AUTH_TAG_SIZE
  const MAX_FRAME_PACKET_COUNT: nat := 16 * 1024
  const TYPE_VIDEO_FRAME: u8 := 3
  const TYPE_FEC: u8 := 10

  datatype Header = Header(packetType: u8, flags: u16, frameId: u32, index: u16, count: u16, time: u64)
  datatype Packet = Packet(header: Header, payload: seq<byte>)

  type Tag = t: seq<byte> | |t| == AUTH_TAG_SIZE witness seq(AUTH_TAG_SIZE, _ => 0)

  /** `Plain` stands for an absent or invalid session token; `Keyed` carries the token's
      truncated HMAC as an arbitrary function of the packet body. */
  datatype Auth = Plain | Keyed(mac: seq<byte> -> Tag)

  function MaxPayload(auth: Auth): nat {
    if auth.Keyed? then MAX_AUTH_PAYLOAD_SIZE else MAX_PAYLOAD_SIZE
  }

  function HeaderBytes(h: Header): (s: seq<byte>)
    ensures |s| == HEADER_SIZE
  {
    ToBE(MAGIC, 4) + [VERSION, h.packetType] + ToBE(h.flags, 2) + ToBE(h.frameId, 4)
    + ToBE(h.index, 2) + ToBE(h.count, 2) + ToBE(h.time, 8)
  }

  function BuildPacket(p: Packet): seq<byte> {
    HeaderBytes(p.header) + p.payload
  }

  /** An oversized payload on a keyed session yields the empty datagram. */
  function BuildAuthenticated(p: Packet, auth: Auth): seq<byte> {
    match auth
    case Plain => BuildPacket(p)
    case Keyed(mac) =>
      if |p.payload| > MAX_AUTH_PAYLOAD_SIZE then []
      else BuildPacket(p) + mac(BuildPacket(p))
  }

  /** What the receiver insists on about the fragment numbering. */
  predicate ValidFragment(h: Header) {
    h.count != 0 && h.index < h.count && h.count <= MAX_FRAME_PACKET_COUNT
  }

  function FieldU16(b: seq<byte>): u16
    requires |b| == 2
  {
    BEBytes(b);
    Widths();
    FromBE(b)
  }

  function FieldU32(b: seq<byte>): u32
    requires |b| == 4
  {
    BEBytes(b);
    Widths();
    FromBE(b)
  }

  function FieldU64(b: seq<byte>): u64
    requires |b| == 8
  {
    BEBytes(b);
    Widths();
    FromBE(b)
  }

  function HeaderAt(b: seq<byte>): Header
    requires |b| >= HEADER_SIZE
  {
    Header(b[5], FieldU16(b[6..8]), FieldU32(b[8..12]), FieldU16(b[12..14]),
           FieldU16(b[14..16]), FieldU64(b[16..24]))
  }

  function Parse(buf: seq<byte>, len: nat): Option<Packet> {
    if len < HEADER_SIZE || len > MAX_PACKET_SIZE || len > |buf| then None
    else
      var b := buf[..len];
      if FieldU32(b[0..4]) != MAGIC then None
      else if b[4] != VERSION then None
      else
        var h := HeaderAt(b);
        if h.count == 0 || h.index >= h.count || h.count > MAX_FRAME_PACKET_COUNT then None
        else Some(Packet(h, b[HEADER_SIZE..]))
  }

  function ParseAuthenticated(buf: seq<byte>, len: nat, auth: Auth): Option<Packet> {
    match auth
    case Plain => Parse(buf, len)
    case Keyed(mac) =>
      if len < HEADER_SIZE + AUTH_TAG_SIZE || len > MAX_PACKET_SIZE || len > |buf| then None
      else
        var bodyLen := len - AUTH_TAG_SIZE;
        if mac(buf[..bodyLen]) != buf[bodyLen..len] then None
        else Parse(buf[..bodyLen], bodyLen)
  }

  // ----- the two directions of the header codec

  /** Cutting eight concatenated fields at the header's offsets gives the fields back. */
  lemma FieldSlices(m: seq<byte>, v: seq<byte>, f: seq<byte>, i: seq<byte>,
                    x: seq<byte>, c: seq<byte>, t: seq<byte>, p: seq<byte>)
    requires |m| == 4 && |v| == 2 && |f| == 2 && |i| == 4 && |x| == 2 && |c| == 2 && |t| == 8
    ensures var b := m + v + f + i + x + c + t + p;
            && b[0..4] == m && b[4] == v[0] && b[5] == v[1] && b[6..8] == f && b[8..12] == i
            && b[12..14] == x && b[14..16] == c && b[16..24] == t && b[24..] == p
  {
  }

  lemma HeaderRoundTrip(h: Header, payload: seq<byte>)
    ensures var b := HeaderBytes(h) + payload;
            FieldU32(b[0..4]) == MAGIC && b[4] == VERSION && HeaderAt(b) == h && b[24..] == payload
  {
    Widths();
    FieldSlices(ToBE(MAGIC, 4), [VERSION, h.packetType], ToBE(h.flags, 2), ToBE(h.frameId, 4),
                ToBE(h.index, 2), ToBE(h.count, 2), ToBE(h.time, 8), payload);
    BERoundTrip(MAGIC, 4);
    BERoundTrip(h.flags, 2);
    BERoundTrip(h.frameId, 4);
    BERoundTrip(h.index, 2);
    BERoundTrip(h.count, 2);
    BERoundTrip(h.time, 8);
  }

  lemma FieldsJoin(b: seq<byte>)
    requires |b| >= HEADER_SIZE
    ensures b[..HEADER_SIZE]
         == b[0..4] + [b[4], b[5]] + b[6..8] + b[8..12] + b[12..14] + b[14..16] + b[16..24]
  {
  }

  lemma HeaderBytesUnique(b: seq<byte>)
    requires |b| >= HEADER_SIZE
    requires FieldU32(b[0..4]) == MAGIC && b[4] == VERSION
    ensures b[..HEADER_SIZE] == HeaderBytes(HeaderAt(b))
  {
    FieldsJoin(b);
    BEBytes(b[0..4]);
    BEBytes(b[6..8]);
    BEBytes(b[8..12]);
    BEBytes(b[12..14]);
    BEBytes(b[14..16]);
    BEBytes(b[16..24]);
  }

  /** `Parse` accepts exactly the datagrams that `BuildPacket` makes from a packet with a valid
      fragment number and a payload within the MTU, and returns that packet. */
  lemma ParseExact(buf: seq<byte>, len: nat, p: Packet)
    ensures Parse(buf, len) == Some(p) <==>
            len <= |buf| && len <= MAX_PACKET_SIZE && buf[..len] == BuildPacket(p) && ValidFragment(p.header)
  {
    if len <= |buf| && len <= MAX_PACKET_SIZE && buf[..len] == BuildPacket(p) && ValidFragment(p.header) {
      HeaderRoundTrip(p.header, p.payload);
    }
    if Parse(buf, len) == Some(p) {
      var b := buf[..len];
      HeaderBytesUnique(b);
      assert b == b[..HEADER_SIZE] + b[HEADER_SIZE..];
    }
  }

  /** The datagram of packet `p` on a session: body, followed by the tag when keyed. */
  function Datagram(p: Packet, auth: Auth): seq<byte> {
    if auth.Keyed? then BuildPacket(p) + auth.mac(BuildPacket(p)) else BuildPacket(p)
  }

  /** On a keyed session too, acceptance means: byte for byte the tagged datagram of the returned packet. */
  lemma ParseAuthenticatedExact(buf: seq<byte>, len: nat, auth: Auth, p: Packet)
    ensures ParseAuthenticated(buf, len, auth) == Some(p) <==>
            len <= |buf| && len <= MAX_PACKET_SIZE && buf[..len] == Datagram(p, auth) && ValidFragment(p.header)
  {
    if auth.Plain? {
      ParseExact(buf, len, p);
    } else if len >= HEADER_SIZE + AUTH_TAG_SIZE && len <= |buf| {
      var bodyLen := len - AUTH_TAG_SIZE;
      ParseExact(buf[..bodyLen], bodyLen, p);
      assert buf[..bodyLen][..bodyLen] == buf[..bodyLen];
      assert buf[..len] == buf[..bodyLen] + buf[bodyLen..len];
      if buf[..len] == Datagram(p, auth) {
        assert buf[..bodyLen] == buf[..len][..bodyLen] == BuildPacket(p);
        assert buf[bodyLen..len] == buf[..len][bodyLen..] == auth.mac(BuildPacket(p));
      }
    }
  }

  /** The datagram byte by byte: "EVRT", version 3, the packet type, and from byte 6 on, most significant byte first,
      flags, frame number, index, count and time; from byte 24 on the payload, and on a keyed session 16 bytes of
      authentication over all that precedes them. */
  ghost predicate LaidOut(d: seq<byte>, p: Packet, auth: Auth) {
    var h, end := p.header, 24 + |p.payload|;
    && |d| == end + (if auth.Keyed? then 16 else 0)
    && d[0] == 0x45 && d[1] == 0x56 && d[2] == 0x52 && d[3] == 0x54 && d[4] == 3 && d[5] == h.packetType
    && Be16(d, 6) == h.flags && Be32(d, 8) == h.frameId && Be16(d, 12) == h.index && Be16(d, 14) == h.count
    && Be64(d, 16) == h.time && d[24..end] == p.payload
    && (auth.Keyed? ==> d[end..] == auth.mac(d[..end]))
  }

  lemma MagicIs()
    ensures ToBE(MAGIC, 4) == [0x45, 0x56, 0x52, 0x54]
  {
    var m: nat := MAGIC;
    assert ToBE(m, 4) == ToBE(m / 256, 3) + [m % 256];
    assert ToBE(m / 256, 3) == ToBE(m / 256 / 256, 2) + [m / 256 % 256];
    assert ToBE(m / 256 / 256, 2) == ToBE(m / 256 / 256 / 256, 1) + [m / 256 / 256 % 256];
    assert ToBE(m / 256 / 256 / 256, 1) == [] + [m / 256 / 256 / 256 % 256];
  }

  /** Numbers keep their value in the middle of a string. */
  lemma BeInside(s: seq<byte>, at: nat, part: seq<byte>)
    requires at + |part| <= |s| && s[at..at + |part|] == part
    ensures |part| == 2 ==> Be16(s, at) == Be16(part, 0)
    ensures |part| == 4 ==> Be32(s, at) == Be32(part, 0)
    ensures |part| == 8 ==> Be64(s, at) == Be64(part, 0)
  {
    assert forall k :: 0 <= k < |part| ==> s[at + k] == part[k];
  }

  lemma BodyLaidOut(p: Packet)
    ensures LaidOut(BuildPacket(p), p, Plain)
  {
    var h, d := p.header, BuildPacket(p);
    FieldSlices(ToBE(MAGIC, 4), [VERSION, h.packetType], ToBE(h.flags, 2), ToBE(h.frameId, 4),
                ToBE(h.index, 2), ToBE(h.count, 2), ToBE(h.time, 8), p.payload);
    MagicIs();
    assert d[0..4] == [0x45, 0x56, 0x52, 0x54];
    assert d[0] == d[0..4][0] && d[1] == d[0..4][1] && d[2] == d[0..4][2] && d[3] == d[0..4][3];
    BeInside(d, 6, ToBE(h.flags, 2));
    BeInside(d, 8, ToBE(h.frameId, 4));
    BeInside(d, 12, ToBE(h.index, 2));
    BeInside(d, 14, ToBE(h.count, 2));
    BeInside(d, 16, ToBE(h.time, 8));
    Be16Reads(h.flags);
    Be32Reads(h.frameId);
    Be16Reads(h.index);
    Be16Reads(h.count);
    Be64Reads(h.time);
    assert d[24..24 + |p.payload|] == d[24..];
  }

  lemma DatagramLaidOut(p: Packet, auth: Auth)
    ensures LaidOut(Datagram(p, auth), p, auth)
  {
    hide BuildPacket;
    BodyLaidOut(p);
    var body, d := BuildPacket(p), Datagram(p, auth);
    var end := 24 + |p.payload|;
    assert d[..end] == body;
    assert forall k :: 0 <= k < end ==> d[k] == body[k];
    assert d[24..end] == body[24..end];
  }

  /** What a sender builds within the payload limit fits the MTU and is read back unchanged. */
  lemma SendReceive(p: Packet, auth: Auth)
    requires ValidFragment(p.header) && |p.payload| <= MaxPayload(auth)
    ensures var d := BuildAuthenticated(p, auth);
            |d| <= MAX_PACKET_SIZE && ParseAuthenticated(d, |d|, auth) == Some(p)
  {
    var d := BuildAuthenticated(p, auth);
    assert d == Datagram(p, auth);
    assert d[..|d|] == d;
    ParseAuthenticatedExact(d, |d|, auth, p);
  }
}
