/** The tile packet: header, dirty bitmap and one record per dirty tile, and a decoder for it. */
module TileCodec {
  import opened Bytes
  import opened XorParity
  import opened TileGrid
  import Zrle

  const MODE_SOLID: byte := 1
  const MODE_DELTA: byte := 2
  const MODE_SCROLL: byte := 3

  /** What a record says about a tile: one XOR pixel, a vertical shift of the previous frame, or the XOR
      with the previous frame. */
  datatype Record = Solid(color: seq<byte>) | Scroll(dy: int) | Delta(bytes: seq<byte>)

  function ByteAt(s: seq<byte>, i: int): byte {
    if 0 <= i < |s| then s[i] else 0
  }

  /** The decoded byte in row `q`, byte column `b` of a tile. It depends on the previous frame only. */
  function TileValue(rec: Option<Record>, prev: seq<byte>, w: nat, tx: nat, ty: nat, q: nat, b: nat): byte {
    var y, c := TILE_PX * ty + q, ROW_BYTES * tx + b;
    match rec
    case None => ByteAt(prev, At(w, y, c))
    case Some(Solid(color)) => XorByte(ByteAt(prev, At(w, y, c)), ByteAt(color, b % 4))
    case Some(Scroll(dy)) => ByteAt(prev, (y + dy) * (4 * w) + c)
    case Some(Delta(bytes)) => XorByte(ByteAt(prev, At(w, y, c)), ByteAt(bytes, q * RowLen(w, tx) + b))
  }

  /** Decoding a tile with this record gives the tile of `cur`. */
  ghost predicate Restores(rec: Option<Record>, cur: seq<byte>, prev: seq<byte>, w: nat, h: nat, tx: nat, ty: nat) {
    forall q: nat, b: nat :: q < RowCount(h, ty) && b < RowLen(w, tx) ==>
      TileValue(rec, prev, w, tx, ty, q, b) == ByteAt(cur, At(w, TILE_PX * ty + q, ROW_BYTES * tx + b))
  }

  /** The decoded value at row `y`, byte column `c`. */
  function DecodedAt(recs: seq<Option<Record>>, prev: seq<byte>, w: nat, y: nat, c: nat): byte {
    var tx, ty := c / ROW_BYTES, y / TILE_PX;
    var t := TileId(w, tx, ty);
    TileValue(if t < |recs| then recs[t] else None, prev, w, tx, ty, y % TILE_PX, c % ROW_BYTES)
  }

  /** The decoded frame. */
  function Apply(recs: seq<Option<Record>>, prev: seq<byte>, w: nat, h: nat): (frame: seq<byte>)
    ensures |frame| == h * (4 * w)
  {
    seq(h * (4 * w), p requires 0 <= p < h * (4 * w) =>
      DecodedAt(recs, prev, w, RowOf(p, h, w), ColumnOf(p, h, w)))
  }

  function RowOf(p: nat, h: nat, w: nat): nat
    requires p < h * (4 * w)
  {
    RowMajorPositive(p, h, 4 * w);
    p / (4 * w)
  }

  function ColumnOf(p: nat, h: nat, w: nat): nat
    requires p < h * (4 * w)
  {
    RowMajorPositive(p, h, 4 * w);
    p % (4 * w)
  }

  lemma RowMajorPositive(p: nat, h: nat, d: nat)
    requires p < h * d
    ensures d > 0
  {
  }

  lemma RowColumn(w: nat, h: nat, y: nat, c: nat)
    requires y < h && c < 4 * w
    ensures At(w, y, c) < h * (4 * w)
    ensures RowOf(At(w, y, c), h, w) == y && ColumnOf(At(w, y, c), h, w) == c
  {
    AtInFrame(w, h, y, c);
  }

  /** If every record restores its tile, decoding restores the frame. */
  lemma ApplyRestores(recs: seq<Option<Record>>, cur: seq<byte>, prev: seq<byte>, w: nat, h: nat)
    requires IsFrame(cur, w, h) && |recs| == TileCount(w, h)
    requires forall tx: nat, ty: nat :: tx < TilesIn(w) && ty < TilesIn(h) ==>
      TileId(w, tx, ty) < |recs| && Restores(recs[TileId(w, tx, ty)], cur, prev, w, h, tx, ty)
    ensures Apply(recs, prev, w, h) == cur
  {
    forall p | 0 <= p < |cur| ensures Apply(recs, prev, w, h)[p] == cur[p] {
      hide TileValue, RowLen, RowCount, TilesIn, TileId, At, RowOf, ColumnOf;
      var y, c := SplitIndex(w, h, p);
      RowColumn(w, h, y, c);
      TileOfPosition(w, h, y, c);
      var tx, ty := c / ROW_BYTES, y / TILE_PX;
      assert Restores(recs[TileId(w, tx, ty)], cur, prev, w, h, tx, ty);
    }
  }

  // ----- records

  function SignedByte(b: byte): int {
    if b >= 128 then b - 256 else b
  }

  /** A record on the wire; `z` is the compressed form of a delta. */
  function RecordBytes(rec: Record, z: seq<byte>): seq<byte> {
    match rec
    case Solid(color) => [MODE_SOLID] + color
    case Scroll(dy) => [MODE_SCROLL, dy % 256]
    case Delta(_) => [MODE_DELTA] + ToLE(|z|, 4) + z
  }

  ghost predicate Encodable(rec: Record, z: seq<byte>) {
    match rec
    case Solid(color) => |color| == 4
    case Scroll(dy) => -128 <= dy < 128
    case Delta(bytes) => |bytes| == TILE_BYTES && Zrle.Decode(z) == Some(bytes) && |z| < 0x1_0000_0000
  }

  function ParseRecord(s: seq<byte>): (r: Option<(Record, seq<byte>)>)
    ensures r.Some? ==> |r.value.1| < |s|
  {
    if s == [] then None
    else if s[0] == MODE_SOLID then
      if |s| < 5 then None else Some((Solid(s[1..5]), s[5..]))
    else if s[0] == MODE_SCROLL then
      if |s| < 2 then None else Some((Scroll(SignedByte(s[1])), s[2..]))
    else if s[0] == MODE_DELTA then
      if |s| < 5 then None
      else
        var n := FromLE(s[1..5]);
        if |s| < 5 + n then None
        else
          var bytes := Zrle.Decode(s[5..5 + n]);
          if bytes.None? || |bytes.value| != TILE_BYTES then None
          else Some((Delta(bytes.value), s[5 + n..]))
    else None
  }

  lemma RecordRoundTrip(rec: Record, z: seq<byte>, rest: seq<byte>)
    requires Encodable(rec, z)
    ensures ParseRecord(RecordBytes(rec, z) + rest) == Some((rec, rest))
  {
    hide Zrle.Decode;
    var s := RecordBytes(rec, z) + rest;
    match rec {
      case Solid(color) =>
        assert s[1..5] == color && s[5..] == rest;
      case Scroll(dy) =>
        assert s[2..] == rest;
      case Delta(bytes) =>
        Widths();
        LERoundTrip(|z|, 4);
        assert s[1..5] == ToLE(|z|, 4);
        assert s[5..5 + |z|] == z && s[5 + |z|..] == rest;
    }
  }

  /** The records on the wire: tag 1 and four bytes of colour; tag 3 and a signed byte of shift, positive for rows
      further down; tag 2, a length of four bytes, the low one first, and the compressed delta. */
  lemma RecordReads(color: seq<byte>, dy: byte, z: seq<byte>, len: seq<byte>, rest: seq<byte>)
    ensures |color| == 4 ==> ParseRecord([1] + color + rest) == Some((Solid(color), rest))
    ensures ParseRecord([3, dy] + rest) == Some((Scroll(if dy < 128 then dy else dy - 256), rest))
    ensures |len| == 4 && Le32(len, 0) == |z| && Zrle.Decode(z).Some? && |Zrle.Decode(z).value| == 4096 ==>
              ParseRecord([2] + len + z + rest) == Some((Delta(Zrle.Decode(z).value), rest))
    ensures forall tag: byte :: tag == 0 || tag > 3 ==> ParseRecord([tag] + rest).None?
  {
    hide Zrle.Decode;
    if |color| == 4 {
      var s := [1] + color + rest;
      assert s[1..5] == color && s[5..] == rest;
    }
    var t := [3, dy] + rest;
    assert t[2..] == rest;
    if |len| == 4 && Le32(len, 0) == |z| {
      var u := [2] + len + z + rest;
      assert u[1..5] == len && u[5..5 + |z|] == z && u[5 + |z|..] == rest;
      LEBytes(len);
      Widths();
      Le32Reads(FromLE(len));
    }
  }

  // ----- the bitmap

  /** `b | (1 << k)` */
  function SetBit(b: nat, k: nat): nat {
    if k == 0 then (if b % 2 == 1 then b else b + 1) else 2 * SetBit(b / 2, k - 1) + b % 2
  }

  lemma {:induction false} SetBitReads(b: nat, k: nat, j: nat)
    ensures Bit(SetBit(b, k), j) <==> j == k || Bit(b, j)
    decreases k
  {
    if k > 0 {
      assert SetBit(b, k) / 2 == SetBit(b / 2, k - 1) && SetBit(b, k) % 2 == b % 2;
      if j > 0 {
        SetBitReads(b / 2, k - 1, j - 1);
      }
    } else {
      assert SetBit(b, 0) / 2 == b / 2;
    }
  }

  lemma {:induction false} SetBitFits(b: nat, k: nat, m: nat)
    requires k < m && b < Pow2(m)
    ensures SetBit(b, k) < Pow2(m)
  {
    hide Pow2;
    Pow2Step(m);
    if k > 0 {
      assert SetBit(b, k) == 2 * SetBit(b / 2, k - 1) + b % 2;
      SetBitFits(b / 2, k - 1, m - 1);
    }
  }

  lemma Pow2Step(m: nat)
    requires m > 0
    ensures Pow2(m) == 2 * Pow2(m - 1)
  {
  }

  lemma {:induction false} ZeroHasNoBits(k: nat)
    ensures !Bit(0, k)
  {
    if k > 0 {
      ZeroHasNoBits(k - 1);
    }
  }

  predicate MapBit(bitmap: seq<byte>, t: nat) {
    t / 8 < |bitmap| && Bit(bitmap[t / 8], t % 8)
  }

  function SetMapBit(bitmap: seq<byte>, t: nat): seq<byte>
    requires t / 8 < |bitmap|
  {
    Pow2Values();
    SetBitFits(bitmap[t / 8], t % 8, 8);
    bitmap[t / 8 := SetBit(bitmap[t / 8], t % 8)]
  }

  lemma SetMapBitReads(bitmap: seq<byte>, t: nat, u: nat)
    requires t / 8 < |bitmap|
    ensures MapBit(SetMapBit(bitmap, t), u) <==> u == t || MapBit(bitmap, u)
  {
    hide Bit, SetBit;
    if u / 8 == t / 8 {
      SetBitReads(bitmap[t / 8], t % 8, u % 8);
    }
  }

  // ----- the packet

  datatype Tile = Tile(id: nat, rec: Record)

  /** The dirty tiles from number `id` on, in order. */
  function TilesFrom(recs: seq<Option<Record>>, id: nat): seq<Tile>
    requires id <= |recs|
    decreases |recs| - id
  {
    if id == |recs| then []
    else if recs[id].Some? then [Tile(id, recs[id].value)] + TilesFrom(recs, id + 1)
    else TilesFrom(recs, id + 1)
  }

  /** The records of a list of tiles; the deltas take their compressed form from the queue `zs`. */
  function Body(tiles: seq<Tile>, zs: seq<seq<byte>>): seq<byte> {
    if tiles == [] then []
    else if tiles[0].rec.Delta? && zs != [] then RecordBytes(tiles[0].rec, zs[0]) + Body(tiles[1..], zs[1..])
    else RecordBytes(tiles[0].rec, []) + Body(tiles[1..], zs)
  }

  /** The queue holds the compressed form of each delta, in order, and nothing else. */
  ghost predicate Compressed(tiles: seq<Tile>, zs: seq<seq<byte>>) {
    if tiles == [] then zs == []
    else if tiles[0].rec.Delta? then
      && zs != [] && Encodable(tiles[0].rec, zs[0]) && Zrle.Tight(zs[0], tiles[0].rec.bytes)
      && Compressed(tiles[1..], zs[1..])
    else Encodable(tiles[0].rec, []) && Compressed(tiles[1..], zs)
  }

  function ParseRecords(s: seq<byte>, bitmap: seq<byte>, id: nat, total: nat): Option<seq<Option<Record>>>
    requires id <= total
    decreases total - id
  {
    if id == total then (if s == [] then Some([]) else None)
    else if !MapBit(bitmap, id) then
      var rest := ParseRecords(s, bitmap, id + 1, total);
      if rest.None? then None else Some([None] + rest.value)
    else
      var first := ParseRecord(s);
      if first.None? then None
      else
        var rest := ParseRecords(first.value.1, bitmap, id + 1, total);
        if rest.None? then None else Some([Some(first.value.0)] + rest.value)
  }

  lemma {:induction false} BodyRoundTrip(recs: seq<Option<Record>>, id: nat, zs: seq<seq<byte>>, bitmap: seq<byte>)
    requires id <= |recs| && Compressed(TilesFrom(recs, id), zs)
    requires forall t: nat :: t < |recs| ==> (MapBit(bitmap, t) <==> recs[t].Some?)
    ensures ParseRecords(Body(TilesFrom(recs, id), zs), bitmap, id, |recs|) == Some(recs[id..])
    decreases |recs| - id
  {
    hide MapBit, ParseRecord, RecordBytes;
    if id < |recs| {
      var tiles := TilesFrom(recs, id);
      assert recs[id..] == [recs[id]] + recs[id + 1..];
      if recs[id].Some? {
        assert tiles[1..] == TilesFrom(recs, id + 1);
        var rec := recs[id].value;
        var z, zs' := if rec.Delta? then zs[0] else [], if rec.Delta? then zs[1..] else zs;
        BodyRoundTrip(recs, id + 1, zs', bitmap);
        RecordRoundTrip(rec, z, Body(tiles[1..], zs'));
      } else {
        BodyRoundTrip(recs, id + 1, zs, bitmap);
      }
    }
  }

  /** The 20 header bytes: magic, version 2, flags, frame number, size, length of the bitmap. */
  function Header(frameId: u32, w: u32, h: u32, mapBytes: u16): (s: seq<byte>)
    ensures |s| == 20
  {
    [69, 86, 67, 75, 2, 0] + ToLE(frameId, 4) + ToLE(w, 4) + ToLE(h, 4) + ToLE(mapBytes, 2)
  }

  function MapBytes(w: nat, h: nat): nat {
    (TileCount(w, h) + 7) / 8
  }

  /** What a packet says of each tile. */
  function Records(pkt: seq<byte>): Option<seq<Option<Record>>> {
    if |pkt| < 20 || pkt[..6] != [69, 86, 67, 75, 2, 0] then None
    else
      var w, h, mapBytes := FromLE(pkt[10..14]), FromLE(pkt[14..18]), FromLE(pkt[18..20]);
      if mapBytes != MapBytes(w, h) || |pkt| < 20 + mapBytes then None
      else ParseRecords(pkt[20 + mapBytes..], pkt[20..20 + mapBytes], 0, TileCount(w, h))
  }

  /** The decoder: the frame number and the frame, given the previous frame. */
  function Decode(pkt: seq<byte>, prev: seq<byte>): Option<(nat, seq<byte>)> {
    var recs := Records(pkt);
    if recs.None? || |pkt| < 20 then None
    else
      var frameId, w, h := FromLE(pkt[6..10]), FromLE(pkt[10..14]), FromLE(pkt[14..18]);
      if |prev| != h * (4 * w) then None else Some((frameId, Apply(recs.value, prev, w, h)))
  }

  /** The packet up to its records: "EVCK", version 2, no flags, then frame number, width, height and the length of the
      bitmap, low bytes first, and from byte 20 on one bit for each tile that has a record, the low bit of the first
      byte for tile 0. */
  ghost predicate PacketLaidOut(pkt: seq<byte>, frameId: nat, w: nat, h: nat, recs: seq<Option<Record>>) {
    var mapBytes := (((w + 31) / 32) * ((h + 31) / 32) + 7) / 8;
    && |pkt| >= 20 + mapBytes && pkt[0..6] == [69, 86, 67, 75, 2, 0]
    && Le32(pkt, 6) == frameId && Le32(pkt, 10) == w && Le32(pkt, 14) == h && Le16(pkt, 18) == mapBytes
    && forall t: nat :: t < |recs| ==> t / 8 < mapBytes && (Bit(pkt[20 + t / 8], t % 8) <==> recs[t].Some?)
  }

  lemma LeInside(s: seq<byte>, at: nat, part: seq<byte>)
    requires at + |part| <= |s| && s[at..at + |part|] == part
    ensures |part| == 2 ==> Le16(s, at) == Le16(part, 0)
    ensures |part| == 4 ==> Le32(s, at) == Le32(part, 0)
  {
    assert forall k :: 0 <= k < |part| ==> s[at + k] == part[k];
  }

  lemma HeaderLaidOut(frameId: u32, w: u32, h: u32, bitmap: seq<byte>, body: seq<byte>, recs: seq<Option<Record>>)
    requires |bitmap| == MapBytes(w, h) < 0x1_0000 && |recs| == TileCount(w, h)
    requires forall t: nat :: t < |recs| ==> (MapBit(bitmap, t) <==> recs[t].Some?)
    ensures PacketLaidOut(Header(frameId, w, h, |bitmap|) + bitmap + body, frameId, w, h, recs)
  {
    hide Bit, ToLE;
    var pkt := Header(frameId, w, h, |bitmap|) + bitmap + body;
    HeaderSlices([69, 86, 67, 75, 2, 0], ToLE(frameId, 4), ToLE(w, 4), ToLE(h, 4), ToLE(|bitmap|, 2), bitmap, body);
    LeInside(pkt, 6, ToLE(frameId, 4));
    LeInside(pkt, 10, ToLE(w, 4));
    LeInside(pkt, 14, ToLE(h, 4));
    LeInside(pkt, 18, ToLE(|bitmap|, 2));
    Le32Reads(frameId);
    Le32Reads(w);
    Le32Reads(h);
    Le16Reads(|bitmap|);
    forall t: nat | t < |recs| ensures t / 8 < |bitmap| && pkt[20 + t / 8] == bitmap[t / 8] {
      assert pkt[20..20 + |bitmap|] == bitmap;
      assert pkt[20..20 + |bitmap|][t / 8] == pkt[20 + t / 8];
    }
  }

  lemma HeaderSlices(a: seq<byte>, b: seq<byte>, c: seq<byte>, d: seq<byte>, e: seq<byte>, f: seq<byte>, g: seq<byte>)
    requires |a| == 6 && |b| == 4 && |c| == 4 && |d| == 4 && |e| == 2
    ensures var s := a + b + c + d + e + f + g;
            && s[..6] == a && s[6..10] == b && s[10..14] == c && s[14..18] == d && s[18..20] == e
            && s[20..20 + |f|] == f && s[20 + |f|..] == g
  {
  }

  /** A packet whose records restore their tiles decodes to the current frame. */
  lemma PacketRoundTrip(frameId: u32, w: u32, h: u32, bitmap: seq<byte>, recs: seq<Option<Record>>,
                        zs: seq<seq<byte>>, cur: seq<byte>, prev: seq<byte>)
    requires IsFrame(cur, w, h) && IsFrame(prev, w, h)
    requires |recs| == TileCount(w, h) && |bitmap| == MapBytes(w, h) < 0x1_0000
    requires Compressed(TilesFrom(recs, 0), zs)
    requires forall t: nat :: t < |recs| ==> (MapBit(bitmap, t) <==> recs[t].Some?)
    requires forall tx: nat, ty: nat :: tx < TilesIn(w) && ty < TilesIn(h) ==>
      TileId(w, tx, ty) < |recs| && Restores(recs[TileId(w, tx, ty)], cur, prev, w, h, tx, ty)
    ensures var pkt := Header(frameId, w, h, |bitmap|) + bitmap + Body(TilesFrom(recs, 0), zs);
            Records(pkt) == Some(recs) && Decode(pkt, prev) == Some((frameId, cur))
  {
    hide ParseRecords, Apply, Body, TilesFrom, Compressed, MapBit, Restores, MapBytes, TileCount, TileId, ToLE, FromLE;
    var body := Body(TilesFrom(recs, 0), zs);
    HeaderSlices([69, 86, 67, 75, 2, 0], ToLE(frameId, 4), ToLE(w, 4), ToLE(h, 4), ToLE(|bitmap|, 2), bitmap, body);
    Widths();
    LERoundTrip(frameId, 4);
    LERoundTrip(w, 4);
    LERoundTrip(h, 4);
    LERoundTrip(|bitmap|, 2);
    BodyRoundTrip(recs, 0, zs, bitmap);
    assert recs[0..] == recs;
    ApplyRestores(recs, cur, prev, w, h);
  }

  lemma {:induction false} TilesFromSnoc(recs: seq<Option<Record>>, r: Option<Record>, id: nat)
    requires id <= |recs|
    ensures TilesFrom(recs + [r], id)
         == TilesFrom(recs, id) + (if r.Some? then [Tile(|recs|, r.value)] else [])
    decreases |recs| - id
  {
    if id < |recs| {
      TilesFromSnoc(recs, r, id + 1);
    }
  }
}
