/** The last stages of the tile pipeline, and the whole of it: encoding a frame and decoding the packet
    against the same previous frame gives the frame back. */
module TilePipeline {
  import opened Bytes
  import opened XorParity
  import opened TileGrid
  import opened TileCodec
  import opened TileStages
  import opened TileChoice
  import opened TileClassifier

  /** Stage 4: compresses the deltas, in order, into a FIFO of their own. */
  method ZrleStage(input: seq<TilePayload>) returns (tiles: seq<TilePayload>, zs: seq<seq<byte>>)
    requires forall k :: 0 <= k < |input| ==> Writable(input[k])
    ensures tiles == input && Compressed(AsTiles(tiles), zs)
  {
    hide Writable;
    tiles, zs := [], [];
    var fifo := input;
    while fifo != []
      invariant tiles + fifo == input
      invariant forall k :: 0 <= k < |fifo| ==> Writable(fifo[k])
      invariant Compressed(AsTiles(tiles), zs)
    {
      var p := fifo[0];
      fifo := fifo[1..];
      if p.mode == MODE_DELTA {
        WritableDelta(p);
        var z := Zrle.Encode(p.delta);
        CompressedSnoc(tiles, zs, p, [z]);
        zs := zs + [z];
      } else {
        WritableOther(p);
        CompressedSnoc(tiles, zs, p, []);
        assert zs + [] == zs;
      }
      tiles := tiles + [p];
    }
  }

  lemma WritableDelta(p: TilePayload)
    requires Writable(p) && p.mode == MODE_DELTA
    ensures RecordOf(p) == Delta(p.delta) && |p.delta| == TILE_BYTES
  {
  }

  lemma WritableOther(p: TilePayload)
    requires Writable(p) && p.mode != MODE_DELTA
    ensures !RecordOf(p).Delta? && Encodable(RecordOf(p), [])
  {
  }

  lemma {:induction false} CompressedSnoc(tiles: seq<TilePayload>, zs: seq<seq<byte>>, p: TilePayload,
                                          more: seq<seq<byte>>)
    requires Compressed(AsTiles(tiles), zs)
    requires if RecordOf(p).Delta? then
               |more| == 1 && Encodable(RecordOf(p), more[0]) && Zrle.Tight(more[0], RecordOf(p).bytes)
             else more == [] && Encodable(RecordOf(p), [])
    ensures Compressed(AsTiles(tiles + [p]), zs + more)
  {
    hide Encodable, RecordOf;
    var all := AsTiles(tiles + [p]);
    if tiles == [] {
      assert all == [Tile(p.tileId, RecordOf(p))] && all[1..] == [];
      assert zs == [] && zs + more == more;
    } else {
      assert AsTiles(tiles)[1..] == AsTiles(tiles[1..]);
      assert all[1..] == AsTiles(tiles[1..] + [p]) by { assert (tiles + [p])[1..] == tiles[1..] + [p]; }
      if RecordOf(tiles[0]).Delta? {
        CompressedSnoc(tiles[1..], zs[1..], p, more);
        assert (zs + more)[1..] == zs[1..] + more;
      } else {
        CompressedSnoc(tiles[1..], zs, p, more);
      }
    }
  }

  // ----- stage 5

  ghost predicate MapIs(bitmap: seq<byte>, ids: set<nat>) {
    forall t: nat :: t < 8 * |bitmap| ==> (MapBit(bitmap, t) <==> t in ids)
  }

  lemma EmptyMap(n: nat)
    ensures MapIs(Zrle.Zeros(n), {})
  {
    forall t: nat | t < 8 * n ensures !MapBit(Zrle.Zeros(n), t) {
      ZeroHasNoBits(t % 8);
    }
  }

  lemma MapIsStep(bitmap: seq<byte>, ids: set<nat>, t: nat)
    requires MapIs(bitmap, ids) && t < 8 * |bitmap|
    ensures MapIs(SetMapBit(bitmap, t), ids + {t})
  {
    forall u: nat | u < 8 * |bitmap| ensures MapBit(SetMapBit(bitmap, t), u) <==> u in ids + {t} {
      hide MapBit, SetMapBit;
      SetMapBitReads(bitmap, t, u);
    }
  }

  ghost function Ids(tiles: seq<TilePayload>): set<nat> {
    set p | p in tiles :: p.tileId
  }

  lemma NoIds()
    ensures Ids([]) == {}
  {
  }

  lemma IdsSnoc(tiles: seq<TilePayload>, p: TilePayload)
    ensures Ids(tiles + [p]) == Ids(tiles) + {p.tileId}
  {
    forall t | t in Ids(tiles) + {p.tileId} ensures t in Ids(tiles + [p]) {
      var x :| (x in tiles || x == p) && x.tileId == t;
      assert x in tiles + [p];
    }
  }

  /** The bytes of one record, as the writer pushes them. */
  method WriteRecord(p: TilePayload, zs: seq<seq<byte>>) returns (bytes: seq<byte>, zs': seq<seq<byte>>)
    requires Writable(p) && (p.mode == MODE_DELTA ==> zs != [] && |zs[0]| < 0x1_0000_0000)
    ensures p.mode == MODE_DELTA ==> bytes == RecordBytes(RecordOf(p), zs[0]) && zs' == zs[1..]
    ensures p.mode != MODE_DELTA ==> bytes == RecordBytes(RecordOf(p), []) && zs' == zs
  {
    bytes, zs' := [p.mode], zs;
    if p.mode == MODE_SOLID {
      bytes := bytes + ToLE(p.color, 4);
    } else if p.mode == MODE_SCROLL {
      bytes := bytes + [p.dy % 256];
    } else {
      var enc := zs'[0];
      zs' := zs'[1..];
      bytes := bytes + ToLE(|enc|, 4) + enc;
    }
  }

  /** Stage 5: the header, the bitmap of the dirty tiles, and their records. */
  method PacketWriter(input: seq<TilePayload>, zrle: seq<seq<byte>>, total: nat, frameId: u32, w: u32, h: u32)
    returns (out: seq<byte>, ghost bitmap: seq<byte>)
    requires total == TileCount(w, h) <= 0x1_0000
    requires forall k :: 0 <= k < |input| ==> Writable(input[k]) && input[k].tileId < total
    requires Compressed(AsTiles(input), zrle)
    ensures |bitmap| == MapBytes(w, h) < 0x1_0000 && MapIs(bitmap, Ids(input))
    ensures out == Header(frameId, w, h, |bitmap|) + bitmap + Body(AsTiles(input), zrle)
  {
    hide Writable, Compressed, Body, MapIs, SetMapBit, ToLE, RecordBytes, RecordOf, TileCount, Ids;
    var mapBytes := AsU16((total + 7) / 8);
    var header := Header(frameId, w, h, mapBytes);
    bitmap := Zrle.Zeros(mapBytes);
    EmptyMap(mapBytes);
    var mapPos := |header|;
    out := header + Zrle.Zeros(mapBytes);
    ghost var body: seq<byte> := [];
    var tiles, zs := input, zrle;
    ghost var done: seq<TilePayload> := [];
    NoIds();
    while tiles != []
      invariant done + tiles == input
      invariant Compressed(AsTiles(tiles), zs)
      invariant |bitmap| == mapBytes && MapIs(bitmap, Ids(done))
      invariant out == header + bitmap + body && body + Body(AsTiles(tiles), zs) == Body(AsTiles(input), zrle)
    {
      assert input[|done|] == tiles[0];
      var p := tiles[0];
      out, zs, bitmap, body := WriteTile(out, mapPos, tiles, zs, header, bitmap, body, Ids(done),
                                         Body(AsTiles(input), zrle));
      IdsSnoc(done, p);
      done := done + [p];
      tiles := tiles[1..];
    }
    LastTile(zs);
    assert done == input;
    assert body + [] == body;
  }

  /** Pops one tile: marks it in the bitmap and appends its record. */
  method WriteTile(out: seq<byte>, mapPos: nat, tiles: seq<TilePayload>, zs: seq<seq<byte>>,
                   ghost header: seq<byte>, ghost bitmap: seq<byte>, ghost body: seq<byte>, ghost ids: set<nat>,
                   ghost all: seq<byte>)
    returns (out': seq<byte>, zs': seq<seq<byte>>, ghost bitmap': seq<byte>, ghost body': seq<byte>)
    requires tiles != [] && Writable(tiles[0]) && Compressed(AsTiles(tiles), zs)
    requires tiles[0].tileId < 8 * |bitmap| && MapIs(bitmap, ids)
    requires out == header + bitmap + body && mapPos == |header| && body + Body(AsTiles(tiles), zs) == all
    ensures Compressed(AsTiles(tiles[1..]), zs')
    ensures |bitmap'| == |bitmap| && MapIs(bitmap', ids + {tiles[0].tileId})
    ensures out' == header + bitmap' + body' && body' + Body(AsTiles(tiles[1..]), zs') == all
  {
    hide Writable, Compressed, Body, MapIs, RecordBytes, RecordOf;
    var p := tiles[0];
    BodyStep(tiles, zs);
    MapIsStep(bitmap, ids, p.tileId);
    out' := MarkDirty(out, mapPos, p.tileId, header, bitmap, body);
    bitmap' := SetMapBit(bitmap, p.tileId);
    var bytes;
    bytes, zs' := WriteRecord(p, zs);
    body' := body + bytes;
    assert (header + bitmap' + body) + bytes == header + bitmap' + body';
    assert body' + Body(AsTiles(tiles[1..]), zs') == body + (bytes + Body(AsTiles(tiles[1..]), zs'));
    out' := out' + bytes;
  }

  /** `out[pos] |= 1 << bit` inside the bitmap part of the packet. */
  method MarkDirty(out: seq<byte>, mapPos: nat, id: nat, ghost header: seq<byte>, ghost bitmap: seq<byte>,
                   ghost body: seq<byte>)
    returns (out': seq<byte>)
    requires out == header + bitmap + body && mapPos == |header| && id / 8 < |bitmap|
    ensures out' == header + SetMapBit(bitmap, id) + body
  {
    var pos := mapPos + id / 8;
    assert out[pos] == bitmap[id / 8];
    Pow2Values();
    SetBitFits(out[pos], id % 8, 8);
    out' := out[pos := SetBit(out[pos], id % 8)];
  }

  lemma BodyStep(tiles: seq<TilePayload>, zs: seq<seq<byte>>)
    requires tiles != [] && Compressed(AsTiles(tiles), zs) && Writable(tiles[0])
    ensures var p := tiles[0];
            && (p.mode == MODE_DELTA ==>
                  zs != [] && |zs[0]| < 0x1_0000_0000 && Compressed(AsTiles(tiles[1..]), zs[1..])
                  && Body(AsTiles(tiles), zs) == RecordBytes(RecordOf(p), zs[0]) + Body(AsTiles(tiles[1..]), zs[1..]))
            && (p.mode != MODE_DELTA ==>
                  Compressed(AsTiles(tiles[1..]), zs)
                  && Body(AsTiles(tiles), zs) == RecordBytes(RecordOf(p), []) + Body(AsTiles(tiles[1..]), zs))
  {
    assert AsTiles(tiles)[1..] == AsTiles(tiles[1..]);
  }

  lemma LastTile(zs: seq<seq<byte>>)
    ensures Body(AsTiles([]), zs) == []
  {
  }

  // ----- the whole pipeline

  lemma MarkedTiles(recs: seq<Option<Record>>, out: seq<TilePayload>)
    requires AsTiles(out) == TilesFrom(recs, 0)
    ensures forall k :: 0 <= k < |out| ==> out[k].tileId < |recs| && recs[out[k].tileId] == Some(RecordOf(out[k]))
    ensures forall t: nat :: t < |recs| && recs[t].Some? ==> t in Ids(out)
    ensures forall t: nat :: t < |recs| && recs[t].None? ==> t !in Ids(out)
  {
    hide RecordOf;
    var tiles := TilesFrom(recs, 0);
    TilesFromMembers(recs, 0);
    forall k | 0 <= k < |out| ensures out[k].tileId < |recs| && recs[out[k].tileId] == Some(RecordOf(out[k])) {
      assert tiles[k] in tiles;
    }
    forall t: nat | t < |recs| && recs[t].Some? ensures t in Ids(out) {
      var k :| 0 <= k < |tiles| && tiles[k] == Tile(t, recs[t].value);
      assert out[k] in out;
    }
  }

  lemma {:induction false} TilesFromMembers(recs: seq<Option<Record>>, id: nat)
    requires id <= |recs|
    ensures forall x :: x in TilesFrom(recs, id) ==> id <= x.id < |recs| && recs[x.id] == Some(x.rec)
    ensures forall t: nat :: id <= t < |recs| && recs[t].Some? ==> Tile(t, recs[t].value) in TilesFrom(recs, id)
    decreases |recs| - id
  {
    if id < |recs| {
      TilesFromMembers(recs, id + 1);
    }
  }

  lemma AllTilesRestored(recs: seq<Option<Record>>, out: seq<TilePayload>, cur: seq<byte>, prev: seq<byte>,
                         w: nat, h: nat)
    requires |recs| == TileCount(w, h) && Classified(recs, out, cur, prev, w, h)
    ensures forall tx: nat, ty: nat :: tx < TilesIn(w) && ty < TilesIn(h) ==>
      TileId(w, tx, ty) < |recs| && Restores(recs[TileId(w, tx, ty)], cur, prev, w, h, tx, ty)
  {
    forall tx: nat, ty: nat | tx < TilesIn(w) && ty < TilesIn(h)
      ensures TileId(w, tx, ty) < |recs| && Restores(recs[TileId(w, tx, ty)], cur, prev, w, h, tx, ty)
    {
      hide Restores, TilesIn, TileId, TileCount;
      TileIdSplits(w, h, tx, ty);
      assert RestoresTile(recs[TileId(w, tx, ty)], cur, prev, w, h, TileId(w, tx, ty));
    }
  }

  lemma AllTilesChosen(recs: seq<Option<Record>>, out: seq<TilePayload>, cur: seq<byte>, prev: seq<byte>,
                       w: nat, h: nat)
    requires |recs| == TileCount(w, h) && Classified(recs, out, cur, prev, w, h)
    ensures AllChosen(recs, cur, prev, w, h)
  {
    forall tx: nat, ty: nat | tx < TilesIn(w) && ty < TilesIn(h)
      ensures TileId(w, tx, ty) < |recs| && Chosen(recs[TileId(w, tx, ty)], cur, prev, w, h, tx, ty)
    {
      hide Chosen, TilesIn, TileId, TileCount;
      TileIdSplits(w, h, tx, ty);
      assert ChosenTile(recs[TileId(w, tx, ty)], cur, prev, w, h, TileId(w, tx, ty));
    }
  }

  /** Every tile has the record that the two frames call for. */
  ghost predicate AllChosen(recs: seq<Option<Record>>, cur: seq<byte>, prev: seq<byte>, w: nat, h: nat) {
    forall tx: nat, ty: nat :: tx < TilesIn(w) && ty < TilesIn(h) ==>
      TileId(w, tx, ty) < |recs| && Chosen(recs[TileId(w, tx, ty)], cur, prev, w, h, tx, ty)
  }

  lemma ClassifiedFacts(recs: seq<Option<Record>>, out: seq<TilePayload>, cur: seq<byte>, prev: seq<byte>,
                        w: nat, h: nat)
    requires |recs| == TileCount(w, h) && Classified(recs, out, cur, prev, w, h)
    ensures forall k :: 0 <= k < |out| ==> Writable(out[k]) && out[k].tileId < TileCount(w, h)
    ensures AsTiles(out) == TilesFrom(recs, 0)
    ensures forall t: nat :: t < |recs| ==> (recs[t].Some? <==> t in Ids(out))
  {
    hide RestoresTile, ChosenTile, Writable, TilesFrom;
    MarkedTiles(recs, out);
  }

  lemma BitmapMatches(bitmap: seq<byte>, recs: seq<Option<Record>>, out: seq<TilePayload>)
    requires MapIs(bitmap, Ids(out)) && |recs| <= 8 * |bitmap|
    requires forall t: nat :: t < |recs| ==> (recs[t].Some? <==> t in Ids(out))
    ensures forall t: nat :: t < |recs| ==> (MapBit(bitmap, t) <==> recs[t].Some?)
  {
    hide MapBit, Ids;
  }

  /** The pipeline is lossless: for any two frames of at most 65536 tiles, edge tiles included, decoding
      the packet against the previous frame yields the current frame. The packet says of each tile what the two
      frames call for, and after header and bitmap holds these records and nothing else, each delta in its tightest
      form. */
  method EncodeFrame(cur: seq<byte>, prev: seq<byte>, w: u32, h: u32, frameId: u32)
    returns (pkt: seq<byte>, ghost zs: seq<seq<byte>>)
    requires IsFrame(cur, w, h) && IsFrame(prev, w, h) && TileCount(w, h) <= 0x1_0000
    ensures Decode(pkt, prev) == Some((frameId, cur))
    ensures Records(pkt).Some? && AllChosen(Records(pkt).value, cur, prev, w, h)
    ensures PacketLaidOut(pkt, frameId, w, h, Records(pkt).value)
    ensures var dirty := TilesFrom(Records(pkt).value, 0);
            Compressed(dirty, zs) && 20 + MapBytes(w, h) <= |pkt| && pkt[20 + MapBytes(w, h)..] == Body(dirty, zs)
  {
    hide BeatsFrom, Dirtiness, Classified, Writable, Compressed, MapIs, Body, Decode, Records, AllChosen, PacketLaidOut,
      MapBit, Ids, TileCount, AsTiles, TilesFrom, Restores, TileId, TilesIn;
    var total := TilesIn(w) * TilesIn(h);
    assert total == TileCount(w, h) by { CountIs(w, h); }
    var raw := FrameReader(cur, prev, w, h);
    var pass, dirty := DirtyDetector(raw, total, cur, prev, w, h);
    var classified, recs := Classifier(pass, dirty, cur, prev, w, h, total);
    ClassifiedFacts(recs, classified, cur, prev, w, h);
    var tiles, queue := ZrleStage(classified);
    zs := queue;
    ghost var bitmap;
    pkt, bitmap := PacketWriter(tiles, queue, total, frameId, w, h);
    BitmapMatches(bitmap, recs, classified);
    AllTilesRestored(recs, classified, cur, prev, w, h);
    AllTilesChosen(recs, classified, cur, prev, w, h);
    PacketRoundTrip(frameId, w, h, bitmap, recs, zs, cur, prev);
    HeaderLaidOut(frameId, w, h, bitmap, Body(TilesFrom(recs, 0), zs), recs);
    assert pkt[20 + |bitmap|..] == Body(TilesFrom(recs, 0), zs);
  }

  lemma CountIs(w: nat, h: nat)
    ensures TilesIn(w) * TilesIn(h) == TileCount(w, h)
  {
  }
}
