/** The first stages of the tile pipeline: reading tiles as 64-byte beats, and finding the dirty ones.
    The FIFOs between the stages are sequences that are pushed at the end and popped at the front. */
module TileStages {
  import opened Bytes
  import opened TileGrid
  import opened TileCodec

  const BEAT: nat := 64

  datatype FrameBeat = FrameBeat(cur: seq<byte>, prev: seq<byte>, last: bool, tileId: nat)
  datatype DirtyResult = DirtyResult(tileId: nat, dirty: bool)

  ghost predicate Frames(cur: seq<byte>, prev: seq<byte>, w: nat, h: nat) {
    IsFrame(cur, w, h) && IsFrame(prev, w, h) && TileCount(w, h) <= 0x1_0000
  }

  // ----- tiles as byte strings

  lemma RowBytes(frame: seq<byte>, w: nat, h: nat, tx: nat, ty: nat, q: nat)
    requires IsFrame(frame, w, h) && tx < TilesIn(w) && ty < TilesIn(h) && q < RowCount(h, ty)
    ensures var row := TileRow(frame, w, tx, ty, q);
            && |row| == RowLen(w, tx)
            && forall b: nat :: b < |row| ==> row[b] == ByteAt(frame, At(w, TILE_PX * ty + q, ROW_BYTES * tx + b))
  {
    RowInFrame(frame, w, h, tx, ty, q);
  }

  /** The first `n` rows of a tile, packed. */
  function TileRows(frame: seq<byte>, w: nat, h: nat, tx: nat, ty: nat, n: nat): (s: seq<byte>)
    requires IsFrame(frame, w, h) && tx < TilesIn(w) && ty < TilesIn(h) && n <= RowCount(h, ty)
    ensures RowLen(w, tx) > 0 && |s| == n * RowLen(w, tx)
  {
    TileShape(w, h, tx, ty);
    if n == 0 then []
    else
      assert n * RowLen(w, tx) == (n - 1) * RowLen(w, tx) + RowLen(w, tx);
      RowInFrame(frame, w, h, tx, ty, n - 1);
      TileRows(frame, w, h, tx, ty, n - 1) + TileRow(frame, w, tx, ty, n - 1)
  }

  lemma {:induction false} TileRowsAt(frame: seq<byte>, w: nat, h: nat, tx: nat, ty: nat, n: nat, q: nat, b: nat)
    requires IsFrame(frame, w, h) && tx < TilesIn(w) && ty < TilesIn(h) && q < n <= RowCount(h, ty)
    requires b < RowLen(w, tx)
    ensures q * RowLen(w, tx) + b < n * RowLen(w, tx)
    ensures TileRows(frame, w, h, tx, ty, n)[q * RowLen(w, tx) + b]
         == ByteAt(frame, At(w, TILE_PX * ty + q, ROW_BYTES * tx + b))
  {
    hide TileRow, At, RowLen, RowCount, TilesIn;
    var len: nat := RowLen(w, tx);
    RowMajor(q, n, len, b);
    RowBytes(frame, w, h, tx, ty, n - 1);
    if q < n - 1 {
      TileRowsAt(frame, w, h, tx, ty, n - 1, q, b);
    }
  }

  /** The packed bytes of tile number `t`. */
  function TileBytes(frame: seq<byte>, w: nat, h: nat, t: nat): (s: seq<byte>)
    requires IsFrame(frame, w, h) && t < TileCount(w, h)
    ensures 0 < |s| <= TILE_BYTES
  {
    TileIdJoins(w, h, t);
    var tx, ty := t % TilesIn(w), t / TilesIn(w);
    TileShape(w, h, tx, ty);
    TileArea(RowCount(h, ty), RowLen(w, tx));
    TileRows(frame, w, h, tx, ty, RowCount(h, ty))
  }

  lemma SameSize(cur: seq<byte>, prev: seq<byte>, w: nat, h: nat, t: nat)
    requires IsFrame(cur, w, h) && IsFrame(prev, w, h) && t < TileCount(w, h)
    ensures |TileBytes(cur, w, h, t)| == |TileBytes(prev, w, h, t)|
  {
  }

  lemma TileArea(rows: nat, len: nat)
    requires 0 < rows <= TILE_PX && 0 < len <= ROW_BYTES
    ensures 0 < rows * len <= TILE_BYTES
  {
    MulLe(rows, TILE_PX, len);
    assert rows * len >= len;
  }

  // ----- beats

  /** The 64 bytes at `off`, zero-padded. */
  function Window(s: seq<byte>, off: nat): (r: seq<byte>)
    ensures |r| == BEAT
    ensures forall i :: 0 <= i < BEAT ==> r[i] == ByteAt(s, off + i)
  {
    seq<byte>(BEAT, i requires 0 <= i < BEAT => ByteAt(s, off + i))
  }

  /** The beats of a tile. */
  function BeatsOf(cur: seq<byte>, prev: seq<byte>, id: nat): (beats: seq<FrameBeat>)
    ensures |beats| == DivCeil(|cur|, BEAT)
    ensures forall k :: 0 <= k < |beats| ==>
      beats[k] == FrameBeat(Window(cur, k * BEAT), Window(prev, k * BEAT), k == |beats| - 1, id)
  {
    var n := DivCeil(|cur|, BEAT);
    seq(n, k requires 0 <= k < n => FrameBeat(Window(cur, k * BEAT), Window(prev, k * BEAT), k == n - 1, id))
  }

  function TileBeats(cur: seq<byte>, prev: seq<byte>, w: nat, h: nat, t: nat): seq<FrameBeat>
    requires IsFrame(cur, w, h) && IsFrame(prev, w, h) && t < TileCount(w, h)
  {
    BeatsOf(TileBytes(cur, w, h, t), TileBytes(prev, w, h, t), t)
  }

  /** The beats of the tiles from number `t` on. */
  function BeatsFrom(cur: seq<byte>, prev: seq<byte>, w: nat, h: nat, t: nat): seq<FrameBeat>
    requires IsFrame(cur, w, h) && IsFrame(prev, w, h) && t <= TileCount(w, h)
    decreases TileCount(w, h) - t
  {
    if t == TileCount(w, h) then []
    else TileBeats(cur, prev, w, h, t) + BeatsFrom(cur, prev, w, h, t + 1)
  }

  /** Gathers a tile row by row into a zero-initialised buffer. */
  method ReadTile(frame: seq<byte>, w: nat, h: nat, tx: nat, ty: nat) returns (tile: seq<byte>, total: nat)
    requires IsFrame(frame, w, h) && tx < TilesIn(w) && ty < TilesIn(h)
    ensures TileId(w, tx, ty) < TileCount(w, h)
    ensures |tile| == TILE_BYTES && total == |TileBytes(frame, w, h, TileId(w, tx, ty))|
    ensures forall i: nat :: i < TILE_BYTES ==> tile[i] == ByteAt(TileBytes(frame, w, h, TileId(w, tx, ty)), i)
  {
    hide TileRow, TilesIn, At;
    TileIdSplits(w, h, tx, ty);
    TileShape(w, h, tx, ty);
    var x0, y0 := tx * TILE_PX, ty * TILE_PX;
    var x1, y1 := Min(x0 + TILE_PX, w), Min(y0 + TILE_PX, h);
    var n: nat := (x1 - x0) * 4;
    tile := seq(TILE_BYTES, _ => 0);
    var off := 0;
    for y := y0 to y1
      invariant |tile| == TILE_BYTES && off == |TileRows(frame, w, h, tx, ty, y - y0)|
      invariant forall i: nat :: i < TILE_BYTES ==> tile[i] == ByteAt(TileRows(frame, w, h, tx, ty, y - y0), i)
    {
      ghost var q := y - y0;
      var row := CopyRow(frame, w, h, tx, ty, y, n);
      TileArea(q + 1, n);
      RowBytes(frame, w, h, tx, ty, q);
      assert |TileRows(frame, w, h, tx, ty, q + 1)| == off + n;
      tile := tile[..off] + row + tile[off + n..];
      off := off + n;
    }
    total := off;
  }

  /** The source's pixel offset, in bytes. */
  lemma SourceOffset(w: nat, y: nat, tx: nat)
    ensures (y * w + tx * TILE_PX) * 4 == At(w, y, ROW_BYTES * tx)
  {
  }

  /** One row of a tile, copied from the frame. */
  method CopyRow(frame: seq<byte>, w: nat, h: nat, tx: nat, ty: nat, y: nat, n: nat) returns (row: seq<byte>)
    requires IsFrame(frame, w, h) && tx < TilesIn(w) && ty < TilesIn(h)
    requires TILE_PX * ty <= y < TILE_PX * ty + RowCount(h, ty) && n == RowLen(w, tx)
    ensures row == TileRow(frame, w, tx, ty, y - TILE_PX * ty)
  {
    RowInFrame(frame, w, h, tx, ty, y - TILE_PX * ty);
    SourceOffset(w, y, tx);
    var start := (y * w + tx * TILE_PX) * 4;
    row := frame[start..start + n];
  }

  /** Stage 1. */
  method FrameReader(cur: seq<byte>, prev: seq<byte>, w: nat, h: nat) returns (out: seq<FrameBeat>)
    requires Frames(cur, prev, w, h)
    ensures out == BeatsFrom(cur, prev, w, h, 0)
  {
    hide BeatsOf, TileBytes, TilesIn, BeatsFrom, ByteAt;
    out := [];
    var tilesX, tilesY := TilesIn(w), TilesIn(h);
    var tileId: u16 := 0;
    ghost var t := 0;
    for ty := 0 to tilesY
      invariant t == ty * tilesX
      invariant t < 0x1_0000 ==> tileId == t
      invariant t <= TileCount(w, h) && out + BeatsFrom(cur, prev, w, h, t) == BeatsFrom(cur, prev, w, h, 0)
    {
      MulLe(ty + 1, tilesY, tilesX);
      assert (ty + 1) * tilesX == ty * tilesX + tilesX;
      for tx := 0 to tilesX
        invariant t == TileId(w, tx, ty)
        invariant t < 0x1_0000 ==> tileId == t
        invariant t <= TileCount(w, h) && out + BeatsFrom(cur, prev, w, h, t) == BeatsFrom(cur, prev, w, h, 0)
      {
        TileIdSplits(w, h, tx, ty);
        SameSize(cur, prev, w, h, t);
        var tileCur, total := ReadTile(cur, w, h, tx, ty);
        var tilePrev, _ := ReadTile(prev, w, h, tx, ty);
        var beats := CutBeats(tileCur, tilePrev, total, tileId, TileBytes(cur, w, h, t), TileBytes(prev, w, h, t));
        NextTile(cur, prev, w, h, t, out);
        out := out + beats;
        tileId := AsU16(tileId + 1);
        t := t + 1;
      }
    }
    EndOfTiles(cur, prev, w, h, out);
  }

  lemma NextTile(cur: seq<byte>, prev: seq<byte>, w: nat, h: nat, t: nat, out: seq<FrameBeat>)
    requires IsFrame(cur, w, h) && IsFrame(prev, w, h) && t < TileCount(w, h)
    ensures out + BeatsFrom(cur, prev, w, h, t)
         == (out + TileBeats(cur, prev, w, h, t)) + BeatsFrom(cur, prev, w, h, t + 1)
  {
  }

  lemma EndOfTiles(cur: seq<byte>, prev: seq<byte>, w: nat, h: nat, out: seq<FrameBeat>)
    requires IsFrame(cur, w, h) && IsFrame(prev, w, h)
    ensures out + BeatsFrom(cur, prev, w, h, TileCount(w, h)) == out
  {
  }

  /** Cuts the gathered tile into beats; the buffers are zero past the tile. */
  method CutBeats(tileCur: seq<byte>, tilePrev: seq<byte>, total: nat, id: nat,
                  ghost cur: seq<byte>, ghost prev: seq<byte>)
    returns (beats: seq<FrameBeat>)
    requires |tileCur| == |tilePrev| == TILE_BYTES && total == |cur| == |prev| <= TILE_BYTES
    requires forall i: nat :: i < TILE_BYTES ==> tileCur[i] == ByteAt(cur, i) && tilePrev[i] == ByteAt(prev, i)
    ensures beats == BeatsOf(cur, prev, id)
  {
    beats := [];
    var n := DivCeil(total, BEAT);
    for k := 0 to n
      invariant |beats| == k
      invariant forall j :: 0 <= j < k ==> beats[j] == BeatsOf(cur, prev, id)[j]
    {
      var off := k * BEAT;
      var len := Min(BEAT, total - off);
      var c := tileCur[off..off + len] + seq(BEAT - len, _ => 0);
      var p := tilePrev[off..off + len] + seq(BEAT - len, _ => 0);
      assert c == Window(cur, off) && p == Window(prev, off);
      beats := beats + [FrameBeat(c, p, k == n - 1, id)];
    }
  }

  // ----- stage 2

  /** The beats of one tile at the front of a FIFO. */
  ghost predicate OneTile(beats: seq<FrameBeat>, id: nat) {
    && beats != []
    && forall k :: 0 <= k < |beats| ==>
         (beats[k].last <==> k == |beats| - 1) && beats[k].tileId == id
         && |beats[k].cur| == |beats[k].prev| == BEAT
  }

  lemma TileBeatsShape(cur: seq<byte>, prev: seq<byte>, w: nat, h: nat, t: nat)
    requires IsFrame(cur, w, h) && IsFrame(prev, w, h) && t < TileCount(w, h)
    ensures OneTile(TileBeats(cur, prev, w, h, t), t)
    ensures BeatsFrom(cur, prev, w, h, t) == TileBeats(cur, prev, w, h, t) + BeatsFrom(cur, prev, w, h, t + 1)
  {
  }

  /** Compares a beat as eight 64-bit words. */
  method BeatDiffers(b: FrameBeat) returns (differs: bool)
    requires |b.cur| == |b.prev| == BEAT
    ensures differs <==> b.cur != b.prev
  {
    differs := false;
    for i := 0 to 8
      invariant differs <==> b.cur[..8 * i] != b.prev[..8 * i]
    {
      assert b.cur[..8 * (i + 1)] == b.cur[..8 * i] + b.cur[8 * i..8 * i + 8];
      assert b.prev[..8 * (i + 1)] == b.prev[..8 * i] + b.prev[8 * i..8 * i + 8];
      if b.cur[8 * i..8 * i + 8] != b.prev[8 * i..8 * i + 8] {
        differs := true;
      }
      assert b.cur[..8 * (i + 1)] == b.prev[..8 * (i + 1)] <==>
             b.cur[..8 * i] == b.prev[..8 * i] && b.cur[8 * i..8 * i + 8] == b.prev[8 * i..8 * i + 8] by {
        SplitEqual(b.cur[..8 * (i + 1)], b.prev[..8 * (i + 1)], 8 * i);
      }
    }
    assert b.cur[..BEAT] == b.cur && b.prev[..BEAT] == b.prev;
  }

  lemma SplitEqual(s: seq<byte>, t: seq<byte>, k: nat)
    requires k <= |s| == |t|
    ensures s == t <==> s[..k] == t[..k] && s[k..] == t[k..]
  {
    assert s == s[..k] + s[k..] && t == t[..k] + t[k..];
  }

  ghost predicate SomeBeatDiffers(beats: seq<FrameBeat>) {
    exists k :: 0 <= k < |beats| && beats[k].cur != beats[k].prev
  }

  /** Moves the beats of one tile from the front of a FIFO to the pass-through FIFO. */
  method PassTile(input: seq<FrameBeat>, ghost beats: seq<FrameBeat>, ghost rest: seq<FrameBeat>, ghost id: nat)
    returns (input': seq<FrameBeat>, passed: seq<FrameBeat>, dirty: bool, tileId: nat)
    requires input == beats + rest && OneTile(beats, id)
    ensures input' == rest && passed == beats && tileId == id
    ensures dirty <==> SomeBeatDiffers(beats)
  {
    input', passed, dirty, tileId := input, [], false, 0;
    var done := false;
    while !done
      invariant |passed| <= |beats| && passed == beats[..|passed|] && input' == beats[|passed|..] + rest
      invariant done <==> |passed| == |beats|
      invariant passed != [] ==> tileId == id
      invariant dirty <==> SomeBeatDiffers(passed)
      decreases |beats| - |passed|
    {
      var b := input'[0];
      assert b == beats[|passed|];
      input' := input'[1..];
      tileId := b.tileId;
      var d := BeatDiffers(b);
      ghost var before := passed;
      passed := passed + [b];
      assert forall k :: 0 <= k < |before| ==> passed[k] == before[k];
      assert passed[|before|] == b;
      if d {
        dirty := true;
      }
      done := b.last;
    }
  }

  /** A tile is dirty exactly when it changed: the zero padding of the last beat never differs. */
  lemma DirtyMeansChanged(cur: seq<byte>, prev: seq<byte>, id: nat)
    requires |cur| == |prev|
    ensures SomeBeatDiffers(BeatsOf(cur, prev, id)) <==> cur != prev
  {
    var beats := BeatsOf(cur, prev, id);
    if cur != prev {
      var i :| 0 <= i < |cur| && cur[i] != prev[i];
      var k := i / BEAT;
      assert 0 <= k < |beats|;
      assert beats[k].cur[i % BEAT] == cur[i] && beats[k].prev[i % BEAT] == prev[i];
    }
  }

  ghost function Dirtiness(cur: seq<byte>, prev: seq<byte>, w: nat, h: nat, n: nat): seq<DirtyResult>
    requires IsFrame(cur, w, h) && IsFrame(prev, w, h) && n <= TileCount(w, h)
  {
    seq(n, t requires 0 <= t < n => DirtyResult(t, TileBytes(cur, w, h, t) != TileBytes(prev, w, h, t)))
  }

  /** Stage 2: passes all beats on and reports which tiles changed. */
  method DirtyDetector(input: seq<FrameBeat>, total: nat, ghost cur: seq<byte>, ghost prev: seq<byte>,
                       ghost w: nat, ghost h: nat)
    returns (pass: seq<FrameBeat>, dirtyOut: seq<DirtyResult>)
    requires Frames(cur, prev, w, h) && total == TileCount(w, h) && input == BeatsFrom(cur, prev, w, h, 0)
    ensures pass == BeatsFrom(cur, prev, w, h, 0)
    ensures dirtyOut == Dirtiness(cur, prev, w, h, total)
  {
    hide BeatsOf, TileBytes, TileBeats, BeatsFrom, SomeBeatDiffers;
    pass, dirtyOut := [], [];
    var fifo := input;
    for t := 0 to total
      invariant fifo == BeatsFrom(cur, prev, w, h, t)
      invariant pass + BeatsFrom(cur, prev, w, h, t) == BeatsFrom(cur, prev, w, h, 0)
      invariant dirtyOut == Dirtiness(cur, prev, w, h, t)
    {
      TileBeatsShape(cur, prev, w, h, t);
      var fifo', passed, dirty, tileId :=
        PassTile(fifo, TileBeats(cur, prev, w, h, t), BeatsFrom(cur, prev, w, h, t + 1), t);
      TileDirty(cur, prev, w, h, t);
      NextTile(cur, prev, w, h, t, pass);
      fifo := fifo';
      pass := pass + passed;
      dirtyOut := dirtyOut + [DirtyResult(tileId, dirty)];
    }
    EndOfTiles(cur, prev, w, h, pass);
  }

  lemma TileDirty(cur: seq<byte>, prev: seq<byte>, w: nat, h: nat, t: nat)
    requires IsFrame(cur, w, h) && IsFrame(prev, w, h) && t < TileCount(w, h)
    ensures SomeBeatDiffers(TileBeats(cur, prev, w, h, t)) <==> TileBytes(cur, w, h, t) != TileBytes(prev, w, h, t)
  {
    SameSize(cur, prev, w, h, t);
    DirtyMeansChanged(TileBytes(cur, w, h, t), TileBytes(prev, w, h, t), t);
  }
}
