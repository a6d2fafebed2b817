/** The grid of 32-pixel tiles over a frame of 4-byte pixels. Positions are given as a row and a byte
    column, so that a full tile is 32 rows of 128 bytes and edge tiles are narrower or lower. */
module TileGrid {
  import opened Bytes

  const TILE_PX: nat := 32
  const ROW_BYTES: nat := 128
  const TILE_BYTES: nat := 4096

  function TilesIn(px: nat): nat {
    (px + TILE_PX - 1) / TILE_PX
  }

  function TileCount(w: nat, h: nat): nat {
    TilesIn(w) * TilesIn(h)
  }

  /** Whether the buffer is a frame of `w` by `h` pixels. */
  predicate IsFrame(frame: seq<byte>, w: nat, h: nat) {
    |frame| == h * (4 * w)
  }

  /** The index of byte column `c` in row `y`. */
  function At(w: nat, y: nat, c: nat): nat {
    y * (4 * w) + c
  }

  lemma MulLe(a: int, b: int, d: nat)
    ensures a <= b ==> a * d <= b * d
  {
    if a <= b {
      assert b * d == a * d + (b - a) * d;
    }
  }

  lemma DivMod(q: nat, d: nat, r: nat)
    requires r < d
    ensures (q * d + r) / d == q && (q * d + r) % d == r
  {
    var x := q * d + r;
    var k := x / d;
    assert x == k * d + x % d;
    MulLe(k + 1, q, d);
    MulLe(q + 1, k, d);
    assert (k + 1) * d == k * d + d && (q + 1) * d == q * d + d;
  }

  /** Row-major indexing with `d` entries per row. */
  lemma RowMajor(y: nat, h: nat, d: nat, c: nat)
    requires y < h && c < d
    ensures y * d + c < h * d
    ensures (y * d + c) / d == y && (y * d + c) % d == c
  {
    MulLe(y + 1, h, d);
    assert (y + 1) * d == y * d + d;
    DivMod(y, d, c);
  }

  lemma RowMajorSplit(p: nat, h: nat, d: nat) returns (y: nat, c: nat)
    requires p < h * d
    ensures d > 0 && y == p / d && c == p % d
    ensures y < h && c < d && y * d + c == p
  {
    assert d > 0;
    y, c := p / d, p % d;
    MulLe(h, y, d);
  }

  lemma AtInFrame(w: nat, h: nat, y: nat, c: nat)
    requires y < h && c < 4 * w
    ensures At(w, y, c) < h * (4 * w)
    ensures At(w, y, c) / (4 * w) == y && At(w, y, c) % (4 * w) == c
  {
    RowMajor(y, h, 4 * w, c);
  }

  /** Every index of a frame is one row and one byte column. */
  lemma SplitIndex(w: nat, h: nat, p: nat) returns (y: nat, c: nat)
    requires p < h * (4 * w)
    ensures y < h && c < 4 * w && At(w, y, c) == p
  {
    y, c := RowMajorSplit(p, h, 4 * w);
  }

  /** The number of bytes in a row, and of rows, of tile `(tx, ty)`. */
  function RowLen(w: nat, tx: nat): int {
    Min(TILE_PX * tx + TILE_PX, w) * 4 - ROW_BYTES * tx
  }

  function RowCount(h: nat, ty: nat): int {
    Min(TILE_PX * ty + TILE_PX, h) - TILE_PX * ty
  }

  lemma TileShape(w: nat, h: nat, tx: nat, ty: nat)
    requires tx < TilesIn(w) && ty < TilesIn(h)
    ensures 0 < RowLen(w, tx) <= ROW_BYTES && RowLen(w, tx) % 4 == 0
    ensures ROW_BYTES * tx + RowLen(w, tx) <= 4 * w
    ensures 0 < RowCount(h, ty) <= TILE_PX && TILE_PX * ty + RowCount(h, ty) <= h
  {
  }

  /** Tiles are numbered row by row. */
  function TileId(w: nat, tx: nat, ty: nat): nat {
    ty * TilesIn(w) + tx
  }

  lemma TileIdSplits(w: nat, h: nat, tx: nat, ty: nat)
    requires tx < TilesIn(w) && ty < TilesIn(h)
    ensures TileId(w, tx, ty) < TileCount(w, h)
    ensures TileId(w, tx, ty) % TilesIn(w) == tx && TileId(w, tx, ty) / TilesIn(w) == ty
  {
    hide TilesIn;
    RowMajor(ty, TilesIn(h), TilesIn(w), tx);
  }

  lemma TileIdJoins(w: nat, h: nat, t: nat)
    requires t < TileCount(w, h)
    ensures TilesIn(w) > 0
    ensures t % TilesIn(w) < TilesIn(w) && t / TilesIn(w) < TilesIn(h)
    ensures TileId(w, t % TilesIn(w), t / TilesIn(w)) == t
  {
    hide TilesIn;
    var ty, tx := RowMajorSplit(t, TilesIn(h), TilesIn(w));
  }

  /** Every position lies in one tile: the tiles partition the frame. */
  lemma TileOfPosition(w: nat, h: nat, y: nat, c: nat)
    requires y < h && c < 4 * w
    ensures var tx, ty := c / ROW_BYTES, y / TILE_PX;
            && tx < TilesIn(w) && ty < TilesIn(h)
            && c % ROW_BYTES < RowLen(w, tx) && y % TILE_PX < RowCount(h, ty)
            && c == ROW_BYTES * tx + c % ROW_BYTES && y == TILE_PX * ty + y % TILE_PX
  {
  }

  lemma PositionOfTile(w: nat, h: nat, tx: nat, ty: nat, q: nat, b: nat)
    requires tx < TilesIn(w) && ty < TilesIn(h) && q < RowCount(h, ty) && b < RowLen(w, tx)
    ensures var y, c := TILE_PX * ty + q, ROW_BYTES * tx + b;
            y < h && c < 4 * w && c / ROW_BYTES == tx && y / TILE_PX == ty && c % ROW_BYTES == b && y % TILE_PX == q
  {
  }

  /** Row `q` of tile `(tx, ty)`; empty beyond the buffer. */
  function TileRow(frame: seq<byte>, w: nat, tx: nat, ty: nat, q: nat): seq<byte> {
    var lo, len := At(w, TILE_PX * ty + q, ROW_BYTES * tx), RowLen(w, tx);
    if 0 <= len && lo + len <= |frame| then frame[lo..lo + len] else []
  }

  lemma RowInFrame(frame: seq<byte>, w: nat, h: nat, tx: nat, ty: nat, q: nat)
    requires IsFrame(frame, w, h) && tx < TilesIn(w) && ty < TilesIn(h) && q < RowCount(h, ty)
    ensures var lo := At(w, TILE_PX * ty + q, ROW_BYTES * tx);
            && 0 < RowLen(w, tx) && lo + RowLen(w, tx) <= |frame|
            && TileRow(frame, w, tx, ty, q) == frame[lo..lo + RowLen(w, tx)]
  {
    hide TilesIn;
    TileShape(w, h, tx, ty);
    RowEnds(w, h, TILE_PX * ty + q, ROW_BYTES * tx, RowLen(w, tx));
  }

  lemma RowEnds(w: nat, h: nat, y: nat, c: nat, len: nat)
    requires y < h && c + len <= 4 * w
    ensures At(w, y, c) + len <= h * (4 * w)
  {
    MulLe(y + 1, h, 4 * w);
    assert (y + 1) * (4 * w) == y * (4 * w) + 4 * w;
  }
}
