/** Which record a tile gets, in terms of the two frames alone: nothing for an unchanged tile, one pixel where all
    pixels changed alike, a shift where the tile moved by at most 32 rows, and its XOR otherwise. */
module TileChoice {
  import opened Bytes
  import opened XorParity
  import opened TileGrid
  import opened ScrollOrder
  import opened TileCodec
  import opened TileStages

  /** The byte of a frame at a position of a tile. */
  function FrameAt(frame: seq<byte>, w: nat, tx: nat, ty: nat, q: nat, b: nat): byte {
    ByteAt(frame, At(w, TILE_PX * ty + q, ROW_BYTES * tx + b))
  }

  /** Byte `b` of row `q` lies in the tile. */
  predicate InTile(w: nat, h: nat, tx: nat, ty: nat, q: nat, b: nat) {
    q < RowCount(h, ty) && b < RowLen(w, tx)
  }

  ghost predicate Unchanged(cur: seq<byte>, prev: seq<byte>, w: nat, h: nat, tx: nat, ty: nat) {
    forall q: nat, b: nat :: InTile(w, h, tx, ty, q, b) ==>
      FrameAt(cur, w, tx, ty, q, b) == FrameAt(prev, w, tx, ty, q, b)
  }

  /** All pixels of the tile changed by the same four bytes. */
  ghost predicate ChangedBy(color: seq<byte>, cur: seq<byte>, prev: seq<byte>, w: nat, h: nat, tx: nat, ty: nat) {
    |color| == 4 && forall q: nat, b: nat :: InTile(w, h, tx, ty, q, b) ==>
      Xor(FrameAt(cur, w, tx, ty, q, b), FrameAt(prev, w, tx, ty, q, b)) == color[b % 4]
  }

  /** The tile fills its 64-byte beats; a ragged edge tile does not. */
  predicate WholeBeats(w: nat, h: nat, tx: nat, ty: nat) {
    RowCount(h, ty) * RowLen(w, tx) % 64 == 0
  }

  ghost predicate OneChange(cur: seq<byte>, prev: seq<byte>, w: nat, h: nat, tx: nat, ty: nat) {
    WholeBeats(w, h, tx, ty) && exists color :: ChangedBy(color, cur, prev, w, h, tx, ty)
  }

  /** The tile is what stood `dy` rows further down in the previous frame, and those rows exist. */
  ghost predicate Moved(cur: seq<byte>, prev: seq<byte>, w: nat, h: nat, tx: nat, ty: nat, dy: int) {
    && 0 <= 32 * ty + dy && 32 * ty + RowCount(h, ty) + dy <= h
    && forall q: nat, b: nat :: InTile(w, h, tx, ty, q, b) ==>
         FrameAt(cur, w, tx, ty, q, b) == ByteAt(prev, (32 * ty + q + dy) * (4 * w) + (128 * tx + b))
  }

  /** Of the shifts by at most 32 rows the nearest, and of two opposite ones the one downwards. */
  ghost predicate MovedLeast(cur: seq<byte>, prev: seq<byte>, w: nat, h: nat, tx: nat, ty: nat, dy: int) {
    && 1 <= Abs(dy) <= 32 && Moved(cur, prev, w, h, tx, ty, dy)
    && forall e: int :: 1 <= Abs(e) <= 32 && Moved(cur, prev, w, h, tx, ty, e) ==>
         Abs(dy) < Abs(e) || e == dy || (e == -dy && dy > 0)
  }

  ghost predicate MovedNowhere(cur: seq<byte>, prev: seq<byte>, w: nat, h: nat, tx: nat, ty: nat) {
    forall dy: int :: 1 <= Abs(dy) <= 32 ==> !Moved(cur, prev, w, h, tx, ty, dy)
  }

  /** The delta holds the XOR of the tile, row by row. */
  ghost predicate IsXor(bytes: seq<byte>, cur: seq<byte>, prev: seq<byte>, w: nat, h: nat, tx: nat, ty: nat) {
    forall q: nat, b: nat :: InTile(w, h, tx, ty, q, b) ==>
      ByteAt(bytes, q * RowLen(w, tx) + b) == Xor(FrameAt(cur, w, tx, ty, q, b), FrameAt(prev, w, tx, ty, q, b))
  }

  /** The record of tile `(tx, ty)`. */
  ghost predicate Chosen(rec: Option<Record>, cur: seq<byte>, prev: seq<byte>, w: nat, h: nat, tx: nat, ty: nat) {
    match rec
    case None => Unchanged(cur, prev, w, h, tx, ty)
    case Some(Solid(color)) =>
      && !Unchanged(cur, prev, w, h, tx, ty) && WholeBeats(w, h, tx, ty)
      && ChangedBy(color, cur, prev, w, h, tx, ty)
    case Some(Scroll(dy)) =>
      && !Unchanged(cur, prev, w, h, tx, ty) && !OneChange(cur, prev, w, h, tx, ty)
      && MovedLeast(cur, prev, w, h, tx, ty, dy)
    case Some(Delta(bytes)) =>
      && !Unchanged(cur, prev, w, h, tx, ty) && !OneChange(cur, prev, w, h, tx, ty)
      && MovedNowhere(cur, prev, w, h, tx, ty) && IsXor(bytes, cur, prev, w, h, tx, ty)
  }

  /** The frames determine the record, up to what a delta holds beyond the tile. */
  lemma ChosenOnce(r: Option<Record>, s: Option<Record>, cur: seq<byte>, prev: seq<byte>, w: nat, h: nat,
                   tx: nat, ty: nat)
    requires tx < TilesIn(w) && ty < TilesIn(h)
    requires Chosen(r, cur, prev, w, h, tx, ty) && Chosen(s, cur, prev, w, h, tx, ty)
    ensures r == s || (r.Some? && r.value.Delta? && s.Some? && s.value.Delta?)
  {
    hide Moved, IsXor, TilesIn;
    if r.Some? && r.value.Solid? && s.Some? && s.value.Solid? {
      SameColor(r.value.color, s.value.color, cur, prev, w, h, tx, ty);
    }
  }

  lemma SameColor(c: seq<byte>, d: seq<byte>, cur: seq<byte>, prev: seq<byte>, w: nat, h: nat, tx: nat, ty: nat)
    requires tx < TilesIn(w) && ty < TilesIn(h)
    requires ChangedBy(c, cur, prev, w, h, tx, ty) && ChangedBy(d, cur, prev, w, h, tx, ty)
    ensures c == d
  {
    TileShape(w, h, tx, ty);
    forall k: nat | k < 4 ensures c[k] == d[k] {
      hide RowLen, RowCount, FrameAt, Xor;
      assert InTile(w, h, tx, ty, 0, k);
    }
  }

  /** The packed bytes of a tile, position by position. */
  lemma PackedAt(frame: seq<byte>, w: nat, h: nat, tx: nat, ty: nat, q: nat, b: nat, i: nat)
    requires IsFrame(frame, w, h) && tx < TilesIn(w) && ty < TilesIn(h) && InTile(w, h, tx, ty, q, b)
    requires i == q * RowLen(w, tx) + b
    ensures RowCount(h, ty) >= 0 && i < |TileRows(frame, w, h, tx, ty, RowCount(h, ty))|
    ensures TileRows(frame, w, h, tx, ty, RowCount(h, ty))[i] == FrameAt(frame, w, tx, ty, q, b)
  {
    hide TilesIn, At, TileRows;
    TileShape(w, h, tx, ty);
    TileRowsAt(frame, w, h, tx, ty, RowCount(h, ty), q, b);
  }

  /** Every packed byte has its position. */
  lemma PackedFrom(w: nat, h: nat, tx: nat, ty: nat, i: nat) returns (q: nat, b: nat)
    requires tx < TilesIn(w) && ty < TilesIn(h) && i < RowCount(h, ty) * RowLen(w, tx)
    ensures InTile(w, h, tx, ty, q, b) && i == q * RowLen(w, tx) + b
  {
    hide TilesIn, RowLen, RowCount;
    TileShape(w, h, tx, ty);
    q, b := RowMajorSplit(i, RowCount(h, ty), RowLen(w, tx));
  }

  lemma RowsUnchanged(cur: seq<byte>, prev: seq<byte>, w: nat, h: nat, tx: nat, ty: nat, n: nat)
    requires IsFrame(cur, w, h) && IsFrame(prev, w, h) && tx < TilesIn(w) && ty < TilesIn(h) && n == RowCount(h, ty)
    ensures TileRows(cur, w, h, tx, ty, n) == TileRows(prev, w, h, tx, ty, n) <==>
            Unchanged(cur, prev, w, h, tx, ty)
  {
    hide TilesIn, RowLen, RowCount, TileRows, FrameAt, InTile;
    var c, p := TileRows(cur, w, h, tx, ty, n), TileRows(prev, w, h, tx, ty, n);
    if Unchanged(cur, prev, w, h, tx, ty) {
      forall i: nat | i < |c| ensures c[i] == p[i] {
        var q, b := PackedFrom(w, h, tx, ty, i);
        PackedAt(cur, w, h, tx, ty, q, b, i);
        PackedAt(prev, w, h, tx, ty, q, b, i);
      }
      assert c == p;
    }
    if c == p {
      forall q: nat, b: nat | InTile(w, h, tx, ty, q, b)
        ensures FrameAt(cur, w, tx, ty, q, b) == FrameAt(prev, w, tx, ty, q, b)
      {
        var i := PackIndex(w, h, tx, ty, q, b);
        PackedAt(cur, w, h, tx, ty, q, b, i);
        PackedAt(prev, w, h, tx, ty, q, b, i);
      }
    }
  }

  lemma PackIndex(w: nat, h: nat, tx: nat, ty: nat, q: nat, b: nat) returns (i: nat)
    requires tx < TilesIn(w) && ty < TilesIn(h) && InTile(w, h, tx, ty, q, b)
    ensures i == q * RowLen(w, tx) + b && i < RowCount(h, ty) * RowLen(w, tx)
  {
    hide TilesIn, RowLen, RowCount;
    TileShape(w, h, tx, ty);
    RowMajor(q, RowCount(h, ty), RowLen(w, tx), b);
    i := q * RowLen(w, tx) + b;
  }

  /** A tile is unchanged exactly if its packed bytes are. */
  lemma UnchangedIs(cur: seq<byte>, prev: seq<byte>, w: nat, h: nat, t: nat)
    requires IsFrame(cur, w, h) && IsFrame(prev, w, h) && t < TileCount(w, h)
    ensures TilesIn(w) > 0
    ensures TileBytes(cur, w, h, t) == TileBytes(prev, w, h, t) <==>
            Unchanged(cur, prev, w, h, t % TilesIn(w), t / TilesIn(w))
  {
    hide TilesIn, RowLen, RowCount, TileRows, Unchanged;
    TileIdJoins(w, h, t);
    var tx, ty := t % TilesIn(w), t / TilesIn(w);
    TileShape(w, h, tx, ty);
    RowsUnchanged(cur, prev, w, h, tx, ty, RowCount(h, ty));
  }
}
