/** Coarsening the attention map so that its snapshot fits one datagram, and the client's lookup of a
    tile in the coarse map it received. */
module ApfGrid {
  import opened Bytes
  import opened TileGrid
  import opened Apf

  const MAX_PAYLOAD: nat := 1368
  const MAX_SCALE: nat := 255

  /** Whether a snapshot of the grid with `scale` by `scale` tiles to a cell fits the budget. */
  predicate Fits(tilesX: nat, tilesY: nat, scale: nat, budget: nat)
    requires scale > 0
  {
    APF_HEADER_LEN + DivCeil(DivCeil(tilesX, scale) * DivCeil(tilesY, scale), 2) <= budget
  }

  lemma CoarserIsFewer(n: nat, a: nat, b: nat)
    requires 0 < a <= b
    ensures DivCeil(n, b) <= DivCeil(n, a)
  {
    var p, q := DivCeil(n, a), DivCeil(n, b);
    if q > p {
      MulLe(p, q - 1, b);
      assert p * b == p * a + p * (b - a);
      MulLe(0, b - a, p);
      assert false;
    }
  }

  lemma ProductLe(a: nat, b: nat, c: nat, d: nat)
    requires a <= c && b <= d
    ensures a * b <= c * d
  {
    MulLe(a, c, b);
    MulLe(b, d, c);
  }

  lemma FitsMonotone(tilesX: nat, tilesY: nat, a: nat, b: nat, budget: nat)
    requires 0 < a <= b && Fits(tilesX, tilesY, a, budget)
    ensures Fits(tilesX, tilesY, b, budget)
  {
    hide DivCeil;
    CoarserIsFewer(tilesX, a, b);
    CoarserIsFewer(tilesY, a, b);
    ProductLe(DivCeil(tilesX, b), DivCeil(tilesY, b), DivCeil(tilesX, a), DivCeil(tilesY, a));
    HalfMonotone(DivCeil(tilesX, b) * DivCeil(tilesY, b), DivCeil(tilesX, a) * DivCeil(tilesY, a));
  }

  lemma HalfMonotone(a: nat, b: nat)
    requires a <= b
    ensures DivCeil(a, 2) <= DivCeil(b, 2)
  {
  }

  /** `fit_scale_for_budget`: the least fitting scale; it and every coarser one fit, every finer one does
      not, and there is none exactly when the coarsest does not fit. */
  method FitScale(tilesX: nat, tilesY: nat, budget: nat) returns (r: Option<nat>)
    ensures r.None? <==> !Fits(tilesX, tilesY, 255, budget)
    ensures r.Some? ==> 1 <= r.value <= 255
    ensures r.Some? ==> forall s: nat | 1 <= s :: Fits(tilesX, tilesY, s, budget) <==> s >= r.value
  {
    hide Fits, DivCeil;
    for scale := 1 to MAX_SCALE + 1
      invariant forall s: nat | 1 <= s < scale :: !Fits(tilesX, tilesY, s, budget)
    {
      var fits := TestScale(tilesX, tilesY, scale, budget);
      if fits {
        CoarserFit(tilesX, tilesY, scale, budget);
        return Some(scale);
      }
    }
    return None;
  }

  method TestScale(tilesX: nat, tilesY: nat, scale: nat, budget: nat) returns (fits: bool)
    requires scale > 0
    ensures fits <==> Fits(tilesX, tilesY, scale, budget)
  {
    hide DivCeil;
    var cols := DivCeil(tilesX, scale);
    var rows := DivCeil(tilesY, scale);
    fits := APF_HEADER_LEN + DivCeil(cols * rows, 2) <= budget;
  }

  lemma CoarserFit(tilesX: nat, tilesY: nat, scale: nat, budget: nat)
    requires scale > 0 && Fits(tilesX, tilesY, scale, budget)
    ensures forall s: nat | s >= scale :: Fits(tilesX, tilesY, s, budget)
  {
    hide Fits, DivCeil;
    forall s: nat | s >= scale ensures Fits(tilesX, tilesY, s, budget) {
      FitsMonotone(tilesX, tilesY, scale, s, budget);
    }
  }

  // ----- coarse cells

  function MapIndex(x: nat, y: nat, cols: nat): nat {
    x + y * cols
  }

  lemma MapIndexBound(x: nat, y: nat, cols: nat, rows: nat)
    requires x < cols && y < rows
    ensures MapIndex(x, y, cols) < cols * rows
  {
    RowMajor(y, rows, cols, x);
  }

  lemma MapIndexUnique(x: nat, y: nat, x': nat, y': nat, cols: nat)
    requires x < cols && x' < cols && MapIndex(x, y, cols) == MapIndex(x', y', cols)
    ensures x == x' && y == y'
  {
    DivMod(y, cols, x);
    DivMod(y', cols, x');
  }

  /** Whether tile `k` (in raster order) belongs to cell `(cx, cy)`. */
  predicate InCell(k: nat, tilesX: nat, scale: nat, cx: nat, cy: nat)
    requires tilesX > 0 && scale > 0
  {
    CellX(k, tilesX, scale) == cx && CellY(k, tilesX, scale) == cy
  }

  /** The maximum of 0 and of the priorities of a cell's tiles among the first `n` of the map. */
  predicate IsCellMax(v: real, attention: seq<real>, n: nat, tilesX: nat, scale: nat, cx: nat, cy: nat)
    requires tilesX > 0 && scale > 0 && n <= |attention|
  {
    && v >= 0.0
    && (forall k :: 0 <= k < n && InCell(k, tilesX, scale, cx, cy) ==> attention[k] <= v)
    && (v == 0.0 || exists k :: 0 <= k < n && InCell(k, tilesX, scale, cx, cy) && attention[k] == v)
  }

  lemma CellMaxIsOne(u: real, v: real, attention: seq<real>, n: nat, tilesX: nat, scale: nat, cx: nat, cy: nat)
    requires tilesX > 0 && scale > 0 && n <= |attention|
    requires IsCellMax(u, attention, n, tilesX, scale, cx, cy) && IsCellMax(v, attention, n, tilesX, scale, cx, cy)
    ensures u == v
  {
  }

  predicate CellsDone(coarse: seq<real>, attention: seq<real>, n: nat, tilesX: nat, scale: nat, cols: nat, rows: nat)
    requires tilesX > 0 && scale > 0 && n <= |attention| && |coarse| == cols * rows
  {
    forall cx: nat, cy: nat | cx < cols && cy < rows ::
      && MapIndex(cx, cy, cols) < |coarse|
      && IsCellMax(coarse[MapIndex(cx, cy, cols)], attention, n, tilesX, scale, cx, cy)
  }

  /** One more tile raises its own cell and no other. */
  lemma CellStep(coarse: seq<real>, coarse': seq<real>, attention: seq<real>, n: nat,
                 tilesX: nat, scale: nat, cols: nat, rows: nat, x: nat, y: nat)
    requires scale > 0 && tilesX > 0 && n < |attention| && |coarse| == |coarse'| == cols * rows
    requires x < cols && y < rows && InCell(n, tilesX, scale, x, y)
    requires CellsDone(coarse, attention, n, tilesX, scale, cols, rows)
    requires var i := MapIndex(x, y, cols);
             && i < |coarse|
             && coarse' == if attention[n] > coarse[i] then coarse[i := attention[n]] else coarse
    ensures CellsDone(coarse', attention, n + 1, tilesX, scale, cols, rows)
  {
    hide MapIndex, IsCellMax;
    var i := MapIndex(x, y, cols);
    forall cx: nat, cy: nat | cx < cols && cy < rows
      ensures && MapIndex(cx, cy, cols) < |coarse'|
              && IsCellMax(coarse'[MapIndex(cx, cy, cols)], attention, n + 1, tilesX, scale, cx, cy)
    {
      var j := MapIndex(cx, cy, cols);
      MapIndexBound(cx, cy, cols, rows);
      if j == i {
        MapIndexUnique(cx, cy, x, y, cols);
      }
      CellMaxStep(coarse[j], attention, n, tilesX, scale, cx, cy);
    }
  }

  lemma CellMaxStep(v: real, attention: seq<real>, n: nat, tilesX: nat, scale: nat, cx: nat, cy: nat)
    requires tilesX > 0 && scale > 0 && n < |attention| && IsCellMax(v, attention, n, tilesX, scale, cx, cy)
    ensures var v' := if InCell(n, tilesX, scale, cx, cy) && attention[n] > v then attention[n] else v;
            IsCellMax(v', attention, n + 1, tilesX, scale, cx, cy)
  {
    hide InCell;
  }

  lemma CellOfTile(x: nat, tiles: nat, scale: nat)
    requires x < tiles && scale > 0
    ensures x / scale < DivCeil(tiles, scale)
  {
    var q := DivCeil(tiles, scale);
    var k := x / scale;
    assert x == k * scale + x % scale;
    MulLe(q, k, scale);
  }

  /** `downsample_max`: each coarse cell holds the maximum of its tiles. */
  method DownsampleMax(attention: seq<real>, tilesX: nat, tilesY: nat, scale: nat)
    returns (coarse: seq<real>, cols: nat, rows: nat)
    requires scale >= 1 && |attention| == tilesX * tilesY
    ensures cols == DivCeil(tilesX, scale) && rows == DivCeil(tilesY, scale) && |coarse| == cols * rows
    ensures tilesX > 0 ==> CellsDone(coarse, attention, |attention|, tilesX, scale, cols, rows)
  {
    hide CellsDone, DivCeil, Raster;
    cols, rows := DivCeil(tilesX, scale), DivCeil(tilesY, scale);
    var cells := new real[cols * rows](_ => 0.0);
    RasterEnds(tilesX, tilesY);
    if tilesX > 0 {
      NoneDone(cells[..], attention, tilesX, scale, cols, rows);
    }
    for ty := 0 to tilesY
      invariant tilesX > 0 ==>
        && Raster(ty, tilesX) <= |attention|
        && CellsDone(cells[..], attention, Raster(ty, tilesX), tilesX, scale, cols, rows)
    {
      if tilesX > 0 {
        DownsampleRow(cells, attention, tilesX, tilesY, scale, cols, rows, ty);
      }
    }
    coarse := cells[..];
  }

  /** The number of tiles before row `ty`. */
  function Raster(ty: nat, tilesX: nat): nat {
    ty * tilesX
  }

  lemma RasterEnds(tilesX: nat, tilesY: nat)
    ensures Raster(0, tilesX) == 0 && Raster(tilesY, tilesX) == tilesX * tilesY
  {
  }

  lemma RasterStep(ty: nat, tilesX: nat)
    ensures Raster(ty + 1, tilesX) == Raster(ty, tilesX) + tilesX
  {
  }

  method DownsampleRow(cells: array<real>, attention: seq<real>, tilesX: nat, tilesY: nat, scale: nat,
                       cols: nat, rows: nat, ty: nat)
    requires scale >= 1 && tilesX > 0 && |attention| == tilesX * tilesY && ty < tilesY
    requires cols == DivCeil(tilesX, scale) && rows == DivCeil(tilesY, scale) && cells.Length == cols * rows
    requires Raster(ty, tilesX) <= |attention|
    requires CellsDone(cells[..], attention, Raster(ty, tilesX), tilesX, scale, cols, rows)
    modifies cells
    ensures Raster(ty + 1, tilesX) <= |attention|
    ensures CellsDone(cells[..], attention, Raster(ty + 1, tilesX), tilesX, scale, cols, rows)
  {
    hide CellsDone, DivCeil, MapIndex, Raster;
    ghost var n := Raster(ty, tilesX);
    for tx := 0 to tilesX
      invariant n == Raster(ty, tilesX) + tx <= |attention|
      invariant CellsDone(cells[..], attention, n, tilesX, scale, cols, rows)
    {
      var k := RasterIndex(tx, ty, tilesX, tilesY);
      var cx, cy := CellOf(k, tx, ty, tilesX, tilesY, scale);
      MapIndexBound(cx, cy, cols, rows);
      var idx := MapIndex(cx, cy, cols);
      ghost var before := cells[..];
      if attention[k] > cells[idx] {
        cells[idx] := attention[k];
      }
      CellStep(before, cells[..], attention, k, tilesX, scale, cols, rows, cx, cy);
      n := n + 1;
    }
    RasterStep(ty, tilesX);
  }

  method RasterIndex(tx: nat, ty: nat, tilesX: nat, tilesY: nat) returns (k: nat)
    requires tx < tilesX && ty < tilesY
    ensures k == Raster(ty, tilesX) + tx < tilesX * tilesY
    ensures k % tilesX == tx && k / tilesX == ty
  {
    RowMajor(ty, tilesY, tilesX, tx);
    k := tx + ty * tilesX;
  }

  method CellOf(k: nat, tx: nat, ty: nat, tilesX: nat, tilesY: nat, scale: nat) returns (cx: nat, cy: nat)
    requires tx < tilesX && ty < tilesY && scale > 0 && k % tilesX == tx && k / tilesX == ty
    ensures cx < DivCeil(tilesX, scale) && cy < DivCeil(tilesY, scale) && InCell(k, tilesX, scale, cx, cy)
  {
    CellOfTile(tx, tilesX, scale);
    CellOfTile(ty, tilesY, scale);
    cx, cy := tx / scale, ty / scale;
  }

  lemma NoneDone(coarse: seq<real>, attention: seq<real>, tilesX: nat, scale: nat, cols: nat, rows: nat)
    requires tilesX > 0 && scale > 0 && |coarse| == cols * rows && forall i :: 0 <= i < |coarse| ==> coarse[i] == 0.0
    ensures CellsDone(coarse, attention, 0, tilesX, scale, cols, rows)
  {
    hide MapIndex;
    forall cx: nat, cy: nat | cx < cols && cy < rows ensures MapIndex(cx, cy, cols) < |coarse| {
      MapIndexBound(cx, cy, cols, rows);
    }
  }

  // ----- the host's grid choice and the client's lookup

  /** `(TILE_SIZE * scale).min(255) as u8` */
  function TileSizeField(scale: nat): byte {
    Min(TILE_PX * scale, 255)
  }

  /** The coarsening factor that the client recovers from the header. */
  function RecoveredScale(tileSize: byte): (s: nat)
    ensures s > 0
  {
    Max(tileSize / TILE_PX, 1)
  }

  /** The one-byte field carries the scale exactly up to 7, and every larger one reads back as 7. */
  lemma ScaleSurvives(scale: nat)
    requires scale >= 1
    ensures RecoveredScale(TileSizeField(scale)) == Min(scale, 7)
    ensures RecoveredScale(TileSizeField(scale)) == scale <==> scale <= 7
  {
  }

  function CellValue(h: ApfHeader, m: seq<real>, x: nat, y: nat): real
    requires |m| == TileTotal(h)
  {
    if x < h.cols && y < h.rows then
      MapIndexBound(x, y, h.cols, h.rows);
      m[MapIndex(x, y, h.cols)]
    else 0.0
  }

  function CellX(tile: nat, tilesX: nat, scale: nat): nat
    requires tilesX > 0 && scale > 0
  {
    tile % tilesX / scale
  }

  function CellY(tile: nat, tilesX: nat, scale: nat): nat
    requires tilesX > 0 && scale > 0
  {
    tile / tilesX / scale
  }

  /** The client's priority of a tile: 0 without a map or off its grid. */
  function Lookup(held: Option<(ApfHeader, seq<real>)>, decoderWidth: nat, tile: nat): real
    requires held.Some? ==> |held.value.1| == TileTotal(held.value.0)
  {
    if held.None? || held.value.0.cols == 0 || held.value.0.rows == 0 then 0.0
    else
      var tilesX: nat := Max(DivCeil(decoderWidth, TILE_PX), 1);
      var scale := RecoveredScale(held.value.0.tileSize);
      CellValue(held.value.0, held.value.1, CellX(tile, tilesX, scale), CellY(tile, tilesX, scale))
  }

  /** Whatever is held, the client reads 0 or a cell of its map. */
  lemma LookupIsHeld(held: Option<(ApfHeader, seq<real>)>, width: nat, tile: nat)
    requires held.Some? ==> |held.value.1| == TileTotal(held.value.0)
    ensures var p := Lookup(held, width, tile); p == 0.0 || (held.Some? && p in held.value.1)
  {
    hide DivCeil, CellX, CellY, RecoveredScale, CellValue;
    if held.Some? {
      var (h, m) := held.value;
      forall x: nat, y: nat ensures CellValue(h, m, x, y) == 0.0 || CellValue(h, m, x, y) in m {
        CellIsHeld(h, m, x, y);
      }
    }
  }

  lemma CellIsHeld(h: ApfHeader, m: seq<real>, x: nat, y: nat)
    requires |m| == TileTotal(h)
    ensures CellValue(h, m, x, y) == 0.0 || CellValue(h, m, x, y) in m
  {
    hide MapIndex;
    if x < h.cols && y < h.rows {
      MapIndexBound(x, y, h.cols, h.rows);
    }
  }

  /** The map, grid and tile size that the host sends, when some scale fits the budget. */
  datatype Grid = Grid(cells: seq<real>, cols: u16, rows: u16, tileSize: byte)

  ghost predicate GridOf(g: Grid, attention: seq<real>, tilesX: nat, tilesY: nat, scale: nat)
    requires tilesX > 0 && scale > 0
  {
    && g.cols == DivCeil(tilesX, scale) && g.rows == DivCeil(tilesY, scale) && |g.cells| == g.cols * g.rows
    && g.tileSize == TileSizeField(scale)
    && forall cx: nat, cy: nat | cx < g.cols && cy < g.rows ::
         && MapIndex(cx, cy, g.cols) < |g.cells|
         && exists v ::
              && IsCellMax(v, attention, |attention|, tilesX, scale, cx, cy)
              && Quantize(g.cells[MapIndex(cx, cy, g.cols)]) == Quantize(v)
  }

  lemma QuantizeFloor(p: real)
    ensures Quantize(p) == Quantize(if p > 0.0 then p else 0.0)
  {
  }

  /** At scale 1 every cell is one tile. */
  lemma UnitCells(attention: seq<real>, tilesX: nat, tilesY: nat, cx: nat, cy: nat)
    requires cx < tilesX && cy < tilesY && |attention| == tilesX * tilesY
    ensures MapIndex(cx, cy, tilesX) < |attention|
    ensures var p := attention[MapIndex(cx, cy, tilesX)];
            IsCellMax(if p > 0.0 then p else 0.0, attention, |attention|, tilesX, 1, cx, cy)
  {
    RowMajor(cy, tilesY, tilesX, cx);
    var i := MapIndex(cx, cy, tilesX);
    assert InCell(i, tilesX, 1, cx, cy);
    forall k | 0 <= k < |attention| && InCell(k, tilesX, 1, cx, cy) ensures k == i {
      var y, x := RowMajorSplit(k, tilesY, tilesX);
    }
  }

  lemma CellsWithinU16(cols: nat, rows: nat, budget: nat)
    requires cols > 0 && rows > 0 && budget <= 0x8000 && APF_HEADER_LEN + DivCeil(cols * rows, 2) <= budget
    ensures cols < 0x1_0000 && rows < 0x1_0000
  {
    MulLe(1, rows, cols);
    MulLe(1, cols, rows);
  }

  /** A header of 8 bytes and half a byte for each cell, within 1368 bytes. */
  predicate CellsFit(tilesX: nat, tilesY: nat, s: nat)
    requires s > 0
  {
    8 + (((tilesX + s - 1) / s) * ((tilesY + s - 1) / s) + 1) / 2 <= 1368
  }

  lemma CellsFitIs(tilesX: nat, tilesY: nat)
    ensures forall s: nat | 1 <= s :: CellsFit(tilesX, tilesY, s) <==> Fits(tilesX, tilesY, s, MAX_PAYLOAD)
    ensures !Fits(tilesX, tilesY, MAX_SCALE, MAX_PAYLOAD) ==>
              forall s: nat | 1 <= s <= 255 :: !Fits(tilesX, tilesY, s, MAX_PAYLOAD)
  {
    forall s: nat | 1 <= s <= 255 && Fits(tilesX, tilesY, s, MAX_PAYLOAD)
      ensures Fits(tilesX, tilesY, MAX_SCALE, MAX_PAYLOAD)
    {
      FitsMonotone(tilesX, tilesY, s, MAX_SCALE, MAX_PAYLOAD);
    }
    forall s: nat | 1 <= s ensures CellsFit(tilesX, tilesY, s) <==> Fits(tilesX, tilesY, s, MAX_PAYLOAD) {
      HalfUp(DivCeil(tilesX, s) * DivCeil(tilesY, s));
    }
  }

  lemma FitsIs(tilesX: nat, tilesY: nat, scale: nat)
    requires scale > 0
    ensures Fits(tilesX, tilesY, scale, MAX_PAYLOAD) <==>
            APF_HEADER_LEN + DivCeil(DivCeil(tilesX, scale) * DivCeil(tilesY, scale), 2) <= MAX_PAYLOAD
  {
  }

  /** The host's choice of map: the least scale that fits a datagram, with no `as u16` losing bits. */
  method ChooseGrid(attention: seq<real>, tilesX: nat, tilesY: nat) returns (r: Option<Grid>, ghost scale: nat)
    requires tilesX > 0 && tilesY > 0 && |attention| == tilesX * tilesY
    ensures r.None? <==> !Fits(tilesX, tilesY, 255, MAX_PAYLOAD)
    ensures r.Some? ==> 1 <= scale <= 255
    ensures r.Some? ==> forall s: nat | 1 <= s :: Fits(tilesX, tilesY, s, MAX_PAYLOAD) <==> s >= scale
    ensures forall s: nat | 1 <= s <= 255 :: CellsFit(tilesX, tilesY, s) <==> r.Some? && s >= scale
    ensures r.Some? ==> GridOf(r.value, attention, tilesX, tilesY, scale)
    ensures r.Some? ==> APF_HEADER_LEN + DivCeil(|r.value.cells|, 2) <= MAX_PAYLOAD
  {
    hide IsCellMax, MapIndex, Quantize, DivCeil, CellsFit, Fits;
    scale := 0;
    var fit := FitScale(tilesX, tilesY, MAX_PAYLOAD);
    CellsFitIs(tilesX, tilesY);
    if fit.None? {
      return None, 0;
    }
    var s := fit.value;
    scale := s;
    FitsIs(tilesX, tilesY, s);
    var cells, cols, rows := attention, tilesX, tilesY;
    if s == 1 {
      UnitGrid(tilesX);
      UnitGrid(tilesY);
    } else {
      cells, cols, rows := DownsampleMax(attention, tilesX, tilesY, s);
    }
    CellsWithinU16(cols, rows, MAX_PAYLOAD);
    var g := Grid(cells, AsU16(cols), AsU16(rows), TileSizeField(s));
    forall cx: nat, cy: nat | cx < g.cols && cy < g.rows
      ensures && MapIndex(cx, cy, g.cols) < |g.cells|
              && exists v ::
                   && IsCellMax(v, attention, |attention|, tilesX, s, cx, cy)
                   && Quantize(g.cells[MapIndex(cx, cy, g.cols)]) == Quantize(v)
    {
      MapIndexBound(cx, cy, cols, rows);
      if s == 1 {
        UnitCells(attention, tilesX, tilesY, cx, cy);
        QuantizeFloor(g.cells[MapIndex(cx, cy, cols)]);
      } else {
        assert CellsDone(cells, attention, |attention|, tilesX, s, cols, rows);
        assert IsCellMax(cells[MapIndex(cx, cy, cols)], attention, |attention|, tilesX, s, cx, cy);
      }
    }
    return Some(g), s;
  }

  lemma UnitGrid(tiles: nat)
    ensures DivCeil(tiles, 1) == tiles
  {
  }

  /** What the client reads for a tile, whatever the scale: the 16-level value of the cell at the tile's
      coordinates divided by the recovered scale, or 0 where the host's grid has no such cell. */
  ghost predicate Reads(p: real, attention: seq<real>, tilesX: nat, tilesY: nat, scale: nat, tile: nat)
    requires tilesX > 0 && scale > 0
  {
    var x, y := CellX(tile, tilesX, Recovered(scale)), CellY(tile, tilesX, Recovered(scale));
    if x < DivCeil(tilesX, scale) && y < DivCeil(tilesY, scale) then
      forall v | IsCellMax(v, attention, |attention|, tilesX, scale, x, y) :: p == Dequantize(Quantize(v))
    else p == 0.0
  }

  /** The scale that survives the one-byte field. */
  function Recovered(scale: nat): (s: nat)
    requires scale > 0
    ensures s > 0
  {
    Min(scale, 7)
  }

  lemma LookupReads(g: Grid, attention: seq<real>, width: nat, tilesX: nat, tilesY: nat, scale: nat, tile: nat,
                    h: ApfHeader)
    requires width > 0 && tilesX == DivCeil(width, TILE_PX) && 1 <= scale && tilesY > 0
    requires |attention| == tilesX * tilesY && GridOf(g, attention, tilesX, tilesY, scale)
    requires h.cols == g.cols && h.rows == g.rows && h.tileSize == g.tileSize
    ensures Reads(Lookup(Some((h, Priorities(Levels(g.cells)))), width, tile), attention, tilesX, tilesY, scale, tile)
  {
    hide IsCellMax, Quantize, Dequantize, MapIndex, DivCeil, CellX, CellY, RecoveredScale, TileSizeField;
    ScaleSurvives(scale);
    GridIsPositive(g, attention, tilesX, tilesY, scale);
    var x, y := CellX(tile, tilesX, Recovered(scale)), CellY(tile, tilesX, Recovered(scale));
    if x < g.cols && y < g.rows {
      var i := MapIndex(x, y, g.cols);
      MapIndexBound(x, y, g.cols, g.rows);
      var u :| && IsCellMax(u, attention, |attention|, tilesX, scale, x, y)
               && Quantize(g.cells[i]) == Quantize(u);
      forall v | IsCellMax(v, attention, |attention|, tilesX, scale, x, y) ensures u == v {
        CellMaxIsOne(u, v, attention, |attention|, tilesX, scale, x, y);
      }
    }
  }

  lemma GridIsPositive(g: Grid, attention: seq<real>, tilesX: nat, tilesY: nat, scale: nat)
    requires tilesX > 0 && tilesY > 0 && scale > 0 && GridOf(g, attention, tilesX, tilesY, scale)
    ensures g.cols > 0 && g.rows > 0
  {
    hide IsCellMax, Quantize;
  }

  /** Up to scale 7 the cell that is read is the one the tile lies in. */
  lemma LookupIsCellMax(g: Grid, attention: seq<real>, width: nat, tilesX: nat, tilesY: nat, scale: nat, tile: nat,
                        h: ApfHeader, v: real)
    requires width > 0 && tilesX == DivCeil(width, TILE_PX) && 1 <= scale <= 7
    requires tile < |attention| == tilesX * tilesY && GridOf(g, attention, tilesX, tilesY, scale)
    requires IsCellMax(v, attention, |attention|, tilesX, scale, CellX(tile, tilesX, scale), CellY(tile, tilesX, scale))
    requires h.cols == g.cols && h.rows == g.rows && h.tileSize == g.tileSize
    ensures Lookup(Some((h, Priorities(Levels(g.cells)))), width, tile) == Dequantize(Quantize(v))
  {
    hide IsCellMax, Quantize, Dequantize, DivCeil, CellX, CellY, Lookup, GridOf, Priorities, Levels;
    CellBounds(tile, tilesX, tilesY, scale);
    SomeRows(tile, tilesX, tilesY);
    LookupReads(g, attention, width, tilesX, tilesY, scale, tile, h);
  }

  lemma SomeRows(tile: nat, tilesX: nat, tilesY: nat)
    requires tile < tilesX * tilesY
    ensures tilesY > 0
  {
  }

  // ----- a grid too coarse for the field

  /** A frame of 416 by 416 tiles with one hot tile in its corner. */
  ghost function HotCorner(): (a: seq<real>)
    ensures |a| == 416 * 416 && forall i :: 0 <= i < |a| ==> a[i] == if i == 0 then 1.0 else 0.0
  {
    seq(416 * 416, i => if i == 0 then 1.0 else 0.0)
  }

  /** The least scale for it is 8, which reads back as 7: for tile 7 of the first row the client reads the
      second cell, which is cold, although the tile lies in the first, which is hot. */
  lemma ScaleEightMisreads(g: Grid, h: ApfHeader)
    requires GridOf(g, HotCorner(), 416, 416, 8)
    requires h.cols == g.cols && h.rows == g.rows && h.tileSize == g.tileSize
    ensures Fits(416, 416, 8, MAX_PAYLOAD) && !Fits(416, 416, 7, MAX_PAYLOAD)
    ensures IsCellMax(1.0, HotCorner(), 416 * 416, 416, 8, CellX(7, 416, 8), CellY(7, 416, 8))
    ensures Lookup(Some((h, Priorities(Levels(g.cells)))), 416 * TILE_PX, 7) == 0.0
  {
    hide GridOf, Lookup, HotCorner, Priorities, Levels;
    var a := HotCorner();
    EightFits();
    assert InCell(0, 416, 8, 0, 0);
    assert IsCellMax(1.0, a, |a|, 416, 8, 0, 0);
    assert !InCell(0, 416, 8, 1, 0);
    assert IsCellMax(0.0, a, |a|, 416, 8, 1, 0);
    LookupReads(g, a, 416 * TILE_PX, 416, 416, 8, 7, h);
    assert Quantize(0.0) == 0 && Dequantize(0) == 0.0;
  }

  lemma EightFits()
    ensures Fits(416, 416, 8, MAX_PAYLOAD) && !Fits(416, 416, 7, MAX_PAYLOAD)
    ensures DivCeil(416 * TILE_PX, TILE_PX) == 416 && DivCeil(416, 8) == 52
  {
  }

  lemma CellBounds(tile: nat, tilesX: nat, tilesY: nat, scale: nat)
    requires tile < tilesX * tilesY && scale > 0
    ensures tilesX > 0
    ensures CellX(tile, tilesX, scale) < DivCeil(tilesX, scale) && CellY(tile, tilesX, scale) < DivCeil(tilesY, scale)
  {
    hide DivCeil;
    var y, x := RowMajorSplit(tile, tilesY, tilesX);
    CellOfTile(x, tilesX, scale);
    CellOfTile(y, tilesY, scale);
  }
}
