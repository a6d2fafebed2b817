/** The attention map builder: one pass that both measures the motion of every tile against the previous
    frame and replaces that frame, with a per-tile count of unchanged frames. */
module Attention {
  import opened Bytes
  import opened TileGrid
  import opened DiffScan

  const SURPRISE_STREAK: nat := 8
  const U32_MAX: nat := 0xFFFF_FFFF

  datatype Mode = Ar | R2 | Mode47

  datatype Weights = Weights(motion: real, target: real, surprise: real)

  function ForMode(mode: Mode): Weights {
    match mode
    case Ar => Weights(0.30, 0.70, 0.0)
    case R2 => Weights(0.65, 0.20, 0.15)
    case Mode47 => Weights(0.15, 0.55, 0.30)
  }

  function AbsDiff(a: nat, b: nat): nat {
    if a < b then b - a else a - b
  }

  /** Falls linearly with the Chebyshev distance to the focus tile, to 0 at six tiles. */
  function Proximity(tx: nat, ty: nat, focus: (nat, nat)): (r: real)
    ensures 0.0 <= r <= 1.0
    ensures r == 1.0 <==> (tx, ty) == focus
    ensures r == 0.0 <==> AbsDiff(tx, focus.0) >= 6 || AbsDiff(ty, focus.1) >= 6
  {
    var dist := Max(AbsDiff(tx, focus.0), AbsDiff(ty, focus.1)) as real;
    if 1.0 - dist / 6.0 > 0.0 then 1.0 - dist / 6.0 else 0.0
  }

  function Target(tx: nat, ty: nat, focus: Option<(nat, nat)>): (r: real)
    ensures 0.0 <= r <= 1.0
  {
    if focus.Some? then Proximity(tx, ty, focus.value) else 0.0
  }

  function Weigh(w: Weights, m: real, t: real, s: real): real {
    w.motion * m + w.target * t + w.surprise * s
  }

  /** The clamp after the weighing never changes a value. */
  lemma ClampIsIdle(mode: Mode, m: real, t: real, s: real)
    requires 0.0 <= m <= 1.0 && 0.0 <= t <= 1.0 && 0.0 <= s <= 1.0
    ensures 0.0 <= Weigh(ForMode(mode), m, t, s) <= 1.0
    ensures Clamp(Weigh(ForMode(mode), m, t, s)) == Weigh(ForMode(mode), m, t, s)
  {
  }

  // ----- motion against a full copy of the previous frame

  /** The number of bytes that differ in the first `q` rows of a tile. */
  function TileDiff(cur: seq<byte>, was: seq<byte>, w: nat, tx: nat, ty: nat, q: nat): nat {
    if q == 0 then 0
    else
      TileDiff(cur, was, w, tx, ty, q - 1)
      + CountDiff(TileRow(cur, w, tx, ty, q - 1), TileRow(was, w, tx, ty, q - 1))
  }

  predicate TileSame(a: seq<byte>, b: seq<byte>, w: nat, h: nat, tx: nat, ty: nat) {
    forall q: nat | q < RowCount(h, ty) :: TileRow(a, w, tx, ty, q) == TileRow(b, w, tx, ty, q)
  }

  function Ratio(diff: nat, total: nat): real {
    if total == 0 then 0.0 else diff as real / total as real
  }

  /** The share of a tile's bytes that changed. */
  function Motion(cur: seq<byte>, was: seq<byte>, w: nat, h: nat, tx: nat, ty: nat): real
    requires tx < TilesIn(w) && ty < TilesIn(h)
  {
    TileShape(w, h, tx, ty);
    Ratio(TileDiff(cur, was, w, tx, ty, RowCount(h, ty)), RowCount(h, ty) * RowLen(w, tx))
  }

  lemma {:induction false} TileDiffRange(cur: seq<byte>, was: seq<byte>, w: nat, h: nat, tx: nat, ty: nat, q: nat)
    requires IsFrame(cur, w, h) && IsFrame(was, w, h) && tx < TilesIn(w) && ty < TilesIn(h) && q <= RowCount(h, ty)
    ensures TileDiff(cur, was, w, tx, ty, q) <= q * RowLen(w, tx)
    ensures TileDiff(cur, was, w, tx, ty, q) == 0
       <==> forall r: nat | r < q :: TileRow(cur, w, tx, ty, r) == TileRow(was, w, tx, ty, r)
  {
    hide CountDiff, TilesIn, RowCount, RowLen, TileRow, IsFrame;
    if q > 0 {
      TileDiffRange(cur, was, w, h, tx, ty, q - 1);
      RowInFrame(cur, w, h, tx, ty, q - 1);
      RowInFrame(was, w, h, tx, ty, q - 1);
      CountDiffZero(TileRow(cur, w, tx, ty, q - 1), TileRow(was, w, tx, ty, q - 1));
      assert q * RowLen(w, tx) == (q - 1) * RowLen(w, tx) + RowLen(w, tx);
    }
  }

  lemma RatioRange(diff: nat, total: nat)
    requires 0 < total && diff <= total
    ensures 0.0 <= Ratio(diff, total) <= 1.0
    ensures Ratio(diff, total) > 0.0 <==> diff > 0
  {
    if diff > 0 {
      assert Ratio(diff, total) * total as real == diff as real;
    }
  }

  lemma Positive(a: int, b: int)
    requires a > 0 && b > 0
    ensures a * b > 0
  {
  }

  /** Motion is a share, and is positive exactly when the tile changed. */
  lemma MotionRange(cur: seq<byte>, was: seq<byte>, w: nat, h: nat, tx: nat, ty: nat)
    requires IsFrame(cur, w, h) && IsFrame(was, w, h) && tx < TilesIn(w) && ty < TilesIn(h)
    ensures 0.0 <= Motion(cur, was, w, h, tx, ty) <= 1.0
    ensures Motion(cur, was, w, h, tx, ty) > 0.0 <==> !TileSame(cur, was, w, h, tx, ty)
  {
    hide TilesIn, RowCount, RowLen, TileRow, IsFrame, TileDiff, Ratio;
    TileShape(w, h, tx, ty);
    var q := RowCount(h, ty);
    TileDiffRange(cur, was, w, h, tx, ty, q);
    Positive(q, RowLen(w, tx));
    RatioRange(TileDiff(cur, was, w, tx, ty, q), q * RowLen(w, tx));
  }

  // ----- the in-place pass

  /** Whether row `q'` of tile `(tx', ty')` comes before row `q` of tile `(tx, ty)` in the order of the pass. */
  predicate Visited(tx': nat, ty': nat, q': nat, tx: nat, ty: nat, q: nat) {
    ty' < ty || (ty' == ty && (tx' < tx || (tx' == tx && q' < q)))
  }

  /** The stored frame in mid-pass: current where visited, previous elsewhere. */
  ghost predicate MidPass(now: seq<byte>, was: seq<byte>, cur: seq<byte>, w: nat, h: nat, tx: nat, ty: nat, q: nat) {
    && IsFrame(now, w, h) && IsFrame(was, w, h) && IsFrame(cur, w, h)
    && forall y: nat, c: nat | y < h && c < 4 * w ::
         && At(w, y, c) < |now|
         && now[At(w, y, c)] == if Visited(c / ROW_BYTES, y / TILE_PX, y % TILE_PX, tx, ty, q)
                                then cur[At(w, y, c)] else was[At(w, y, c)]
  }

  lemma PassStarts(was: seq<byte>, cur: seq<byte>, w: nat, h: nat)
    requires IsFrame(was, w, h) && IsFrame(cur, w, h)
    ensures MidPass(was, was, cur, w, h, 0, 0, 0)
  {
    hide At;
    forall y: nat, c: nat | y < h && c < 4 * w ensures At(w, y, c) < |was| {
      AtInFrame(w, h, y, c);
    }
  }

  lemma PassEnds(now: seq<byte>, was: seq<byte>, cur: seq<byte>, w: nat, h: nat)
    requires MidPass(now, was, cur, w, h, 0, TilesIn(h), 0)
    ensures now == cur
  {
    hide At;
    forall p | 0 <= p < |now| ensures now[p] == cur[p] {
      var y, c := SplitIndex(w, h, p);
      TileOfPosition(w, h, y, c);
    }
  }

  lemma TileEnds(now: seq<byte>, was: seq<byte>, cur: seq<byte>, w: nat, h: nat, tx: nat, ty: nat, q: nat)
    requires MidPass(now, was, cur, w, h, tx, ty, q) && q == RowCount(h, ty)
    ensures MidPass(now, was, cur, w, h, tx + 1, ty, 0)
  {
    hide At;
    forall y: nat, c: nat | y < h && c < 4 * w
      ensures Visited(c / ROW_BYTES, y / TILE_PX, y % TILE_PX, tx, ty, q)
         <==> Visited(c / ROW_BYTES, y / TILE_PX, y % TILE_PX, tx + 1, ty, 0)
    {
      TileOfPosition(w, h, y, c);
    }
  }

  lemma TileRowEnds(now: seq<byte>, was: seq<byte>, cur: seq<byte>, w: nat, h: nat, ty: nat)
    requires MidPass(now, was, cur, w, h, TilesIn(w), ty, 0)
    ensures MidPass(now, was, cur, w, h, 0, ty + 1, 0)
  {
    hide At;
    forall y: nat, c: nat | y < h && c < 4 * w
      ensures Visited(c / ROW_BYTES, y / TILE_PX, y % TILE_PX, TilesIn(w), ty, 0)
         <==> Visited(c / ROW_BYTES, y / TILE_PX, y % TILE_PX, 0, ty + 1, 0)
    {
      TileOfPosition(w, h, y, c);
    }
  }

  /** The positions of one stretch of a row. */
  lemma InStretch(w: nat, y: nat, c: nat, len: nat, y': nat, c': nat)
    requires c + len <= 4 * w && c' < 4 * w
    ensures At(w, y, c) <= At(w, y', c') < At(w, y, c) + len <==> y' == y && c <= c' < c + len
  {
    MulLe(y + 1, y', 4 * w);
    MulLe(y' + 1, y, 4 * w);
    assert (y + 1) * (4 * w) == y * (4 * w) + 4 * w;
    assert (y' + 1) * (4 * w) == y' * (4 * w) + 4 * w;
  }

  /** The row about to be scanned still holds the previous frame. */
  lemma RowStillOld(now: seq<byte>, was: seq<byte>, cur: seq<byte>, w: nat, h: nat, tx: nat, ty: nat, q: nat)
    requires tx < TilesIn(w) && ty < TilesIn(h) && q < RowCount(h, ty) && MidPass(now, was, cur, w, h, tx, ty, q)
    ensures TileRow(now, w, tx, ty, q) == TileRow(was, w, tx, ty, q)
  {
    hide At, TilesIn, RowCount, RowLen, TileRow;
    RowInFrame(now, w, h, tx, ty, q);
    RowInFrame(was, w, h, tx, ty, q);
    var lo, len := At(w, TILE_PX * ty + q, ROW_BYTES * tx), RowLen(w, tx);
    forall k | lo <= k < lo + len ensures now[k] == was[k] {
      PositionOfTile(w, h, tx, ty, q, k - lo);
      AtPlus(w, TILE_PX * ty + q, ROW_BYTES * tx, k - lo);
      assert At(w, TILE_PX * ty + q, ROW_BYTES * tx + (k - lo)) == k;
    }
    assert now[lo..lo + len] == was[lo..lo + len];
  }

  lemma AtPlus(w: nat, y: nat, c: nat, b: nat)
    ensures At(w, y, c + b) == At(w, y, c) + b
  {
  }

  /** Overwriting one row of the tile moves the pass on by that row. */
  lemma RowStep(now: seq<byte>, now': seq<byte>, was: seq<byte>, cur: seq<byte>, w: nat, h: nat,
                tx: nat, ty: nat, q: nat)
    requires tx < TilesIn(w) && ty < TilesIn(h) && q < RowCount(h, ty) && MidPass(now, was, cur, w, h, tx, ty, q)
    requires 0 <= RowLen(w, tx)
    requires var lo := At(w, TILE_PX * ty + q, ROW_BYTES * tx);
             Overwritten(now', now, cur, lo, lo + RowLen(w, tx))
    ensures MidPass(now', was, cur, w, h, tx, ty, q + 1)
  {
    hide At, TilesIn, RowCount, RowLen;
    TileShape(w, h, tx, ty);
    var y0, c0, len := TILE_PX * ty + q, ROW_BYTES * tx, RowLen(w, tx);
    forall y: nat, c: nat | y < h && c < 4 * w
      ensures && At(w, y, c) < |now'|
              && now'[At(w, y, c)] == if Visited(c / ROW_BYTES, y / TILE_PX, y % TILE_PX, tx, ty, q + 1)
                                      then cur[At(w, y, c)] else was[At(w, y, c)]
    {
      InStretch(w, y0, c0, len, y, c);
      OneMoreRow(w, h, tx, ty, q, y, c);
    }
  }

  lemma OneMoreRow(w: nat, h: nat, tx: nat, ty: nat, q: nat, y: nat, c: nat)
    requires tx < TilesIn(w) && ty < TilesIn(h) && q < RowCount(h, ty) && y < h && c < 4 * w
    ensures Visited(c / ROW_BYTES, y / TILE_PX, y % TILE_PX, tx, ty, q + 1)
       <==> || Visited(c / ROW_BYTES, y / TILE_PX, y % TILE_PX, tx, ty, q)
            || (y == TILE_PX * ty + q && ROW_BYTES * tx <= c < ROW_BYTES * tx + RowLen(w, tx))
  {
    TileOfPosition(w, h, y, c);
    TileShape(w, h, tx, ty);
  }

  // ----- runs of frames

  /** Whether the last frame of a run differs from the one before it in a tile. */
  predicate Changed(frames: seq<seq<byte>>, w: nat, h: nat, tx: nat, ty: nat) {
    |frames| >= 2 && !TileSame(frames[|frames| - 1], frames[|frames| - 2], w, h, tx, ty)
  }

  /** The number of latest consecutive frames that left a tile unchanged; the first frame counts. */
  function UnchangedRun(frames: seq<seq<byte>>, w: nat, h: nat, tx: nat, ty: nat): nat {
    if frames == [] || Changed(frames, w, h, tx, ty) then 0
    else 1 + UnchangedRun(frames[..|frames| - 1], w, h, tx, ty)
  }

  /** The motion of the last frame of a run; the first frame has none. */
  function LastMotion(frames: seq<seq<byte>>, w: nat, h: nat, tx: nat, ty: nat): real
    requires tx < TilesIn(w) && ty < TilesIn(h)
  {
    if |frames| < 2 then 0.0 else Motion(frames[|frames| - 1], frames[|frames| - 2], w, h, tx, ty)
  }

  /** A change is a surprise after at least 8 unchanged frames. */
  function Surprise(frames: seq<seq<byte>>, w: nat, h: nat, tx: nat, ty: nat): real
    requires frames != []
  {
    if Changed(frames, w, h, tx, ty) && UnchangedRun(frames[..|frames| - 1], w, h, tx, ty) >= SURPRISE_STREAK
    then 1.0 else 0.0
  }

  /** A tile's priority as a weighted sum over the run so far, with no clamp. */
  function Priority(frames: seq<seq<byte>>, w: nat, h: nat, tx: nat, ty: nat, focus: Option<(nat, nat)>, mode: Mode)
    : real
    requires frames != [] && tx < TilesIn(w) && ty < TilesIn(h)
  {
    Weigh(ForMode(mode), LastMotion(frames, w, h, tx, ty), Target(tx, ty, focus), Surprise(frames, w, h, tx, ty))
  }

  lemma LastMotionRange(frames: seq<seq<byte>>, w: nat, h: nat, tx: nat, ty: nat)
    requires tx < TilesIn(w) && ty < TilesIn(h) && forall i :: 0 <= i < |frames| ==> IsFrame(frames[i], w, h)
    ensures 0.0 <= LastMotion(frames, w, h, tx, ty) <= 1.0
    ensures LastMotion(frames, w, h, tx, ty) > 0.0 <==> Changed(frames, w, h, tx, ty)
  {
    hide TileSame, IsFrame, Motion, TilesIn;
    if |frames| >= 2 {
      MotionRange(frames[|frames| - 1], frames[|frames| - 2], w, h, tx, ty);
    }
  }

  /** The saturating counter after one more frame. */
  function NextStreak(streak: u32, dirty: bool): u32 {
    if dirty then 0 else Min(streak + 1, U32_MAX)
  }

  lemma StreakStep(frames: seq<seq<byte>>, frame: seq<byte>, w: nat, h: nat, tx: nat, ty: nat, streak: u32)
    requires streak == Min(UnchangedRun(frames, w, h, tx, ty), U32_MAX)
    ensures var dirty := Changed(frames + [frame], w, h, tx, ty);
            && NextStreak(streak, dirty) == Min(UnchangedRun(frames + [frame], w, h, tx, ty), U32_MAX)
            && (dirty && streak >= SURPRISE_STREAK <==> Surprise(frames + [frame], w, h, tx, ty) == 1.0)
  {
    hide Changed;
    assert (frames + [frame])[..|frames|] == frames;
  }

  // ----- what the map says, in numbers

  /** Byte `b` of row `q` of the tile differs between two frames. */
  predicate Differs(cur: seq<byte>, was: seq<byte>, w: nat, tx: nat, ty: nat, q: nat, b: nat) {
    var i := (32 * ty + q) * (4 * w) + (128 * tx + b);
    i < |cur| && i < |was| && cur[i] != was[i]
  }

  /** The differing bytes of the first `q` rows of a tile with rows of `len` bytes, and of the next row the first
      `k` bytes. */
  ghost function DiffUpto(cur: seq<byte>, was: seq<byte>, w: nat, tx: nat, ty: nat, len: nat, q: nat, k: nat)
    : set<(nat, nat)>
  {
    set r: nat, b: nat | r <= q && b < len && (r < q || b < k) && Differs(cur, was, w, tx, ty, r, b) :: (r, b)
  }

  /** The share of the tile's bytes that differ between two frames. */
  ghost function Share(cur: seq<byte>, was: seq<byte>, w: nat, h: nat, tx: nat, ty: nat): real
    requires 32 * tx < w && 32 * ty < h
  {
    var rows, len := Min(32, h - 32 * ty), 4 * Min(32, w - 32 * tx);
    |DiffUpto(cur, was, w, tx, ty, len, rows, 0)| as real / (rows * len) as real
  }

  /** The tile changed in the last frame, after eight frames or more in which it had not; the first frame counts as
      one of those. */
  ghost predicate Surprising(frames: seq<seq<byte>>, w: nat, h: nat, tx: nat, ty: nat)
    requires 32 * tx < w && 32 * ty < h
  {
    var n := |frames|;
    && n >= 9 && Share(frames[n - 1], frames[n - 2], w, h, tx, ty) > 0.0
    && forall i :: n - 9 <= i <= n - 2 && i > 0 ==> Share(frames[i], frames[i - 1], w, h, tx, ty) == 0.0
  }

  /** One at the focus, a sixth less with each tile of distance, counted along rows, columns and diagonals. */
  function Nearness(tx: nat, ty: nat, focus: Option<(nat, nat)>): real {
    match focus
    case None => 0.0
    case Some(f) =>
      var dx, dy := if tx < f.0 then f.0 - tx else tx - f.0, if ty < f.1 then f.1 - ty else ty - f.1;
      var d := if dx < dy then dy else dx;
      if d < 6 then (6 - d) as real / 6.0 else 0.0
  }

  /** What one tile is worth: shares of its motion, its nearness and its surprise that depend on the mode. */
  function Worth(mode: Mode, moved: real, near: real, surprise: bool): real {
    match mode
    case Ar => 0.30 * moved + 0.70 * near
    case R2 => 0.65 * moved + 0.20 * near + if surprise then 0.15 else 0.0
    case Mode47 => 0.15 * moved + 0.55 * near + if surprise then 0.30 else 0.0
  }

  /** The map, tile by tile and row by row, after the frames of a run. */
  ghost predicate MapSays(m: seq<real>, frames: seq<seq<byte>>, w: nat, h: nat, focus: Option<(nat, nat)>, mode: Mode) {
    var cols, n := (w + 31) / 32, |frames|;
    && |m| == cols * ((h + 31) / 32) && n > 0
    && forall tx: nat, ty: nat | 32 * tx < w && 32 * ty < h ::
         var moved := if n < 2 then 0.0 else Share(frames[n - 1], frames[n - 2], w, h, tx, ty);
         && ty * cols + tx < |m|
         && m[ty * cols + tx] == Worth(mode, moved, Nearness(tx, ty, focus), Surprising(frames, w, h, tx, ty))
  }

  lemma RowByte(frame: seq<byte>, w: nat, h: nat, tx: nat, ty: nat, q: nat, b: nat)
    requires IsFrame(frame, w, h) && tx < TilesIn(w) && ty < TilesIn(h) && q < RowCount(h, ty) && b < RowLen(w, tx)
    ensures var i := (32 * ty + q) * (4 * w) + (128 * tx + b);
            i < |frame| && b < |TileRow(frame, w, tx, ty, q)| && TileRow(frame, w, tx, ty, q)[b] == frame[i]
  {
    hide TilesIn, TileRow, RowLen, RowCount;
    RowInFrame(frame, w, h, tx, ty, q);
  }

  /** One more byte. */
  lemma DiffStep(cur: seq<byte>, was: seq<byte>, w: nat, tx: nat, ty: nat, len: nat, q: nat, k: nat)
    requires k < len
    ensures |DiffUpto(cur, was, w, tx, ty, len, q, k + 1)|
         == |DiffUpto(cur, was, w, tx, ty, len, q, k)| + if Differs(cur, was, w, tx, ty, q, k) then 1 else 0
  {
    hide Differs, DiffUpto;
    var s, s' := DiffUpto(cur, was, w, tx, ty, len, q, k), DiffUpto(cur, was, w, tx, ty, len, q, k + 1);
    forall r: nat, b: nat
      ensures (r, b) in s' <==> (r, b) in s || (r == q && b == k && Differs(cur, was, w, tx, ty, q, k))
    {
      InDiff(cur, was, w, tx, ty, len, q, k, r, b);
      InDiff(cur, was, w, tx, ty, len, q, k + 1, r, b);
    }
    InDiff(cur, was, w, tx, ty, len, q, k, q, k);
    OneMoreIn(s, s', (q, k), Differs(cur, was, w, tx, ty, q, k));
  }

  lemma InDiff(cur: seq<byte>, was: seq<byte>, w: nat, tx: nat, ty: nat, len: nat, q: nat, k: nat, r: nat, b: nat)
    ensures (r, b) in DiffUpto(cur, was, w, tx, ty, len, q, k) <==>
            r <= q && b < len && (r < q || b < k) && Differs(cur, was, w, tx, ty, r, b)
  {
    hide Differs;
  }

  lemma OneMoreIn(s: set<(nat, nat)>, s': set<(nat, nat)>, p: (nat, nat), more: bool)
    requires p !in s && forall r: nat, b: nat :: (r, b) in s' <==> (r, b) in s || ((r, b) == p && more)
    ensures |s'| == |s| + if more then 1 else 0
  {
    forall x: (nat, nat) ensures x in s' <==> x in s || (x == p && more) {
      assert x == (x.0, x.1);
    }
    if more {
      assert s' == s + {p};
    } else {
      assert s' == s;
    }
  }

  lemma RowTurns(cur: seq<byte>, was: seq<byte>, w: nat, tx: nat, ty: nat, len: nat, q: nat)
    ensures DiffUpto(cur, was, w, tx, ty, len, q, len) == DiffUpto(cur, was, w, tx, ty, len, q + 1, 0)
    ensures DiffUpto(cur, was, w, tx, ty, len, 0, 0) == {}
  {
    hide Differs;
  }

  /** A partly counted row. */
  lemma {:induction false} RowDiffCounts(cur: seq<byte>, was: seq<byte>, w: nat, h: nat, tx: nat, ty: nat, len: nat,
                                         q: nat, k: nat)
    requires IsFrame(cur, w, h) && IsFrame(was, w, h) && tx < TilesIn(w) && ty < TilesIn(h)
    requires q < RowCount(h, ty) && k <= len == RowLen(w, tx)
    ensures var a, b := TileRow(cur, w, tx, ty, q), TileRow(was, w, tx, ty, q);
            && |a| == |b| == len
            && |DiffUpto(cur, was, w, tx, ty, len, q, k)|
               == |DiffUpto(cur, was, w, tx, ty, len, q, 0)| + CountDiff(a[..k], b[..k])
  {
    hide TilesIn, TileRow, RowLen, RowCount, Differs, IsFrame, DiffUpto;
    RowInFrame(cur, w, h, tx, ty, q);
    RowInFrame(was, w, h, tx, ty, q);
    var a, b := TileRow(cur, w, tx, ty, q), TileRow(was, w, tx, ty, q);
    if k > 0 {
      RowDiffCounts(cur, was, w, h, tx, ty, len, q, k - 1);
      DiffStep(cur, was, w, tx, ty, len, q, k - 1);
      assert a[..k] == a[..k - 1] + [a[k - 1]] && b[..k] == b[..k - 1] + [b[k - 1]];
      CountDiffAppend(a[..k - 1], b[..k - 1], [a[k - 1]], [b[k - 1]]);
      CountOne(a[k - 1], b[k - 1]);
      DiffersHere(cur, was, w, h, tx, ty, q, k - 1);
    }
  }

  lemma DiffersHere(cur: seq<byte>, was: seq<byte>, w: nat, h: nat, tx: nat, ty: nat, q: nat, b: nat)
    requires IsFrame(cur, w, h) && IsFrame(was, w, h) && tx < TilesIn(w) && ty < TilesIn(h)
    requires q < RowCount(h, ty) && b < RowLen(w, tx)
    ensures b < |TileRow(cur, w, tx, ty, q)| && b < |TileRow(was, w, tx, ty, q)|
    ensures Differs(cur, was, w, tx, ty, q, b) <==> TileRow(cur, w, tx, ty, q)[b] != TileRow(was, w, tx, ty, q)[b]
  {
    hide TilesIn, TileRow, RowLen, RowCount, IsFrame;
    RowByte(cur, w, h, tx, ty, q, b);
    RowByte(was, w, h, tx, ty, q, b);
  }

  /** The bytes counted row by row are the differing bytes of the tile. */
  lemma {:induction false} TileDiffCounts(cur: seq<byte>, was: seq<byte>, w: nat, h: nat, tx: nat, ty: nat, len: nat,
                                          q: nat)
    requires IsFrame(cur, w, h) && IsFrame(was, w, h) && tx < TilesIn(w) && ty < TilesIn(h)
    requires q <= RowCount(h, ty) && len == RowLen(w, tx)
    ensures TileDiff(cur, was, w, tx, ty, q) == |DiffUpto(cur, was, w, tx, ty, len, q, 0)|
  {
    hide TilesIn, TileRow, RowLen, RowCount, Differs, IsFrame, DiffUpto;
    if q > 0 {
      TileDiffCounts(cur, was, w, h, tx, ty, len, q - 1);
      RowDiffCounts(cur, was, w, h, tx, ty, len, q - 1, len);
      var a, b := TileRow(cur, w, tx, ty, q - 1), TileRow(was, w, tx, ty, q - 1);
      assert a[..len] == a && b[..len] == b;
      RowTurns(cur, was, w, tx, ty, len, q - 1);
    } else {
      RowTurns(cur, was, w, tx, ty, len, 0);
    }
  }

  lemma MotionIsShare(cur: seq<byte>, was: seq<byte>, w: nat, h: nat, tx: nat, ty: nat)
    requires IsFrame(cur, w, h) && IsFrame(was, w, h) && tx < TilesIn(w) && ty < TilesIn(h)
    ensures 32 * tx < w && 32 * ty < h && Motion(cur, was, w, h, tx, ty) == Share(cur, was, w, h, tx, ty)
  {
    hide TileDiff, DiffUpto, IsFrame;
    TileShape(w, h, tx, ty);
    var rows: nat, len: nat := RowCount(h, ty), RowLen(w, tx);
    TileDiffCounts(cur, was, w, h, tx, ty, len, rows);
    Positive(rows, len);
  }

  lemma ChangedIsShare(frames: seq<seq<byte>>, w: nat, h: nat, tx: nat, ty: nat)
    requires tx < TilesIn(w) && ty < TilesIn(h) && |frames| >= 2
    requires forall i :: 0 <= i < |frames| ==> IsFrame(frames[i], w, h)
    ensures 32 * tx < w && 32 * ty < h
    ensures var x := Share(frames[|frames| - 1], frames[|frames| - 2], w, h, tx, ty);
            x >= 0.0 && (Changed(frames, w, h, tx, ty) <==> x > 0.0)
  {
    hide TileSame, IsFrame, Motion, TilesIn, Share;
    MotionIsShare(frames[|frames| - 1], frames[|frames| - 2], w, h, tx, ty);
    MotionRange(frames[|frames| - 1], frames[|frames| - 2], w, h, tx, ty);
  }

  /** A run of `k` unchanged frames, frame by frame. */
  lemma {:induction false} RunIsStill(frames: seq<seq<byte>>, w: nat, h: nat, tx: nat, ty: nat, k: nat)
    requires tx < TilesIn(w) && ty < TilesIn(h) && forall i :: 0 <= i < |frames| ==> IsFrame(frames[i], w, h)
    ensures 32 * tx < w && 32 * ty < h
    ensures UnchangedRun(frames, w, h, tx, ty) >= k <==>
            |frames| >= k && forall i :: |frames| - k <= i < |frames| && i > 0 ==>
              Share(frames[i], frames[i - 1], w, h, tx, ty) == 0.0
  {
    hide IsFrame, Changed, Share;
    var n := |frames|;
    if n > 0 && k > 0 {
      var rest := frames[..n - 1];
      RunIsStill(rest, w, h, tx, ty, k - 1);
      if n >= 2 {
        ChangedIsShare(frames, w, h, tx, ty);
      } else {
        OneFrame(frames, w, h, tx, ty);
      }
    }
  }

  lemma OneFrame(frames: seq<seq<byte>>, w: nat, h: nat, tx: nat, ty: nat)
    requires |frames| < 2
    ensures !Changed(frames, w, h, tx, ty)
  {
  }

  lemma SurpriseIsSurprising(frames: seq<seq<byte>>, w: nat, h: nat, tx: nat, ty: nat)
    requires frames != [] && tx < TilesIn(w) && ty < TilesIn(h)
    requires forall i :: 0 <= i < |frames| ==> IsFrame(frames[i], w, h)
    ensures 32 * tx < w && 32 * ty < h
    ensures Surprise(frames, w, h, tx, ty) == if Surprising(frames, w, h, tx, ty) then 1.0 else 0.0
  {
    hide IsFrame, Changed, Share, UnchangedRun;
    var n := |frames|;
    var rest := frames[..n - 1];
    RunIsStill(rest, w, h, tx, ty, 8);
    if n >= 2 {
      ChangedIsShare(frames, w, h, tx, ty);
    } else {
      OneFrame(frames, w, h, tx, ty);
    }
  }

  lemma TargetIsNearness(tx: nat, ty: nat, focus: Option<(nat, nat)>)
    ensures Target(tx, ty, focus) == Nearness(tx, ty, focus)
  {
  }

  /** The value of one tile. */
  lemma PriorityIsWorth(frames: seq<seq<byte>>, w: nat, h: nat, tx: nat, ty: nat, focus: Option<(nat, nat)>, mode: Mode)
    requires frames != [] && tx < TilesIn(w) && ty < TilesIn(h)
    requires forall i :: 0 <= i < |frames| ==> IsFrame(frames[i], w, h)
    ensures 32 * tx < w && 32 * ty < h
    ensures var n := |frames|;
            var moved := if n < 2 then 0.0 else Share(frames[n - 1], frames[n - 2], w, h, tx, ty);
            Priority(frames, w, h, tx, ty, focus, mode)
            == Worth(mode, moved, Nearness(tx, ty, focus), Surprising(frames, w, h, tx, ty))
  {
    hide IsFrame, Motion, Share, Surprise, Surprising, Target, Nearness;
    SurpriseIsSurprising(frames, w, h, tx, ty);
    TargetIsNearness(tx, ty, focus);
    if |frames| >= 2 {
      MotionIsShare(frames[|frames| - 1], frames[|frames| - 2], w, h, tx, ty);
    }
  }

  lemma MapMeans(m: seq<real>, frames: seq<seq<byte>>, w: nat, h: nat, focus: Option<(nat, nat)>, mode: Mode)
    requires MapOf(m, frames, w, h, focus, mode) && forall i :: 0 <= i < |frames| ==> IsFrame(frames[i], w, h)
    ensures MapSays(m, frames, w, h, focus, mode)
  {
    hide IsFrame, Share, Priority, Worth, Surprising, Nearness;
    forall tx: nat, ty: nat | 32 * tx < w && 32 * ty < h
      ensures var cols, n := (w + 31) / 32, |frames|;
              var moved := if n < 2 then 0.0 else Share(frames[n - 1], frames[n - 2], w, h, tx, ty);
              && ty * cols + tx < |m|
              && m[ty * cols + tx] == Worth(mode, moved, Nearness(tx, ty, focus), Surprising(frames, w, h, tx, ty))
    {
      PriorityIsWorth(frames, w, h, tx, ty, focus, mode);
      assert TileId(w, tx, ty) == ty * ((w + 31) / 32) + tx;
    }
  }

  // ----- tile states in mid-pass

  predicate TileBefore(tx': nat, ty': nat, tx: nat, ty: nat) {
    ty' < ty || (ty' == ty && tx' < tx)
  }

  ghost predicate Streaks(streaks: seq<u32>, frames: seq<seq<byte>>, w: nat, h: nat) {
    && |streaks| == TileCount(w, h)
    && forall tx: nat, ty: nat | tx < TilesIn(w) && ty < TilesIn(h) ::
         && TileId(w, tx, ty) < |streaks|
         && streaks[TileId(w, tx, ty)] == Min(UnchangedRun(frames, w, h, tx, ty), U32_MAX)
  }

  /** The counters while frame number `|frames|` is processed up to tile `(tx, ty)`. */
  ghost predicate MidStreaks(streaks: seq<u32>, frames: seq<seq<byte>>, frames': seq<seq<byte>>, w: nat, h: nat,
                             tx: nat, ty: nat)
  {
    && |streaks| == TileCount(w, h)
    && forall tx': nat, ty': nat | tx' < TilesIn(w) && ty' < TilesIn(h) ::
         && TileId(w, tx', ty') < |streaks|
         && streaks[TileId(w, tx', ty')]
            == Min(UnchangedRun(if TileBefore(tx', ty', tx, ty) then frames' else frames, w, h, tx', ty'), U32_MAX)
  }

  ghost predicate MidMap(m: seq<real>, frames: seq<seq<byte>>, w: nat, h: nat, focus: Option<(nat, nat)>, mode: Mode,
                         tx: nat, ty: nat)
  {
    && |m| == TileCount(w, h) && frames != []
    && forall tx': nat, ty': nat | tx' < TilesIn(w) && ty' < TilesIn(h) && TileBefore(tx', ty', tx, ty) ::
         && TileId(w, tx', ty') < |m|
         && m[TileId(w, tx', ty')] == Priority(frames, w, h, tx', ty', focus, mode)
  }

  ghost predicate MapOf(m: seq<real>, frames: seq<seq<byte>>, w: nat, h: nat, focus: Option<(nat, nat)>, mode: Mode) {
    && |m| == TileCount(w, h) && frames != []
    && forall tx: nat, ty: nat | tx < TilesIn(w) && ty < TilesIn(h) ::
         && TileId(w, tx, ty) < |m|
         && m[TileId(w, tx, ty)] == Priority(frames, w, h, tx, ty, focus, mode)
  }

  lemma TileIdUnique(w: nat, h: nat, tx: nat, ty: nat, tx': nat, ty': nat)
    requires tx < TilesIn(w) && ty < TilesIn(h) && tx' < TilesIn(w) && ty' < TilesIn(h)
    ensures TileId(w, tx, ty) == TileId(w, tx', ty') <==> tx == tx' && ty == ty'
  {
    hide TilesIn;
    TileIdSplits(w, h, tx, ty);
    TileIdSplits(w, h, tx', ty');
  }

  lemma MidStreaksStep(streaks: seq<u32>, streaks': seq<u32>, frames: seq<seq<byte>>, frames': seq<seq<byte>>,
                       w: nat, h: nat, tx: nat, ty: nat)
    requires tx < TilesIn(w) && ty < TilesIn(h) && MidStreaks(streaks, frames, frames', w, h, tx, ty)
    requires TileId(w, tx, ty) < |streaks|
    requires var s := Min(UnchangedRun(frames', w, h, tx, ty), U32_MAX); streaks' == streaks[TileId(w, tx, ty) := s]
    ensures MidStreaks(streaks', frames, frames', w, h, tx + 1, ty)
  {
    hide TilesIn, TileId, UnchangedRun, TileCount;
    forall tx': nat, ty': nat | tx' < TilesIn(w) && ty' < TilesIn(h)
      ensures && TileId(w, tx', ty') < |streaks'|
              && streaks'[TileId(w, tx', ty')]
                 == Min(UnchangedRun(if TileBefore(tx', ty', tx + 1, ty) then frames' else frames, w, h, tx', ty'),
                        U32_MAX)
    {
      TileIdUnique(w, h, tx, ty, tx', ty');
    }
  }

  lemma MidMapStep(m: seq<real>, m': seq<real>, frames: seq<seq<byte>>, w: nat, h: nat, focus: Option<(nat, nat)>,
                   mode: Mode, tx: nat, ty: nat)
    requires tx < TilesIn(w) && ty < TilesIn(h) && MidMap(m, frames, w, h, focus, mode, tx, ty)
    requires TileId(w, tx, ty) < |m|
    requires m' == m[TileId(w, tx, ty) := Priority(frames, w, h, tx, ty, focus, mode)]
    ensures MidMap(m', frames, w, h, focus, mode, tx + 1, ty)
  {
    hide TilesIn, TileId, Priority, TileCount;
    forall tx': nat, ty': nat | tx' < TilesIn(w) && ty' < TilesIn(h) && TileBefore(tx', ty', tx + 1, ty)
      ensures && TileId(w, tx', ty') < |m'|
              && m'[TileId(w, tx', ty')] == Priority(frames, w, h, tx', ty', focus, mode)
    {
      TileIdUnique(w, h, tx, ty, tx', ty');
      TileIdSplits(w, h, tx', ty');
    }
  }

  /** Between tile rows, at the start and at the end of the pass. */
  lemma TilesTurn(streaks: seq<u32>, m: seq<real>, frames: seq<seq<byte>>, frames': seq<seq<byte>>,
                  w: nat, h: nat, focus: Option<(nat, nat)>, mode: Mode, ty: nat)
    requires MidStreaks(streaks, frames, frames', w, h, TilesIn(w), ty)
    requires MidMap(m, frames', w, h, focus, mode, TilesIn(w), ty)
    ensures MidStreaks(streaks, frames, frames', w, h, 0, ty + 1)
    ensures MidMap(m, frames', w, h, focus, mode, 0, ty + 1)
  {
    hide TilesIn, TileId, Priority, UnchangedRun, TileCount;
  }

  lemma TilesStart(streaks: seq<u32>, m: seq<real>, frames: seq<seq<byte>>, frames': seq<seq<byte>>,
                   w: nat, h: nat, focus: Option<(nat, nat)>, mode: Mode)
    requires Streaks(streaks, frames, w, h) && |m| == TileCount(w, h) && frames' != []
    ensures MidStreaks(streaks, frames, frames', w, h, 0, 0)
    ensures MidMap(m, frames', w, h, focus, mode, 0, 0)
  {
    hide TilesIn, TileId, Priority, UnchangedRun, TileCount;
  }

  lemma TilesEnd(streaks: seq<u32>, m: seq<real>, frames: seq<seq<byte>>, frames': seq<seq<byte>>,
                 w: nat, h: nat, focus: Option<(nat, nat)>, mode: Mode)
    requires MidStreaks(streaks, frames, frames', w, h, 0, TilesIn(h))
    requires MidMap(m, frames', w, h, focus, mode, 0, TilesIn(h))
    ensures Streaks(streaks, frames', w, h)
    ensures MapOf(m, frames', w, h, focus, mode)
  {
    hide TilesIn, TileId, Priority, UnchangedRun, TileCount;
  }

  lemma NoFrames(streaks: seq<u32>, w: nat, h: nat)
    requires |streaks| == TileCount(w, h) && forall i :: 0 <= i < |streaks| ==> streaks[i] == 0
    ensures Streaks(streaks, [], w, h)
  {
    hide TilesIn, TileId, TileCount;
    forall tx: nat, ty: nat | tx < TilesIn(w) && ty < TilesIn(h) ensures TileId(w, tx, ty) < |streaks| {
      TileIdSplits(w, h, tx, ty);
    }
  }

  class AttentionMapBuilder {
    const width: nat
    const height: nat
    const tilesX: nat
    const tilesY: nat
    const staticStreak: array<u32>
    const prevFrame: array<byte>
    var havePrev: bool
    ghost var history: seq<seq<byte>>

    ghost predicate Shape() {
      && tilesX == TilesIn(width) && tilesY == TilesIn(height)
      && staticStreak.Length == TileCount(width, height)
      && prevFrame.Length == height * (4 * width)
    }

    /** After every call the stored frame is the last input, and the counters are the unchanged runs. */
    ghost predicate Valid()
      reads this, staticStreak, prevFrame
    {
      && Shape()
      && havePrev == (history != [])
      && (forall i :: 0 <= i < |history| ==> IsFrame(history[i], width, height))
      && (havePrev ==> prevFrame[..] == history[|history| - 1])
      && Streaks(staticStreak[..], history, width, height)
    }

    constructor (w: nat, h: nat)
      ensures Valid() && width == w && height == h && history == []
      ensures fresh(staticStreak) && fresh(prevFrame)
    {
      width, height := w, h;
      tilesX, tilesY := TilesIn(w), TilesIn(h);
      staticStreak := new u32[TileCount(w, h)](_ => 0);
      prevFrame := new byte[h * (4 * w)](_ => 0);
      havePrev, history := false, [];
      new;
      hide TileCount, TilesIn;
      NoFrames(staticStreak[..], w, h);
    }

    /** `tile_motion_ratio_and_update`: the motion of a tile against the untouched previous frame, which is
        replaced in this tile and nowhere else. */
    method TileMotionAndUpdate(wide: bool, bgra: seq<byte>, ghost was: seq<byte>, tx: nat, ty: nat) returns (r: real)
      requires Shape() && tx < tilesX && ty < tilesY
      requires MidPass(prevFrame[..], was, bgra, width, height, tx, ty, 0)
      modifies prevFrame
      ensures r == Motion(bgra, was, width, height, tx, ty)
      ensures MidPass(prevFrame[..], was, bgra, width, height, tx + 1, ty, 0)
    {
      hide MidPass, TilesIn, RowLen, RowCount, TileDiff, Ratio, At;
      TileShape(width, height, tx, ty);
      var rows: nat, len: nat := RowCount(height, ty), RowLen(width, tx);
      var diff, total := 0, 0;
      TileDiffStart(bgra, was, width, tx, ty);
      for q := 0 to rows
        invariant MidPass(prevFrame[..], was, bgra, width, height, tx, ty, q)
        invariant diff == TileDiff(bgra, was, width, tx, ty, q) && total == q * len
      {
        var d := ScanTileRow(wide, bgra, was, tx, ty, q);
        TileDiffStep(bgra, was, width, tx, ty, q);
        diff, total := diff + d, total + len;
      }
      TileEnds(prevFrame[..], was, bgra, width, height, tx, ty, rows);
      r := Ratio(diff, total);
    }

    method ScanTileRow(wide: bool, bgra: seq<byte>, ghost was: seq<byte>, tx: nat, ty: nat, q: nat) returns (d: nat)
      requires Shape() && tx < tilesX && ty < tilesY && q < RowCount(height, ty)
      requires MidPass(prevFrame[..], was, bgra, width, height, tx, ty, q)
      modifies prevFrame
      ensures d == CountDiff(TileRow(bgra, width, tx, ty, q), TileRow(was, width, tx, ty, q))
      ensures MidPass(prevFrame[..], was, bgra, width, height, tx, ty, q + 1)
    {
      hide MidPass, TilesIn, RowLen, RowCount, At, CountDiff, TileRow, Overwritten;
      ghost var now := prevFrame[..];
      MidPassFrames(now, was, bgra, width, height, tx, ty, q);
      RowInFrame(now, width, height, tx, ty, q);
      RowInFrame(bgra, width, height, tx, ty, q);
      RowStillOld(now, was, bgra, width, height, tx, ty, q);
      var lo := At(width, TILE_PX * ty + q, ROW_BYTES * tx);
      var hi := lo + RowLen(width, tx);
      assert prevFrame[lo..hi] == now[lo..hi];
      d := Scan(wide, bgra, prevFrame, lo, hi);
      RowStep(now, prevFrame[..], was, bgra, width, height, tx, ty, q);
    }

    /** One tile of the pass. */
    method ComputeTile(wide: bool, bgra: seq<byte>, ghost was: seq<byte>, focus: Option<(nat, nat)>, mode: Mode,
                       m: array<real>, tx: nat, ty: nat)
      requires Shape() && tx < tilesX && ty < tilesY && m.Length == TileCount(width, height)
      requires havePrev == (history != [])
      requires forall i :: 0 <= i < |history| ==> IsFrame(history[i], width, height)
      requires IsFrame(bgra, width, height)
      requires if havePrev then
                 was == history[|history| - 1] && MidPass(prevFrame[..], was, bgra, width, height, tx, ty, 0)
               else prevFrame[..] == was
      requires MidStreaks(staticStreak[..], history, history + [bgra], width, height, tx, ty)
      requires MidMap(m[..], history + [bgra], width, height, focus, mode, tx, ty)
      modifies prevFrame, staticStreak, m
      ensures if havePrev then MidPass(prevFrame[..], was, bgra, width, height, tx + 1, ty, 0)
              else prevFrame[..] == was
      ensures MidStreaks(staticStreak[..], history, history + [bgra], width, height, tx + 1, ty)
      ensures MidMap(m[..], history + [bgra], width, height, focus, mode, tx + 1, ty)
    {
      hide MidPass, MidStreaks, MidMap, TilesIn, TileCount, IsFrame, Motion, UnchangedRun, Changed, Surprise, TileId;
      ghost var frames := history + [bgra];
      TileIdSplits(width, height, tx, ty);
      var idx := TileId(width, tx, ty);
      ghost var streaks, before := staticStreak[..], m[..];
      StreakAt(streaks, history, frames, width, height, tx, ty);
      LastMotionRange(frames, width, height, tx, ty);
      StreakStep(history, bgra, width, height, tx, ty, staticStreak[idx]);
      var motion := 0.0;
      if havePrev {
        motion := TileMotionAndUpdate(wide, bgra, was, tx, ty);
      }
      var dirty := motion > 0.0;
      var surprise := if havePrev && dirty && staticStreak[idx] >= SURPRISE_STREAK then 1.0 else 0.0;
      staticStreak[idx] := NextStreak(staticStreak[idx], dirty);
      var target := Target(tx, ty, focus);
      ClampIsIdle(mode, motion, target, surprise);
      SurpriseIsBinary(frames, width, height, tx, ty);
      m[idx] := Clamp(Weigh(ForMode(mode), motion, target, surprise));
      MidStreaksStep(streaks, staticStreak[..], history, frames, width, height, tx, ty);
      MidMapStep(before, m[..], frames, width, height, focus, mode, tx, ty);
    }

    /** `compute`: the map is that of a builder which keeps every frame and compares whole copies, and says what the
        weights of the mode make of it; the stored frame is the input. */
    method Compute(wide: bool, bgra: seq<byte>, focus: Option<(nat, nat)>, mode: Mode) returns (map': seq<real>)
      requires Valid() && IsFrame(bgra, width, height)
      modifies this, prevFrame, staticStreak
      ensures Valid() && prevFrame[..] == bgra
      ensures history == old(history) + [bgra]
      ensures MapOf(map', history, width, height, focus, mode) && MapSays(map', history, width, height, focus, mode)
    {
      hide MidPass, MidStreaks, MidMap, TilesIn, TileCount, Streaks, MapOf, MapSays, IsFrame;
      var m := new real[TileCount(width, height)](_ => 0.0);
      ghost var was, frames := prevFrame[..], history + [bgra];
      TilesStart(staticStreak[..], m[..], history, frames, width, height, focus, mode);
      if havePrev {
        PassStarts(was, bgra, width, height);
      }
      for ty := 0 to tilesY
        invariant history == old(history) && havePrev == old(havePrev)
        invariant if havePrev then MidPass(prevFrame[..], was, bgra, width, height, 0, ty, 0)
                  else prevFrame[..] == was
        invariant MidStreaks(staticStreak[..], history, frames, width, height, 0, ty)
        invariant MidMap(m[..], frames, width, height, focus, mode, 0, ty)
      {
        for tx := 0 to tilesX
          invariant history == old(history) && havePrev == old(havePrev)
          invariant if havePrev then MidPass(prevFrame[..], was, bgra, width, height, tx, ty, 0)
                    else prevFrame[..] == was
          invariant MidStreaks(staticStreak[..], history, frames, width, height, tx, ty)
          invariant MidMap(m[..], frames, width, height, focus, mode, tx, ty)
        {
          ComputeTile(wide, bgra, was, focus, mode, m, tx, ty);
        }
        if havePrev {
          TileRowEnds(prevFrame[..], was, bgra, width, height, ty);
        }
        TilesTurn(staticStreak[..], m[..], history, frames, width, height, focus, mode, ty);
      }
      TilesEnd(staticStreak[..], m[..], history, frames, width, height, focus, mode);
      if havePrev {
        PassEnds(prevFrame[..], was, bgra, width, height);
      } else {
        SeedFrame(bgra);
        havePrev := true;
      }
      history := frames;
      map' := m[..];
      MapMeans(map', frames, width, height, focus, mode);
    }

    /** `copy_from_slice` on the first frame. */
    method SeedFrame(bgra: seq<byte>)
      requires Shape() && IsFrame(bgra, width, height)
      modifies prevFrame
      ensures prevFrame[..] == bgra
    {
      CopyRange(bgra, prevFrame, 0, prevFrame.Length);
    }
  }

  /** One call of a session. */
  datatype Input = Input(bgra: seq<byte>, focus: Option<(nat, nat)>, mode: Mode, wide: bool)

  function Frames(inputs: seq<Input>): (frames: seq<seq<byte>>)
    ensures |frames| == |inputs|
    ensures forall i :: 0 <= i < |frames| ==> frames[i] == inputs[i].bgra
  {
    seq(|inputs|, i requires 0 <= i < |inputs| => inputs[i].bgra)
  }

  /** Any session: the last map depends on all frames exactly as `Priority` says. */
  method RunSession(w: nat, h: nat, inputs: seq<Input>) returns (m: seq<real>)
    requires inputs != [] && forall i :: 0 <= i < |inputs| ==> IsFrame(inputs[i].bgra, w, h)
    ensures var last := inputs[|inputs| - 1];
            && MapOf(m, Frames(inputs), w, h, last.focus, last.mode)
            && MapSays(m, Frames(inputs), w, h, last.focus, last.mode)
  {
    hide MapOf, MapSays, IsFrame, Streaks;
    var builder := new AttentionMapBuilder(w, h);
    m := [];
    for i := 0 to |inputs|
      invariant builder.Valid() && builder.width == w && builder.height == h
      invariant fresh(builder.prevFrame) && fresh(builder.staticStreak)
      invariant builder.history == Frames(inputs)[..i]
      invariant i > 0 ==> MapOf(m, Frames(inputs)[..i], w, h, inputs[i - 1].focus, inputs[i - 1].mode)
                          && MapSays(m, Frames(inputs)[..i], w, h, inputs[i - 1].focus, inputs[i - 1].mode)
    {
      m := builder.Compute(inputs[i].wide, inputs[i].bgra, inputs[i].focus, inputs[i].mode);
      assert Frames(inputs)[..i + 1] == Frames(inputs)[..i] + [inputs[i].bgra];
    }
    assert Frames(inputs)[..|inputs|] == Frames(inputs);
  }

  lemma TileDiffStart(cur: seq<byte>, was: seq<byte>, w: nat, tx: nat, ty: nat)
    ensures TileDiff(cur, was, w, tx, ty, 0) == 0
  {
  }

  lemma TileDiffStep(cur: seq<byte>, was: seq<byte>, w: nat, tx: nat, ty: nat, q: nat)
    ensures TileDiff(cur, was, w, tx, ty, q + 1)
         == TileDiff(cur, was, w, tx, ty, q) + CountDiff(TileRow(cur, w, tx, ty, q), TileRow(was, w, tx, ty, q))
  {
  }

  lemma MidPassFrames(now: seq<byte>, was: seq<byte>, cur: seq<byte>, w: nat, h: nat, tx: nat, ty: nat, q: nat)
    requires MidPass(now, was, cur, w, h, tx, ty, q)
    ensures IsFrame(now, w, h) && IsFrame(was, w, h) && IsFrame(cur, w, h)
  {
  }

  lemma StreakAt(streaks: seq<u32>, frames: seq<seq<byte>>, frames': seq<seq<byte>>, w: nat, h: nat, tx: nat, ty: nat)
    requires tx < TilesIn(w) && ty < TilesIn(h) && MidStreaks(streaks, frames, frames', w, h, tx, ty)
    ensures TileId(w, tx, ty) < |streaks|
    ensures streaks[TileId(w, tx, ty)] == Min(UnchangedRun(frames, w, h, tx, ty), U32_MAX)
  {
    hide TilesIn, TileId, UnchangedRun;
  }

  lemma SurpriseIsBinary(frames: seq<seq<byte>>, w: nat, h: nat, tx: nat, ty: nat)
    requires frames != []
    ensures Surprise(frames, w, h, tx, ty) == 1.0 || Surprise(frames, w, h, tx, ty) == 0.0
  {
  }
}
