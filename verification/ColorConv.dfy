/** BGRA to planar I420 and to NV12, with the limited-range integer coefficients of Recommendation
    ITU-R BT.601. */
module ColorConv {
  import opened Bytes
  import opened TileGrid

  datatype Rgb = Rgb(r: byte, g: byte, b: byte)

  function Luma(p: Rgb): (y: byte)
    ensures 16 <= y <= 235
  {
    (66 * (p.r as int) + 129 * (p.g as int) + 25 * (p.b as int) + 128 + 16 * 256) / 256
  }

  function Cb(p: Rgb): (u: byte)
    ensures 16 <= u <= 240
  {
    (-38 * (p.r as int) - 74 * (p.g as int) + 112 * (p.b as int) + 128 + 128 * 256) / 256
  }

  function Cr(p: Rgb): (v: byte)
    ensures 16 <= v <= 240
  {
    (112 * (p.r as int) - 94 * (p.g as int) - 18 * (p.b as int) + 128 + 128 * 256) / 256
  }

  /** Black, white and greys have neutral chroma; black and white have the ends of the luma range. */
  lemma GreyIsNeutral(v: byte)
    ensures Cb(Rgb(v, v, v)) == 128 && Cr(Rgb(v, v, v)) == 128
    ensures Luma(Rgb(0, 0, 0)) == 16 && Luma(Rgb(255, 255, 255)) == 235
  {
  }

  /** The luma of Recommendation BT.601 for colours between 0 and 1. */
  function ExactLuma(r: real, g: real, b: real): real {
    0.299 * r + 0.587 * g + 0.114 * b
  }

  function Unit(x: byte): real {
    x as real / 255.0
  }

  /** The integer forms are within one step of the quantised signals of section 2.5.3 of Recommendation
      ITU-R BT.601-7: 219 steps of luma from 16, and 224 steps of each colour difference around 128. */
  lemma WithinOneStep(p: Rgb)
    ensures var r, g, b := Unit(p.r), Unit(p.g), Unit(p.b);
            var y := ExactLuma(r, g, b);
            && -1.0 < Luma(p) as real - (219.0 * y + 16.0) < 1.0
            && -1.0 < Cb(p) as real - (224.0 * ((b - y) / 1.772) + 128.0) < 1.0
            && -1.0 < Cr(p) as real - (224.0 * ((r - y) / 1.402) + 128.0) < 1.0
  {
    LumaWithinOneStep(p);
    CbWithinOneStep(p);
    CrWithinOneStep(p);
  }

  lemma Floor256(n: int)
    ensures n as real / 256.0 - 1.0 < (n / 256) as real <= n as real / 256.0
  {
    assert n == 256 * (n / 256) + n % 256;
  }

  lemma LumaWithinOneStep(p: Rgb)
    ensures -1.0 < Luma(p) as real - (219.0 * ExactLuma(Unit(p.r), Unit(p.g), Unit(p.b)) + 16.0) < 1.0
  {
    Floor256(66 * (p.r as int) + 129 * (p.g as int) + 25 * (p.b as int) + 128 + 16 * 256);
  }

  lemma CbWithinOneStep(p: Rgb)
    ensures var y := ExactLuma(Unit(p.r), Unit(p.g), Unit(p.b));
            -1.0 < Cb(p) as real - (224.0 * ((Unit(p.b) - y) / 1.772) + 128.0) < 1.0
  {
    Floor256(-38 * (p.r as int) - 74 * (p.g as int) + 112 * (p.b as int) + 128 + 128 * 256);
  }

  lemma CrWithinOneStep(p: Rgb)
    ensures var y := ExactLuma(Unit(p.r), Unit(p.g), Unit(p.b));
            -1.0 < Cr(p) as real - (224.0 * ((Unit(p.r) - y) / 1.402) + 128.0) < 1.0
  {
    Floor256(112 * (p.r as int) - 94 * (p.g as int) - 18 * (p.b as int) + 128 + 128 * 256);
  }

  function Rounded(a: byte, b: byte, c: byte, d: byte): byte {
    ((a as int) + (b as int) + (c as int) + (d as int) + 2) / 4
  }

  function Average(p: Rgb, q: Rgb, s: Rgb, t: Rgb): Rgb {
    Rgb(Rounded(p.r, q.r, s.r, t.r), Rounded(p.g, q.g, s.g, t.g), Rounded(p.b, q.b, s.b, t.b))
  }

  // ----- the meaning of the planes

  /** The number of pixels of a plane. */
  function Area(w: nat, h: nat): nat {
    w * h
  }

  function Idx(w: nat, y: nat, x: nat): nat {
    y * w + x
  }

  lemma IdxBound(w: nat, h: nat, y: nat, x: nat)
    requires y < h && x < w
    ensures Idx(w, y, x) < Area(w, h)
  {
    RowMajor(y, h, w, x);
  }

  /** Every position is that of a row and a column. */
  lemma IdxSplit(w: nat, h: nat, k: nat) returns (y: nat, x: nat)
    requires k < Area(w, h)
    ensures y < h && x < w && Idx(w, y, x) == k
  {
    y, x := RowMajorSplit(k, h, w);
  }

  lemma IdxUnique(w: nat, y: nat, x: nat, y': nat, x': nat)
    requires x < w && x' < w
    ensures Idx(w, y, x) == Idx(w, y', x') <==> y == y' && x == x'
  {
    DivMod(y, w, x);
    DivMod(y', w, x');
  }

  /** Pixel number `i` of a buffer; black beyond its end. */
  function Px(frame: seq<byte>, i: nat): Rgb {
    if 4 * i + 2 < |frame| then Rgb(frame[4 * i + 2], frame[4 * i + 1], frame[4 * i]) else Rgb(0, 0, 0)
  }

  function LumaAt(frame: seq<byte>, w: nat, y: nat, x: nat): byte {
    Luma(Px(frame, Idx(w, y, x)))
  }

  /** The average colour of a 2 by 2 block. */
  function BlockColor(frame: seq<byte>, w: nat, cy: nat, cx: nat): Rgb {
    Average(Px(frame, Idx(w, 2 * cy, 2 * cx)), Px(frame, Idx(w, 2 * cy, 2 * cx + 1)),
            Px(frame, Idx(w, 2 * cy + 1, 2 * cx)), Px(frame, Idx(w, 2 * cy + 1, 2 * cx + 1)))
  }

  /** Whether block `(cy, cx)` comes before `(rp, cp)` row by row. */
  predicate Before(cy: nat, cx: nat, rp: nat, cp: nat) {
    cy < rp || (cy == rp && cx < cp)
  }

  ghost predicate LumaDone(yp: seq<byte>, frame: seq<byte>, w: nat, h: nat, rp: nat, cp: nat) {
    && Area(w, h) <= |yp|
    && forall y: nat, x: nat | y < h && x < w && Before(y / 2, x / 2, rp, cp) ::
         Idx(w, y, x) < |yp| && yp[Idx(w, y, x)] == LumaAt(frame, w, y, x)
  }

  ghost predicate PlanarDone(up: seq<byte>, vp: seq<byte>, frame: seq<byte>, w: nat, h: nat, rp: nat, cp: nat) {
    && |up| == |vp| == Area(w / 2, h / 2)
    && forall cy: nat, cx: nat | cy < h / 2 && cx < w / 2 && Before(cy, cx, rp, cp) ::
         && Idx(w / 2, cy, cx) < |up|
         && up[Idx(w / 2, cy, cx)] == Cb(BlockColor(frame, w, cy, cx))
         && vp[Idx(w / 2, cy, cx)] == Cr(BlockColor(frame, w, cy, cx))
  }

  /** Pairs of chroma bytes from index `off` on. */
  function PairIdx(off: nat, w: nat, cy: nat, cx: nat): nat {
    off + 2 * Idx(w / 2, cy, cx)
  }

  ghost predicate PairsDone(out: seq<byte>, off: nat, frame: seq<byte>, w: nat, h: nat, rp: nat, cp: nat) {
    && |out| == off + 2 * Area(w / 2, h / 2)
    && forall cy: nat, cx: nat | cy < h / 2 && cx < w / 2 && Before(cy, cx, rp, cp) ::
         && PairIdx(off, w, cy, cx) + 1 < |out|
         && out[PairIdx(off, w, cy, cx)] == Cb(BlockColor(frame, w, cy, cx))
         && out[PairIdx(off, w, cy, cx) + 1] == Cr(BlockColor(frame, w, cy, cx))
  }

  /** Planes that hold the I420 form of a `w` by `h` frame. */
  ghost predicate IsI420(yp: seq<byte>, up: seq<byte>, vp: seq<byte>, frame: seq<byte>, w: nat, h: nat) {
    |yp| == Area(w, h) && LumaDone(yp, frame, w, h, h / 2, 0) && PlanarDone(up, vp, frame, w, h, h / 2, 0)
  }

  /** A buffer that holds the NV12 form of a `w` by `h` frame. */
  ghost predicate IsNv12(out: seq<byte>, frame: seq<byte>, w: nat, h: nat) {
    LumaDone(out, frame, w, h, h / 2, 0) && PairsDone(out, Area(w, h), frame, w, h, h / 2, 0)
  }

  predicate EvenSize(w: nat, h: nat) {
    w % 2 == 0 && h % 2 == 0
  }

  // ----- edge replication

  function ReplicatedByte(bgra: seq<byte>, sw: nat, sh: nat, dw: nat, k: nat): byte
    requires sw > 0 && sh > 0 && dw > 0
  {
    var i := 4 * Idx(sw, Min(k / 4 / dw, sh - 1), Min(k / 4 % dw, sw - 1)) + k % 4;
    if i < |bgra| then bgra[i] else 0
  }

  /** The source frame extended to `dw` by `dh` pixels by repeating its last column and row. */
  function Replicated(bgra: seq<byte>, sw: nat, sh: nat, dw: nat, dh: nat): (r: seq<byte>)
    requires sw > 0 && sh > 0 && dw > 0
    ensures |r| == 4 * Area(dw, dh)
  {
    seq<byte>(4 * Area(dw, dh), k requires 0 <= k < 4 * Area(dw, dh) => ReplicatedByte(bgra, sw, sh, dw, k))
  }

  lemma ReplicatedPx(bgra: seq<byte>, sw: nat, sh: nat, dw: nat, dh: nat, y: nat, x: nat)
    requires sw > 0 && sh > 0 && y < dh && x < dw && |bgra| >= 4 * Area(sw, sh)
    ensures Px(Replicated(bgra, sw, sh, dw, dh), Idx(dw, y, x)) == Px(bgra, Idx(sw, Min(y, sh - 1), Min(x, sw - 1)))
    ensures 4 * Idx(sw, Min(y, sh - 1), Min(x, sw - 1)) + 3 < |bgra|
  {
    hide Idx, ReplicatedByte, Area;
    var i, j := Idx(dw, y, x), Idx(sw, Min(y, sh - 1), Min(x, sw - 1));
    IdxBound(dw, dh, y, x);
    IdxBound(sw, sh, Min(y, sh - 1), Min(x, sw - 1));
    ReplicatedByteAt(bgra, sw, sh, dw, y, x, 0);
    ReplicatedByteAt(bgra, sw, sh, dw, y, x, 1);
    ReplicatedByteAt(bgra, sw, sh, dw, y, x, 2);
  }

  lemma ReplicatedByteAt(bgra: seq<byte>, sw: nat, sh: nat, dw: nat, y: nat, x: nat, k: nat)
    requires sw > 0 && sh > 0 && x < dw && k < 4
    ensures var j := 4 * Idx(sw, Min(y, sh - 1), Min(x, sw - 1)) + k;
            j < |bgra| ==> ReplicatedByte(bgra, sw, sh, dw, 4 * Idx(dw, y, x) + k) == bgra[j]
  {
    DivMod(y, dw, x);
    assert (4 * Idx(dw, y, x) + k) / 4 == Idx(dw, y, x) && (4 * Idx(dw, y, x) + k) % 4 == k;
  }

  /** Nothing is replicated when the sizes match. */
  lemma ReplicatedSame(bgra: seq<byte>, w: nat, h: nat)
    requires w > 0 && h > 0 && |bgra| >= 4 * Area(w, h)
    ensures Replicated(bgra, w, h, w, h) == bgra[..4 * Area(w, h)]
  {
    hide Idx, ReplicatedByte, Area;
    forall k: nat | k < 4 * Area(w, h) ensures ReplicatedByte(bgra, w, h, w, k) == bgra[k] {
      var y, x := IdxSplit(w, h, k / 4);
      ReplicatedByteAt(bgra, w, h, w, y, x, k % 4);
    }
  }

  // ----- one block

  datatype Block = Block(y00: byte, y01: byte, y10: byte, y11: byte, u: byte, v: byte)

  function BlockOf(frame: seq<byte>, w: nat, cy: nat, cx: nat): Block {
    Block(LumaAt(frame, w, 2 * cy, 2 * cx), LumaAt(frame, w, 2 * cy, 2 * cx + 1),
          LumaAt(frame, w, 2 * cy + 1, 2 * cx), LumaAt(frame, w, 2 * cy + 1, 2 * cx + 1),
          Cb(BlockColor(frame, w, cy, cx)), Cr(BlockColor(frame, w, cy, cx)))
  }

  /** The fast path reads the four pixels at their own offsets. */
  method FastBlock(bgra: seq<byte>, w: nat, h: nat, rp: nat, cp: nat) returns (b: Block)
    requires |bgra| >= 4 * Area(w, h) && EvenSize(w, h) && rp < h / 2 && cp < w / 2
    ensures b == BlockOf(bgra, w, rp, cp)
  {
    hide Luma, Cb, Cr, Rounded;
    var p00 := ReadPx(bgra, w, h, 2 * rp, 2 * cp);
    var p01 := ReadPx(bgra, w, h, 2 * rp, 2 * cp + 1);
    var p10 := ReadPx(bgra, w, h, 2 * rp + 1, 2 * cp);
    var p11 := ReadPx(bgra, w, h, 2 * rp + 1, 2 * cp + 1);
    var c := Average(p00, p01, p10, p11);
    b := Block(Luma(p00), Luma(p01), Luma(p10), Luma(p11), Cb(c), Cr(c));
  }

  method ReadPx(bgra: seq<byte>, w: nat, h: nat, y: nat, x: nat) returns (p: Rgb)
    requires |bgra| >= 4 * Area(w, h) && y < h && x < w
    ensures p == Px(bgra, Idx(w, y, x))
  {
    hide Idx, Area;
    IdxBound(w, h, y, x);
    var base := 4 * Idx(w, y, x);
    p := Rgb(bgra[base + 2], bgra[base + 1], bgra[base]);
  }

  /** The padded path clamps each coordinate and sums the channels: it is the fast path on the
      replicated frame. */
  method PaddedBlock(bgra: seq<byte>, sw: nat, sh: nat, dw: nat, dh: nat, rp: nat, cp: nat) returns (b: Block)
    requires sw > 0 && sh > 0 && |bgra| >= 4 * Area(sw, sh) && EvenSize(dw, dh) && rp < dh / 2 && cp < dw / 2
    ensures b == BlockOf(Replicated(bgra, sw, sh, dw, dh), dw, rp, cp)
  {
    hide Luma, Cb, Cr, Rounded, Replicated, Idx, Px, Area, BlockRead, BlockPx;
    var lumas: seq<byte> := [];
    var rSum: nat, gSum: nat, bSum: nat := 0, 0, 0;
    ghost var frame := Replicated(bgra, sw, sh, dw, dh);
    NothingRead(frame, dw, rp, cp);
    for dy := 0 to 2
      invariant BlockRead(lumas, rSum, gSum, bSum, frame, dw, rp, cp, 2 * dy)
    {
      for dx := 0 to 2
        invariant BlockRead(lumas, rSum, gSum, bSum, frame, dw, rp, cp, 2 * dy + dx)
      {
        var sy, sx := Min(2 * rp + dy, sh - 1), Min(2 * cp + dx, sw - 1);
        ReplicatedPx(bgra, sw, sh, dw, dh, 2 * rp + dy, 2 * cp + dx);
        var p := ReadPx(bgra, sw, sh, sy, sx);
        BlockPxAt(frame, dw, rp, cp, dy, dx);
        ReadOneMore(lumas, rSum, gSum, bSum, frame, dw, rp, cp, 2 * dy + dx, p);
        lumas := lumas + [Luma(p)];
        rSum, gSum, bSum := rSum + p.r as int, gSum + p.g as int, bSum + p.b as int;
      }
    }
    BlockSums(frame, dw, rp, cp, rSum, gSum, bSum, lumas);
    var c := Rgb((rSum + 2) / 4, (gSum + 2) / 4, (bSum + 2) / 4);
    b := Block(lumas[0], lumas[1], lumas[2], lumas[3], Cb(c), Cr(c));
  }

  /** The `k`-th pixel of a block, row by row. */
  function BlockPx(frame: seq<byte>, w: nat, cy: nat, cx: nat, k: nat): Rgb {
    Px(frame, Idx(w, 2 * cy + k / 2, 2 * cx + k % 2))
  }

  datatype Channel = Red | Green | Blue

  function Part(p: Rgb, c: Channel): byte {
    match c
    case Red => p.r
    case Green => p.g
    case Blue => p.b
  }

  /** The sum of one channel over the first `k` pixels of a block. */
  function SumOf(c: Channel, frame: seq<byte>, w: nat, cy: nat, cx: nat, k: nat): nat {
    if k == 0 then 0 else SumOf(c, frame, w, cy, cx, k - 1) + Part(BlockPx(frame, w, cy, cx, k - 1), c) as int
  }

  ghost predicate BlockRead(lumas: seq<byte>, rSum: nat, gSum: nat, bSum: nat, frame: seq<byte>, w: nat,
                            cy: nat, cx: nat, k: nat)
  {
    && |lumas| == k && (forall i :: 0 <= i < k ==> lumas[i] == Luma(BlockPx(frame, w, cy, cx, i)))
    && rSum == SumOf(Red, frame, w, cy, cx, k) && gSum == SumOf(Green, frame, w, cy, cx, k)
    && bSum == SumOf(Blue, frame, w, cy, cx, k)
  }

  lemma NothingRead(frame: seq<byte>, w: nat, cy: nat, cx: nat)
    ensures BlockRead([], 0, 0, 0, frame, w, cy, cx, 0)
  {
  }

  lemma BlockPxAt(frame: seq<byte>, w: nat, cy: nat, cx: nat, dy: nat, dx: nat)
    requires dx < 2
    ensures BlockPx(frame, w, cy, cx, 2 * dy + dx) == Px(frame, Idx(w, 2 * cy + dy, 2 * cx + dx))
  {
    hide Px, Idx;
  }

  lemma ReadOneMore(lumas: seq<byte>, rSum: nat, gSum: nat, bSum: nat, frame: seq<byte>, w: nat, cy: nat, cx: nat,
                    k: nat, p: Rgb)
    requires BlockRead(lumas, rSum, gSum, bSum, frame, w, cy, cx, k) && p == BlockPx(frame, w, cy, cx, k)
    ensures BlockRead(lumas + [Luma(p)], rSum + p.r as int, gSum + p.g as int, bSum + p.b as int,
                      frame, w, cy, cx, k + 1)
  {
    hide Luma, BlockPx;
    SumOfStep(Red, frame, w, cy, cx, k);
    SumOfStep(Green, frame, w, cy, cx, k);
    SumOfStep(Blue, frame, w, cy, cx, k);
  }

  lemma SumOfFour(c: Channel, frame: seq<byte>, w: nat, cy: nat, cx: nat)
    ensures var s := SumOf(c, frame, w, cy, cx, 4);
            && s <= 1020
            && (s + 2) / 4 == Rounded(Part(BlockPx(frame, w, cy, cx, 0), c), Part(BlockPx(frame, w, cy, cx, 1), c),
                                      Part(BlockPx(frame, w, cy, cx, 2), c), Part(BlockPx(frame, w, cy, cx, 3), c))
  {
    hide BlockPx, Part;
    SumOfStep(c, frame, w, cy, cx, 0);
    SumOfStep(c, frame, w, cy, cx, 1);
    SumOfStep(c, frame, w, cy, cx, 2);
    SumOfStep(c, frame, w, cy, cx, 3);
  }

  lemma SumOfStep(c: Channel, frame: seq<byte>, w: nat, cy: nat, cx: nat, k: nat)
    ensures SumOf(c, frame, w, cy, cx, k + 1)
         == SumOf(c, frame, w, cy, cx, k) + Part(BlockPx(frame, w, cy, cx, k), c) as int
    ensures SumOf(c, frame, w, cy, cx, 0) == 0
  {
  }

  lemma FourPixels(frame: seq<byte>, w: nat, cy: nat, cx: nat)
    ensures BlockPx(frame, w, cy, cx, 0) == Px(frame, Idx(w, 2 * cy, 2 * cx))
    ensures BlockPx(frame, w, cy, cx, 1) == Px(frame, Idx(w, 2 * cy, 2 * cx + 1))
    ensures BlockPx(frame, w, cy, cx, 2) == Px(frame, Idx(w, 2 * cy + 1, 2 * cx))
    ensures BlockPx(frame, w, cy, cx, 3) == Px(frame, Idx(w, 2 * cy + 1, 2 * cx + 1))
  {
    hide Px, Idx, Area;
  }

  lemma BlockSums(frame: seq<byte>, w: nat, cy: nat, cx: nat, rSum: nat, gSum: nat, bSum: nat, lumas: seq<byte>)
    requires BlockRead(lumas, rSum, gSum, bSum, frame, w, cy, cx, 4)
    ensures rSum <= 1020 && gSum <= 1020 && bSum <= 1020
    ensures Rgb((rSum + 2) / 4, (gSum + 2) / 4, (bSum + 2) / 4) == BlockColor(frame, w, cy, cx)
    ensures lumas == [LumaAt(frame, w, 2 * cy, 2 * cx), LumaAt(frame, w, 2 * cy, 2 * cx + 1),
                      LumaAt(frame, w, 2 * cy + 1, 2 * cx), LumaAt(frame, w, 2 * cy + 1, 2 * cx + 1)]
  {
    hide Px, Luma, Idx, BlockPx, SumOf, Rounded, Area;
    FourPixels(frame, w, cy, cx);
    SumOfFour(Red, frame, w, cy, cx);
    SumOfFour(Green, frame, w, cy, cx);
    SumOfFour(Blue, frame, w, cy, cx);
  }

  // ----- storing a block

  ghost predicate SameFrom(a: seq<byte>, b: seq<byte>, off: nat) {
    |a| == |b| && forall k :: off <= k < |a| ==> a[k] == b[k]
  }

  ghost predicate SameBelow(a: seq<byte>, b: seq<byte>, off: nat) {
    |a| == |b| && forall k :: 0 <= k < off && k < |a| ==> a[k] == b[k]
  }

  method StoreLuma(yp: array<byte>, ghost frame: seq<byte>, w: nat, h: nat, ghost size: nat, rp: nat, cp: nat, b: Block)
    requires size == Area(w, h)
    requires EvenSize(w, h) && rp < h / 2 && cp < w / 2
    requires b == BlockOf(frame, w, rp, cp) && LumaDone(yp[..], frame, w, h, rp, cp)
    modifies yp
    ensures LumaDone(yp[..], frame, w, h, rp, cp + 1)
    ensures SameFrom(old(yp[..]), yp[..], size)
  {
    hide Idx, LumaAt, BlockColor, Cb, Cr, Area;
    var y, x := 2 * rp, 2 * cp;
    FourPlaces(w, y, x);
    IdxBound(w, h, y, x);
    IdxBound(w, h, y, x + 1);
    IdxBound(w, h, y + 1, x);
    IdxBound(w, h, y + 1, x + 1);
    yp[Idx(w, y, x)] := b.y00;
    yp[Idx(w, y, x + 1)] := b.y01;
    yp[Idx(w, y + 1, x)] := b.y10;
    yp[Idx(w, y + 1, x + 1)] := b.y11;
    LumaStep(old(yp[..]), yp[..], frame, w, h, rp, cp);
  }

  /** Storing the four luma bytes of a block. */
  lemma LumaStep(a: seq<byte>, b: seq<byte>, frame: seq<byte>, w: nat, h: nat, rp: nat, cp: nat)
    requires EvenSize(w, h) && rp < h / 2 && cp < w / 2 && |a| == |b| && LumaDone(a, frame, w, h, rp, cp)
    requires FourStored(a, b, w, 2 * rp, 2 * cp, LumaAt(frame, w, 2 * rp, 2 * cp), LumaAt(frame, w, 2 * rp, 2 * cp + 1),
                        LumaAt(frame, w, 2 * rp + 1, 2 * cp), LumaAt(frame, w, 2 * rp + 1, 2 * cp + 1))
    ensures LumaDone(b, frame, w, h, rp, cp + 1)
    ensures forall k :: Area(w, h) <= k < |a| ==> a[k] == b[k]
  {
    hide Idx, LumaAt, Area;
    var y, x := 2 * rp, 2 * cp;
    IdxBound(w, h, y, x);
    IdxBound(w, h, y, x + 1);
    IdxBound(w, h, y + 1, x);
    IdxBound(w, h, y + 1, x + 1);
    forall y': nat, x': nat | y' < h && x' < w && Before(y' / 2, x' / 2, rp, cp + 1)
      ensures Idx(w, y', x') < |b| && b[Idx(w, y', x')] == LumaAt(frame, w, y', x')
    {
      IdxBound(w, h, y', x');
      IdxUnique(w, y, x, y', x');
      IdxUnique(w, y, x + 1, y', x');
      IdxUnique(w, y + 1, x, y', x');
      IdxUnique(w, y + 1, x + 1, y', x');
    }
  }

  /** The four positions of the block at `(y, x)` hold these bytes, all others are as they were. */
  ghost predicate FourStored(a: seq<byte>, b: seq<byte>, w: nat, y: nat, x: nat,
                             b00: byte, b01: byte, b10: byte, b11: byte)
  {
    var i00, i01, i10, i11 := Idx(w, y, x), Idx(w, y, x + 1), Idx(w, y + 1, x), Idx(w, y + 1, x + 1);
    && |a| == |b| && i00 < |b| && i01 < |b| && i10 < |b| && i11 < |b|
    && b[i00] == b00 && b[i01] == b01 && b[i10] == b10 && b[i11] == b11
    && forall k :: 0 <= k < |b| && k != i00 && k != i01 && k != i10 && k != i11 ==> b[k] == a[k]
  }

  lemma FourPlaces(w: nat, y: nat, x: nat)
    requires x + 1 < w
    ensures Idx(w, y, x) != Idx(w, y, x + 1) && Idx(w, y, x) != Idx(w, y + 1, x) && Idx(w, y, x) != Idx(w, y + 1, x + 1)
    ensures Idx(w, y, x + 1) != Idx(w, y + 1, x) && Idx(w, y, x + 1) != Idx(w, y + 1, x + 1)
    ensures Idx(w, y + 1, x) != Idx(w, y + 1, x + 1)
  {
    hide Idx;
    IdxUnique(w, y, x, y, x + 1);
    IdxUnique(w, y, x, y + 1, x);
    IdxUnique(w, y, x, y + 1, x + 1);
    IdxUnique(w, y, x + 1, y + 1, x);
    IdxUnique(w, y, x + 1, y + 1, x + 1);
    IdxUnique(w, y + 1, x, y + 1, x + 1);
  }

  method StorePlanar(up: array<byte>, vp: array<byte>, ghost frame: seq<byte>, w: nat, h: nat, rp: nat, cp: nat,
                     b: Block)
    requires up != vp && rp < h / 2 && cp < w / 2
    requires b == BlockOf(frame, w, rp, cp) && PlanarDone(up[..], vp[..], frame, w, h, rp, cp)
    modifies up, vp
    ensures PlanarDone(up[..], vp[..], frame, w, h, rp, cp + 1)
  {
    hide Idx, LumaAt, BlockColor, Cb, Cr, Area;
    IdxBound(w / 2, h / 2, rp, cp);
    var k := Idx(w / 2, rp, cp);
    up[k] := b.u;
    vp[k] := b.v;
    forall cy: nat, cx: nat | cy < h / 2 && cx < w / 2 && Before(cy, cx, rp, cp + 1)
      ensures && Idx(w / 2, cy, cx) < up.Length
              && up[Idx(w / 2, cy, cx)] == Cb(BlockColor(frame, w, cy, cx))
              && vp[Idx(w / 2, cy, cx)] == Cr(BlockColor(frame, w, cy, cx))
    {
      IdxBound(w / 2, h / 2, cy, cx);
      IdxUnique(w / 2, rp, cp, cy, cx);
    }
  }

  method StorePair(out: array<byte>, ghost frame: seq<byte>, w: nat, h: nat, off: nat, rp: nat, cp: nat, b: Block)
    requires w % 2 == 0 && rp < h / 2 && cp < w / 2
    requires b == BlockOf(frame, w, rp, cp) && PairsDone(out[..], off, frame, w, h, rp, cp)
    modifies out
    ensures PairsDone(out[..], off, frame, w, h, rp, cp + 1)
    ensures SameBelow(old(out[..]), out[..], off)
  {
    hide Idx, LumaAt, BlockColor, Cb, Cr, Area;
    IdxBound(w / 2, h / 2, rp, cp);
    PairOffset(w, rp, cp, off);
    var k := off + rp * w + 2 * cp;
    out[k] := b.u;
    out[k + 1] := b.v;
    forall cy: nat, cx: nat | cy < h / 2 && cx < w / 2 && Before(cy, cx, rp, cp + 1)
      ensures && PairIdx(off, w, cy, cx) + 1 < out.Length
              && out[PairIdx(off, w, cy, cx)] == Cb(BlockColor(frame, w, cy, cx))
              && out[PairIdx(off, w, cy, cx) + 1] == Cr(BlockColor(frame, w, cy, cx))
    {
      IdxBound(w / 2, h / 2, cy, cx);
      IdxUnique(w / 2, rp, cp, cy, cx);
    }
  }

  lemma HalfOfEven(w: nat, h: nat)
    requires EvenSize(w, h)
    ensures Area(w, h) / 2 == 2 * Area(w / 2, h / 2)
  {
    var a, b := w / 2, h / 2;
    assert Area(w, h) == (2 * a) * (2 * b) == 4 * (a * b);
  }

  lemma PairOffset(w: nat, rp: nat, cp: nat, off: nat)
    requires w % 2 == 0
    ensures PairIdx(off, w, rp, cp) == off + rp * w + 2 * cp
  {
    assert 2 * (rp * (w / 2)) == rp * w;
  }

  lemma RowTurn(yp: seq<byte>, frame: seq<byte>, w: nat, h: nat, rp: nat)
    requires EvenSize(w, h) && LumaDone(yp, frame, w, h, rp, w / 2)
    ensures LumaDone(yp, frame, w, h, rp + 1, 0)
  {
    hide Idx, LumaAt, Area;
  }

  lemma PlanarTurn(up: seq<byte>, vp: seq<byte>, frame: seq<byte>, w: nat, h: nat, rp: nat)
    requires PlanarDone(up, vp, frame, w, h, rp, w / 2)
    ensures PlanarDone(up, vp, frame, w, h, rp + 1, 0)
  {
    hide Idx, BlockColor, Cb, Cr, Area;
  }

  lemma PairsTurn(out: seq<byte>, off: nat, frame: seq<byte>, w: nat, h: nat, rp: nat)
    requires PairsDone(out, off, frame, w, h, rp, w / 2)
    ensures PairsDone(out, off, frame, w, h, rp + 1, 0)
  {
    hide PairIdx, BlockColor, Cb, Cr, Area;
  }

  lemma LumaFrame(a: seq<byte>, b: seq<byte>, frame: seq<byte>, w: nat, h: nat, size: nat, rp: nat, cp: nat)
    requires size == Area(w, h) && LumaDone(a, frame, w, h, rp, cp) && SameBelow(a, b, size)
    ensures LumaDone(b, frame, w, h, rp, cp)
  {
    hide Idx, LumaAt, Area;
    forall y: nat, x: nat | y < h && x < w ensures Idx(w, y, x) < Area(w, h) {
      IdxBound(w, h, y, x);
    }
  }

  lemma PairsFrame(a: seq<byte>, b: seq<byte>, off: nat, frame: seq<byte>, w: nat, h: nat, rp: nat, cp: nat)
    requires PairsDone(a, off, frame, w, h, rp, cp) && SameFrom(a, b, off)
    ensures PairsDone(b, off, frame, w, h, rp, cp)
  {
    hide Idx, BlockColor, Cb, Cr, Area;
  }

  // ----- the converters

  /** `bgra_to_i420_fast` */
  method I420Fast(yp: array<byte>, up: array<byte>, vp: array<byte>, w: nat, h: nat, bgra: seq<byte>)
    requires Separate(yp, up, vp, w, h) && |bgra| >= 4 * Area(w, h)
    modifies yp, up, vp
    ensures IsI420(yp[..], up[..], vp[..], bgra, w, h)
  {
    hide LumaDone, PlanarDone, BlockOf, Area;
    I420Starts(yp[..], up[..], vp[..], bgra, w, h);
    for rp := 0 to h / 2
      invariant LumaDone(yp[..], bgra, w, h, rp, 0) && PlanarDone(up[..], vp[..], bgra, w, h, rp, 0)
    {
      for cp := 0 to w / 2
        invariant LumaDone(yp[..], bgra, w, h, rp, cp) && PlanarDone(up[..], vp[..], bgra, w, h, rp, cp)
      {
        var b := FastBlock(bgra, w, h, rp, cp);
        StoreLuma(yp, bgra, w, h, Area(w, h), rp, cp, b);
        StorePlanar(up, vp, bgra, w, h, rp, cp, b);
      }
      RowTurn(yp[..], bgra, w, h, rp);
      PlanarTurn(up[..], vp[..], bgra, w, h, rp);
    }
  }

  /** `bgra_to_i420_padded` */
  method I420Padded(yp: array<byte>, up: array<byte>, vp: array<byte>, sw: nat, sh: nat, dw: nat, dh: nat,
                    bgra: seq<byte>)
    requires Separate(yp, up, vp, dw, dh) && sw > 0 && sh > 0 && dw > 0 && |bgra| >= 4 * Area(sw, sh)
    modifies yp, up, vp
    ensures IsI420(yp[..], up[..], vp[..], Replicated(bgra, sw, sh, dw, dh), dw, dh)
  {
    hide LumaDone, PlanarDone, BlockOf, Replicated, Area;
    ghost var frame := Replicated(bgra, sw, sh, dw, dh);
    I420Starts(yp[..], up[..], vp[..], frame, dw, dh);
    for rp := 0 to dh / 2
      invariant LumaDone(yp[..], frame, dw, dh, rp, 0) && PlanarDone(up[..], vp[..], frame, dw, dh, rp, 0)
    {
      for cp := 0 to dw / 2
        invariant LumaDone(yp[..], frame, dw, dh, rp, cp) && PlanarDone(up[..], vp[..], frame, dw, dh, rp, cp)
      {
        var b := PaddedBlock(bgra, sw, sh, dw, dh, rp, cp);
        StoreLuma(yp, frame, dw, dh, Area(dw, dh), rp, cp, b);
        StorePlanar(up, vp, frame, dw, dh, rp, cp, b);
      }
      RowTurn(yp[..], frame, dw, dh, rp);
      PlanarTurn(up[..], vp[..], frame, dw, dh, rp);
    }
  }

  ghost predicate Separate(yp: array<byte>, up: array<byte>, vp: array<byte>, w: nat, h: nat) {
    && EvenSize(w, h) && yp != up && yp != vp && up != vp
    && yp.Length == Area(w, h) && up.Length == vp.Length == Area(w / 2, h / 2)
  }

  lemma I420Starts(yp: seq<byte>, up: seq<byte>, vp: seq<byte>, frame: seq<byte>, w: nat, h: nat)
    requires |yp| == Area(w, h) && |up| == |vp| == Area(w / 2, h / 2)
    ensures LumaDone(yp, frame, w, h, 0, 0) && PlanarDone(up, vp, frame, w, h, 0, 0)
  {
  }

  lemma Nv12Starts(out: seq<byte>, frame: seq<byte>, w: nat, h: nat)
    requires |out| == Area(w, h) + 2 * Area(w / 2, h / 2)
    ensures LumaDone(out, frame, w, h, 0, 0) && PairsDone(out, Area(w, h), frame, w, h, 0, 0)
  {
  }

  /** One block of an NV12 buffer. */
  method StoreNv12(out: array<byte>, ghost frame: seq<byte>, w: nat, h: nat, rp: nat, cp: nat, b: Block)
    requires EvenSize(w, h) && rp < h / 2 && cp < w / 2 && b == BlockOf(frame, w, rp, cp)
    requires LumaDone(out[..], frame, w, h, rp, cp) && PairsDone(out[..], Area(w, h), frame, w, h, rp, cp)
    modifies out
    ensures LumaDone(out[..], frame, w, h, rp, cp + 1) && PairsDone(out[..], Area(w, h), frame, w, h, rp, cp + 1)
  {
    hide LumaDone, PairsDone, BlockOf, Area;
    ghost var s0 := out[..];
    LengthOfPairs(s0, Area(w, h), frame, w, h, rp, cp);
    StoreLuma(out, frame, w, h, Area(w, h), rp, cp, b);
    PairsFrame(s0, out[..], Area(w, h), frame, w, h, rp, cp);
    ghost var s1 := out[..];
    StorePair(out, frame, w, h, Area(w, h), rp, cp, b);
    LumaFrame(s1, out[..], frame, w, h, Area(w, h), rp, cp + 1);
  }

  lemma LengthOfPairs(out: seq<byte>, off: nat, frame: seq<byte>, w: nat, h: nat, rp: nat, cp: nat)
    requires PairsDone(out, off, frame, w, h, rp, cp)
    ensures |out| == off + 2 * Area(w / 2, h / 2) && off <= |out|
  {
  }

  /** `bgra_to_nv12_fast` */
  method Nv12Fast(out: array<byte>, w: nat, h: nat, bgra: seq<byte>)
    requires EvenSize(w, h) && out.Length == Area(w, h) + 2 * Area(w / 2, h / 2) && |bgra| >= 4 * Area(w, h)
    modifies out
    ensures IsNv12(out[..], bgra, w, h)
  {
    hide LumaDone, PairsDone, BlockOf, Area;
    Nv12Starts(out[..], bgra, w, h);
    for rp := 0 to h / 2
      invariant LumaDone(out[..], bgra, w, h, rp, 0) && PairsDone(out[..], Area(w, h), bgra, w, h, rp, 0)
    {
      for cp := 0 to w / 2
        invariant LumaDone(out[..], bgra, w, h, rp, cp) && PairsDone(out[..], Area(w, h), bgra, w, h, rp, cp)
      {
        var b := FastBlock(bgra, w, h, rp, cp);
        StoreNv12(out, bgra, w, h, rp, cp, b);
      }
      RowTurn(out[..], bgra, w, h, rp);
      PairsTurn(out[..], Area(w, h), bgra, w, h, rp);
    }
  }

  /** `bgra_to_nv12_padded` */
  method Nv12Padded(out: array<byte>, sw: nat, sh: nat, dw: nat, dh: nat, bgra: seq<byte>)
    requires EvenSize(dw, dh) && out.Length == Area(dw, dh) + 2 * Area(dw / 2, dh / 2)
    requires sw > 0 && sh > 0 && dw > 0 && |bgra| >= 4 * Area(sw, sh)
    modifies out
    ensures IsNv12(out[..], Replicated(bgra, sw, sh, dw, dh), dw, dh)
  {
    hide LumaDone, PairsDone, BlockOf, Replicated, Area;
    ghost var frame := Replicated(bgra, sw, sh, dw, dh);
    Nv12Starts(out[..], frame, dw, dh);
    for rp := 0 to dh / 2
      invariant LumaDone(out[..], frame, dw, dh, rp, 0) && PairsDone(out[..], Area(dw, dh), frame, dw, dh, rp, 0)
    {
      for cp := 0 to dw / 2
        invariant LumaDone(out[..], frame, dw, dh, rp, cp) && PairsDone(out[..], Area(dw, dh), frame, dw, dh, rp, cp)
      {
        var b := PaddedBlock(bgra, sw, sh, dw, dh, rp, cp);
        StoreNv12(out, frame, dw, dh, rp, cp, b);
      }
      RowTurn(out[..], frame, dw, dh, rp);
      PairsTurn(out[..], Area(dw, dh), frame, dw, dh, rp);
    }
  }

  // ----- what the forms have in common

  /** A frame has one I420 form: every byte of the planes is determined, and in range. */
  lemma I420Unique(yp: seq<byte>, up: seq<byte>, vp: seq<byte>, yp': seq<byte>, up': seq<byte>, vp': seq<byte>,
                   frame: seq<byte>, w: nat, h: nat)
    requires EvenSize(w, h) && IsI420(yp, up, vp, frame, w, h) && IsI420(yp', up', vp', frame, w, h)
    ensures yp == yp' && up == up' && vp == vp'
    ensures forall k :: 0 <= k < |yp| ==> 16 <= yp[k] <= 235
    ensures forall k :: 0 <= k < |up| ==> 16 <= up[k] <= 240 && 16 <= vp[k] <= 240
  {
    hide LumaDone, PlanarDone, Area;
    SameLuma(yp, yp', frame, w, h);
    assert yp[..Area(w, h)] == yp && yp'[..Area(w, h)] == yp';
    SameChroma(up, vp, up', vp', frame, w, h);
    LumaInRange(yp, frame, w, h);
  }

  lemma SameChroma(up: seq<byte>, vp: seq<byte>, up': seq<byte>, vp': seq<byte>, frame: seq<byte>, w: nat, h: nat)
    requires PlanarDone(up, vp, frame, w, h, h / 2, 0) && PlanarDone(up', vp', frame, w, h, h / 2, 0)
    ensures up == up' && vp == vp'
    ensures forall k :: 0 <= k < |up| ==> 16 <= up[k] <= 240 && 16 <= vp[k] <= 240
  {
    hide BlockColor, Cb, Cr, Idx, Area;
    forall k: nat | k < |up|
      ensures up[k] == up'[k] && vp[k] == vp'[k] && 16 <= up[k] <= 240 && 16 <= vp[k] <= 240
    {
      var cy, cx := IdxSplit(w / 2, h / 2, k);
    }
  }

  lemma LumaInRange(yp: seq<byte>, frame: seq<byte>, w: nat, h: nat)
    requires EvenSize(w, h) && |yp| == Area(w, h) && LumaDone(yp, frame, w, h, h / 2, 0)
    ensures forall k :: 0 <= k < |yp| ==> 16 <= yp[k] <= 235
  {
    hide LumaAt, Idx, Area;
    forall k: nat | k < |yp| ensures 16 <= yp[k] <= 235 {
      var y, x := IdxSplit(w, h, k);
      LumaAtRange(frame, w, y, x);
    }
  }

  lemma LumaAtRange(frame: seq<byte>, w: nat, y: nat, x: nat)
    ensures 16 <= LumaAt(frame, w, y, x) <= 235
  {
  }

  /** The NV12 form is the luma plane followed by the two I420 chroma planes interleaved. */
  lemma Nv12Interleaves(out: seq<byte>, yp: seq<byte>, up: seq<byte>, vp: seq<byte>, frame: seq<byte>, w: nat, h: nat)
    requires EvenSize(w, h) && IsI420(yp, up, vp, frame, w, h) && IsNv12(out, frame, w, h)
    ensures |out| == Area(w, h) + 2 * |up| && out[..Area(w, h)] == yp
    ensures forall k :: 0 <= k < |up| ==> out[Area(w, h) + 2 * k] == up[k] && out[Area(w, h) + 2 * k + 1] == vp[k]
  {
    hide LumaDone, PairIdx, Area;
    SameLuma(out, yp, frame, w, h);
    forall k: nat | k < |up| ensures out[Area(w, h) + 2 * k] == up[k] && out[Area(w, h) + 2 * k + 1] == vp[k] {
      PairIsChroma(out, Area(w, h), up, vp, frame, w, h, k);
    }
  }

  lemma SameLuma(a: seq<byte>, b: seq<byte>, frame: seq<byte>, w: nat, h: nat)
    requires EvenSize(w, h) && LumaDone(a, frame, w, h, h / 2, 0) && LumaDone(b, frame, w, h, h / 2, 0)
    ensures Area(w, h) <= |a| && Area(w, h) <= |b| && a[..Area(w, h)] == b[..Area(w, h)]
  {
    hide LumaAt, Idx, Area;
    forall k: nat | k < Area(w, h) ensures a[k] == b[k] {
      var y, x := IdxSplit(w, h, k);
    }
  }

  lemma PairIsChroma(out: seq<byte>, off: nat, up: seq<byte>, vp: seq<byte>, frame: seq<byte>, w: nat, h: nat, k: nat)
    requires PairsDone(out, off, frame, w, h, h / 2, 0) && PlanarDone(up, vp, frame, w, h, h / 2, 0) && k < |up|
    ensures off + 2 * k + 1 < |out| && out[off + 2 * k] == up[k] && out[off + 2 * k + 1] == vp[k]
  {
    hide BlockColor, Cb, Cr, Idx, Area;
    var cy, cx := IdxSplit(w / 2, h / 2, k);
    assert PairIdx(off, w, cy, cx) == off + 2 * k;
  }

  /** Bytes beyond the frame play no part. */
  lemma LumaOfPrefix(bgra: seq<byte>, w: nat, h: nat, y: nat, x: nat)
    requires |bgra| >= 4 * Area(w, h) && y < h && x < w
    ensures Px(bgra[..4 * Area(w, h)], Idx(w, y, x)) == Px(bgra, Idx(w, y, x))
    ensures LumaAt(bgra[..4 * Area(w, h)], w, y, x) == LumaAt(bgra, w, y, x)
  {
    hide Idx, Luma, Area;
    IdxBound(w, h, y, x);
  }

  lemma ColorOfPrefix(bgra: seq<byte>, w: nat, h: nat, cy: nat, cx: nat)
    requires |bgra| >= 4 * Area(w, h) && cy < h / 2 && cx < w / 2
    ensures BlockColor(bgra[..4 * Area(w, h)], w, cy, cx) == BlockColor(bgra, w, cy, cx)
  {
    hide Px, Idx, LumaAt, Area;
    LumaOfPrefix(bgra, w, h, 2 * cy, 2 * cx);
    LumaOfPrefix(bgra, w, h, 2 * cy, 2 * cx + 1);
    LumaOfPrefix(bgra, w, h, 2 * cy + 1, 2 * cx);
    LumaOfPrefix(bgra, w, h, 2 * cy + 1, 2 * cx + 1);
  }

  lemma LumaToPrefix(yp: seq<byte>, bgra: seq<byte>, w: nat, h: nat)
    requires |bgra| >= 4 * Area(w, h) && LumaDone(yp, bgra, w, h, h / 2, 0)
    ensures LumaDone(yp, bgra[..4 * Area(w, h)], w, h, h / 2, 0)
  {
    hide Idx, LumaAt, Area;
    forall y: nat, x: nat | y < h && x < w
      ensures LumaAt(bgra[..4 * Area(w, h)], w, y, x) == LumaAt(bgra, w, y, x)
    {
      LumaOfPrefix(bgra, w, h, y, x);
    }
  }

  lemma ColorsToPrefix(bgra: seq<byte>, w: nat, h: nat)
    requires |bgra| >= 4 * Area(w, h)
    ensures forall cy: nat, cx: nat | cy < h / 2 && cx < w / 2 ::
              BlockColor(bgra[..4 * Area(w, h)], w, cy, cx) == BlockColor(bgra, w, cy, cx)
  {
    hide BlockColor;
    forall cy: nat, cx: nat | cy < h / 2 && cx < w / 2
      ensures BlockColor(bgra[..4 * Area(w, h)], w, cy, cx) == BlockColor(bgra, w, cy, cx)
    {
      ColorOfPrefix(bgra, w, h, cy, cx);
    }
  }

  lemma PlanarToPrefix(up: seq<byte>, vp: seq<byte>, bgra: seq<byte>, w: nat, h: nat)
    requires |bgra| >= 4 * Area(w, h) && PlanarDone(up, vp, bgra, w, h, h / 2, 0)
    ensures PlanarDone(up, vp, bgra[..4 * Area(w, h)], w, h, h / 2, 0)
  {
    hide Idx, BlockColor, Cb, Cr, Area;
    ColorsToPrefix(bgra, w, h);
  }

  lemma PairsToPrefix(out: seq<byte>, off: nat, bgra: seq<byte>, w: nat, h: nat)
    requires |bgra| >= 4 * Area(w, h) && PairsDone(out, off, bgra, w, h, h / 2, 0)
    ensures PairsDone(out, off, bgra[..4 * Area(w, h)], w, h, h / 2, 0)
  {
    hide PairIdx, BlockColor, Cb, Cr, Area;
    ColorsToPrefix(bgra, w, h);
  }

  // ----- what the output bytes say of the input bytes

  /** Byte `c` of the source pixel that stands for pixel `(y, x)`: the last row and column stand for all beyond. */
  function SourceByte(bgra: seq<byte>, sw: nat, sh: nat, y: nat, x: nat, c: nat): byte
    requires sw > 0 && sh > 0
  {
    var i := 4 * ((if y < sh then y else sh - 1) * sw + (if x < sw then x else sw - 1)) + c;
    if i < |bgra| then bgra[i] else 0
  }

  /** The BT.601 signals of a colour whose channels range to 255, as quantised to 8 bits. */
  function LumaSignal(b: real, g: real, r: real): real {
    16.0 + 219.0 * (0.299 * r + 0.587 * g + 0.114 * b) / 255.0
  }

  function CbSignal(b: real, g: real, r: real): real {
    128.0 + 224.0 * ((b - (0.299 * r + 0.587 * g + 0.114 * b)) / 1.772) / 255.0
  }

  function CrSignal(b: real, g: real, r: real): real {
    128.0 + 224.0 * ((r - (0.299 * r + 0.587 * g + 0.114 * b)) / 1.402) / 255.0
  }

  predicate Within(v: byte, x: real, d: real) {
    -d < v as real - x < d
  }

  /** Every luma byte is within one step of the signal of its pixel, blue being the first byte, green the second
      and red the third. */
  ghost predicate LumaSays(yp: seq<byte>, bgra: seq<byte>, sw: nat, sh: nat, dw: nat, dh: nat)
    requires sw > 0 && sh > 0
  {
    forall y: nat, x: nat | y < dh && x < dw ::
      && y * dw + x < |yp|
      && Within(yp[y * dw + x],
                LumaSignal(SourceByte(bgra, sw, sh, y, x, 0) as real, SourceByte(bgra, sw, sh, y, x, 1) as real,
                           SourceByte(bgra, sw, sh, y, x, 2) as real), 1.0)
  }

  /** The mean of byte `c` over the four pixels of a block. */
  function BlockMean(bgra: seq<byte>, sw: nat, sh: nat, cy: nat, cx: nat, c: nat): real
    requires sw > 0 && sh > 0
  {
    (SourceByte(bgra, sw, sh, 2 * cy, 2 * cx, c) as real + SourceByte(bgra, sw, sh, 2 * cy, 2 * cx + 1, c) as real
     + SourceByte(bgra, sw, sh, 2 * cy + 1, 2 * cx, c) as real
     + SourceByte(bgra, sw, sh, 2 * cy + 1, 2 * cx + 1, c) as real) / 4.0
  }

  predicate SameInBlock(bgra: seq<byte>, sw: nat, sh: nat, cy: nat, cx: nat, c: nat)
    requires sw > 0 && sh > 0
  {
    SourceByte(bgra, sw, sh, 2 * cy, 2 * cx, c) == SourceByte(bgra, sw, sh, 2 * cy, 2 * cx + 1, c)
    == SourceByte(bgra, sw, sh, 2 * cy + 1, 2 * cx, c) == SourceByte(bgra, sw, sh, 2 * cy + 1, 2 * cx + 1, c)
  }

  /** How far a chroma byte may be from the signal of its block: one step if its four pixels are equal, and half a
      step more for the rounding of their mean. */
  function ChromaStep(bgra: seq<byte>, sw: nat, sh: nat, cy: nat, cx: nat): real
    requires sw > 0 && sh > 0
  {
    if forall c: nat :: c < 3 ==> SameInBlock(bgra, sw, sh, cy, cx, c) then 1.0 else 1.5
  }

  /** Two chroma bytes of a block. */
  predicate ChromaSays(u: byte, v: byte, bgra: seq<byte>, sw: nat, sh: nat, cy: nat, cx: nat)
    requires sw > 0 && sh > 0
  {
    var b, g, r := BlockMean(bgra, sw, sh, cy, cx, 0), BlockMean(bgra, sw, sh, cy, cx, 1),
                   BlockMean(bgra, sw, sh, cy, cx, 2);
    && Within(u, CbSignal(b, g, r), ChromaStep(bgra, sw, sh, cy, cx))
    && Within(v, CrSignal(b, g, r), ChromaStep(bgra, sw, sh, cy, cx))
  }

  /** The bytes of a block in two planes, and in pairs from index `off` on. */
  predicate PlanarSays(up: seq<byte>, vp: seq<byte>, dw: nat, bgra: seq<byte>, sw: nat, sh: nat, cy: nat, cx: nat)
    requires sw > 0 && sh > 0
  {
    var i := cy * (dw / 2) + cx;
    i < |up| && i < |vp| && ChromaSays(up[i], vp[i], bgra, sw, sh, cy, cx)
  }

  predicate PairSays(out: seq<byte>, off: nat, dw: nat, bgra: seq<byte>, sw: nat, sh: nat, cy: nat, cx: nat)
    requires sw > 0 && sh > 0
  {
    var i := off + 2 * (cy * (dw / 2) + cx);
    i + 1 < |out| && ChromaSays(out[i], out[i + 1], bgra, sw, sh, cy, cx)
  }

  ghost predicate I420Says(yp: seq<byte>, up: seq<byte>, vp: seq<byte>, bgra: seq<byte>, sw: nat, sh: nat,
                           dw: nat, dh: nat)
    requires sw > 0 && sh > 0
  {
    && LumaSays(yp, bgra, sw, sh, dw, dh)
    && forall cy: nat, cx: nat | cy < dh / 2 && cx < dw / 2 :: PlanarSays(up, vp, dw, bgra, sw, sh, cy, cx)
  }

  ghost predicate Nv12Says(out: seq<byte>, bgra: seq<byte>, sw: nat, sh: nat, dw: nat, dh: nat)
    requires sw > 0 && sh > 0
  {
    && LumaSays(out, bgra, sw, sh, dw, dh)
    && forall cy: nat, cx: nat | cy < dh / 2 && cx < dw / 2 :: PairSays(out, dw * dh, dw, bgra, sw, sh, cy, cx)
  }

  /** A pixel of the replicated frame, byte by byte. */
  lemma PxIsSource(bgra: seq<byte>, sw: nat, sh: nat, dw: nat, dh: nat, y: nat, x: nat)
    requires sw > 0 && sh > 0 && y < dh && x < dw && |bgra| >= 4 * Area(sw, sh)
    ensures Px(Replicated(bgra, sw, sh, dw, dh), Idx(dw, y, x))
         == Rgb(SourceByte(bgra, sw, sh, y, x, 2), SourceByte(bgra, sw, sh, y, x, 1), SourceByte(bgra, sw, sh, y, x, 0))
  {
    hide Replicated, Area;
    ReplicatedPx(bgra, sw, sh, dw, dh, y, x);
  }

  lemma LumaNear(p: Rgb)
    ensures Within(Luma(p), LumaSignal(p.b as real, p.g as real, p.r as real), 1.0)
  {
    LumaWithinOneStep(p);
  }

  lemma ChromaNear(p: Rgb)
    ensures Within(Cb(p), CbSignal(p.b as real, p.g as real, p.r as real), 1.0)
    ensures Within(Cr(p), CrSignal(p.b as real, p.g as real, p.r as real), 1.0)
  {
    CbWithinOneStep(p);
    CrWithinOneStep(p);
  }

  /** The rounded mean is at most half a step above the mean and a quarter below, and exact for equal bytes. */
  lemma MeanRounds(a: byte, b: byte, c: byte, d: byte)
    ensures -0.25 <= Rounded(a, b, c, d) as real - (a as real + b as real + c as real + d as real) / 4.0 <= 0.5
    ensures a == b == c == d ==> Rounded(a, b, c, d) == a
  {
  }

  /** Rounding each channel of a colour moves its signals by less than half a step. */
  lemma SignalsMove(b: real, g: real, r: real, b': real, g': real, r': real)
    requires -0.25 <= b' - b <= 0.5 && -0.25 <= g' - g <= 0.5 && -0.25 <= r' - r <= 0.5
    ensures -0.5 < CbSignal(b', g', r') - CbSignal(b, g, r) < 0.5
    ensures -0.5 < CrSignal(b', g', r') - CrSignal(b, g, r) < 0.5
  {
  }

  lemma LumaFollows(yp: seq<byte>, bgra: seq<byte>, sw: nat, sh: nat, dw: nat, dh: nat)
    requires EvenSize(dw, dh) && sw > 0 && sh > 0 && dw > 0 && |bgra| >= 4 * Area(sw, sh)
    requires LumaDone(yp, Replicated(bgra, sw, sh, dw, dh), dw, dh, dh / 2, 0)
    ensures LumaSays(yp, bgra, sw, sh, dw, dh)
  {
    hide Replicated, Area, Px, Luma, SourceByte, LumaSignal;
    forall y: nat, x: nat | y < dh && x < dw
      ensures y * dw + x < |yp|
      ensures Within(yp[y * dw + x],
                LumaSignal(SourceByte(bgra, sw, sh, y, x, 0) as real, SourceByte(bgra, sw, sh, y, x, 1) as real,
                           SourceByte(bgra, sw, sh, y, x, 2) as real), 1.0)
    {
      var p := Px(Replicated(bgra, sw, sh, dw, dh), Idx(dw, y, x));
      PxIsSource(bgra, sw, sh, dw, dh, y, x);
      LumaNear(p);
      assert Before(y / 2, x / 2, dh / 2, 0);
      assert Idx(dw, y, x) < |yp| && yp[Idx(dw, y, x)] == Luma(p);
    }
  }

  /** The chroma bytes of a block of the replicated frame. */
  lemma ChromaFollows(bgra: seq<byte>, sw: nat, sh: nat, dw: nat, dh: nat, cy: nat, cx: nat)
    requires sw > 0 && sh > 0 && |bgra| >= 4 * Area(sw, sh) && cy < dh / 2 && cx < dw / 2
    ensures var c := BlockColor(Replicated(bgra, sw, sh, dw, dh), dw, cy, cx);
            ChromaSays(Cb(c), Cr(c), bgra, sw, sh, cy, cx)
  {
    hide Replicated, Area, Px, Cb, Cr, SourceByte, CbSignal, CrSignal, Rounded;
    var c := BlockColor(Replicated(bgra, sw, sh, dw, dh), dw, cy, cx);
    PxIsSource(bgra, sw, sh, dw, dh, 2 * cy, 2 * cx);
    PxIsSource(bgra, sw, sh, dw, dh, 2 * cy, 2 * cx + 1);
    PxIsSource(bgra, sw, sh, dw, dh, 2 * cy + 1, 2 * cx);
    PxIsSource(bgra, sw, sh, dw, dh, 2 * cy + 1, 2 * cx + 1);
    BlockRounds(bgra, sw, sh, cy, cx, 0, c.b);
    BlockRounds(bgra, sw, sh, cy, cx, 1, c.g);
    BlockRounds(bgra, sw, sh, cy, cx, 2, c.r);
    ChromaNear(c);
    SignalsMove(BlockMean(bgra, sw, sh, cy, cx, 0), BlockMean(bgra, sw, sh, cy, cx, 1),
                BlockMean(bgra, sw, sh, cy, cx, 2), c.b as real, c.g as real, c.r as real);
    SignalsSame(bgra, sw, sh, cy, cx, c);
  }

  lemma BlockRounds(bgra: seq<byte>, sw: nat, sh: nat, cy: nat, cx: nat, c: nat, v: byte)
    requires sw > 0 && sh > 0
    requires v == Rounded(SourceByte(bgra, sw, sh, 2 * cy, 2 * cx, c), SourceByte(bgra, sw, sh, 2 * cy, 2 * cx + 1, c),
                          SourceByte(bgra, sw, sh, 2 * cy + 1, 2 * cx, c),
                          SourceByte(bgra, sw, sh, 2 * cy + 1, 2 * cx + 1, c))
    ensures -0.25 <= v as real - BlockMean(bgra, sw, sh, cy, cx, c) <= 0.5
    ensures SameInBlock(bgra, sw, sh, cy, cx, c) ==> BlockMean(bgra, sw, sh, cy, cx, c) == v as real
  {
    hide SourceByte;
    MeanRounds(SourceByte(bgra, sw, sh, 2 * cy, 2 * cx, c), SourceByte(bgra, sw, sh, 2 * cy, 2 * cx + 1, c),
               SourceByte(bgra, sw, sh, 2 * cy + 1, 2 * cx, c), SourceByte(bgra, sw, sh, 2 * cy + 1, 2 * cx + 1, c));
  }

  lemma SignalsSame(bgra: seq<byte>, sw: nat, sh: nat, cy: nat, cx: nat, p: Rgb)
    requires sw > 0 && sh > 0
    requires SameInBlock(bgra, sw, sh, cy, cx, 0) ==> BlockMean(bgra, sw, sh, cy, cx, 0) == p.b as real
    requires SameInBlock(bgra, sw, sh, cy, cx, 1) ==> BlockMean(bgra, sw, sh, cy, cx, 1) == p.g as real
    requires SameInBlock(bgra, sw, sh, cy, cx, 2) ==> BlockMean(bgra, sw, sh, cy, cx, 2) == p.r as real
    ensures ChromaStep(bgra, sw, sh, cy, cx) == 1.0 ==>
              && BlockMean(bgra, sw, sh, cy, cx, 0) == p.b as real && BlockMean(bgra, sw, sh, cy, cx, 1) == p.g as real
              && BlockMean(bgra, sw, sh, cy, cx, 2) == p.r as real
  {
    hide SourceByte, BlockMean, SameInBlock;
  }

  lemma I420Follows(yp: seq<byte>, up: seq<byte>, vp: seq<byte>, bgra: seq<byte>, sw: nat, sh: nat, dw: nat, dh: nat)
    requires EvenSize(dw, dh) && sw > 0 && sh > 0 && dw > 0 && |bgra| >= 4 * Area(sw, sh)
    requires IsI420(yp, up, vp, Replicated(bgra, sw, sh, dw, dh), dw, dh)
    ensures I420Says(yp, up, vp, bgra, sw, sh, dw, dh)
  {
    hide Replicated, Area, LumaDone, LumaSays, ChromaSays, BlockColor, Cb, Cr;
    LumaFollows(yp, bgra, sw, sh, dw, dh);
    forall cy: nat, cx: nat | cy < dh / 2 && cx < dw / 2
      ensures PlanarSays(up, vp, dw, bgra, sw, sh, cy, cx)
    {
      ChromaFollows(bgra, sw, sh, dw, dh, cy, cx);
      assert Before(cy, cx, dh / 2, 0);
      assert Idx(dw / 2, cy, cx) < |up|;
    }
  }

  lemma Nv12Follows(out: seq<byte>, bgra: seq<byte>, sw: nat, sh: nat, dw: nat, dh: nat)
    requires EvenSize(dw, dh) && sw > 0 && sh > 0 && dw > 0 && |bgra| >= 4 * Area(sw, sh)
    requires IsNv12(out, Replicated(bgra, sw, sh, dw, dh), dw, dh)
    ensures Nv12Says(out, bgra, sw, sh, dw, dh)
  {
    hide Replicated, LumaDone, LumaSays, ChromaSays, BlockColor, Cb, Cr;
    LumaFollows(out, bgra, sw, sh, dw, dh);
    forall cy: nat, cx: nat | cy < dh / 2 && cx < dw / 2
      ensures PairSays(out, dw * dh, dw, bgra, sw, sh, cy, cx)
    {
      ChromaFollows(bgra, sw, sh, dw, dh, cy, cx);
      assert Before(cy, cx, dh / 2, 0);
      assert PairIdx(Area(dw, dh), dw, cy, cx) + 1 < |out|;
    }
  }

  /** `bgra_to_i420`: whichever path is taken, the planes are those of the edge-replicated frame, and near the
      signals of the source's colours. */
  method BgraToI420(yp: array<byte>, up: array<byte>, vp: array<byte>, sw: nat, sh: nat, dw: nat, dh: nat,
                    bgra: seq<byte>)
    requires Separate(yp, up, vp, dw, dh) && sw > 0 && sh > 0 && dw > 0 && |bgra| >= 4 * Area(sw, sh)
    modifies yp, up, vp
    ensures IsI420(yp[..], up[..], vp[..], Replicated(bgra, sw, sh, dw, dh), dw, dh)
    ensures I420Says(yp[..], up[..], vp[..], bgra, sw, sh, dw, dh)
  {
    hide LumaDone, PlanarDone, Replicated, Area, I420Says;
    if sw == dw && sh == dh && |bgra| >= 4 * Area(sw, sh) {
      I420Fast(yp, up, vp, sw, sh, bgra);
      ReplicatedSame(bgra, sw, sh);
      LumaToPrefix(yp[..], bgra, sw, sh);
      PlanarToPrefix(up[..], vp[..], bgra, sw, sh);
    } else {
      I420Padded(yp, up, vp, sw, sh, dw, dh, bgra);
    }
    I420Follows(yp[..], up[..], vp[..], bgra, sw, sh, dw, dh);
  }

  /** `bgra_to_nv12`, likewise; the output buffer has the size to which the source resizes it. */
  method BgraToNv12(sw: nat, sh: nat, dw: nat, dh: nat, bgra: seq<byte>) returns (out: array<byte>)
    requires EvenSize(dw, dh) && sw > 0 && sh > 0 && dw > 0 && |bgra| >= 4 * Area(sw, sh)
    ensures fresh(out) && IsNv12(out[..], Replicated(bgra, sw, sh, dw, dh), dw, dh)
    ensures Nv12Says(out[..], bgra, sw, sh, dw, dh)
  {
    hide LumaDone, PairsDone, Replicated, Area, Nv12Says;
    HalfOfEven(dw, dh);
    out := new byte[Area(dw, dh) + Area(dw, dh) / 2](_ => 0);
    if sw == dw && sh == dh && |bgra| >= 4 * Area(sw, sh) {
      Nv12Fast(out, sw, sh, bgra);
      ReplicatedSame(bgra, sw, sh);
      LumaToPrefix(out[..], bgra, sw, sh);
      PairsToPrefix(out[..], Area(sw, sh), bgra, sw, sh);
    } else {
      Nv12Padded(out, sw, sh, dw, dh, bgra);
    }
    Nv12Follows(out[..], bgra, sw, sh, dw, dh);
  }
}
