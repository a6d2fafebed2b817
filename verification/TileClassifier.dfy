/** Stage 3 of the tile pipeline: a dirty tile becomes one XOR pixel, a scroll of the previous frame, or
    an XOR delta. */
module TileClassifier {
  import opened Bytes
  import opened XorParity
  import opened TileGrid
  import opened ScrollOrder
  import opened TileCodec
  import opened TileStages
  import opened TileChoice

  const MAX_DY: nat := 32

  datatype TilePayload = TilePayload(tileId: nat, mode: byte, color: u32, dy: int, delta: seq<byte>)

  // ----- the XOR delta

  /** The XOR of two tiles, zero-padded to the full tile size. */
  ghost predicate IsDelta(delta: seq<byte>, cur: seq<byte>, prev: seq<byte>) {
    |delta| == TILE_BYTES &&
    forall i: nat :: i < TILE_BYTES ==> delta[i] == Xor(ByteAt(cur, i), ByteAt(prev, i))
  }

  /** XORs one beat into the delta buffer. */
  method XorBeat(delta: seq<byte>, off: nat, b: FrameBeat) returns (delta': seq<byte>)
    requires |delta| == TILE_BYTES && off + BEAT <= TILE_BYTES && |b.cur| == |b.prev| == BEAT
    ensures |delta'| == TILE_BYTES
    ensures forall i: nat :: i < TILE_BYTES ==>
      delta'[i] == if off <= i < off + BEAT then Xor(b.cur[i - off], b.prev[i - off]) else delta[i]
  {
    delta' := delta;
    for i := 0 to BEAT
      invariant |delta'| == TILE_BYTES
      invariant forall j: nat :: j < TILE_BYTES ==>
        delta'[j] == if off <= j < off + i then Xor(b.cur[j - off], b.prev[j - off]) else delta[j]
    {
      delta' := delta'[off + i := XorByte(b.cur[i], b.prev[i])];
    }
  }

  /** Drains the beats of one tile; for a dirty tile the XOR is collected, and `off` counts its bytes,
      rounded up to whole beats. */
  method CollectDelta(input: seq<FrameBeat>, dirty: bool, ghost cur: seq<byte>, ghost prev: seq<byte>, ghost id: nat,
                      ghost rest: seq<FrameBeat>)
    returns (input': seq<FrameBeat>, delta: seq<byte>, off: nat)
    requires |cur| == |prev| && 0 < |cur| <= TILE_BYTES && input == BeatsOf(cur, prev, id) + rest
    ensures input' == rest
    ensures dirty ==> IsDelta(delta, cur, prev) && off == |BeatsOf(cur, prev, id)| * BEAT && |cur| <= off <= TILE_BYTES
  {
    ghost var beats := BeatsOf(cur, prev, id);
    hide BeatsOf;
    input', delta, off := input, seq(TILE_BYTES, _ => 0), 0;
    var done := false;
    ghost var k := 0;
    while !done
      invariant k <= |beats| && input' == beats[k..] + rest && (done <==> k == |beats|)
      invariant |delta| == TILE_BYTES && (dirty ==> off == k * BEAT)
      invariant dirty ==> forall i: nat :: i < TILE_BYTES ==>
        delta[i] == if i < k * BEAT then Xor(ByteAt(cur, i), ByteAt(prev, i)) else 0
      decreases |beats| - k
    {
      var b := input'[0];
      assert b == beats[k];
      input' := input'[1..];
      if dirty {
        delta := XorBeat(delta, off, b);
        off := off + BEAT;
      }
      done := b.last;
      k := k + 1;
    }
    if dirty {
      assert Xor(0, 0) == 0;
    }
  }

  // ----- the solid test

  /** All pixels of the first `off` bytes equal the first one. */
  ghost predicate Uniform(delta: seq<byte>, off: nat)
    requires 4 <= off <= |delta|
  {
    forall i: nat :: i < off ==> delta[i] == delta[i % 4]
  }

  method IsSolid(delta: seq<byte>, off: nat) returns (solid: bool)
    requires 4 <= off <= |delta| && off % 4 == 0
    ensures solid <==> Uniform(delta, off)
  {
    var i := 4;
    while i < off
      invariant 4 <= i <= off && i % 4 == 0
      invariant Uniform(delta, i)
    {
      if delta[i..i + 4] != delta[..4] {
        PixelDiffers(delta, i, off);
        return false;
      }
      PixelEqual(delta, i);
      i := i + 4;
    }
    return true;
  }

  lemma PixelDiffers(delta: seq<byte>, i: nat, off: nat)
    requires i % 4 == 0 && i + 4 <= off <= |delta| && delta[i..i + 4] != delta[..4]
    ensures !Uniform(delta, off)
  {
    var k :| 0 <= k < 4 && delta[i..i + 4][k] != delta[..4][k];
    assert (i + k) % 4 == k;
    assert delta[i + k] != delta[(i + k) % 4];
  }

  lemma PixelEqual(delta: seq<byte>, i: nat)
    requires i % 4 == 0 && 4 <= i && i + 4 <= |delta| && delta[i..i + 4] == delta[..4] && Uniform(delta, i)
    ensures Uniform(delta, i + 4)
  {
    forall j: nat | i <= j < i + 4 ensures delta[j] == delta[j % 4] {
      assert j % 4 == j - i;
      assert delta[j] == delta[i..i + 4][j - i];
    }
  }

  // ----- scroll detection

  /** The tile equals the previous frame shifted by `dy`, and the shifted rows lie in the frame. */
  ghost predicate ScrollMatch(cur: seq<byte>, prev: seq<byte>, w: nat, h: nat, tx: nat, ty: nat, dy: int)
    requires IsFrame(cur, w, h) && IsFrame(prev, w, h) && tx < TilesIn(w) && ty < TilesIn(h)
  {
    && ScrollInside(h, ty, dy)
    && forall q: nat :: q < RowCount(h, ty) ==> RowMatch(cur, prev, w, h, tx, ty, dy, q)
  }

  predicate ScrollInside(h: nat, ty: nat, dy: int) {
    0 <= TILE_PX * ty + dy && TILE_PX * ty + RowCount(h, ty) + dy <= h
  }

  ghost predicate RowMatch(cur: seq<byte>, prev: seq<byte>, w: nat, h: nat, tx: nat, ty: nat, dy: int, q: nat)
    requires tx < TilesIn(w) && ty < TilesIn(h)
  {
    forall b: nat :: b < RowLen(w, tx) ==>
      TileValue(Some(Scroll(dy)), prev, w, tx, ty, q, b) == TileValue(None, cur, w, tx, ty, q, b)
  }

  /** `memcmp` of one row of the tile with the shifted row of the previous frame. */
  method CompareRow(cur: seq<byte>, prev: seq<byte>, w: nat, h: nat, tx: nat, ty: nat, dy: int, q: nat)
    returns (equal: bool)
    requires IsFrame(cur, w, h) && IsFrame(prev, w, h) && tx < TilesIn(w) && ty < TilesIn(h)
    requires q < RowCount(h, ty) && ScrollInside(h, ty, dy)
    ensures equal <==> RowMatch(cur, prev, w, h, tx, ty, dy, q)
  {
    TileShape(w, h, tx, ty);
    RowInFrame(cur, w, h, tx, ty, q);
    var y, sy: nat, n: nat := TILE_PX * ty + q, TILE_PX * ty + q + dy, RowLen(w, tx);
    SourceOffset(w, y, tx);
    SourceOffset(w, sy, tx);
    AtInFrame(w, h, sy, ROW_BYTES * tx + n - 1);
    var a, b := (y * w + tx * TILE_PX) * 4, (sy * w + tx * TILE_PX) * 4;
    equal := cur[a..a + n] == prev[b..b + n];
    RowsEqual(cur, prev, w, h, tx, ty, dy, q, a, b, n);
  }

  lemma RowsEqual(cur: seq<byte>, prev: seq<byte>, w: nat, h: nat, tx: nat, ty: nat, dy: int, q: nat,
                  a: nat, b: nat, n: nat)
    requires tx < TilesIn(w) && ty < TilesIn(h) && n == RowLen(w, tx) && a + n <= |cur| && b + n <= |prev|
    requires TILE_PX * ty + q + dy >= 0
    requires a == At(w, TILE_PX * ty + q, ROW_BYTES * tx) && b == At(w, TILE_PX * ty + q + dy, ROW_BYTES * tx)
    ensures cur[a..a + n] == prev[b..b + n] <==> RowMatch(cur, prev, w, h, tx, ty, dy, q)
  {
    var r, s := cur[a..a + n], prev[b..b + n];
    forall i: nat | i < n
      ensures TileValue(None, cur, w, tx, ty, q, i) == r[i]
      ensures TileValue(Some(Scroll(dy)), prev, w, tx, ty, q, i) == s[i]
    {
      hide TilesIn, RowLen, Xor;
    }
    hide TileValue, TilesIn;
    if r == s {
      assert RowMatch(cur, prev, w, h, tx, ty, dy, q);
    }
    if RowMatch(cur, prev, w, h, tx, ty, dy, q) {
      forall i | 0 <= i < n ensures r[i] == s[i] {
        assert TileValue(Some(Scroll(dy)), prev, w, tx, ty, q, i) == TileValue(None, cur, w, tx, ty, q, i);
      }
      assert r == s;
    }
  }

  /** The first shift in search order under which the tile matches, if any within 32 rows does. */
  method FindScrollDy(cur: seq<byte>, prev: seq<byte>, w: nat, h: nat, tx: nat, ty: nat) returns (r: Option<int>)
    requires IsFrame(cur, w, h) && IsFrame(prev, w, h) && tx < TilesIn(w) && ty < TilesIn(h)
    ensures r.Some? ==> exists k: nat :: k < 2 * MAX_DY && r.value == Candidate(k)
                          && ScrollMatch(cur, prev, w, h, tx, ty, Candidate(k))
                          && forall j: nat :: j < k ==> !ScrollMatch(cur, prev, w, h, tx, ty, Candidate(j))
    ensures r.Some? ==> 1 <= Abs(r.value) <= MAX_DY
    ensures r.None? ==> forall k: nat :: k < 2 * MAX_DY ==> !ScrollMatch(cur, prev, w, h, tx, ty, Candidate(k))
  {
    hide RowMatch;
    var k := 0;
    while k < 2 * MAX_DY
      invariant 0 <= k <= 2 * MAX_DY
      invariant forall j: nat :: j < k ==> !ScrollMatch(cur, prev, w, h, tx, ty, Candidate(j))
    {
      var dy := Candidate(k);
      if ScrollInside(h, ty, dy) {
        var match_ := true;
        var q := 0;
        while q < RowCount(h, ty) && match_
          invariant 0 <= q
          invariant match_ ==>
            forall p: nat :: p < q && p < RowCount(h, ty) ==> RowMatch(cur, prev, w, h, tx, ty, dy, p)
          invariant !match_ ==> exists p: nat :: p < RowCount(h, ty) && !RowMatch(cur, prev, w, h, tx, ty, dy, p)
        {
          match_ := CompareRow(cur, prev, w, h, tx, ty, dy, q);
          q := q + 1;
        }
        if match_ {
          return Some(dy);
        }
      }
      k := k + 1;
    }
    return None;
  }

  /** The shift that the search returns is the nearest one that matches. */
  lemma NearestShift(cur: seq<byte>, prev: seq<byte>, w: nat, h: nat, tx: nat, ty: nat, k: nat, dy: int)
    requires IsFrame(cur, w, h) && IsFrame(prev, w, h) && tx < TilesIn(w) && ty < TilesIn(h)
    requires forall j: nat :: j < k ==> !ScrollMatch(cur, prev, w, h, tx, ty, Candidate(j))
    requires 1 <= Abs(dy) <= MAX_DY && ScrollMatch(cur, prev, w, h, tx, ty, dy)
    ensures dy == Candidate(k) || Abs(Candidate(k)) < Abs(dy) || (Candidate(k) == -dy && Candidate(k) > 0)
  {
    var j := CandidateFor(dy, MAX_DY);
    if k < j {
      CandidateOrder(k, j);
    }
  }

  // ----- classification

  /** The wire record of a classified tile. */
  function RecordOf(p: TilePayload): Record {
    if p.mode == MODE_SOLID then Solid(ToLE(p.color, 4))
    else if p.mode == MODE_SCROLL then Scroll(p.dy)
    else Delta(p.delta)
  }

  lemma CleanRestores(cur: seq<byte>, prev: seq<byte>, w: nat, h: nat, tx: nat, ty: nat)
    requires IsFrame(cur, w, h) && IsFrame(prev, w, h) && tx < TilesIn(w) && ty < TilesIn(h)
    requires TileRows(cur, w, h, tx, ty, RowCount(h, ty)) == TileRows(prev, w, h, tx, ty, RowCount(h, ty))
    ensures Restores(None, cur, prev, w, h, tx, ty)
  {
    TileShape(w, h, tx, ty);
    forall q: nat, b: nat | q < RowCount(h, ty) && b < RowLen(w, tx)
      ensures TileValue(None, prev, w, tx, ty, q, b) == ByteAt(cur, At(w, TILE_PX * ty + q, ROW_BYTES * tx + b))
    {
      hide TileRows, At, TilesIn, RowLen, RowCount;
      TileRowsAt(cur, w, h, tx, ty, RowCount(h, ty), q, b);
      TileRowsAt(prev, w, h, tx, ty, RowCount(h, ty), q, b);
    }
  }

  lemma Offset(q: nat, len: nat, b: nat) returns (o: nat)
    ensures o == q * len + b
  {
    MulLe(0, q, len);
    o := q * len + b;
  }

  lemma ValueOfDelta(delta: seq<byte>, prev: seq<byte>, w: nat, tx: nat, ty: nat, q: nat, b: nat, o: nat)
    requires o == q * RowLen(w, tx) + b && o < |delta|
    ensures TileValue(Some(Delta(delta)), prev, w, tx, ty, q, b) == Xor(FrameAt(prev, w, tx, ty, q, b), delta[o])
  {
    hide Xor, At, RowLen;
  }

  lemma ValueOfSolid(color: seq<byte>, prev: seq<byte>, w: nat, tx: nat, ty: nat, q: nat, b: nat)
    requires |color| == 4
    ensures TileValue(Some(Solid(color)), prev, w, tx, ty, q, b)
         == Xor(FrameAt(prev, w, tx, ty, q, b), color[b % 4])
  {
    hide Xor, At, RowLen;
  }

  /** Both tiles and their delta at one position. */
  lemma DeltaAt(delta: seq<byte>, cur: seq<byte>, prev: seq<byte>, w: nat, h: nat, tx: nat, ty: nat, q: nat, b: nat,
                o: nat)
    requires o == q * RowLen(w, tx) + b
    requires IsFrame(cur, w, h) && IsFrame(prev, w, h) && tx < TilesIn(w) && ty < TilesIn(h)
    requires q < RowCount(h, ty) && b < RowLen(w, tx)
    requires IsDelta(delta, TileRows(cur, w, h, tx, ty, RowCount(h, ty)), TileRows(prev, w, h, tx, ty, RowCount(h, ty)))
    ensures o < |TileRows(cur, w, h, tx, ty, RowCount(h, ty))| && o < TILE_BYTES
    ensures Xor(FrameAt(prev, w, tx, ty, q, b), delta[o]) == FrameAt(cur, w, tx, ty, q, b)
  {
    TileShape(w, h, tx, ty);
    hide TileRows, At, TilesIn, RowLen, RowCount, Xor, TileValue;
    var n: nat := RowCount(h, ty);
    TileArea(n, RowLen(w, tx));
    TileRowsAt(cur, w, h, tx, ty, n, q, b);
    TileRowsAt(prev, w, h, tx, ty, n, q, b);
    var c, p := FrameAt(cur, w, tx, ty, q, b), FrameAt(prev, w, tx, ty, q, b);
    XorCommutes(p, Xor(c, p));
    XorCancel(c, p);
  }

  lemma DeltaRestores(delta: seq<byte>, cur: seq<byte>, prev: seq<byte>, w: nat, h: nat, tx: nat, ty: nat)
    requires IsFrame(cur, w, h) && IsFrame(prev, w, h) && tx < TilesIn(w) && ty < TilesIn(h)
    requires IsDelta(delta, TileRows(cur, w, h, tx, ty, RowCount(h, ty)), TileRows(prev, w, h, tx, ty, RowCount(h, ty)))
    ensures Restores(Some(Delta(delta)), cur, prev, w, h, tx, ty)
  {
    TileShape(w, h, tx, ty);
    forall q: nat, b: nat | q < RowCount(h, ty) && b < RowLen(w, tx)
      ensures TileValue(Some(Delta(delta)), prev, w, tx, ty, q, b)
           == ByteAt(cur, At(w, TILE_PX * ty + q, ROW_BYTES * tx + b))
    {
      hide TileRows, At, TilesIn, RowLen, RowCount, Xor, TileValue, IsDelta;
      var o := Offset(q, RowLen(w, tx), b);
      DeltaAt(delta, cur, prev, w, h, tx, ty, q, b, o);
      ValueOfDelta(delta, prev, w, tx, ty, q, b, o);
    }
  }

  /** A uniform delta is restored by its first pixel alone. */
  lemma SolidRestores(delta: seq<byte>, off: nat, cur: seq<byte>, prev: seq<byte>, w: nat, h: nat, tx: nat, ty: nat)
    requires IsFrame(cur, w, h) && IsFrame(prev, w, h) && tx < TilesIn(w) && ty < TilesIn(h)
    requires IsDelta(delta, TileRows(cur, w, h, tx, ty, RowCount(h, ty)), TileRows(prev, w, h, tx, ty, RowCount(h, ty)))
    requires |TileRows(cur, w, h, tx, ty, RowCount(h, ty))| <= off && 4 <= off <= TILE_BYTES && Uniform(delta, off)
    ensures Restores(Some(Solid(delta[..4])), cur, prev, w, h, tx, ty)
  {
    TileShape(w, h, tx, ty);
    forall q: nat, b: nat | q < RowCount(h, ty) && b < RowLen(w, tx)
      ensures TileValue(Some(Solid(delta[..4])), prev, w, tx, ty, q, b)
           == ByteAt(cur, At(w, TILE_PX * ty + q, ROW_BYTES * tx + b))
    {
      hide TileRows, At, TilesIn, RowLen, RowCount, Xor, TileValue, IsDelta;
      var o := Offset(q, RowLen(w, tx), b);
      DeltaAt(delta, cur, prev, w, h, tx, ty, q, b, o);
      ValueOfSolid(delta[..4], prev, w, tx, ty, q, b);
      PixelPhase(q, RowLen(w, tx), b, o);
    }
  }

  lemma PixelPhase(q: nat, len: nat, b: nat, o: nat)
    requires len % 4 == 0 && o == q * len + b
    ensures o % 4 == b % 4
  {
    var m := len / 4;
    assert q * len == 4 * (q * m);
  }

  lemma ScrollRestores(cur: seq<byte>, prev: seq<byte>, w: nat, h: nat, tx: nat, ty: nat, dy: int)
    requires IsFrame(cur, w, h) && IsFrame(prev, w, h) && tx < TilesIn(w) && ty < TilesIn(h)
    requires ScrollMatch(cur, prev, w, h, tx, ty, dy)
    ensures Restores(Some(Scroll(dy)), cur, prev, w, h, tx, ty)
  {
    forall q: nat, b: nat | q < RowCount(h, ty) && b < RowLen(w, tx)
      ensures TileValue(Some(Scroll(dy)), prev, w, tx, ty, q, b)
           == ByteAt(cur, At(w, TILE_PX * ty + q, ROW_BYTES * tx + b))
    {
      hide At, TilesIn, RowLen, RowCount, Xor;
      assert RowMatch(cur, prev, w, h, tx, ty, dy, q);
      assert TileValue(None, cur, w, tx, ty, q, b) == ByteAt(cur, At(w, TILE_PX * ty + q, ROW_BYTES * tx + b));
    }
  }

  // ----- which record is chosen

  /** The delta at a position of the tile. */
  lemma DeltaIsXor(delta: seq<byte>, cur: seq<byte>, prev: seq<byte>, w: nat, h: nat, tx: nat, ty: nat, q: nat, b: nat,
                   i: nat)
    requires IsFrame(cur, w, h) && IsFrame(prev, w, h) && tx < TilesIn(w) && ty < TilesIn(h)
    requires InTile(w, h, tx, ty, q, b) && i == q * RowLen(w, tx) + b
    requires IsDelta(delta, TileRows(cur, w, h, tx, ty, RowCount(h, ty)), TileRows(prev, w, h, tx, ty, RowCount(h, ty)))
    ensures i < TILE_BYTES == |delta| && i % 4 == b % 4
    ensures delta[i] == Xor(FrameAt(cur, w, tx, ty, q, b), FrameAt(prev, w, tx, ty, q, b))
  {
    hide TilesIn, TileRows, FrameAt, Xor, RowLen, RowCount;
    TileShape(w, h, tx, ty);
    TileArea(RowCount(h, ty), RowLen(w, tx));
    PackedAt(cur, w, h, tx, ty, q, b, i);
    PackedAt(prev, w, h, tx, ty, q, b, i);
    PixelPhase(q, RowLen(w, tx), b, i);
  }

  lemma DeltaHoldsXor(delta: seq<byte>, cur: seq<byte>, prev: seq<byte>, w: nat, h: nat, tx: nat, ty: nat)
    requires IsFrame(cur, w, h) && IsFrame(prev, w, h) && tx < TilesIn(w) && ty < TilesIn(h)
    requires IsDelta(delta, TileRows(cur, w, h, tx, ty, RowCount(h, ty)), TileRows(prev, w, h, tx, ty, RowCount(h, ty)))
    ensures IsXor(delta, cur, prev, w, h, tx, ty)
  {
    hide IsDelta, TilesIn, TileRows, FrameAt, Xor, RowLen, RowCount, InTile;
    forall q: nat, b: nat | InTile(w, h, tx, ty, q, b)
      ensures ByteAt(delta, q * RowLen(w, tx) + b) == Xor(FrameAt(cur, w, tx, ty, q, b), FrameAt(prev, w, tx, ty, q, b))
    {
      var i := PackIndex(w, h, tx, ty, q, b);
      DeltaIsXor(delta, cur, prev, w, h, tx, ty, q, b, i);
    }
  }

  lemma UniformIsChange(delta: seq<byte>, off: nat, cur: seq<byte>, prev: seq<byte>, w: nat, h: nat, tx: nat, ty: nat)
    requires IsFrame(cur, w, h) && IsFrame(prev, w, h) && tx < TilesIn(w) && ty < TilesIn(h)
    requires IsDelta(delta, TileRows(cur, w, h, tx, ty, RowCount(h, ty)), TileRows(prev, w, h, tx, ty, RowCount(h, ty)))
    requires RowCount(h, ty) * RowLen(w, tx) <= off && 4 <= off <= |delta| && Uniform(delta, off)
    ensures ChangedBy(delta[..4], cur, prev, w, h, tx, ty)
  {
    hide IsDelta, TilesIn, TileRows, FrameAt, Xor, RowLen, RowCount, InTile;
    forall q: nat, b: nat | InTile(w, h, tx, ty, q, b)
      ensures Xor(FrameAt(cur, w, tx, ty, q, b), FrameAt(prev, w, tx, ty, q, b)) == delta[..4][b % 4]
    {
      var i := PackIndex(w, h, tx, ty, q, b);
      DeltaIsXor(delta, cur, prev, w, h, tx, ty, q, b, i);
    }
  }

  lemma ChangeIsUniform(delta: seq<byte>, off: nat, cur: seq<byte>, prev: seq<byte>, w: nat, h: nat, tx: nat, ty: nat,
                        color: seq<byte>)
    requires IsFrame(cur, w, h) && IsFrame(prev, w, h) && tx < TilesIn(w) && ty < TilesIn(h)
    requires IsDelta(delta, TileRows(cur, w, h, tx, ty, RowCount(h, ty)), TileRows(prev, w, h, tx, ty, RowCount(h, ty)))
    requires RowCount(h, ty) * RowLen(w, tx) == off && 4 <= off <= |delta|
    requires ChangedBy(color, cur, prev, w, h, tx, ty)
    ensures Uniform(delta, off)
  {
    hide IsDelta, TilesIn, TileRows, FrameAt, Xor, RowLen, RowCount, InTile;
    forall i: nat | i < off ensures delta[i] == delta[i % 4] {
      var q, b := PackedFrom(w, h, tx, ty, i);
      DeltaIsXor(delta, cur, prev, w, h, tx, ty, q, b, i);
      var r, c := PackedFrom(w, h, tx, ty, i % 4);
      DeltaIsXor(delta, cur, prev, w, h, tx, ty, r, c, i % 4);
    }
  }

  /** Beyond a ragged tile the delta is zero, and so would be all of it. */
  lemma PaddingSpreads(delta: seq<byte>, c: seq<byte>, p: seq<byte>, off: nat)
    requires IsDelta(delta, c, p) && |c| == |p| && |c| % 4 == 0 && |c| + 4 <= off <= TILE_BYTES && Uniform(delta, off)
    ensures forall i :: 0 <= i < off ==> delta[i] == 0
  {
    hide IsDelta;
    DeltaLength(delta, c, p);
    forall i: nat | i < off ensures delta[i] == 0 {
      var k := i % 4;
      PaddingIsZero(delta, c, p, |c| + k);
      assert (|c| + k) % 4 == k;
      assert delta[i] == delta[k] && delta[|c| + k] == delta[(|c| + k) % 4];
    }
  }

  lemma RaggedIsNotUniform(delta: seq<byte>, off: nat, cur: seq<byte>, prev: seq<byte>, w: nat, h: nat,
                           tx: nat, ty: nat)
    requires IsFrame(cur, w, h) && IsFrame(prev, w, h) && tx < TilesIn(w) && ty < TilesIn(h)
    requires IsDelta(delta, TileRows(cur, w, h, tx, ty, RowCount(h, ty)), TileRows(prev, w, h, tx, ty, RowCount(h, ty)))
    requires RowCount(h, ty) * RowLen(w, tx) + 4 <= off <= TILE_BYTES == |delta| && Uniform(delta, off)
    ensures Unchanged(cur, prev, w, h, tx, ty)
  {
    hide TilesIn, TileRows, FrameAt, RowLen, RowCount, InTile, IsDelta, Xor, Uniform;
    TileShape(w, h, tx, ty);
    var len: nat := RowCount(h, ty) * RowLen(w, tx);
    PixelPhase(RowCount(h, ty), RowLen(w, tx), 0, len);
    PaddingSpreads(delta, TileRows(cur, w, h, tx, ty, RowCount(h, ty)), TileRows(prev, w, h, tx, ty, RowCount(h, ty)),
                   off);
    ZeroIsUnchanged(delta, cur, prev, w, h, tx, ty);
  }

  lemma ZeroIsUnchanged(delta: seq<byte>, cur: seq<byte>, prev: seq<byte>, w: nat, h: nat, tx: nat, ty: nat)
    requires IsFrame(cur, w, h) && IsFrame(prev, w, h) && tx < TilesIn(w) && ty < TilesIn(h)
    requires IsDelta(delta, TileRows(cur, w, h, tx, ty, RowCount(h, ty)), TileRows(prev, w, h, tx, ty, RowCount(h, ty)))
    requires forall i: nat :: i < RowCount(h, ty) * RowLen(w, tx) && i < |delta| ==> delta[i] == 0
    ensures Unchanged(cur, prev, w, h, tx, ty)
  {
    hide TilesIn, TileRows, FrameAt, RowLen, RowCount, InTile, IsDelta, Xor;
    forall q: nat, b: nat | InTile(w, h, tx, ty, q, b)
      ensures FrameAt(cur, w, tx, ty, q, b) == FrameAt(prev, w, tx, ty, q, b)
    {
      var i := PackIndex(w, h, tx, ty, q, b);
      DeltaIsXor(delta, cur, prev, w, h, tx, ty, q, b, i);
      ZeroXor(FrameAt(cur, w, tx, ty, q, b), FrameAt(prev, w, tx, ty, q, b));
    }
  }

  lemma PaddingIsZero(delta: seq<byte>, c: seq<byte>, p: seq<byte>, i: nat)
    requires IsDelta(delta, c, p) && |c| == |p| <= i < TILE_BYTES
    ensures delta[i] == 0
  {
    assert Xor(0, 0) == 0;
  }

  lemma ZeroXor(a: byte, b: byte)
    requires Xor(a, b) == 0
    ensures a == b
  {
    hide Xor;
    XorCancel(a, b);
    XorZero(b);
  }

  /** The padding of a row of whole pixels to whole beats is empty or holds at least one pixel. */
  lemma BeatPadding(len: nat, off: nat)
    requires len % 4 == 0 && off == DivCeil(len, BEAT) * BEAT
    ensures if len % 64 == 0 then off == len else len + 4 <= off
  {
  }

  /** The solid test of a changed tile, `off` bytes being its whole beats. */
  lemma SolidIsOneChange(delta: seq<byte>, off: nat, cur: seq<byte>, prev: seq<byte>, w: nat, h: nat, tx: nat, ty: nat)
    requires IsFrame(cur, w, h) && IsFrame(prev, w, h) && tx < TilesIn(w) && ty < TilesIn(h)
    requires IsDelta(delta, TileRows(cur, w, h, tx, ty, RowCount(h, ty)), TileRows(prev, w, h, tx, ty, RowCount(h, ty)))
    requires !Unchanged(cur, prev, w, h, tx, ty) && 4 <= off <= |delta|
    requires off == DivCeil(RowCount(h, ty) * RowLen(w, tx), BEAT) * BEAT
    ensures Uniform(delta, off) <==> OneChange(cur, prev, w, h, tx, ty)
    ensures Uniform(delta, off) ==> WholeBeats(w, h, tx, ty) && ChangedBy(delta[..4], cur, prev, w, h, tx, ty)
  {
    hide IsDelta, TilesIn, TileRows, Uniform, Unchanged, ChangedBy, RowLen, RowCount, DivCeil;
    DeltaLength(delta, TileRows(cur, w, h, tx, ty, RowCount(h, ty)), TileRows(prev, w, h, tx, ty, RowCount(h, ty)));
    TileShape(w, h, tx, ty);
    var len: nat := RowCount(h, ty) * RowLen(w, tx);
    PixelPhase(RowCount(h, ty), RowLen(w, tx), 0, len);
    BeatPadding(len, off);
    if Uniform(delta, off) {
      if len % 64 != 0 {
        RaggedIsNotUniform(delta, off, cur, prev, w, h, tx, ty);
      }
      UniformIsChange(delta, off, cur, prev, w, h, tx, ty);
    }
    if OneChange(cur, prev, w, h, tx, ty) {
      var color :| ChangedBy(color, cur, prev, w, h, tx, ty);
      ChangeIsUniform(delta, off, cur, prev, w, h, tx, ty, color);
    }
  }

  lemma ScrollIsMove(cur: seq<byte>, prev: seq<byte>, w: nat, h: nat, tx: nat, ty: nat, dy: int)
    requires IsFrame(cur, w, h) && IsFrame(prev, w, h) && tx < TilesIn(w) && ty < TilesIn(h)
    ensures ScrollMatch(cur, prev, w, h, tx, ty, dy) <==> Moved(cur, prev, w, h, tx, ty, dy)
  {
    hide TilesIn, RowLen, RowCount, XorByte;
    if Moved(cur, prev, w, h, tx, ty, dy) {
      forall q: nat | q < RowCount(h, ty) ensures RowMatch(cur, prev, w, h, tx, ty, dy, q) {
        forall b: nat | b < RowLen(w, tx)
          ensures TileValue(Some(Scroll(dy)), prev, w, tx, ty, q, b) == TileValue(None, cur, w, tx, ty, q, b)
        {
          assert InTile(w, h, tx, ty, q, b);
        }
      }
    }
    if ScrollMatch(cur, prev, w, h, tx, ty, dy) {
      forall q: nat, b: nat | InTile(w, h, tx, ty, q, b)
        ensures FrameAt(cur, w, tx, ty, q, b) == ByteAt(prev, (32 * ty + q + dy) * (4 * w) + (128 * tx + b))
      {
        assert RowMatch(cur, prev, w, h, tx, ty, dy, q);
        assert TileValue(Some(Scroll(dy)), prev, w, tx, ty, q, b) == TileValue(None, cur, w, tx, ty, q, b);
      }
    }
  }

  /** The shift that the search returns is the least, and if it returns none the tile has not moved. */
  lemma SearchIsLeast(cur: seq<byte>, prev: seq<byte>, w: nat, h: nat, tx: nat, ty: nat, r: Option<int>)
    requires IsFrame(cur, w, h) && IsFrame(prev, w, h) && tx < TilesIn(w) && ty < TilesIn(h)
    requires r.Some? ==> exists k: nat :: k < 2 * MAX_DY && r.value == Candidate(k)
                           && ScrollMatch(cur, prev, w, h, tx, ty, Candidate(k))
                           && forall j: nat :: j < k ==> !ScrollMatch(cur, prev, w, h, tx, ty, Candidate(j))
    requires r.Some? ==> 1 <= Abs(r.value) <= MAX_DY
    requires r.None? ==> forall k: nat :: k < 2 * MAX_DY ==> !ScrollMatch(cur, prev, w, h, tx, ty, Candidate(k))
    ensures if r.Some? then MovedLeast(cur, prev, w, h, tx, ty, r.value) else MovedNowhere(cur, prev, w, h, tx, ty)
  {
    hide TilesIn, ScrollMatch, Moved, Candidate;
    if r.Some? {
      var k: nat :| k < 2 * MAX_DY && r.value == Candidate(k)
                    && ScrollMatch(cur, prev, w, h, tx, ty, Candidate(k))
                    && forall j: nat :: j < k ==> !ScrollMatch(cur, prev, w, h, tx, ty, Candidate(j));
      ScrollIsMove(cur, prev, w, h, tx, ty, r.value);
      forall e: int | 1 <= Abs(e) <= 32 && Moved(cur, prev, w, h, tx, ty, e)
        ensures Abs(r.value) < Abs(e) || e == r.value || (e == -r.value && r.value > 0)
      {
        ScrollIsMove(cur, prev, w, h, tx, ty, e);
        NearestShift(cur, prev, w, h, tx, ty, k, e);
      }
    } else {
      forall dy: int | 1 <= Abs(dy) <= 32 ensures !Moved(cur, prev, w, h, tx, ty, dy) {
        ScrollIsMove(cur, prev, w, h, tx, ty, dy);
        var k := CandidateFor(dy, MAX_DY);
      }
    }
  }

  /** Tile `t` gets the record that the frames call for. */
  ghost predicate ChosenTile(rec: Option<Record>, cur: seq<byte>, prev: seq<byte>, w: nat, h: nat, t: nat)
    requires t < TileCount(w, h)
  {
    TileIdJoins(w, h, t);
    Chosen(rec, cur, prev, w, h, t % TilesIn(w), t / TilesIn(w))
  }

  /** A payload that the packet writer can put on the wire. */
  ghost predicate Writable(p: TilePayload) {
    || p.mode == MODE_SOLID
    || (p.mode == MODE_SCROLL && -32 <= p.dy <= 32)
    || (p.mode == MODE_DELTA && |p.delta| == TILE_BYTES)
  }

  /** The payload restores tile `t`. */
  ghost predicate RestoresTile(rec: Option<Record>, cur: seq<byte>, prev: seq<byte>, w: nat, h: nat, t: nat)
    requires t < TileCount(w, h)
  {
    TileIdJoins(w, h, t);
    Restores(rec, cur, prev, w, h, t % TilesIn(w), t / TilesIn(w))
  }

  /** Classifies a dirty tile: solid, else scroll, else delta. `off` counts the bytes of its beats. */
  method ClassifyTile(t: nat, delta: seq<byte>, off: nat, cur: seq<byte>, prev: seq<byte>, w: nat, h: nat)
    returns (p: TilePayload)
    requires IsFrame(cur, w, h) && IsFrame(prev, w, h) && t < TileCount(w, h)
    requires IsDelta(delta, TileBytes(cur, w, h, t), TileBytes(prev, w, h, t))
    requires TileBytes(cur, w, h, t) != TileBytes(prev, w, h, t)
    requires off == DivCeil(|TileBytes(cur, w, h, t)|, BEAT) * BEAT <= TILE_BYTES && off % 4 == 0 && 4 <= off
    ensures p.tileId == t && Writable(p)
    ensures RestoresTile(Some(RecordOf(p)), cur, prev, w, h, t) && ChosenTile(Some(RecordOf(p)), cur, prev, w, h, t)
  {
    hide IsDelta, Restores, Uniform, ScrollMatch, TilesIn, FromLE, ToLE, TileRows, RowLen, RowCount, DivCeil;
    hide Unchanged, OneChange, WholeBeats, ChangedBy, MovedLeast, MovedNowhere, IsXor;
    TileIdJoins(w, h, t);
    var tx, ty := t % TilesIn(w), t / TilesIn(w);
    UnchangedIs(cur, prev, w, h, t);
    DeltaLength(delta, TileBytes(cur, w, h, t), TileBytes(prev, w, h, t));
    SolidIsOneChange(delta, off, cur, prev, w, h, tx, ty);
    var solid := IsSolid(delta, off);
    if solid {
      LEBytes(delta[..4]);
      Widths();
      SolidRestores(delta, off, cur, prev, w, h, tx, ty);
      return TilePayload(t, MODE_SOLID, FromLE(delta[..4]), 0, []);
    }
    var dy := FindScrollDy(cur, prev, w, h, tx, ty);
    SearchIsLeast(cur, prev, w, h, tx, ty, dy);
    if dy.Some? {
      ScrollRestores(cur, prev, w, h, tx, ty, dy.value);
      return TilePayload(t, MODE_SCROLL, 0, dy.value, []);
    }
    DeltaRestores(delta, cur, prev, w, h, tx, ty);
    DeltaHoldsXor(delta, cur, prev, w, h, tx, ty);
    return TilePayload(t, MODE_DELTA, 0, 0, delta);
  }

  lemma DeltaLength(delta: seq<byte>, cur: seq<byte>, prev: seq<byte>)
    requires IsDelta(delta, cur, prev)
    ensures |delta| == TILE_BYTES
  {
  }

  function AsTiles(out: seq<TilePayload>): (tiles: seq<Tile>)
    ensures |tiles| == |out|
    ensures forall k :: 0 <= k < |out| ==> tiles[k] == Tile(out[k].tileId, RecordOf(out[k]))
  {
    seq(|out|, k requires 0 <= k < |out| => Tile(out[k].tileId, RecordOf(out[k])))
  }

  /** The records found for the first tiles: each is the one its tile calls for and restores it, and the FIFO holds
      the dirty ones. */
  ghost predicate Classified(recs: seq<Option<Record>>, out: seq<TilePayload>, cur: seq<byte>, prev: seq<byte>,
                             w: nat, h: nat)
    requires |recs| <= TileCount(w, h)
  {
    && (forall t: nat :: t < |recs| ==> RestoresTile(recs[t], cur, prev, w, h, t))
    && (forall t: nat :: t < |recs| ==> ChosenTile(recs[t], cur, prev, w, h, t))
    && (forall k :: 0 <= k < |out| ==> Writable(out[k]))
    && AsTiles(out) == TilesFrom(recs, 0)
  }

  lemma ClassifiedStep(recs: seq<Option<Record>>, out: seq<TilePayload>, cur: seq<byte>, prev: seq<byte>,
                       w: nat, h: nat, p: Option<TilePayload>)
    requires |recs| < TileCount(w, h) && Classified(recs, out, cur, prev, w, h)
    requires p.Some? ==> p.value.tileId == |recs| && Writable(p.value)
                         && RestoresTile(Some(RecordOf(p.value)), cur, prev, w, h, |recs|)
                         && ChosenTile(Some(RecordOf(p.value)), cur, prev, w, h, |recs|)
    requires p.None? ==> RestoresTile(None, cur, prev, w, h, |recs|) && ChosenTile(None, cur, prev, w, h, |recs|)
    ensures Classified(recs + [if p.Some? then Some(RecordOf(p.value)) else None],
                       if p.Some? then out + [p.value] else out, cur, prev, w, h)
  {
    hide RestoresTile, ChosenTile, Writable, TilesFrom, RecordOf;
    var r := if p.Some? then Some(RecordOf(p.value)) else None;
    TilesFromSnoc(recs, r, 0);
  }

  lemma CleanTile(cur: seq<byte>, prev: seq<byte>, w: nat, h: nat, t: nat)
    requires IsFrame(cur, w, h) && IsFrame(prev, w, h) && t < TileCount(w, h)
    requires TileBytes(cur, w, h, t) == TileBytes(prev, w, h, t)
    ensures RestoresTile(None, cur, prev, w, h, t) && ChosenTile(None, cur, prev, w, h, t)
  {
    hide Restores, TilesIn, Unchanged;
    TileIdJoins(w, h, t);
    UnchangedIs(cur, prev, w, h, t);
    CleanRestores(cur, prev, w, h, t % TilesIn(w), t / TilesIn(w));
  }

  lemma BeatBytes(cur: seq<byte>, prev: seq<byte>, id: nat)
    requires 0 < |cur|
    ensures |BeatsOf(cur, prev, id)| * BEAT % 4 == 0 && |BeatsOf(cur, prev, id)| * BEAT >= 4
  {
    hide BeatsOf, DivCeil;
    var n := |BeatsOf(cur, prev, id)|;
    assert n * BEAT == 4 * (16 * n);
  }

  /** Stage 3: classifies every dirty tile, in order, and drops the clean ones. */
  method Classifier(beats: seq<FrameBeat>, dirty: seq<DirtyResult>, cur: seq<byte>, prev: seq<byte>,
                    w: nat, h: nat, total: nat)
    returns (out: seq<TilePayload>, ghost recs: seq<Option<Record>>)
    requires Frames(cur, prev, w, h) && total == TileCount(w, h)
    requires beats == BeatsFrom(cur, prev, w, h, 0) && dirty == Dirtiness(cur, prev, w, h, total)
    ensures |recs| == total && Classified(recs, out, cur, prev, w, h)
  {
    hide BeatsOf, BeatsFrom, TileBytes, Classified, RestoresTile, ChosenTile, IsDelta, Writable, DivCeil;
    out, recs := [], [];
    ClassifiedStart(cur, prev, w, h);
    var fifo, flags := beats, dirty;
    for t := 0 to total
      invariant |recs| == t && Classified(recs, out, cur, prev, w, h)
      invariant fifo == BeatsFrom(cur, prev, w, h, t)
      invariant flags == dirty[t..]
    {
      var flag := flags[0];
      flags := flags[1..];
      ghost var c, p := TileBytes(cur, w, h, t), TileBytes(prev, w, h, t);
      SameSize(cur, prev, w, h, t);
      TileBeatsShape(cur, prev, w, h, t);
      BeatBytes(c, p, t);
      var fifo', delta, off := CollectDelta(fifo, flag.dirty, c, p, t, BeatsFrom(cur, prev, w, h, t + 1));
      fifo := fifo';
      if flag.dirty {
        var payload := ClassifyTile(flag.tileId, delta, off, cur, prev, w, h);
        ClassifiedStep(recs, out, cur, prev, w, h, Some(payload));
        out := out + [payload];
        recs := recs + [Some(RecordOf(payload))];
      } else {
        CleanTile(cur, prev, w, h, t);
        ClassifiedStep(recs, out, cur, prev, w, h, None);
        recs := recs + [None];
      }
    }
  }

  lemma ClassifiedStart(cur: seq<byte>, prev: seq<byte>, w: nat, h: nat)
    ensures Classified([], [], cur, prev, w, h)
  {
  }
}
