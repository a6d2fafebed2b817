/** Nearest-neighbour downscaling with 16.16 fixed-point sampling. */
module Downscale {
  import opened Bytes
  import opened TileGrid

  const ONE: nat := 0x1_0000

  /** The source coordinate of destination coordinate `d`, for `s` source and `n` destination pixels. */
  function Sample(s: nat, n: nat, d: nat): nat
    requires n > 0
  {
    d * (s * ONE / n) / ONE
  }

  lemma SampleInRange(s: nat, n: nat, d: nat)
    requires s > 0 && d < n
    ensures Sample(s, n, d) < s
    ensures d * (s * ONE / n) < 0x1_0000 * s
  {
    var ratio := s * ONE / n;
    assert s * ONE == ratio * n + s * ONE % n;
    assert ratio * n <= s * ONE;
    if ratio > 0 {
      MulLe(d + 1, n, ratio);
      assert (d + 1) * ratio == d * ratio + ratio;
      assert n * ratio == ratio * n;
    } else {
      assert d * ratio == 0;
    }
  }

  /** Sampling keeps the order of pixels. */
  lemma SampleMonotone(s: nat, n: nat, d: nat, d': nat)
    requires n > 0 && d <= d'
    ensures Sample(s, n, d) <= Sample(s, n, d')
  {
    MulLe(d, d', s * ONE / n);
  }

  /** Sampling at equal sizes is the identity. */
  lemma SampleIdentity(n: nat, d: nat)
    requires n > 0
    ensures Sample(n, n, d) == d
  {
    DivMod(ONE, n, 0);
    assert n * ONE == ONE * n + 0;
    assert n * ONE / n == ONE;
  }

  /** Coordinate `p` of `s` is the proportional one of `d` out of `n`: at most `d * s / n`, and short of it by less
      than one and the `d / 65536` that the truncated ratio loses. */
  predicate Proportional(s: nat, n: nat, d: nat, p: nat) {
    p * n <= d * s && d * s * 65536 < (p + 1) * 65536 * n + d * n
  }

  lemma SampleProportional(s: nat, n: nat, d: nat)
    requires n > 0
    ensures Proportional(s, n, d, Sample(s, n, d))
    ensures s * ONE % n == 0 ==> d * s < (Sample(s, n, d) + 1) * n
  {
    var ratio, rem := s * ONE / n, s * ONE % n;
    var x := d * ratio;
    var p, frac := x / ONE, x % ONE;
    assert s * ONE == ratio * n + rem && x == p * ONE + frac;
    assert d * (s * ONE) == d * (ratio * n) + d * rem;
    assert d * (ratio * n) == x * n;
    assert x * n == (p * ONE + frac) * n == p * n * ONE + frac * n;
    MulLe(frac + 1, ONE, n);
    assert (frac + 1) * n == frac * n + n;
    MulLe(rem, n, d);
    assert d * (s * ONE) == d * s * ONE && d * rem == rem * d && n * d == d * n;
    assert (p + 1) * 65536 * n == p * n * ONE + ONE * n;
    if rem == 0 {
      assert d * rem == 0;
      assert d * s * ONE < (p + 1) * n * ONE by { assert (p + 1) * n * ONE == (p + 1) * 65536 * n; }
    }
  }

  /** Every destination pixel shows the source pixel at the proportional place: blue, green, red, and opaque. */
  ghost predicate Scaled(out: seq<byte>, src: seq<byte>, sw: nat, sh: nat, dw: nat, dh: nat) {
    forall y: nat, x: nat | y < dh && x < dw :: ShowsAt(out, src, sw, sh, dw, dh, y, x)
  }

  ghost predicate ShowsAt(out: seq<byte>, src: seq<byte>, sw: nat, sh: nat, dw: nat, dh: nat, y: nat, x: nat) {
    exists sy: nat, sx: nat ::
      && sy < sh && sx < sw && Proportional(sh, dh, y, sy) && Proportional(sw, dw, x, sx)
      && SamePixel(out, 4 * (y * dw + x), src, 4 * (sy * sw + sx))
  }

  predicate SamePixel(out: seq<byte>, d: nat, src: seq<byte>, s: nat) {
    && d + 3 < |out| && s + 3 < |src|
    && out[d] == src[s] && out[d + 1] == src[s + 1] && out[d + 2] == src[s + 2] && out[d + 3] == 255
  }

  lemma DoneIsScaled(out: seq<byte>, src: seq<byte>, sw: nat, sh: nat, dw: nat, dh: nat)
    requires dw > 0 && dh > 0 && sw > 0 && sh > 0 && Done(out, src, sw, sh, dw, dh, dh, 0)
    ensures Scaled(out, src, sw, sh, dw, dh)
  {
    hide Sample, Proportional;
    forall y: nat, x: nat | y < dh && x < dw ensures ShowsAt(out, src, sw, sh, dw, dh, y, x) {
      var sy, sx := Sample(sh, dh, y), Sample(sw, dw, x);
      SampleInRange(sh, dh, y);
      SampleInRange(sw, dw, x);
      SampleProportional(sh, dh, y);
      SampleProportional(sw, dw, x);
      assert Before(y, x, dh, 0);
      assert Copied(out, PixelAt(dw, y, x), src, SourceOf(sw, sh, dw, dh, y, x));
      assert SamePixel(out, 4 * (y * dw + x), src, 4 * (sy * sw + sx));
    }
  }

  /** The first byte of pixel `(y, x)` in rows of `w` pixels. */
  function PixelAt(w: nat, y: nat, x: nat): nat {
    4 * (y * w + x)
  }

  lemma PixelBound(w: nat, h: nat, y: nat, x: nat)
    requires y < h && x < w
    ensures PixelAt(w, y, x) + 3 < w * h * 4
  {
    RowMajor(y, h, w, x);
  }

  lemma PixelsApart(w: nat, y: nat, x: nat, y': nat, x': nat)
    requires x < w && x' < w && !(y == y' && x == x')
    ensures PixelAt(w, y, x) + 3 < PixelAt(w, y', x') || PixelAt(w, y', x') + 3 < PixelAt(w, y, x)
  {
    DivMod(y, w, x);
    DivMod(y', w, x');
  }

  /** Three colour bytes of the source pixel, and an opaque alpha. */
  predicate Copied(dst: seq<byte>, d: nat, src: seq<byte>, s: nat) {
    && d + 3 < |dst| && s + 3 < |src|
    && dst[d] == src[s] && dst[d + 1] == src[s + 1] && dst[d + 2] == src[s + 2] && dst[d + 3] == 255
  }

  /** Whether destination pixel `(y, x)` comes before `(dy, dx)`. */
  predicate Before(y: nat, x: nat, dy: nat, dx: nat) {
    y < dy || (y == dy && x < dx)
  }

  function SourceOf(sw: nat, sh: nat, dw: nat, dh: nat, y: nat, x: nat): nat
    requires dw > 0 && dh > 0
  {
    PixelAt(sw, Sample(sh, dh, y), Sample(sw, dw, x))
  }

  ghost predicate Done(dst: seq<byte>, src: seq<byte>, sw: nat, sh: nat, dw: nat, dh: nat, dy: nat, dx: nat)
    requires dw > 0 && dh > 0
  {
    forall y: nat, x: nat | y < dh && x < dw && Before(y, x, dy, dx) ::
      Copied(dst, PixelAt(dw, y, x), src, SourceOf(sw, sh, dw, dh, y, x))
  }

  predicate Convertible(src: seq<byte>, sw: nat, sh: nat, dw: nat, dh: nat) {
    sw != 0 && sh != 0 && dw != 0 && dh != 0 && |src| >= sw * sh * 4
  }

  /** `Vec::resize` with zeros. */
  method Resize(dst: seq<byte>, n: nat) returns (a: array<byte>)
    ensures fresh(a) && a.Length == n && a[..] == Resized(dst, n)
  {
    a := new byte[n](i requires 0 <= i => if i < |dst| then dst[i] else 0);
  }

  function Resized(dst: seq<byte>, n: nat): (r: seq<byte>)
    ensures |r| == n && forall i :: 0 <= i < n ==> r[i] == if i < |dst| then dst[i] else 0
  {
    seq(n, i requires 0 <= i < n => if i < |dst| then dst[i] else 0)
  }

  /** Writing one pixel extends the finished part by it; no earlier pixel is touched. */
  lemma PixelStep(before: seq<byte>, dst: seq<byte>, src: seq<byte>, sw: nat, sh: nat, dw: nat, dh: nat,
                  dy: nat, dx: nat)
    requires dy < dh && dx < dw && Done(before, src, sw, sh, dw, dh, dy, dx) && |before| == |dst|
    requires Copied(dst, PixelAt(dw, dy, dx), src, SourceOf(sw, sh, dw, dh, dy, dx))
    requires forall k :: 0 <= k < |dst| && !(PixelAt(dw, dy, dx) <= k <= PixelAt(dw, dy, dx) + 3) ==>
      dst[k] == before[k]
    ensures Done(dst, src, sw, sh, dw, dh, dy, dx + 1)
  {
    hide PixelAt, SourceOf;
    forall y: nat, x: nat | y < dh && x < dw && Before(y, x, dy, dx + 1)
      ensures Copied(dst, PixelAt(dw, y, x), src, SourceOf(sw, sh, dw, dh, y, x))
    {
      if Before(y, x, dy, dx) {
        PixelsApart(dw, y, x, dy, dx);
      }
    }
  }

  lemma RowStep(dst: seq<byte>, src: seq<byte>, sw: nat, sh: nat, dw: nat, dh: nat, dy: nat)
    requires dw > 0 && dh > 0 && Done(dst, src, sw, sh, dw, dh, dy, dw)
    ensures Done(dst, src, sw, sh, dw, dh, dy + 1, 0)
  {
    hide PixelAt, SourceOf, Copied;
  }

  /** One pixel, with the source's own guard: it never skips. */
  method CopyPixel(src: seq<byte>, dst: array<byte>, sw: nat, sh: nat, dw: nat, dh: nat, dy: nat, dx: nat)
    requires Convertible(src, sw, sh, dw, dh) && dst.Length == dw * dh * 4 && dy < dh && dx < dw
    requires Done(dst[..], src, sw, sh, dw, dh, dy, dx)
    modifies dst
    ensures Done(dst[..], src, sw, sh, dw, dh, dy, dx + 1)
  {
    hide PixelAt, Sample, Done;
    var sy, sx := Sample(sh, dh, dy), Sample(sw, dw, dx);
    SampleInRange(sh, dh, dy);
    SampleInRange(sw, dw, dx);
    PixelBound(sw, sh, sy, sx);
    PixelBound(dw, dh, dy, dx);
    var s, d := PixelAt(sw, sy, sx), PixelAt(dw, dy, dx);
    ghost var before := dst[..];
    if s + 3 < |src| && d + 3 < dst.Length {
      dst[d] := src[s];
      dst[d + 1] := src[s + 1];
      dst[d + 2] := src[s + 2];
      dst[d + 3] := 255;
    }
    PixelStep(before, dst[..], src, sw, sh, dw, dh, dy, dx);
  }

  /** `downscale_bgra_box`: with a full source every destination pixel is written; otherwise the resized
      buffer is left as it is. */
  method DownscaleBgra(src: seq<byte>, sw: nat, sh: nat, dst: seq<byte>, dw: nat, dh: nat) returns (out: seq<byte>)
    ensures |out| == dw * dh * 4
    ensures !Convertible(src, sw, sh, dw, dh) ==> out == Resized(dst, dw * dh * 4)
    ensures Convertible(src, sw, sh, dw, dh) ==> Done(out, src, sw, sh, dw, dh, dh, 0)
    ensures sw > 0 && sh > 0 && |src| >= sw * sh * 4 ==> Scaled(out, src, sw, sh, dw, dh)
  {
    hide Done, PixelAt, ShowsAt;
    var a := Resize(dst, dw * dh * 4);
    if sw == 0 || sh == 0 || dw == 0 || dh == 0 || |src| < sw * sh * 4 {
      return a[..];
    }
    NothingDone(a[..], src, sw, sh, dw, dh);
    for dy := 0 to dh
      invariant Done(a[..], src, sw, sh, dw, dh, dy, 0)
    {
      for dx := 0 to dw
        invariant Done(a[..], src, sw, sh, dw, dh, dy, dx)
      {
        CopyPixel(src, a, sw, sh, dw, dh, dy, dx);
      }
      RowStep(a[..], src, sw, sh, dw, dh, dy);
    }
    out := a[..];
    DoneIsScaled(out, src, sw, sh, dw, dh);
  }

  lemma NothingDone(dst: seq<byte>, src: seq<byte>, sw: nat, sh: nat, dw: nat, dh: nat)
    requires dw > 0 && dh > 0
    ensures Done(dst, src, sw, sh, dw, dh, 0, 0)
  {
  }

  /** At equal sizes every colour byte is that of the source and every alpha byte is 255. */
  lemma SameSizeCopies(out: seq<byte>, src: seq<byte>, w: nat, h: nat, k: nat)
    requires Convertible(src, w, h, w, h) && |out| == w * h * 4 && Done(out, src, w, h, w, h, h, 0) && k < |out|
    ensures out[k] == if k % 4 == 3 then 255 else src[k]
  {
    hide Sample;
    var y, x := RowMajorSplit(k / 4, h, w);
    SampleIdentity(h, y);
    SampleIdentity(w, x);
    assert Copied(out, PixelAt(w, y, x), src, SourceOf(w, h, w, h, y, x));
    assert k == PixelAt(w, y, x) + k % 4;
  }
}
