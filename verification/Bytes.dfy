/** Bytes, fixed-width integers and the big- and little-endian byte orders that the
    wire formats of this project use. */
module Bytes {

  datatype Option<+T> = None | Some(value: T)

  type u8 = x: int | 0 <= x < 0x100
  type byte = u8
  type u16 = x: int | 0 <= x < 0x1_0000
  type u32 = x: int | 0 <= x < 0x1_0000_0000
  type u64 = x: int | 0 <= x < 0x1_0000_0000_0000_0000

  /** The truncating cast `x as u16` of a non-negative number. */
  function AsU16(x: nat): (r: u16)
    ensures x < 0x1_0000 ==> r == x
  {
    x % 0x1_0000
  }

  function Min(a: int, b: int): int {
    if a < b then a else b
  }

  function Max(a: int, b: int): int {
    if a < b then b else a
  }

  /** `clamp(0.0, 1.0)` */
  function Clamp(p: real): (r: real)
    ensures 0.0 <= r <= 1.0
  {
    if p < 0.0 then 0.0 else if p > 1.0 then 1.0 else p
  }

  /** Rounded-up division. */
  function DivCeil(a: nat, b: nat): (q: nat)
    requires b > 0
    ensures q * b >= a
    ensures if a > 0 then q > 0 && (q - 1) * b < a else q == 0
  {
    var q := (a + b - 1) / b;
    assert (a + b - 1) == q * b + (a + b - 1) % b;
    q
  }

  lemma TimesOrder(x: int, y: int, b: nat)
    ensures x <= y ==> x * b <= y * b
  {
  }

  lemma DivCeilIs(a: nat, b: nat, q: nat)
    requires b > 0 && q > 0 && (q - 1) * b < a <= q * b
    ensures DivCeil(a, b) == q
  {
    hide DivCeil;
    TimesOrder(q, DivCeil(a, b) - 1, b);
    TimesOrder(DivCeil(a, b), q - 1, b);
  }

  /** Chunk `i` of `a` bytes cut into pieces of `b` begins inside them. */
  lemma DivCeilStart(a: nat, b: nat, i: nat)
    requires b > 0 && i < DivCeil(a, b)
    ensures 0 <= i * b < a && (i + 1) * b == i * b + b
  {
    hide DivCeil;
    TimesOrder(i, DivCeil(a, b) - 1, b);
    TimesOrder(0, i, b);
  }

  function Pow256(k: nat): (p: nat)
    ensures p > 0
  {
    if k == 0 then 1 else 256 * Pow256(k - 1)
  }

  /** The `k` low bytes of `n`, most significant first (`to_be_bytes`). */
  function ToBE(n: nat, k: nat): (s: seq<byte>)
    ensures |s| == k
  {
    if k == 0 then [] else ToBE(n / 256, k - 1) + [n % 256]
  }

  /** `from_be_bytes`. */
  function FromBE(s: seq<byte>): (n: nat)
  {
    if s == [] then 0 else FromBE(s[..|s| - 1]) * 256 + s[|s| - 1]
  }

  /** The `k` low bytes of `n`, least significant first (`to_le_bytes`). */
  function ToLE(n: nat, k: nat): (s: seq<byte>)
    ensures |s| == k
  {
    if k == 0 then [] else [n % 256] + ToLE(n / 256, k - 1)
  }

  function FromLE(s: seq<byte>): (n: nat)
  {
    if s == [] then 0 else s[0] + 256 * FromLE(s[1..])
  }

  lemma {:induction false} BERoundTrip(n: nat, k: nat)
    requires n < Pow256(k)
    ensures FromBE(ToBE(n, k)) == n
  {
    if k > 0 {
      BERoundTrip(n / 256, k - 1);
      assert ToBE(n, k)[..k - 1] == ToBE(n / 256, k - 1);
    }
  }

  lemma {:induction false} BEBytes(s: seq<byte>)
    ensures FromBE(s) < Pow256(|s|)
    ensures ToBE(FromBE(s), |s|) == s
  {
    if s != [] {
      var init, last := s[..|s| - 1], s[|s| - 1];
      BEBytes(init);
      assert FromBE(s) / 256 == FromBE(init) && FromBE(s) % 256 == last;
      assert s == init + [last];
    }
  }

  lemma {:induction false} LERoundTrip(n: nat, k: nat)
    requires n < Pow256(k)
    ensures FromLE(ToLE(n, k)) == n
  {
    if k > 0 {
      LERoundTrip(n / 256, k - 1);
      assert ToLE(n, k)[1..] == ToLE(n / 256, k - 1);
    }
  }

  lemma LowByte(lo: byte, hi: nat)
    ensures (lo + 256 * hi) % 256 == lo && (lo + 256 * hi) / 256 == hi
  {
  }

  lemma {:induction false} LEBytes(s: seq<byte>)
    ensures FromLE(s) < Pow256(|s|)
    ensures ToLE(FromLE(s), |s|) == s
  {
    if s != [] {
      var lo, hi := s[0], FromLE(s[1..]);
      LEBytes(s[1..]);
      LowByte(lo, hi);
      assert s == [lo] + s[1..];
    }
  }

  lemma Widths()
    ensures Pow256(1) == 0x100
    ensures Pow256(2) == 0x1_0000
    ensures Pow256(4) == 0x1_0000_0000
    ensures Pow256(8) == 0x1_0000_0000_0000_0000
  {
    assert Pow256(3) == 256 * Pow256(2);
    assert Pow256(5) == 256 * Pow256(4);
    assert Pow256(6) == 256 * Pow256(5);
    assert Pow256(7) == 256 * Pow256(6);
  }

  // ----- numbers at a place in a byte string

  /** Most significant byte first. */
  function Be16(s: seq<byte>, at: nat): nat
    requires at + 2 <= |s|
  {
    256 * (s[at] as int) + s[at + 1] as int
  }

  function Be32(s: seq<byte>, at: nat): nat
    requires at + 4 <= |s|
  {
    65536 * Be16(s, at) + Be16(s, at + 2)
  }

  function Be64(s: seq<byte>, at: nat): nat
    requires at + 8 <= |s|
  {
    4294967296 * Be32(s, at) + Be32(s, at + 4)
  }

  /** Least significant byte first. */
  function Le16(s: seq<byte>, at: nat): nat
    requires at + 2 <= |s|
  {
    s[at] as int + 256 * (s[at + 1] as int)
  }

  function Le32(s: seq<byte>, at: nat): nat
    requires at + 4 <= |s|
  {
    Le16(s, at) + 65536 * Le16(s, at + 2)
  }

  lemma Be16Reads(n: u16)
    ensures Be16(ToBE(n, 2), 0) == n
  {
    assert ToBE(n, 2) == ToBE(n / 256, 1) + [n % 256];
    assert ToBE(n / 256, 1) == ToBE(n / 256 / 256, 0) + [n / 256 % 256];
  }

  lemma Be32Reads(n: u32)
    ensures Be32(ToBE(n, 4), 0) == n
  {
    var a, b := n / 65536, n % 65536;
    assert ToBE(n, 4) == ToBE(a, 2) + ToBE(b, 2) by { BeSplits(a, b, 2, 2); }
    Be16Reads(a);
    Be16Reads(b);
  }

  lemma Be64Reads(n: u64)
    ensures Be64(ToBE(n, 8), 0) == n
  {
    var a, b := n / 4294967296, n % 4294967296;
    Widths();
    assert ToBE(n, 8) == ToBE(a, 4) + ToBE(b, 4) by { BeSplits(a, b, 4, 4); }
    Be32Reads(a);
    Be32Reads(b);
    BeShift32(ToBE(a, 4), ToBE(b, 4));
  }

  lemma BeShift32(s: seq<byte>, t: seq<byte>)
    requires |s| == |t| == 4
    ensures Be32(s + t, 0) == Be32(s, 0) && Be32(s + t, 4) == Be32(t, 0)
  {
  }

  lemma {:induction false} BeSplits(a: nat, b: nat, i: nat, k: nat)
    requires b < Pow256(k)
    ensures ToBE(a * Pow256(k) + b, i + k) == ToBE(a, i) + ToBE(b, k)
  {
    if k > 0 {
      var n := a * Pow256(k) + b;
      assert a * Pow256(k) == 256 * (a * Pow256(k - 1));
      assert n / 256 == a * Pow256(k - 1) + b / 256 && n % 256 == b % 256;
      BeSplits(a, b / 256, i, k - 1);
    }
  }

  lemma Le16Reads(n: u16)
    ensures Le16(ToLE(n, 2), 0) == n
  {
    assert ToLE(n, 2) == [n % 256] + ToLE(n / 256, 1);
    assert ToLE(n / 256, 1) == [n / 256 % 256] + ToLE(n / 256 / 256, 0);
  }

  lemma Le32Reads(n: u32)
    ensures Le32(ToLE(n, 4), 0) == n
  {
    assert ToLE(n, 4) == [n % 256] + ([n / 256 % 256] + ToLE(n / 256 / 256, 2));
    Le16Reads(n / 65536);
    assert n / 256 / 256 == n / 65536;
  }

  /** Concatenation of a sequence of byte strings. */
  function Flatten(parts: seq<seq<byte>>): (s: seq<byte>)
  {
    if parts == [] then [] else parts[0] + Flatten(parts[1..])
  }

  lemma {:induction false} FlattenSnoc(parts: seq<seq<byte>>, last: seq<byte>)
    ensures Flatten(parts + [last]) == Flatten(parts) + last
  {
    if parts == [] {
      assert [] + [last] == [last];
      assert [last][1..] == [];
    } else {
      FlattenSnoc(parts[1..], last);
      assert (parts + [last])[1..] == parts[1..] + [last];
    }
  }
}
