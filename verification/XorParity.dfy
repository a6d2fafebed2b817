/** Bitwise XOR, and XOR over a chosen subset of positions of a column of bytes. Both parity
    schemes of the repository are sums of this kind, one per byte position of the covered packets. */
module XorParity {
  import opened Bytes

  /** Bitwise exclusive or: the low bits add without carry, the remaining bits recursively. */
  function Xor(a: nat, b: nat): (r: nat)
    decreases a + b
  {
    if a == 0 && b == 0 then 0 else 2 * Xor(a / 2, b / 2) + (a + b) % 2
  }

  /** Bit `k` of a number, the lowest being bit 0. */
  predicate Bit(b: nat, k: nat) {
    if k == 0 then b % 2 == 1 else Bit(b / 2, k - 1)
  }

  /** Bit by bit, exactly one of the two is set. */
  lemma {:induction false} XorBits(a: nat, b: nat, k: nat)
    ensures Bit(Xor(a, b), k) <==> Bit(a, k) != Bit(b, k)
  {
    hide Xor;
    XorHalf(a, b);
    if k > 0 {
      XorBits(a / 2, b / 2, k - 1);
    }
  }

  lemma {:induction false} XorZero(a: nat)
    ensures Xor(a, 0) == a
    ensures Xor(0, a) == a
  {
    if a > 0 {
      XorZero(a / 2);
    }
  }

  lemma {:induction false} XorSelf(a: nat)
    ensures Xor(a, a) == 0
  {
    if a > 0 {
      XorSelf(a / 2);
    }
  }

  lemma {:induction false} XorCommutes(a: nat, b: nat)
    ensures Xor(a, b) == Xor(b, a)
    decreases a + b
  {
    if a + b > 0 {
      XorCommutes(a / 2, b / 2);
    }
  }

  lemma {:induction false} XorHalf(a: nat, b: nat)
    ensures Xor(a, b) / 2 == Xor(a / 2, b / 2)
    ensures Xor(a, b) % 2 == (a + b) % 2
  {
  }

  lemma SameBits(a: nat, b: nat, c: nat, ab: nat, bc: nat, x: nat, y: nat)
    requires ab % 2 == (a + b) % 2 && bc % 2 == (b + c) % 2
    requires x % 2 == (ab + c) % 2 && y % 2 == (a + bc) % 2
    requires x / 2 == y / 2
    ensures x == y
  {
  }

  lemma {:induction false} XorAssociates(a: nat, b: nat, c: nat)
    ensures Xor(Xor(a, b), c) == Xor(a, Xor(b, c))
    decreases a + b + c
  {
    if a + b + c > 0 {
      XorAssociates(a / 2, b / 2, c / 2);
      var ab, bc := Xor(a, b), Xor(b, c);
      XorHalf(a, b);
      XorHalf(b, c);
      XorHalf(ab, c);
      XorHalf(a, bc);
      SameBits(a, b, c, ab, bc, Xor(ab, c), Xor(a, bc));
    }
  }

  function Pow2(k: nat): (p: nat)
    ensures p > 0
  {
    if k == 0 then 1 else 2 * Pow2(k - 1)
  }

  lemma {:induction false} XorFits(a: nat, b: nat, k: nat)
    requires a < Pow2(k) && b < Pow2(k)
    ensures Xor(a, b) < Pow2(k)
    decreases k
  {
    if k > 0 {
      XorFits(a / 2, b / 2, k - 1);
    }
  }

  lemma Pow2Values()
    ensures Pow2(8) == 0x100 && Pow2(16) == 0x1_0000
  {
    assert Pow2(4) == 16;
    assert Pow2(8) == 16 * Pow2(4) by { assert Pow2(6) == 4 * Pow2(4); }
    assert Pow2(12) == 16 * Pow2(8) by { assert Pow2(10) == 4 * Pow2(8); }
    assert Pow2(14) == 4 * Pow2(12);
  }

  function XorByte(a: byte, b: byte): byte {
    Pow2Values();
    XorFits(a, b, 8);
    Xor(a, b)
  }

  function XorU16(a: u16, b: u16): u16 {
    Pow2Values();
    XorFits(a, b, 16);
    Xor(a, b)
  }

  lemma XorCancel(a: nat, b: nat)
    ensures Xor(Xor(a, b), a) == b
    ensures Xor(Xor(a, b), b) == a
  {
    XorCommutes(a, b);
    XorAssociates(a, b, b);
    XorAssociates(b, a, a);
    XorSelf(a);
    XorSelf(b);
    XorZero(a);
    XorZero(b);
  }

  lemma XorSwap(x: nat, y: nat, z: nat)
    ensures Xor(Xor(x, y), z) == Xor(Xor(x, z), y)
  {
    XorAssociates(x, y, z);
    XorAssociates(x, z, y);
    XorCommutes(y, z);
  }

  /** XOR of `col[i]` over the positions `i` in `s`. */
  ghost function XorOver(col: seq<nat>, s: set<nat>): nat {
    if col == [] then 0
    else
      var last := |col| - 1;
      Xor(XorOver(col[..last], s), if last in s then col[last] else 0)
  }

  lemma {:induction false} XorOverEmpty(col: seq<nat>)
    ensures XorOver(col, {}) == 0
  {
    if col != [] {
      XorOverEmpty(col[..|col| - 1]);
    }
  }

  /** Positions outside the column contribute nothing. */
  lemma {:induction false} XorOverOutside(col: seq<nat>, s: set<nat>, i: nat)
    requires i >= |col|
    ensures XorOver(col, s + {i}) == XorOver(col, s)
  {
    if col != [] {
      XorOverOutside(col[..|col| - 1], s, i);
    }
  }

  /** Adding one position XORs in its value: the order of accumulation does not matter. */
  lemma {:induction false} XorOverAdd(col: seq<nat>, s: set<nat>, i: nat)
    requires i < |col| && i !in s
    ensures XorOver(col, s + {i}) == Xor(XorOver(col, s), col[i])
  {
    var last := |col| - 1;
    var init := XorOver(col[..last], s);
    if i == last {
      XorOverOutside(col[..last], s, i);
      XorZero(init);
    } else {
      XorOverAdd(col[..last], s, i);
      XorSwap(init, col[i], if last in s then col[last] else 0);
    }
  }

  /** XORing the parity over `s` with every covered value but one leaves the missing value. */
  lemma XorOverSolve(col: seq<nat>, s: set<nat>, i: nat)
    requires i < |col| && i in s
    ensures Xor(XorOver(col, s), XorOver(col, s - {i})) == col[i]
  {
    assert s == (s - {i}) + {i};
    XorOverAdd(col, s - {i}, i);
    XorCancel(XorOver(col, s - {i}), col[i]);
  }

  lemma {:induction false} XorOverFits(col: seq<nat>, s: set<nat>, k: nat)
    requires forall i :: 0 <= i < |col| ==> col[i] < Pow2(k)
    ensures XorOver(col, s) < Pow2(k)
  {
    if col != [] {
      var last := |col| - 1;
      XorOverFits(col[..last], s, k);
      XorFits(XorOver(col[..last], s), if last in s then col[last] else 0, k);
    }
  }

  /** The positions below `n`. */
  ghost function Below(n: nat): (s: set<nat>)
    ensures forall i: nat :: i in s <==> i < n
    ensures |s| == n
  {
    if n == 0 then {} else Below(n - 1) + {n - 1}
  }

  /** XOR of a list of values into a start value, from left to right. */
  function XorFrom(x: nat, terms: seq<nat>): nat {
    if terms == [] then x
    else Xor(XorFrom(x, terms[..|terms| - 1]), terms[|terms| - 1])
  }

  /** XOR over all positions is XOR of the whole list. */
  lemma {:induction false} XorOverAll(col: seq<nat>, k: nat)
    requires k <= |col|
    ensures XorOver(col, Below(k)) == XorFrom(0, col[..k])
  {
    hide Xor, XorOver;
    if k == 0 {
      XorOverEmpty(col);
    } else {
      XorOverAll(col, k - 1);
      XorOverAdd(col, Below(k - 1), k - 1);
      assert col[..k][..k - 1] == col[..k - 1];
    }
  }

  /** XOR over some positions is XOR of the list with the others set to 0. */
  lemma {:induction false} XorOverMask(col: seq<nat>, s: set<nat>, masked: seq<nat>)
    requires |masked| == |col| && forall i: nat :: i < |col| ==> masked[i] == if i in s then col[i] else 0
    ensures XorOver(col, s) == XorFrom(0, masked)
  {
    if col != [] {
      XorOverMask(col[..|col| - 1], s, masked[..|col| - 1]);
    }
  }

  /** The positions below `n` that a list names an odd number of times. */
  ghost function Odd(positions: seq<nat>, n: nat): (s: set<nat>)
    ensures forall p :: p in s ==> p < n && p in positions
  {
    if positions == [] then {}
    else
      var last := |positions| - 1;
      var p, before := positions[last], Odd(positions[..last], n);
      if p >= n then before else if p in before then before - {p} else before + {p}
  }

  /** The values XORed in by a list of positions are those of the positions named an odd number of times; a
      position at or beyond the column's end stands for an unrelated entry, which contributes zero. */
  lemma {:induction false} XorFromOdd(x: nat, col: seq<nat>, positions: seq<nat>, terms: seq<nat>)
    requires |positions| == |terms|
    requires forall k :: 0 <= k < |terms| ==>
      terms[k] == if positions[k] < |col| then col[positions[k]] else 0
    ensures XorFrom(x, terms) == Xor(x, XorOver(col, Odd(positions, |col|)))
  {
    if terms == [] {
      XorOverEmpty(col);
      XorZero(x);
    } else {
      var last := |terms| - 1;
      var p, before := positions[last], Odd(positions[..last], |col|);
      XorFromOdd(x, col, positions[..last], terms[..last]);
      if p >= |col| {
        XorZero(XorFrom(x, terms[..last]));
      } else if p in before {
        var rest := before - {p};
        assert before == rest + {p};
        XorOverAdd(col, rest, p);
        XorAssociates(x, XorOver(col, before), col[p]);
        XorCancel(XorOver(col, rest), col[p]);
      } else {
        XorOverAdd(col, before, p);
        XorAssociates(x, XorOver(col, before), col[p]);
      }
    }
  }

  /** A list without repetitions names all its positions an odd number of times. */
  lemma {:induction false} DistinctIsOdd(positions: seq<nat>, n: nat)
    requires forall k, l :: 0 <= k < l < |positions| && positions[k] < n ==> positions[k] != positions[l]
    ensures forall p: nat :: p in Odd(positions, n) <==> p in positions && p < n
  {
    hide Odd;
    if positions == [] {
      OddStart(n);
    } else {
      var last := |positions| - 1;
      DistinctIsOdd(positions[..last], n);
      assert positions == positions[..last] + [positions[last]];
      OddStep(positions, n);
    }
  }

  lemma OddStart(n: nat)
    ensures Odd([], n) == {}
  {
  }

  /** The last position toggles. */
  lemma OddStep(positions: seq<nat>, n: nat)
    requires positions != []
    ensures var last := |positions| - 1;
            forall p: nat :: p in Odd(positions, n) <==>
              (p in Odd(positions[..last], n)) != (p == positions[last] && p < n)
  {
  }

  /** Taking a subset out of an XOR leaves the XOR of the others. */
  lemma {:induction false} XorOverDiff(col: seq<nat>, s: set<nat>, t: set<nat>)
    requires t <= s
    ensures Xor(XorOver(col, s), XorOver(col, t)) == XorOver(col, s - t)
  {
    if col == [] {
      XorZero(0);
    } else {
      var last := |col| - 1;
      var init, a, b := col[..last], XorOver(col[..last], s), XorOver(col[..last], t);
      var c, d := if last in s then col[last] else 0, if last in t then col[last] else 0;
      XorOverDiff(init, s, t);
      XorFour(a, c, b, d);
      XorZero(c);
      XorSelf(c);
    }
  }

  lemma XorFour(a: nat, c: nat, b: nat, d: nat)
    ensures Xor(Xor(a, c), Xor(b, d)) == Xor(Xor(a, b), Xor(c, d))
  {
    XorAssociates(Xor(a, c), b, d);
    XorSwap(a, c, b);
    XorAssociates(Xor(a, b), c, d);
  }

  /** XORing with a value changes nothing exactly if the value is 0. */
  lemma XorKeeps(a: nat, b: nat)
    ensures Xor(a, b) == b <==> a == 0
  {
    XorCancel(a, b);
    XorSelf(b);
    XorCommutes(a, b);
    XorZero(b);
  }

  /** Byte `j` of a packet zero-padded without end. */
  function PaddedAt(s: seq<byte>, j: nat): byte {
    if j < |s| then s[j] else 0
  }

  /** Byte `j` of every packet. */
  function Column(packets: seq<seq<byte>>, j: nat): (c: seq<nat>)
    ensures |c| == |packets|
    ensures forall i :: 0 <= i < |packets| ==> c[i] == PaddedAt(packets[i], j)
  {
    seq(|packets|, i requires 0 <= i < |packets| => PaddedAt(packets[i], j))
  }

  /** The length of every packet. */
  function Lengths(packets: seq<seq<byte>>): (c: seq<nat>)
    ensures |c| == |packets|
    ensures forall i :: 0 <= i < |packets| ==> c[i] == |packets[i]|
  {
    seq(|packets|, i requires 0 <= i < |packets| => |packets[i]|)
  }
}
