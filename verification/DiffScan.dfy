/** Counting the bytes in which two rows differ while copying one over the other: the word-at-a-time and
    the 32-lane forms against a byte-by-byte count. */
module DiffScan {
  import opened Bytes
  import opened XorParity

  const WORD: nat := 8
  const LANES: nat := 32

  /** The number of positions in which two byte strings differ. */
  function CountDiff(a: seq<byte>, b: seq<byte>): (n: nat)
    ensures n <= |a|
  {
    if a == [] || b == [] then 0
    else (if a[0] != b[0] then 1 else 0) + CountDiff(a[1..], b[1..])
  }

  lemma {:induction false} CountDiffZero(a: seq<byte>, b: seq<byte>)
    requires |a| == |b|
    ensures CountDiff(a, b) == 0 <==> a == b
  {
    if a != [] {
      CountDiffZero(a[1..], b[1..]);
      assert a == [a[0]] + a[1..] && b == [b[0]] + b[1..];
    }
  }

  lemma {:induction false} CountDiffAppend(a: seq<byte>, b: seq<byte>, a': seq<byte>, b': seq<byte>)
    requires |a| == |b|
    ensures CountDiff(a + a', b + b') == CountDiff(a, b) + CountDiff(a', b')
  {
    if a == [] {
      assert a + a' == a' && b + b' == b';
    } else {
      CountDiffAppend(a[1..], b[1..], a', b');
      assert (a + a')[1..] == a[1..] + a' && (b + b')[1..] == b[1..] + b';
    }
  }

  /** The positions below `k` in which two byte strings differ. */
  ghost function DiffSet(a: seq<byte>, b: seq<byte>, k: nat): set<nat> {
    set i: nat | i < k && i < |a| && i < |b| && a[i] != b[i]
  }

  lemma {:induction false} CountDiffIs(a: seq<byte>, b: seq<byte>, k: nat)
    requires k <= |a| == |b|
    ensures CountDiff(a[..k], b[..k]) == |DiffSet(a, b, k)|
  {
    if k > 0 {
      CountDiffIs(a, b, k - 1);
      assert a[..k] == a[..k - 1] + [a[k - 1]] && b[..k] == b[..k - 1] + [b[k - 1]];
      CountDiffAppend(a[..k - 1], b[..k - 1], [a[k - 1]], [b[k - 1]]);
      CountOne(a[k - 1], b[k - 1]);
      var s := DiffSet(a, b, k - 1);
      if a[k - 1] != b[k - 1] {
        assert DiffSet(a, b, k) == s + {k - 1};
      } else {
        assert DiffSet(a, b, k) == s;
      }
    }
  }

  /** Two words are equal as numbers exactly when they are equal byte by byte. */
  lemma WordsEqual(a: seq<byte>, b: seq<byte>)
    requires |a| == |b|
    ensures FromLE(a) == FromLE(b) <==> a == b
  {
    LEBytes(a);
    LEBytes(b);
  }

  // ----- lane masks

  /** One bit per lane, lane 0 lowest, set where the bytes are equal (`cmpeq` and `movemask`). */
  function EqualMask(a: seq<byte>, b: seq<byte>): (m: nat)
    requires |a| == |b|
  {
    if a == [] then 0 else (if a[0] == b[0] then 1 else 0) + 2 * EqualMask(a[1..], b[1..])
  }

  /** `count_ones` */
  function CountOnes(x: nat): nat {
    if x == 0 then 0 else x % 2 + CountOnes(x / 2)
  }

  /** The set bits of the inverted mask are the differing lanes; a full mask means that none differ. */
  lemma {:induction false} InvertedMaskCounts(a: seq<byte>, b: seq<byte>)
    requires |a| == |b|
    ensures EqualMask(a, b) < Pow2(|a|)
    ensures CountOnes(Pow2(|a|) - 1 - EqualMask(a, b)) == CountDiff(a, b)
    ensures EqualMask(a, b) == Pow2(|a|) - 1 <==> a == b
  {
    if a != [] {
      InvertedMaskCounts(a[1..], b[1..]);
      assert a == [a[0]] + a[1..] && b == [b[0]] + b[1..];
      var rest := Pow2(|a| - 1) - 1 - EqualMask(a[1..], b[1..]);
      var inverted := Pow2(|a|) - 1 - EqualMask(a, b);
      assert inverted == (if a[0] == b[0] then 0 else 1) + 2 * rest;
      assert inverted / 2 == rest;
    }
  }

  // ----- scans over `prev[lo..hi]`

  /** `prev` after a scan: the current bytes in the range, the old ones elsewhere. */
  ghost predicate Overwritten(now: seq<byte>, was: seq<byte>, cur: seq<byte>, lo: nat, hi: nat) {
    && lo <= hi <= |now| == |was| == |cur|
    && forall k :: 0 <= k < |now| ==> now[k] == if lo <= k < hi then cur[k] else was[k]
  }

  /** How far a scan has come at position `i`. */
  ghost predicate Scanned(now: seq<byte>, was: seq<byte>, cur: seq<byte>, lo: nat, i: nat, count: nat) {
    Overwritten(now, was, cur, lo, i) && count == CountDiff(cur[lo..i], was[lo..i])
  }

  /** Advancing by one chunk that has been counted and, where it differed, copied. */
  lemma ScanStep(now: seq<byte>, now': seq<byte>, was: seq<byte>, cur: seq<byte>, lo: nat, i: nat, j: nat,
                 count: nat, count': nat)
    requires Scanned(now, was, cur, lo, i, count) && i <= j <= |cur|
    requires Overwritten(now', now, cur, i, j) && count' == count + CountDiff(cur[i..j], now[i..j])
    ensures Scanned(now', was, cur, lo, j, count')
  {
    hide CountDiff;
    assert now[i..j] == was[i..j];
    assert cur[lo..j] == cur[lo..i] + cur[i..j] && was[lo..j] == was[lo..i] + was[i..j];
    CountDiffAppend(cur[lo..i], was[lo..i], cur[i..j], was[i..j]);
  }

  method CopyRange(cur: seq<byte>, prev: array<byte>, lo: nat, hi: nat)
    requires lo <= hi <= |cur| == prev.Length
    modifies prev
    ensures Overwritten(prev[..], old(prev[..]), cur, lo, hi)
  {
    for k := lo to hi
      invariant Overwritten(prev[..], old(prev[..]), cur, lo, k)
    {
      prev[k] := cur[k];
    }
  }

  lemma CountNone()
    ensures CountDiff([], []) == 0
  {
  }

  lemma CountOne(a: byte, b: byte)
    ensures CountDiff([a], [b]) == if a != b then 1 else 0
  {
    assert [a][1..] == [] && [b][1..] == [];
  }

  method CountBytes(cur: seq<byte>, prev: array<byte>, lo: nat, hi: nat) returns (count: nat)
    requires lo <= hi <= |cur| == prev.Length
    ensures count == CountDiff(cur[lo..hi], prev[lo..hi])
  {
    hide CountDiff;
    count := 0;
    assert cur[lo..lo] == [] && prev[lo..lo] == [];
    CountNone();
    for k := lo to hi
      invariant count == CountDiff(cur[lo..k], prev[lo..k])
    {
      assert cur[lo..k + 1] == cur[lo..k] + [cur[k]] && prev[lo..k + 1] == prev[lo..k] + [prev[k]];
      CountDiffAppend(cur[lo..k], prev[lo..k], [cur[k]], [prev[k]]);
      CountOne(cur[k], prev[k]);
      if cur[k] != prev[k] {
        count := count + 1;
      }
    }
  }

  /** One 8-byte word of the scalar scan. */
  method ScanWord(cur: seq<byte>, prev: array<byte>, i: nat) returns (count: nat)
    requires i + WORD <= |cur| == prev.Length
    modifies prev
    ensures Overwritten(prev[..], old(prev[..]), cur, i, i + WORD)
    ensures count == CountDiff(cur[i..i + WORD], old(prev[i..i + WORD]))
  {
    hide CountDiff, FromLE;
    count := 0;
    WordsEqual(cur[i..i + WORD], prev[i..i + WORD]);
    CountDiffZero(cur[i..i + WORD], prev[i..i + WORD]);
    if FromLE(cur[i..i + WORD]) != FromLE(prev[i..i + WORD]) {
      count := CountBytes(cur, prev, i, i + WORD);
      CopyRange(cur, prev, i, i + WORD);
    } else {
      Unmoved(prev[..], cur, i, i + WORD);
    }
  }

  lemma Unmoved(now: seq<byte>, cur: seq<byte>, lo: nat, hi: nat)
    requires lo <= hi <= |now| == |cur| && cur[lo..hi] == now[lo..hi]
    ensures Overwritten(now, now, cur, lo, hi)
  {
    forall k | lo <= k < hi ensures now[k] == cur[k] {
      assert cur[lo..hi][k - lo] == now[lo..hi][k - lo];
    }
  }

  /** `diff_count_scalar_and_update` on `prev[lo..hi]`: 8 bytes at a time, then byte by byte. */
  method ScanScalar(cur: seq<byte>, prev: array<byte>, lo: nat, hi: nat) returns (count: nat)
    requires lo <= hi <= |cur| == prev.Length
    modifies prev
    ensures count == CountDiff(cur[lo..hi], old(prev[lo..hi]))
    ensures Overwritten(prev[..], old(prev[..]), cur, lo, hi)
  {
    hide CountDiff, Scanned;
    ghost var was := prev[..];
    count := 0;
    var i := lo;
    ScanStart(was, cur, lo);
    while i + WORD <= hi
      invariant lo <= i <= hi && Scanned(prev[..], was, cur, lo, i, count)
    {
      ghost var now, n := prev[..], count;
      var d := ScanWord(cur, prev, i);
      count := count + d;
      ScanStep(now, prev[..], was, cur, lo, i, i + WORD, n, count);
      i := i + WORD;
    }
    while i < hi
      invariant lo <= i <= hi && Scanned(prev[..], was, cur, lo, i, count)
    {
      ghost var now, n := prev[..], count;
      OneByte(cur, now, i);
      if cur[i] != prev[i] {
        count := count + 1;
        prev[i] := cur[i];
      }
      ScanStep(now, prev[..], was, cur, lo, i, i + 1, n, count);
      i := i + 1;
    }
    ScanEnd(prev[..], was, cur, lo, hi, count);
    assert was[lo..hi] == old(prev[lo..hi]);
  }

  lemma ScanStart(was: seq<byte>, cur: seq<byte>, lo: nat)
    requires lo <= |was| == |cur|
    ensures Scanned(was, was, cur, lo, lo, 0)
  {
  }

  lemma ScanEnd(now: seq<byte>, was: seq<byte>, cur: seq<byte>, lo: nat, hi: nat, count: nat)
    requires Scanned(now, was, cur, lo, hi, count)
    ensures Overwritten(now, was, cur, lo, hi) && count == CountDiff(cur[lo..hi], was[lo..hi])
  {
  }

  lemma OneByte(cur: seq<byte>, now: seq<byte>, i: nat)
    requires i < |cur| == |now|
    ensures CountDiff(cur[i..i + 1], now[i..i + 1]) == if cur[i] != now[i] then 1 else 0
  {
  }

  /** One 32-byte lane group of the wide scan. */
  method ScanLanes(cur: seq<byte>, prev: array<byte>, i: nat) returns (count: nat)
    requires i + LANES <= |cur| == prev.Length
    modifies prev
    ensures Overwritten(prev[..], old(prev[..]), cur, i, i + LANES)
    ensures count == CountDiff(cur[i..i + LANES], old(prev[i..i + LANES]))
  {
    hide CountDiff, EqualMask, CountOnes, Pow2;
    count := 0;
    var va, vb := cur[i..i + LANES], prev[i..i + LANES];
    var mask := EqualMask(va, vb);
    InvertedMaskCounts(va, vb);
    CountDiffZero(va, vb);
    if mask != Pow2(LANES) - 1 {
      count := CountOnes(Pow2(LANES) - 1 - mask);
      CopyRange(cur, prev, i, i + LANES);
    } else {
      Unmoved(prev[..], cur, i, i + LANES);
    }
  }

  /** `diff_count_avx2_and_update` on `prev[lo..hi]`: 32 lanes at a time, then the scalar scan. */
  method ScanWide(cur: seq<byte>, prev: array<byte>, lo: nat, hi: nat) returns (count: nat)
    requires lo <= hi <= |cur| == prev.Length
    modifies prev
    ensures count == CountDiff(cur[lo..hi], old(prev[lo..hi]))
    ensures Overwritten(prev[..], old(prev[..]), cur, lo, hi)
  {
    hide CountDiff, Scanned;
    ghost var was := prev[..];
    count := 0;
    var i := lo;
    ScanStart(was, cur, lo);
    while i + LANES <= hi
      invariant lo <= i <= hi && Scanned(prev[..], was, cur, lo, i, count)
    {
      ghost var now, n := prev[..], count;
      var d := ScanLanes(cur, prev, i);
      count := count + d;
      ScanStep(now, prev[..], was, cur, lo, i, i + LANES, n, count);
      i := i + LANES;
    }
    ghost var now, n := prev[..], count;
    var d := ScanScalar(cur, prev, i, hi);
    count := count + d;
    ScanStep(now, prev[..], was, cur, lo, i, hi, n, count);
    ScanEnd(prev[..], was, cur, lo, hi, count);
    assert was[lo..hi] == old(prev[lo..hi]);
  }

  /** `diff_count_fast_and_update`: whichever form the processor has, the count and the update are the same. */
  method Scan(wide: bool, cur: seq<byte>, prev: array<byte>, lo: nat, hi: nat) returns (count: nat)
    requires lo <= hi <= |cur| == prev.Length
    modifies prev
    ensures count == CountDiff(cur[lo..hi], old(prev[lo..hi]))
    ensures count == |DiffSet(cur[lo..hi], old(prev[lo..hi]), hi - lo)|
    ensures Overwritten(prev[..], old(prev[..]), cur, lo, hi)
  {
    ghost var c, p := cur[lo..hi], prev[lo..hi];
    CountDiffIs(c, p, hi - lo);
    assert c[..hi - lo] == c && p[..hi - lo] == p;
    if wide {
      count := ScanWide(cur, prev, lo, hi);
    } else {
      count := ScanScalar(cur, prev, lo, hi);
    }
  }
}
