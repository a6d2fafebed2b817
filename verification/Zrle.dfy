/** Zero-run-length encoding of XOR deltas. */
module Zrle {
  import opened Bytes

  const MAX_RUN: nat := 65535

  function Zeros(n: nat): (s: seq<byte>)
    ensures |s| == n
    ensures forall i :: 0 <= i < n ==> s[i] == 0
  {
    seq(n, _ => 0)
  }

  /** A 16-bit little-endian number. */
  function Word(lo: byte, hi: byte): nat {
    lo as int + 256 * (hi as int)
  }

  /** The first record: what it stands for and how many bytes it takes. */
  function First(s: seq<byte>): (r: Option<(seq<byte>, nat)>)
    ensures r.Some? ==> 3 <= r.value.1 <= |s|
  {
    if |s| < 3 then None
    else
      var n := Word(s[1], s[2]);
      if s[0] == 0 then Some((Zeros(n), 3))
      else if s[0] == 1 && 3 + n <= |s| then Some((s[3..3 + n], 3 + n))
      else None
  }

  /** The decoder: zero runs (tag 0) and literals (tag 1), each with a 16-bit little-endian length. */
  function Decode(s: seq<byte>): Option<seq<byte>> {
    if s == [] then Some([])
    else
      var first := First(s);
      if first.None? then None
      else
        var rest := Decode(s[first.value.1..]);
        if rest.None? then None else Some(first.value.0 + rest.value)
  }

  lemma FirstAppend(s: seq<byte>, t: seq<byte>)
    requires First(s).Some?
    ensures First(s + t) == First(s)
  {
    var n := Word(s[1], s[2]);
    if s[0] == 1 {
      assert (s + t)[3..3 + n] == s[3..3 + n];
    }
  }

  lemma DecodeStep(s: seq<byte>, head: seq<byte>, used: nat, rest: seq<byte>)
    requires First(s) == Some((head, used)) && Decode(s[used..]) == Some(rest)
    ensures Decode(s) == Some(head + rest)
  {
    hide First;
  }

  lemma DecodeParts(s: seq<byte>)
    requires s != [] && Decode(s).Some?
    ensures First(s).Some? && Decode(s[First(s).value.1..]).Some?
    ensures Decode(s).value == First(s).value.0 + Decode(s[First(s).value.1..]).value
  {
    hide First;
  }

  lemma {:induction false} DecodeAppend(s: seq<byte>, t: seq<byte>)
    requires Decode(s).Some? && Decode(t).Some?
    ensures Decode(s + t) == Some(Decode(s).value + Decode(t).value)
  {
    hide First, Decode;
    if s == [] {
      EmptyDecodes();
      assert s + t == t && [] + Decode(t).value == Decode(t).value;
    } else {
      DecodeParts(s);
      var (head, used) := First(s).value;
      DecodeAppend(s[used..], t);
      FirstAppend(s, t);
      assert (s + t)[used..] == s[used..] + t;
      var rest, tail := Decode(s[used..]).value, Decode(t).value;
      DecodeStep(s + t, head, used, rest + tail);
      assert head + (rest + tail) == (head + rest) + tail;
    }
  }

  function ZeroRecord(n: nat): seq<byte>
    requires n <= MAX_RUN
  {
    [0, n % 256, n / 256]
  }

  function LiteralRecord(s: seq<byte>): seq<byte>
    requires |s| <= MAX_RUN
  {
    [1, |s| % 256, |s| / 256] + s
  }

  lemma SplitWord(n: nat)
    requires n <= MAX_RUN
    ensures Word(n % 256, n / 256) == n
  {
  }

  lemma DecodeZeroRecord(out: seq<byte>, n: nat)
    requires Decode(out).Some? && n <= MAX_RUN
    ensures Decode(out + ZeroRecord(n)) == Some(Decode(out).value + Zeros(n))
  {
    SplitWord(n);
    var r := ZeroRecord(n);
    assert First(r) == Some((Zeros(n), 3)) && r[3..] == [];
    DecodeStep(r, Zeros(n), 3, []);
    assert Zeros(n) + [] == Zeros(n);
    DecodeAppend(out, r);
  }

  lemma DecodeLiteralRecord(out: seq<byte>, s: seq<byte>)
    requires Decode(out).Some? && |s| <= MAX_RUN
    ensures Decode(out + LiteralRecord(s)) == Some(Decode(out).value + s)
  {
    SplitWord(|s|);
    var r := LiteralRecord(s);
    assert r[3..3 + |s|] == s && r[3 + |s|..] == [];
    assert First(r) == Some((s, 3 + |s|));
    DecodeStep(r, s, 3 + |s|, []);
    assert s + [] == s;
    DecodeAppend(out, r);
  }

  // ----- the records of an encoding

  /** A record on the wire: tag 0 and a length for zeros, tag 1, a length and the bytes for a literal; the low byte of
      the length comes first. */
  lemma RecordReads(lo: byte, hi: byte, literal: seq<byte>, rest: seq<byte>)
    requires Decode(rest).Some?
    ensures Decode([0, lo, hi] + rest) == Some(seq(lo as int + 256 * (hi as int), _ => 0) + Decode(rest).value)
    ensures |literal| == lo as int + 256 * (hi as int) ==>
              Decode([1, lo, hi] + literal + rest) == Some(literal + Decode(rest).value)
    ensures Spans([0, lo, hi] + rest) == [Span(true, lo as int + 256 * (hi as int))] + Spans(rest)
    ensures |literal| == lo as int + 256 * (hi as int) ==>
              Spans([1, lo, hi] + literal + rest) == [Span(false, |literal|)] + Spans(rest)
  {
    hide Decode;
    var n: nat := lo as int + 256 * (hi as int);
    var z, l := [0, lo, hi] + rest, [1, lo, hi] + literal + rest;
    assert First(z) == Some((Zeros(n), 3)) && z[3..] == rest;
    assert Zeros(n) == seq(n, _ => 0);
    DecodeStep(z, Zeros(n), 3, Decode(rest).value);
    if |literal| == n {
      assert l[3..3 + n] == literal && l[3 + n..] == rest;
      assert First(l) == Some((literal, 3 + n));
      DecodeStep(l, literal, 3 + n, Decode(rest).value);
    }
  }

  /** What a record stands for: zeros or a literal, and how many bytes. */
  datatype Span = Span(zero: bool, len: nat)

  function Spans(s: seq<byte>): seq<Span> {
    var first := First(s);
    if first.None? then [] else [Span(s[0] == 0, Word(s[1], s[2]))] + Spans(s[first.value.1..])
  }

  lemma {:induction false} SpansAppend(s: seq<byte>, t: seq<byte>)
    requires Decode(s).Some?
    ensures Spans(s + t) == Spans(s) + Spans(t)
  {
    hide First, Decode;
    if s == [] {
      NoSpans();
      assert s + t == t;
    } else {
      DecodeParts(s);
      var used := First(s).value.1;
      SpansAppend(s[used..], t);
      FirstAppend(s, t);
      assert (s + t)[used..] == s[used..] + t;
    }
  }

  lemma NoSpans()
    ensures Spans([]) == []
  {
  }

  lemma SpanOfRecords(n: nat, s: seq<byte>)
    requires n <= MAX_RUN && |s| <= MAX_RUN
    ensures Spans(ZeroRecord(n)) == [Span(true, n)]
    ensures Spans(LiteralRecord(s)) == [Span(false, |s|)]
  {
    SplitWord(n);
    SplitWord(|s|);
    var z, l := ZeroRecord(n), LiteralRecord(s);
    assert First(z) == Some((Zeros(n), 3)) && z[3..] == [];
    assert l[3..3 + |s|] == s && l[3 + |s|..] == [];
    assert First(l) == Some((s, 3 + |s|));
    NoSpans();
  }

  /** `n` bytes of one kind in as few records as there can be. */
  function Split(zero: bool, n: nat): seq<Span> {
    if n == 0 then [] else [Span(zero, Min(n, MAX_RUN))] + Split(zero, n - Min(n, MAX_RUN))
  }

  /** Byte by byte, whether it comes from a record of zeros. */
  function Kinds(spans: seq<Span>): seq<bool> {
    if spans == [] then [] else KindOf(spans[0]) + Kinds(spans[1..])
  }

  function KindOf(s: Span): (kinds: seq<bool>)
    ensures |kinds| == s.len && forall i :: 0 <= i < s.len ==> kinds[i] == s.zero
  {
    seq(s.len, _ => s.zero)
  }

  lemma {:induction false} KindsAppend(a: seq<Span>, b: seq<Span>)
    ensures Kinds(a + b) == Kinds(a) + Kinds(b)
  {
    hide KindOf;
    if a == [] {
      assert a + b == b && Kinds(a) + Kinds(b) == Kinds(b);
    } else {
      KindsAppend(a[1..], b);
      assert (a + b)[1..] == a[1..] + b && (a + b)[0] == a[0];
      var k := KindOf(a[0]);
      assert k + (Kinds(a[1..]) + Kinds(b)) == (k + Kinds(a[1..])) + Kinds(b);
    }
  }

  lemma {:induction false} SplitIs(zero: bool, n: nat)
    ensures |Kinds(Split(zero, n))| == n && forall i :: 0 <= i < n ==> Kinds(Split(zero, n))[i] == zero
    ensures n > 0 ==> Split(zero, n) != [] && Few(Split(zero, n))
    ensures forall k :: 0 <= k < |Split(zero, n)| ==> Split(zero, n)[k].zero == zero
  {
    if n > 0 {
      SplitIs(zero, n - Min(n, MAX_RUN));
      var rest := Split(zero, n - Min(n, MAX_RUN));
      assert Split(zero, n)[1..] == rest;
    }
  }

  /** No record is empty, and two in a row are of one kind only if the first is as long as a record can be. */
  ghost predicate Few(spans: seq<Span>) {
    && (forall k :: 0 <= k < |spans| ==> 0 < spans[k].len <= 65535)
    && forall k :: 0 <= k < |spans| - 1 && spans[k].zero == spans[k + 1].zero ==> spans[k].len == 65535
  }

  lemma FewAppend(a: seq<Span>, b: seq<Span>)
    requires Few(a) && Few(b) && (a != [] && b != [] ==> a[|a| - 1].zero != b[0].zero)
    ensures Few(a + b)
  {
  }

  /** Byte `i` is one of four zeros in a row. */
  ghost predicate InFour(src: seq<byte>, i: nat) {
    exists a: nat :: a <= i < a + 4 <= |src| && FourAt(src, a)
  }

  predicate FourAt(src: seq<byte>, a: nat)
    requires a + 4 <= |src|
  {
    src[a] == 0 && src[a + 1] == 0 && src[a + 2] == 0 && src[a + 3] == 0
  }

  ghost predicate AllZero(src: seq<byte>) {
    forall i :: 0 <= i < |src| ==> src[i] == 0
  }

  /** The encoding has as few records as there can be, and its zero records hold exactly the bytes that are among four
      zeros in a row, or everything if there is nothing but zeros. */
  ghost predicate Tight(out: seq<byte>, src: seq<byte>) {
    var kinds := Kinds(Spans(out));
    && Few(Spans(out)) && |kinds| == |src|
    && forall i: nat :: i < |src| ==> (kinds[i] <==> InFour(src, i) || AllZero(src))
  }

  /** The encoding of the first `i` bytes is tight, and the next record is of the other kind. */
  ghost predicate TightUpto(out: seq<byte>, src: seq<byte>, i: nat)
    requires i <= |src|
  {
    var spans := Spans(out);
    && Few(spans) && |Kinds(spans)| == i
    && (forall p: nat :: p < i ==> (Kinds(spans)[p] <==> InFour(src, p) || AllZero(src)))
    && (i == 0 <==> spans == [])
    && (0 < i < |src| ==>
          if spans[|spans| - 1].zero then src[i] != 0 else ZeroRun(src, i) >= 4 && !AllZero(src))
  }

  lemma {:induction false} RunReaches(src: seq<byte>, a: nat, n: nat)
    requires a + n <= |src| && forall j :: a <= j < a + n ==> src[j] == 0
    ensures ZeroRun(src, a) >= n
    decreases n
  {
    if n > 0 {
      RunReaches(src, a + 1, n - 1);
    }
  }

  /** A record of zeros was due. */
  lemma ZerosDue(out: seq<byte>, src: seq<byte>, z: nat, i: nat)
    requires z < i <= |src| && i == z + ZeroRun(src, z) && TightUpto(out, src, z) && (i - z >= 4 || i == |src|)
    ensures forall p: nat :: z <= p < i ==> InFour(src, p) || AllZero(src)
    ensures Spans(out) != [] ==> !Spans(out)[|Spans(out)| - 1].zero
  {
    if i - z >= 4 {
      forall p: nat | z <= p < i ensures InFour(src, p) {
        var a := if p + 4 <= i then p else i - 4;
        assert FourAt(src, a);
      }
    }
  }

  /** A literal was due. */
  lemma LiteralDue(out: seq<byte>, src: seq<byte>, z: nat, i: nat)
    requires z < i <= |src| && TightUpto(out, src, z) && forall j :: z <= j < i ==> ZeroRun(src, j) < 4
    requires ZeroRun(src, z) == 0 || z + ZeroRun(src, z) < |src|
    ensures forall p: nat :: z <= p < i ==> !InFour(src, p)
    ensures !AllZero(src)
    ensures Spans(out) != [] ==> Spans(out)[|Spans(out)| - 1].zero
  {
    forall p: nat | z <= p < i ensures !InFour(src, p) {
      forall a: nat | a <= p < a + 4 <= |src| ensures !FourAt(src, a) {
        if a >= z && FourAt(src, a) {
          RunReaches(src, a, 4);
        }
      }
    }
    assert src[z + ZeroRun(src, z)] != 0;
  }

  /** One more run of records of one kind. */
  lemma TightStep(out: seq<byte>, out': seq<byte>, src: seq<byte>, z: nat, i: nat, zero: bool)
    requires z < i <= |src| && TightUpto(out, src, z) && Spans(out') == Spans(out) + Split(zero, i - z)
    requires Spans(out) != [] ==> Spans(out)[|Spans(out)| - 1].zero != zero
    requires forall p: nat :: z <= p < i ==> (zero <==> InFour(src, p) || AllZero(src))
    requires i < |src| ==> if zero then src[i] != 0 else ZeroRun(src, i) >= 4 && !AllZero(src)
    ensures TightUpto(out', src, i)
  {
    hide InFour, AllZero, Few, ZeroRun, Spans, Split, Kinds;
    var more := Split(zero, i - z);
    SplitIs(zero, i - z);
    KindsAppend(Spans(out), more);
    FewAppend(Spans(out), more);
    assert Spans(out')[|Spans(out')| - 1] == more[|more| - 1];
    forall p: nat | p < i ensures Kinds(Spans(out'))[p] <==> InFour(src, p) || AllZero(src) {
      assert Kinds(Spans(out'))[p] == if p < z then Kinds(Spans(out))[p] else Kinds(more)[p - z];
    }
  }

  /** The length of the run of zeros at position `i`. */
  function ZeroRun(src: seq<byte>, i: nat): (n: nat)
    requires i <= |src|
    ensures i + n <= |src|
    ensures forall j :: i <= j < i + n ==> src[j] == 0
    ensures i + n < |src| ==> src[i + n] != 0
    decreases |src| - i
  {
    if i < |src| && src[i] == 0 then 1 + ZeroRun(src, i + 1) else 0
  }

  method CountZeros(src: seq<byte>, start: nat) returns (i: nat)
    requires start <= |src|
    ensures i == start + ZeroRun(src, start)
  {
    i := start;
    while i < |src| && src[i] == 0
      invariant start <= i <= |src| && i + ZeroRun(src, i) == start + ZeroRun(src, start)
    {
      i := i + 1;
    }
  }

  /** Writes a zero run as records of at most 65535 zeros. */
  method WriteZeros(out: seq<byte>, zeros: nat) returns (out': seq<byte>)
    requires Decode(out).Some?
    ensures Decode(out') == Some(Decode(out).value + Zeros(zeros))
    ensures |out'| <= |out| + 4 * zeros && Spans(out') == Spans(out) + Split(true, zeros)
  {
    hide Decode, First, Spans;
    out' := out;
    var rem := zeros;
    assert Zeros(0) == [] && Decode(out).value + [] == Decode(out).value;
    while rem > 0
      invariant 0 <= rem <= zeros
      invariant Decode(out') == Some(Decode(out).value + Zeros(zeros - rem))
      invariant |out'| <= |out| + 4 * (zeros - rem)
      invariant Spans(out') + Split(true, rem) == Spans(out) + Split(true, zeros)
    {
      var n := Min(rem, MAX_RUN);
      SpansAppend(out', ZeroRecord(n));
      SpanOfRecords(n, []);
      assert Spans(out') + ([Span(true, n)] + Split(true, rem - n))
          == (Spans(out') + [Span(true, n)]) + Split(true, rem - n);
      DecodeZeroRecord(out', n);
      var sofar := Decode(out).value;
      assert Zeros(zeros - rem) + Zeros(n) == Zeros(zeros - (rem - n));
      assert (sofar + Zeros(zeros - rem)) + Zeros(n) == sofar + (Zeros(zeros - rem) + Zeros(n));
      out' := out' + ZeroRecord(n);
      rem := rem - n;
    }
  }

  /** Writes a literal as records of at most 65535 bytes. */
  method WriteLiteral(out: seq<byte>, literal: seq<byte>) returns (out': seq<byte>)
    requires Decode(out).Some?
    ensures Decode(out') == Some(Decode(out).value + literal)
    ensures |out'| <= |out| + 4 * |literal| && Spans(out') == Spans(out) + Split(false, |literal|)
  {
    hide Decode, First, Spans;
    out' := out;
    var j := 0;
    assert literal[..0] == [] && Decode(out).value + [] == Decode(out).value;
    while j < |literal|
      invariant 0 <= j <= |literal|
      invariant Decode(out') == Some(Decode(out).value + literal[..j])
      invariant |out'| <= |out| + 4 * j
      invariant Spans(out') + Split(false, |literal| - j) == Spans(out) + Split(false, |literal|)
    {
      var n := Min(|literal| - j, MAX_RUN);
      SpansAppend(out', LiteralRecord(literal[j..j + n]));
      SpanOfRecords(0, literal[j..j + n]);
      assert Spans(out') + ([Span(false, n)] + Split(false, |literal| - j - n))
          == (Spans(out') + [Span(false, n)]) + Split(false, |literal| - j - n);
      DecodeLiteralRecord(out', literal[j..j + n]);
      var sofar := Decode(out).value;
      assert literal[..j] + literal[j..j + n] == literal[..j + n];
      assert (sofar + literal[..j]) + literal[j..j + n] == sofar + (literal[..j] + literal[j..j + n]);
      out' := out' + LiteralRecord(literal[j..j + n]);
      j := j + n;
    }
    assert literal[..|literal|] == literal;
  }

  /** The end of the literal that starts at `start`: the next run of four zeros, or the end. */
  method LiteralEnd(src: seq<byte>, start: nat) returns (i: nat)
    requires start < |src| && ZeroRun(src, start) < 4
    ensures start < i <= |src|
    ensures forall j :: start <= j < i ==> ZeroRun(src, j) < 4
    ensures i < |src| ==> ZeroRun(src, i) >= 4
  {
    i := start;
    while i < |src|
      invariant start <= i <= |src|
      invariant forall j :: start <= j < i ==> ZeroRun(src, j) < 4
    {
      if src[i] == 0 {
        var e := CountZeros(src, i);
        if e - i >= 4 {
          break;
        }
      }
      i := i + 1;
    }
  }

  /** Every byte string, of any length, is encoded to something that decodes to it, and as tightly as the format and
      the threshold of four zeros allow. */
  method Encode(src: seq<byte>) returns (out: seq<byte>)
    ensures Decode(out) == Some(src)
    ensures |out| <= 4 * |src| && Tight(out, src)
  {
    hide Decode, Spans, TightUpto, InFour, AllZero, Split;
    out := [];
    EmptyDecodes();
    TightStarts(src);
    assert src[..0] == [];
    var i := 0;
    while i < |src|
      invariant 0 <= i <= |src|
      invariant Decode(out) == Some(src[..i])
      invariant |out| <= 4 * i && TightUpto(out, src, i)
    {
      ghost var before := out;
      var z0 := i;
      i := CountZeros(src, z0);
      var zeros := i - z0;
      if zeros >= 4 || (zeros > 0 && i == |src|) {
        assert src[..z0] + Zeros(zeros) == src[..i];
        ZerosDue(out, src, z0, i);
        out := WriteZeros(out, zeros);
        TightStep(before, out, src, z0, i, true);
      } else {
        i := LiteralEnd(src, z0);
        assert src[..z0] + src[z0..i] == src[..i];
        LiteralDue(out, src, z0, i);
        out := WriteLiteral(out, src[z0..i]);
        TightStep(before, out, src, z0, i, false);
      }
    }
    assert src[..|src|] == src;
    TightEnds(out, src);
  }

  lemma TightStarts(src: seq<byte>)
    ensures TightUpto([], src, 0)
  {
  }

  lemma TightEnds(out: seq<byte>, src: seq<byte>)
    requires TightUpto(out, src, |src|)
    ensures Tight(out, src)
  {
  }

  lemma EmptyDecodes()
    ensures Decode([]) == Some([])
  {
  }
}
