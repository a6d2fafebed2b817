/** The Attention Priority Field: 16-level snapshots packed two tiles to a byte, and run-length deltas. */
module Apf {
  import opened Bytes

  const APF_VERSION: byte := 1
  const APF_HEADER_LEN: nat := 8
  const ENCODING_U4: byte := 1
  const ENCODING_DELTA: byte := 3
  const MAX_SKIP: nat := 0x7F

  datatype ApfHeader = ApfHeader(version: byte, tileSize: byte, cols: u16, rows: u16, encoding: byte)

  type Level = x: int | 0 <= x < 16

  /** Rounds a priority to the nearest of 16 levels. */
  function Quantize(p: real): Level {
    (Clamp(p) * 15.0 + 0.5).Floor
  }

  function Dequantize(level: nat): real {
    (level % 16) as real / 15.0
  }

  lemma LevelRoundTrip(l: Level)
    ensures Quantize(Dequantize(l)) == l
    ensures 0.0 <= Dequantize(l) <= 1.0
  {
    assert Dequantize(l) * 15.0 == l as real;
  }

  /** Rounding moves a priority by at most half a level. */
  lemma RoundingIsHalfALevel(p: real)
    requires 0.0 <= p <= 1.0
    ensures -1.0 / 30.0 <= Dequantize(Quantize(p)) - p <= 1.0 / 30.0
  {
    var l := Quantize(p);
    assert Dequantize(l) * 15.0 == l as real;
  }

  function Levels(priorities: seq<real>): (ls: seq<Level>)
    ensures |ls| == |priorities|
    ensures forall i :: 0 <= i < |ls| ==> ls[i] == Quantize(priorities[i])
  {
    seq(|priorities|, i requires 0 <= i < |priorities| => Quantize(priorities[i]))
  }

  function Priorities(levels: seq<Level>): (ps: seq<real>)
    ensures |ps| == |levels|
    ensures forall i :: 0 <= i < |ps| ==> ps[i] == Dequantize(levels[i])
  {
    seq(|levels|, i requires 0 <= i < |levels| => Dequantize(levels[i]))
  }

  // ----- header

  function HeaderBytes(h: ApfHeader): (s: seq<byte>)
    ensures |s| == APF_HEADER_LEN
  {
    [h.version, h.tileSize, h.cols / 256, h.cols % 256, h.rows / 256, h.rows % 256, h.encoding, 0]
  }

  function Word(hi: byte, lo: byte): u16 {
    256 * (hi as int) + lo as int
  }

  function HeaderOf(payload: seq<byte>): ApfHeader
    requires |payload| >= APF_HEADER_LEN
  {
    ApfHeader(payload[0], payload[1], Word(payload[2], payload[3]), Word(payload[4], payload[5]), payload[6])
  }

  lemma HeaderRoundTrip(h: ApfHeader, body: seq<byte>)
    ensures HeaderOf(HeaderBytes(h) + body) == h
    ensures (HeaderBytes(h) + body)[APF_HEADER_LEN..] == body
  {
  }

  function TileTotal(h: ApfHeader): nat {
    h.cols * h.rows
  }

  // ----- snapshots

  /** `(hi << 4) | lo` of two nibbles. */
  function Nibbles(hi: Level, lo: Level): byte {
    16 * (hi as int) + lo as int
  }

  /** Two tiles per byte, the first in the high nibble; a missing last one counts as level 0. */
  function Pack(levels: seq<Level>): (body: seq<byte>)
    ensures |body| == DivCeil(|levels|, 2)
  {
    seq<byte>(DivCeil(|levels|, 2), k requires 0 <= k < DivCeil(|levels|, 2) =>
      Nibbles(levels[2 * k], if 2 * k + 1 < |levels| then levels[2 * k + 1] else 0))
  }

  function Unpack(body: seq<byte>, n: nat): (levels: seq<Level>)
    requires |body| == DivCeil(n, 2)
    ensures |levels| == n
    ensures forall i :: 0 <= i < n ==> levels[i] == if i % 2 == 0 then body[i / 2] / 16 else body[i / 2] % 16
  {
    seq<Level>(n, i requires 0 <= i < n => if i % 2 == 0 then body[i / 2] / 16 else body[i / 2] % 16)
  }

  lemma UnpackPack(levels: seq<Level>)
    ensures Unpack(Pack(levels), |levels|) == levels
  {
  }

  /** What a snapshot payload decodes to. */
  function Snapshot(payload: seq<byte>): Option<(ApfHeader, seq<real>)> {
    if |payload| < APF_HEADER_LEN then None
    else
      var h := HeaderOf(payload);
      if h.encoding != ENCODING_U4 then None
      else if |payload| < APF_HEADER_LEN + DivCeil(TileTotal(h), 2) then None
      else
        var body := payload[APF_HEADER_LEN..APF_HEADER_LEN + DivCeil(TileTotal(h), 2)];
        Some((h, Priorities(Unpack(body, TileTotal(h)))))
  }

  function SnapshotBytes(priorities: seq<real>, cols: u16, rows: u16, tileSize: byte): seq<byte> {
    HeaderBytes(ApfHeader(APF_VERSION, tileSize, cols, rows, ENCODING_U4)) + Pack(Levels(priorities))
  }

  /** `encode_u4` */
  method EncodeU4(priorities: seq<real>, cols: u16, rows: u16, tileSize: byte) returns (out: seq<byte>)
    requires |priorities| == cols * rows
    ensures out == SnapshotBytes(priorities, cols, rows, tileSize)
    ensures |out| == APF_HEADER_LEN + DivCeil(|priorities|, 2)
    ensures SnapshotSays(out, priorities, cols, rows, tileSize)
  {
    hide DivCeil, Quantize, SnapshotSays;
    ghost var body := Pack(Levels(priorities));
    out := HeaderBytes(ApfHeader(APF_VERSION, tileSize, cols, rows, ENCODING_U4));
    ghost var header := out;
    ghost var k := 0;
    var i := 0;
    while i < |priorities|
      invariant i == Min(2 * k, |priorities|) && k <= |body| && out == header + body[..k]
      decreases |priorities| - i
    {
      var hi := Quantize(priorities[i]);
      var lo := if i + 1 < |priorities| then Quantize(priorities[i + 1]) else 0;
      PackAt(priorities, k);
      assert body[..k + 1] == body[..k] + [body[k]];
      out := out + [Nibbles(hi, lo)];
      i := Min(i + 2, |priorities|);
      k := k + 1;
    }
    assert body[..|body|] == body;
    SnapshotIsSaid(priorities, cols, rows, tileSize);
  }

  lemma PackAt(priorities: seq<real>, k: nat)
    requires 2 * k < |priorities|
    ensures k < |Pack(Levels(priorities))|
    ensures Pack(Levels(priorities))[k]
         == Nibbles(Quantize(priorities[2 * k]),
                    if 2 * k + 1 < |priorities| then Quantize(priorities[2 * k + 1]) else 0)
  {
    hide Quantize;
  }

  /** `decode_u4` */
  method DecodeU4(payload: seq<byte>) returns (r: Option<(ApfHeader, seq<real>)>)
    ensures r == Snapshot(payload)
    ensures r.Some? ==> |r.value.1| == TileTotal(r.value.0)
  {
    if |payload| < APF_HEADER_LEN {
      return None;
    }
    var h := HeaderOf(payload);
    if h.encoding != ENCODING_U4 {
      return None;
    }
    var tileCount := TileTotal(h);
    var packed := DivCeil(tileCount, 2);
    if |payload| < APF_HEADER_LEN + packed {
      return None;
    }
    var body := payload[APF_HEADER_LEN..APF_HEADER_LEN + packed];
    var m := UnpackLoop(body, tileCount);
    return Some((h, m));
  }

  method UnpackLoop(body: seq<byte>, tileCount: nat) returns (m: seq<real>)
    requires |body| == DivCeil(tileCount, 2)
    ensures m == Priorities(Unpack(body, tileCount))
  {
    hide Dequantize;
    ghost var all := Priorities(Unpack(body, tileCount));
    m := [];
    for k := 0 to |body|
      invariant |m| == Min(2 * k, tileCount) && m == all[..|m|]
    {
      if |m| < tileCount {
        m := m + [Dequantize(body[k] / 16)];
      }
      if |m| < tileCount {
        m := m + [Dequantize(body[k] % 16)];
      }
    }
  }

  /** A snapshot carries the 16-level value of every tile. */
  lemma SnapshotRoundTrip(priorities: seq<real>, cols: u16, rows: u16, tileSize: byte)
    requires |priorities| == cols * rows
    ensures Snapshot(SnapshotBytes(priorities, cols, rows, tileSize))
         == Some((ApfHeader(APF_VERSION, tileSize, cols, rows, ENCODING_U4), Priorities(Levels(priorities))))
  {
    hide Unpack, Pack, DivCeil, Priorities, Levels;
    var h := ApfHeader(APF_VERSION, tileSize, cols, rows, ENCODING_U4);
    var body := Pack(Levels(priorities));
    HeaderRoundTrip(h, body);
    var payload := HeaderBytes(h) + body;
    assert payload[APF_HEADER_LEN..APF_HEADER_LEN + |body|] == body;
    UnpackPack(Levels(priorities));
  }

  // ----- what the bytes of a snapshot mean

  /** Level `l` of 0 to 15 is the one nearest to a priority, which counts as 0 below 0 and as 1 above 1. */
  predicate IsNearest(l: int, p: real) {
    var x := if p < 0.0 then 0.0 else if p > 1.0 then 1.0 else p;
    0 <= l <= 15 && l as real - 0.5 <= 15.0 * x < l as real + 0.5
  }

  /** The header: version 1, the tile size, columns and rows with the high byte first, the encoding, and a zero. */
  ghost predicate StartsAs(out: seq<byte>, cols: u16, rows: u16, tileSize: byte, encoding: byte) {
    && |out| >= 8 && out[0] == 1 && out[1] == tileSize && Be16(out, 2) == cols && Be16(out, 4) == rows
    && out[6] == encoding && out[7] == 0
  }

  /** Half of byte 8 + i / 2: the high half for even tiles. */
  function HalfByte(out: seq<byte>, i: nat): int
    requires 8 + i / 2 < |out|
  {
    if i % 2 == 0 then out[8 + i / 2] / 16 else out[8 + i / 2] % 16
  }

  /** Encoding 1 holds the nearest level of every tile in half a byte. */
  ghost predicate SnapshotSays(out: seq<byte>, priorities: seq<real>, cols: u16, rows: u16, tileSize: byte) {
    var n := |priorities|;
    && StartsAs(out, cols, rows, tileSize, 1) && |out| == 8 + (n + 1) / 2
    && (forall i: nat :: i < n ==> IsNearest(HalfByte(out, i), priorities[i]))
    && (n % 2 == 1 ==> out[|out| - 1] % 16 == 0)
  }

  lemma QuantizeIsNearest(p: real)
    ensures IsNearest(Quantize(p), p)
  {
  }

  lemma HeaderStarts(h: ApfHeader, body: seq<byte>)
    requires h.version == 1
    ensures StartsAs(HeaderBytes(h) + body, h.cols, h.rows, h.tileSize, h.encoding)
  {
  }

  lemma SnapshotIsSaid(priorities: seq<real>, cols: u16, rows: u16, tileSize: byte)
    requires |priorities| == cols * rows
    ensures SnapshotSays(SnapshotBytes(priorities, cols, rows, tileSize), priorities, cols, rows, tileSize)
  {
    hide Quantize, IsNearest, Pack, HalfByte, Levels, HeaderBytes, StartsAs, DivCeil;
    var header := HeaderBytes(ApfHeader(APF_VERSION, tileSize, cols, rows, ENCODING_U4));
    HeaderStarts(ApfHeader(APF_VERSION, tileSize, cols, rows, ENCODING_U4), Pack(Levels(priorities)));
    HalfUp(|priorities|);
    forall i: nat | i < |priorities|
      ensures 8 + i / 2 < |header + Pack(Levels(priorities))|
      ensures IsNearest(HalfByte(header + Pack(Levels(priorities)), i), priorities[i])
    {
      HalfByteIs(priorities, header, i);
      QuantizeIsNearest(priorities[i]);
    }
    if |priorities| % 2 == 1 {
      HalfByteIs(priorities, header, |priorities| - 1);
    }
  }

  lemma HalfUp(n: nat)
    ensures DivCeil(n, 2) == (n + 1) / 2
  {
  }

  lemma HalfByteIs(priorities: seq<real>, header: seq<byte>, i: nat)
    requires i < |priorities| && |header| == 8
    ensures var out := header + Pack(Levels(priorities));
            && 8 + i / 2 < |out| && HalfByte(out, i) == Quantize(priorities[i])
            && (i % 2 == 0 && i == |priorities| - 1 ==> 8 + i / 2 == |out| - 1 && out[|out| - 1] % 16 == 0)
  {
    hide Quantize, Pack;
    var out := header + Pack(Levels(priorities));
    PackAt(priorities, i / 2);
    assert out[8 + i / 2] == Pack(Levels(priorities))[i / 2];
  }

  // ----- deltas

  /** SKIP records for a run of unchanged tiles. */
  function Skips(run: nat): (s: seq<byte>)
    ensures |s| <= run
  {
    if run == 0 then [] else [Min(run, MAX_SKIP)] + Skips(run - Min(run, MAX_SKIP))
  }

  function ChangeByte(level: Level): byte {
    128 + level as int
  }

  /** The records from tile `i` on, with `run` unchanged tiles pending before it. */
  function Changes(previous: seq<Level>, current: seq<Level>, i: nat, run: nat): (s: seq<byte>)
    requires i <= |previous| == |current|
    ensures |s| <= |previous| - i + run
    decreases |previous| - i
  {
    if i == |previous| then Skips(run)
    else if previous[i] == current[i] then Changes(previous, current, i + 1, run + 1)
    else Skips(run) + [ChangeByte(current[i])] + Changes(previous, current, i + 1, 0)
  }

  function DeltaBytes(previous: seq<real>, current: seq<real>, cols: u16, rows: u16, tileSize: byte): seq<byte>
    requires |previous| == |current|
  {
    HeaderBytes(ApfHeader(APF_VERSION, tileSize, cols, rows, ENCODING_DELTA))
    + Changes(Levels(previous), Levels(current), 0, 0)
  }

  /** `push_skip_records` */
  method PushSkips(out: seq<byte>, run: nat) returns (out': seq<byte>)
    ensures out' == out + Skips(run)
  {
    out' := out;
    var rem: nat := run;
    while rem > 0
      invariant out' + Skips(rem) == out + Skips(run)
    {
      var n := Min(rem, MAX_SKIP);
      assert Skips(rem) == [n] + Skips(rem - n);
      assert out' + ([n] + Skips(rem - n)) == (out' + [n]) + Skips(rem - n);
      out' := out' + [n];
      rem := rem - n;
    }
  }

  /** `encode_delta` */
  method EncodeDelta(previous: seq<real>, current: seq<real>, cols: u16, rows: u16, tileSize: byte)
    returns (out: seq<byte>)
    requires |previous| == |current| == cols * rows
    ensures out == DeltaBytes(previous, current, cols, rows, tileSize)
    ensures |out| <= APF_HEADER_LEN + |current|
    ensures DeltaSays(out, previous, current, cols, rows, tileSize)
  {
    hide Quantize, Skips, DeltaSays;
    out := HeaderBytes(ApfHeader(APF_VERSION, tileSize, cols, rows, ENCODING_DELTA));
    ghost var p, c := Levels(previous), Levels(current);
    ghost var all := out + Changes(p, c, 0, 0);
    var run: nat := 0;
    for i := 0 to |current|
      invariant out + Changes(p, c, i, run) == all
    {
      if Quantize(previous[i]) == Quantize(current[i]) {
        run := run + 1;
      } else {
        ghost var before := out;
        out := PushSkips(out, run);
        assert Changes(p, c, i, run) == Skips(run) + [ChangeByte(c[i])] + Changes(p, c, i + 1, 0);
        out := out + [ChangeByte(Quantize(current[i]))];
        assert before + (Skips(run) + [ChangeByte(c[i])] + Changes(p, c, i + 1, 0)) == out + Changes(p, c, i + 1, 0);
        run := 0;
      }
    }
    out := PushSkips(out, run);
    DeltaIsSaid(previous, current, cols, rows, tileSize);
  }

  // ----- what the bytes of a delta mean

  /** The levels that records set, tile by tile: a byte below 128 passes over that many tiles, and any other sets one
      tile to the level in its low half. */
  function Settings(recs: seq<byte>): seq<Option<int>> {
    if recs == [] then []
    else if recs[0] < 128 then seq<Option<int>>(recs[0] as int, _ => None) + Settings(recs[1..])
    else [Some(recs[0] % 16)] + Settings(recs[1..])
  }

  /** Records without waste: none passes over nothing, and two in a row pass over tiles only if the first passes over
      127. */
  ghost predicate Sparing(recs: seq<byte>) {
    forall k :: 0 <= k < |recs| ==>
      && recs[k] != 0 && (recs[k] >= 128 ==> recs[k] < 144)
      && (recs[k] < 128 && k + 1 < |recs| && recs[k + 1] < 128 ==> recs[k] == 127)
  }

  /** Whether two priorities have different nearest levels. */
  ghost predicate LevelChanged(p: real, q: real) {
    exists l: int, m: int :: IsNearest(l, p) && IsNearest(m, q) && l != m
  }

  /** Encoding 3 sets exactly the tiles whose level changed, to the new level, with as few bytes as there can be. */
  ghost predicate DeltaSays(out: seq<byte>, previous: seq<real>, current: seq<real>, cols: u16, rows: u16,
                            tileSize: byte)
    requires |previous| == |current|
  {
    && StartsAs(out, cols, rows, tileSize, 3)
    && var set_ := Settings(out[8..]);
       && |set_| == |current|
       && (forall i :: 0 <= i < |current| ==>
             (set_[i].Some? <==> LevelChanged(previous[i], current[i]))
             && (set_[i].Some? ==> IsNearest(set_[i].value, current[i])))
       && Sparing(out[8..])
  }

  lemma NearestIsOne(l: int, m: int, p: real)
    requires IsNearest(l, p) && IsNearest(m, p)
    ensures l == m
  {
  }

  lemma ChangedIs(p: real, q: real)
    ensures LevelChanged(p, q) <==> Quantize(p) != Quantize(q)
  {
    hide IsNearest, Quantize;
    QuantizeIsNearest(p);
    QuantizeIsNearest(q);
    forall l: int, m: int | IsNearest(l, p) && IsNearest(m, q) ensures l == Quantize(p) && m == Quantize(q) {
      NearestIsOne(l, Quantize(p), p);
      NearestIsOne(m, Quantize(q), q);
    }
  }

  function Unset(n: nat): (s: seq<Option<int>>)
    ensures |s| == n && forall i :: 0 <= i < n ==> s[i] == None
  {
    seq<Option<int>>(n, _ => None)
  }

  lemma {:induction false} SettingsOfSkips(run: nat, rest: seq<byte>)
    ensures Settings(Skips(run) + rest) == Unset(run) + Settings(rest)
  {
    if run == 0 {
      assert Skips(0) + rest == rest;
    } else {
      var n := Min(run, MAX_SKIP);
      var recs := Skips(run) + rest;
      assert recs[0] == n && recs[1..] == Skips(run - n) + rest;
      SettingsOfSkips(run - n, rest);
      assert Unset(n) == seq<Option<int>>(n, _ => None);
      assert Unset(run) + Settings(rest) == Unset(n) + (Unset(run - n) + Settings(rest));
    }
  }

  /** The levels to set from tile `i` on. */
  function NewLevels(previous: seq<Level>, current: seq<Level>, i: nat): (s: seq<Option<int>>)
    requires i <= |previous| == |current|
    ensures |s| == |current| - i
    ensures forall j :: 0 <= j < |s| ==>
      s[j] == if previous[i + j] != current[i + j] then Some(current[i + j]) else None
  {
    seq<Option<int>>(|current| - i, j requires 0 <= j < |current| - i =>
      if previous[i + j] != current[i + j] then Some(current[i + j] as int) else None)
  }

  lemma {:induction false} SettingsOfChanges(previous: seq<Level>, current: seq<Level>, i: nat, run: nat)
    requires i <= |previous| == |current|
    ensures Settings(Changes(previous, current, i, run)) == Unset(run) + NewLevels(previous, current, i)
    decreases |previous| - i
  {
    hide Skips, Unset, NewLevels;
    if i == |previous| {
      SettingsOfSkips(run, []);
      assert Skips(run) + [] == Skips(run) && Settings([]) == [] == NewLevels(previous, current, i);
    } else if previous[i] == current[i] {
      SettingsOfChanges(previous, current, i + 1, run + 1);
      assert Unset(run + 1) + NewLevels(previous, current, i + 1) == Unset(run) + NewLevels(previous, current, i);
    } else {
      SettingsOfChanges(previous, current, i + 1, 0);
      assert Unset(0) + NewLevels(previous, current, i + 1) == NewLevels(previous, current, i + 1);
      SettingsOfChange(run, current[i], Changes(previous, current, i + 1, 0));
      assert [Some(current[i] as int)] + NewLevels(previous, current, i + 1) == NewLevels(previous, current, i);
      assert Unset(run) + ([Some(current[i] as int)] + NewLevels(previous, current, i + 1))
          == Unset(run) + NewLevels(previous, current, i);
    }
  }

  lemma SettingsOfChange(run: nat, level: Level, tail: seq<byte>)
    ensures Settings(Skips(run) + [ChangeByte(level)] + tail) == Unset(run) + ([Some(level as int)] + Settings(tail))
  {
    hide Skips, Unset;
    var rest := [ChangeByte(level)] + tail;
    SettingsOfSkips(run, rest);
    assert rest[1..] == tail && rest[0] % 16 == level;
    assert Skips(run) + [ChangeByte(level)] + tail == Skips(run) + rest;
  }

  lemma {:induction false} SkipsAreSparing(run: nat)
    ensures Sparing(Skips(run)) && forall k :: 0 <= k < |Skips(run)| ==> Skips(run)[k] < 128
  {
    if run > 0 {
      var n := Min(run, MAX_SKIP);
      SkipsAreSparing(run - n);
      var rest := Skips(run - n);
      assert Skips(run) == [n] + rest;
      assert forall k :: 1 <= k < |Skips(run)| ==> Skips(run)[k] == rest[k - 1];
    }
  }

  lemma SparingAppend(a: seq<byte>, c: byte, b: seq<byte>)
    requires Sparing(a) && Sparing(b) && 128 <= c < 144
    ensures Sparing(a + [c] + b)
  {
    var s := a + [c] + b;
    forall k | 0 <= k < |s|
      ensures s[k] != 0 && (s[k] >= 128 ==> s[k] < 144)
              && (s[k] < 128 && k + 1 < |s| && s[k + 1] < 128 ==> s[k] == 127)
    {
      if k < |a| {
        assert s[k] == a[k] && (k + 1 < |a| ==> s[k + 1] == a[k + 1]);
      } else if k > |a| {
        assert s[k] == b[k - |a| - 1] && (k + 1 < |s| ==> s[k + 1] == b[k - |a|]);
      }
    }
  }

  lemma {:induction false} ChangesAreSparing(previous: seq<Level>, current: seq<Level>, i: nat, run: nat)
    requires i <= |previous| == |current|
    ensures Sparing(Changes(previous, current, i, run))
    decreases |previous| - i
  {
    hide Sparing, Skips;
    SkipsAreSparing(run);
    if i < |previous| {
      if previous[i] == current[i] {
        ChangesAreSparing(previous, current, i + 1, run + 1);
      } else {
        ChangesAreSparing(previous, current, i + 1, 0);
        SparingAppend(Skips(run), ChangeByte(current[i]), Changes(previous, current, i + 1, 0));
      }
    }
  }

  lemma DeltaIsSaid(previous: seq<real>, current: seq<real>, cols: u16, rows: u16, tileSize: byte)
    requires |previous| == |current| == cols * rows
    ensures DeltaSays(DeltaBytes(previous, current, cols, rows, tileSize), previous, current, cols, rows, tileSize)
  {
    hide Quantize, IsNearest, LevelChanged, Changes, Settings, NewLevels, Unset, Sparing;
    var p, c := Levels(previous), Levels(current);
    var body, out := Changes(p, c, 0, 0), DeltaBytes(previous, current, cols, rows, tileSize);
    HeaderStarts(ApfHeader(APF_VERSION, tileSize, cols, rows, ENCODING_DELTA), body);
    assert out[8..] == body;
    SettingsOfChanges(p, c, 0, 0);
    assert Unset(0) + NewLevels(p, c, 0) == NewLevels(p, c, 0);
    forall i | 0 <= i < |current|
      ensures Settings(body)[i].Some? <==> LevelChanged(previous[i], current[i])
      ensures Settings(body)[i].Some? ==> IsNearest(Settings(body)[i].value, current[i])
    {
      ChangedIs(previous[i], current[i]);
      QuantizeIsNearest(current[i]);
    }
    ChangesAreSparing(p, c, 0, 0);
  }

  /** What the client does with records that name every tile once. */
  lemma {:induction false} ReplaySets(recs: seq<byte>, m: seq<real>, idx: nat)
    requires idx + |Settings(recs)| == |m| && forall k :: 0 <= k < |recs| ==> recs[k] != 0
    ensures Replay(recs, m, idx).Some? && |Replay(recs, m, idx).value.0| == |m|
    ensures forall i :: 0 <= i < |m| ==>
              Replay(recs, m, idx).value.0[i]
              == if i >= idx && Settings(recs)[i - idx].Some? then Settings(recs)[i - idx].value as real / 15.0
                 else m[i]
  {
    if recs != [] {
      if recs[0] < 128 {
        ReplaySets(recs[1..], m, idx + recs[0]);
      } else {
        ReplaySets(recs[1..], m[idx := Dequantize(recs[0] % 16)], idx + 1);
      }
    }
  }

  /** Replays records on a map from tile `idx` on; gives the map and the bytes left over. */
  function Replay(recs: seq<byte>, m: seq<real>, idx: nat): (r: Option<(seq<real>, seq<byte>)>)
    ensures r.Some? ==> |r.value.0| == |m|
  {
    if idx >= |m| then Some((m, recs))
    else if recs == [] then None
    else if recs[0] < 128 then
      if idx + recs[0] > |m| then None else Replay(recs[1..], m, idx + recs[0])
    else Replay(recs[1..], m[idx := Dequantize(recs[0] % 16)], idx + 1)
  }

  /** What a delta payload decodes to, against the receiver's own map. */
  function DeltaOf(payload: seq<byte>, previous: seq<real>): Option<(ApfHeader, seq<real>)> {
    if |payload| < APF_HEADER_LEN then None
    else
      var h := HeaderOf(payload);
      if h.encoding != ENCODING_DELTA || |previous| != TileTotal(h) then None
      else
        var r := Replay(payload[APF_HEADER_LEN..], previous, 0);
        if r.None? then None else Some((h, r.value.0))
  }

  /** `decode_delta`: on any bytes it terminates, stays in bounds, and yields nothing or a map of exactly
      the declared size. */
  method DecodeDelta(payload: seq<byte>, previous: seq<real>) returns (r: Option<(ApfHeader, seq<real>)>)
    ensures r == DeltaOf(payload, previous)
    ensures r.Some? ==> |r.value.1| == TileTotal(r.value.0) == |previous|
  {
    hide Dequantize;
    if |payload| < APF_HEADER_LEN {
      return None;
    }
    var h := HeaderOf(payload);
    if h.encoding != ENCODING_DELTA {
      return None;
    }
    var tileCount := TileTotal(h);
    if |previous| != tileCount {
      return None;
    }
    var m := previous;
    var idx: nat, pos: nat := 0, APF_HEADER_LEN;
    while idx < tileCount
      invariant APF_HEADER_LEN <= pos <= |payload| && |m| == tileCount && 0 <= idx <= tileCount
      invariant Replay(payload[pos..], m, idx) == Replay(payload[APF_HEADER_LEN..], previous, 0)
      decreases |payload| - pos
    {
      if pos >= |payload| {
        return None;
      }
      var b := payload[pos];
      assert payload[pos..][1..] == payload[pos + 1..];
      pos := pos + 1;
      if b < 128 {
        if idx + b as int > tileCount {
          return None;
        }
        idx := idx + b as int;
      } else {
        m := m[idx := Dequantize(b % 16)];
        idx := idx + 1;
      }
    }
    return Some((h, m));
  }

  /** The receiver's map after the changes from tile `i` on. */
  function Patched(m: seq<real>, previous: seq<Level>, current: seq<Level>, i: nat): (r: seq<real>)
    requires |m| == |previous| == |current|
    ensures |r| == |m|
  {
    seq(|m|, j requires 0 <= j < |m| =>
      if j >= i && previous[j] != current[j] then Dequantize(current[j]) else m[j])
  }

  lemma {:induction false} ReplaySkips(run: nat, rest: seq<byte>, m: seq<real>, idx: nat)
    requires idx + run <= |m|
    ensures Replay(Skips(run) + rest, m, idx) == Replay(rest, m, idx + run)
  {
    if run == 0 {
      assert Skips(0) + rest == rest;
    } else {
      var n := Min(run, MAX_SKIP);
      var recs := Skips(run) + rest;
      assert recs[0] == n && recs[1..] == Skips(run - n) + rest;
      ReplaySkips(run - n, rest, m, idx + n);
    }
  }

  lemma {:induction false} ReplayChanges(m: seq<real>, previous: seq<Level>, current: seq<Level>, i: nat, run: nat)
    requires i <= |m| == |previous| == |current| && run <= i
    ensures Replay(Changes(previous, current, i, run), m, i - run) == Some((Patched(m, previous, current, i), []))
    decreases |m| - i
  {
    hide Dequantize;
    var recs := Changes(previous, current, i, run);
    if i == |m| {
      assert recs + [] == recs;
      ReplaySkips(run, [], m, i - run);
      assert Patched(m, previous, current, i) == m;
    } else if previous[i] == current[i] {
      ReplayChanges(m, previous, current, i + 1, run + 1);
      assert Patched(m, previous, current, i) == Patched(m, previous, current, i + 1);
    } else {
      var tail := Changes(previous, current, i + 1, 0);
      var rest := [ChangeByte(current[i])] + tail;
      assert recs == Skips(run) + rest;
      ReplaySkips(run, rest, m, i - run);
      var m' := m[i := Dequantize(current[i])];
      assert rest[1..] == tail && rest[0] % 16 == current[i];
      ReplayChanges(m', previous, current, i + 1, 0);
      assert Patched(m', previous, current, i + 1) == Patched(m, previous, current, i);
    }
  }

  /** A delta rewrites exactly the tiles whose level changed, on any receiver map of the right size, and
      is consumed to the last byte. */
  lemma DeltaPatches(m: seq<real>, previous: seq<real>, current: seq<real>, cols: u16, rows: u16, tileSize: byte)
    requires |m| == |previous| == |current| == cols * rows
    ensures DeltaOf(DeltaBytes(previous, current, cols, rows, tileSize), m)
         == Some((ApfHeader(APF_VERSION, tileSize, cols, rows, ENCODING_DELTA),
                  Patched(m, Levels(previous), Levels(current), 0)))
    ensures Replay(Changes(Levels(previous), Levels(current), 0, 0), m, 0)
         == Some((Patched(m, Levels(previous), Levels(current), 0), []))
  {
    hide Changes, Replay, Quantize, Dequantize, Patched;
    var p, c := Levels(previous), Levels(current);
    HeaderRoundTrip(ApfHeader(APF_VERSION, tileSize, cols, rows, ENCODING_DELTA), Changes(p, c, 0, 0));
    ReplayChanges(m, p, c, 0, 0);
  }

  /** A receiver that holds the 16-level values of the sender's previous map ends with those of its
      current one. */
  lemma DeltaRoundTrip(previous: seq<real>, current: seq<real>, cols: u16, rows: u16, tileSize: byte)
    requires |previous| == |current| == cols * rows
    ensures DeltaOf(DeltaBytes(previous, current, cols, rows, tileSize), Priorities(Levels(previous)))
         == Some((ApfHeader(APF_VERSION, tileSize, cols, rows, ENCODING_DELTA), Priorities(Levels(current))))
  {
    hide Quantize, Dequantize, DeltaOf, DeltaBytes;
    var m := Priorities(Levels(previous));
    DeltaPatches(m, previous, current, cols, rows, tileSize);
    assert Patched(m, Levels(previous), Levels(current), 0) == Priorities(Levels(current));
  }
}
