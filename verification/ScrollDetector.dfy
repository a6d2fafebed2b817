/** The two forms of the scroll detector for one 32x32 tile: the software reference, which skips
    discarded candidates and returns the first match, and the hardware form, which compares everything
    and lets the last write of a reverse scan win. */
module ScrollDetector {
  import opened Bytes
  import opened TileGrid
  import opened ScrollOrder

  const MAX_DY: nat := 16
  const N_DY: nat := 32
  const SCROLL_ROWS: nat := 64

  datatype ScrollResult = ScrollResult(found: bool, dy: int)

  /** The line of the buffer that row `row` is compared with; line 0 is 16 rows above the tile. */
  function PrevRowIdx(di: nat, row: nat): (i: int)
    requires di < N_DY && row < TILE_PX
    ensures 0 <= i < SCROLL_ROWS
  {
    row + MAX_DY + Candidate(di)
  }

  predicate Buffers(cur: seq<byte>, lines: seq<seq<byte>>) {
    |cur| == TILE_BYTES && |lines| == SCROLL_ROWS && forall i :: 0 <= i < |lines| ==> |lines[i]| == ROW_BYTES
  }

  function CurRow(cur: seq<byte>, row: nat): (r: seq<byte>)
    requires |cur| == TILE_BYTES && row < TILE_PX
    ensures |r| == ROW_BYTES
  {
    cur[row * ROW_BYTES..row * ROW_BYTES + ROW_BYTES]
  }

  predicate RowMatches(cur: seq<byte>, lines: seq<seq<byte>>, di: nat, row: nat)
    requires Buffers(cur, lines) && di < N_DY && row < TILE_PX
  {
    CurRow(cur, row) == lines[PrevRowIdx(di, row)]
  }

  /** The first `n` rows match under candidate `di`. */
  ghost predicate MatchesUpTo(cur: seq<byte>, lines: seq<seq<byte>>, di: nat, n: nat)
    requires Buffers(cur, lines) && di < N_DY && n <= TILE_PX
  {
    forall row: nat :: row < n ==> RowMatches(cur, lines, di, row)
  }

  /** The result is the first candidate under which the whole tile matches. */
  ghost predicate IsFirstMatch(cur: seq<byte>, lines: seq<seq<byte>>, r: ScrollResult)
    requires Buffers(cur, lines)
  {
    if r.found then
      exists di: nat :: di < N_DY && r.dy == Candidate(di) && MatchesUpTo(cur, lines, di, TILE_PX)
        && forall j: nat :: j < di ==> !MatchesUpTo(cur, lines, j, TILE_PX)
    else
      r.dy == 0 && forall di: nat :: di < N_DY ==> !MatchesUpTo(cur, lines, di, TILE_PX)
  }

  /** The software reference. */
  method DetectReference(cur: seq<byte>, lines: seq<seq<byte>>) returns (r: ScrollResult)
    requires Buffers(cur, lines)
    ensures IsFirstMatch(cur, lines, r)
  {
    hide RowMatches, Candidate;
    var m := new bool[N_DY](_ => true);
    for row := 0 to TILE_PX
      invariant forall di: nat :: di < N_DY ==> (m[di] <==> MatchesUpTo(cur, lines, di, row))
    {
      for di := 0 to N_DY
        invariant forall j: nat :: j < di ==> (m[j] <==> MatchesUpTo(cur, lines, j, row + 1))
        invariant forall j: nat :: di <= j < N_DY ==> (m[j] <==> MatchesUpTo(cur, lines, j, row))
      {
        if !m[di] {
          continue;
        }
        var differs := !RowMatches(cur, lines, di, row);
        if differs {
          m[di] := false;
        }
      }
    }
    for di := 0 to N_DY
      invariant forall j: nat :: j < di ==> !MatchesUpTo(cur, lines, j, TILE_PX)
    {
      if m[di] {
        return ScrollResult(true, Candidate(di));
      }
    }
    return ScrollResult(false, 0);
  }

  /** The byte loop of one hardware comparator. */
  method RowDiffers(cur: seq<byte>, lines: seq<seq<byte>>, di: nat, row: nat) returns (differs: bool)
    requires Buffers(cur, lines) && di < N_DY && row < TILE_PX
    ensures differs <==> !RowMatches(cur, lines, di, row)
  {
    hide Candidate;
    var curRow, line := CurRow(cur, row), lines[PrevRowIdx(di, row)];
    differs := false;
    for b := 0 to ROW_BYTES
      invariant differs <==> exists i :: 0 <= i < b && curRow[i] != line[i]
    {
      if curRow[b] != line[b] {
        differs := true;
      }
    }
  }

  /** The hardware form. */
  method DetectUnrolled(cur: seq<byte>, lines: seq<seq<byte>>) returns (r: ScrollResult)
    requires Buffers(cur, lines)
    ensures IsFirstMatch(cur, lines, r)
  {
    hide RowMatches, Candidate;
    var m := new bool[N_DY](_ => true);
    for row := 0 to TILE_PX
      invariant forall di: nat :: di < N_DY ==> (m[di] <==> MatchesUpTo(cur, lines, di, row))
    {
      for di := 0 to N_DY
        invariant forall j: nat :: j < di ==> (m[j] <==> MatchesUpTo(cur, lines, j, row + 1))
        invariant forall j: nat :: di <= j < N_DY ==> (m[j] <==> MatchesUpTo(cur, lines, j, row))
      {
        var differs := RowDiffers(cur, lines, di, row);
        if differs {
          m[di] := false;
        }
      }
    }
    r := ScrollResult(false, 0);
    ghost var best: nat := N_DY;
    var di := N_DY - 1;
    while di >= 0
      invariant -1 <= di < N_DY
      invariant best <= N_DY && (r.found <==> best < N_DY)
      invariant di < best && forall j: nat :: di < j < best && j < N_DY ==> !m[j]
      invariant best < N_DY ==> m[best] && r.dy == Candidate(best)
      invariant best == N_DY ==> r.dy == 0
      invariant forall j: nat :: j < N_DY ==> (m[j] <==> MatchesUpTo(cur, lines, j, TILE_PX))
    {
      if m[di] {
        r := ScrollResult(true, Candidate(di));
        best := di;
      }
      di := di - 1;
    }
    if r.found {
      assert forall j: nat :: j < best ==> !MatchesUpTo(cur, lines, j, TILE_PX);
    }
  }

  /** The specification determines the result, so the two forms agree on every input. */
  lemma FirstMatchUnique(cur: seq<byte>, lines: seq<seq<byte>>, r: ScrollResult, s: ScrollResult)
    requires Buffers(cur, lines) && IsFirstMatch(cur, lines, r) && IsFirstMatch(cur, lines, s)
    ensures r == s
  {
    hide MatchesUpTo, Candidate;
  }

  /** The result is the nearest matching shift, downward before upward. */
  lemma FirstMatchIsNearest(cur: seq<byte>, lines: seq<seq<byte>>, r: ScrollResult, di: nat)
    requires Buffers(cur, lines) && IsFirstMatch(cur, lines, r)
    requires di < N_DY && MatchesUpTo(cur, lines, di, TILE_PX)
    ensures r.found
    ensures r.dy == Candidate(di) || Abs(r.dy) < Abs(Candidate(di)) || (r.dy == -Candidate(di) && r.dy > 0)
  {
    hide MatchesUpTo, Candidate;
    var k: nat :| k < N_DY && r.dy == Candidate(k) && MatchesUpTo(cur, lines, k, TILE_PX)
      && forall j: nat :: j < k ==> !MatchesUpTo(cur, lines, j, TILE_PX);
    if k < di {
      CandidateOrder(k, di);
    }
  }

  /** All 32 rows of 128 bytes equal the lines `dy` rows further down, line 16 being the tile's own place. */
  ghost predicate SameAt(cur: seq<byte>, lines: seq<seq<byte>>, dy: int)
    requires Buffers(cur, lines) && -16 <= dy <= 16
  {
    forall row: nat, b: nat :: row < 32 && b < 128 ==> SameByte(cur, lines, dy, row, b)
  }

  predicate SameByte(cur: seq<byte>, lines: seq<seq<byte>>, dy: int, row: nat, b: nat)
    requires Buffers(cur, lines) && -16 <= dy <= 16 && row < 32 && b < 128
  {
    cur[128 * row + b] == lines[row + 16 + dy][b]
  }

  /** The nearest shift of at most 16 rows, and of two opposite ones the one downwards; none is reported as 0. */
  ghost predicate DetectorSays(cur: seq<byte>, lines: seq<seq<byte>>, r: ScrollResult)
    requires Buffers(cur, lines)
  {
    if r.found then
      && 1 <= Abs(r.dy) <= 16 && SameAt(cur, lines, r.dy)
      && forall e: int :: 1 <= Abs(e) <= 16 && SameAt(cur, lines, e) ==>
           Abs(r.dy) < Abs(e) || e == r.dy || (e == -r.dy && r.dy > 0)
    else r.dy == 0 && forall e: int :: 1 <= Abs(e) <= 16 ==> !SameAt(cur, lines, e)
  }

  lemma MatchIsSame(cur: seq<byte>, lines: seq<seq<byte>>, di: nat)
    requires Buffers(cur, lines) && di < N_DY
    ensures -16 <= Candidate(di) <= 16
    ensures MatchesUpTo(cur, lines, di, TILE_PX) <==> SameAt(cur, lines, Candidate(di))
  {
    var dy := Candidate(di);
    if SameAt(cur, lines, dy) {
      forall row: nat | row < TILE_PX ensures RowMatches(cur, lines, di, row) {
        forall b | 0 <= b < ROW_BYTES ensures CurRow(cur, row)[b] == lines[PrevRowIdx(di, row)][b] {
          assert SameByte(cur, lines, dy, row, b);
        }
      }
    }
    if MatchesUpTo(cur, lines, di, TILE_PX) {
      forall row: nat, b: nat | row < 32 && b < 128 ensures SameByte(cur, lines, dy, row, b) {
        assert RowMatches(cur, lines, di, row);
        assert CurRow(cur, row)[b] == cur[128 * row + b];
      }
    }
  }

  lemma FirstMatchSays(cur: seq<byte>, lines: seq<seq<byte>>, r: ScrollResult)
    requires Buffers(cur, lines) && IsFirstMatch(cur, lines, r)
    ensures DetectorSays(cur, lines, r)
  {
    hide MatchesUpTo, Candidate, SameAt;
    if r.found {
      var k: nat :| k < N_DY && r.dy == Candidate(k) && MatchesUpTo(cur, lines, k, TILE_PX);
      MatchIsSame(cur, lines, k);
      CandidateRange(k);
    }
    forall e: int | 1 <= Abs(e) <= 16 && SameAt(cur, lines, e)
      ensures r.found && (Abs(r.dy) < Abs(e) || e == r.dy || (e == -r.dy && r.dy > 0))
    {
      var di := CandidateFor(e, 16);
      MatchIsSame(cur, lines, di);
      FirstMatchIsNearest(cur, lines, r, di);
    }
  }

  lemma CandidateRange(k: nat)
    requires k < N_DY
    ensures 1 <= Abs(Candidate(k)) <= 16
  {
  }

  method DetectBoth(cur: seq<byte>, lines: seq<seq<byte>>) returns (software: ScrollResult, hardware: ScrollResult)
    requires Buffers(cur, lines)
    ensures software == hardware && IsFirstMatch(cur, lines, software) && DetectorSays(cur, lines, software)
  {
    software := DetectReference(cur, lines);
    hardware := DetectUnrolled(cur, lines);
    FirstMatchUnique(cur, lines, software, hardware);
    FirstMatchSays(cur, lines, software);
  }
}
