/** The host's last-sent attention map and the client's copy of it, over whole sessions with losses. */
module ApfSync {
  import opened Bytes
  import opened Apf
  import opened ApfGrid

  type Held = Option<(ApfHeader, seq<real>)>

  predicate WellFormed(g: Grid) {
    |g.cells| == g.cols * g.rows
  }

  predicate SameShape(a: Grid, b: Grid) {
    a.cols == b.cols && a.rows == b.rows && a.tileSize == b.tileSize && |a.cells| == |b.cells|
  }

  /** The last map sent has the size of this one. */
  predicate OneSize(last: Option<Grid>, g: Grid) {
    last.Some? && last.value.cols == g.cols && last.value.rows == g.rows && last.value.tileSize == g.tileSize
  }

  /** What the host puts on the wire for a frame, if anything. */
  function Payload(last: Option<Grid>, keyframe: bool, g: Grid): (p: Option<seq<byte>>) {
    if !keyframe && last.Some? && SameShape(last.value, g) then
      Some(DeltaBytes(last.value.cells, g.cells, g.cols, g.rows, g.tileSize))
    else if keyframe then Some(SnapshotBytes(g.cells, g.cols, g.rows, g.tileSize))
    else None
  }

  class ApfHost {
    var last: Option<Grid>

    constructor ()
      ensures last == None
    {
      last := None;
    }

    /** The session starts over at a new resolution. */
    method Resize()
      modifies this
      ensures last == None
    {
      last := None;
    }

    /** One frame's map. `sendOk` is the transport's answer, known only after the packet was built. */
    method SendMap(keyframe: bool, g: Grid, sendOk: bool) returns (p: Option<seq<byte>>)
      requires WellFormed(g) && (last.Some? ==> WellFormed(last.value))
      modifies this
      ensures p == if sendOk then Payload(old(last), keyframe, g) else None
      ensures p.Some? <==> sendOk && (keyframe || OneSize(old(last), g))
      ensures p.Some? && !keyframe ==>
                old(last).Some? && |old(last).value.cells| == |g.cells|
                && DeltaSays(p.value, old(last).value.cells, g.cells, g.cols, g.rows, g.tileSize)
      ensures p.Some? && keyframe ==> SnapshotSays(p.value, g.cells, g.cols, g.rows, g.tileSize)
      ensures last == if p.Some? then Some(g) else old(last)
    {
      hide SnapshotBytes, DeltaBytes, DeltaSays, SnapshotSays;
      var canDelta := !keyframe && last.Some? && SameShape(last.value, g);
      p := None;
      if canDelta {
        var out := EncodeDelta(last.value.cells, g.cells, g.cols, g.rows, g.tileSize);
        p := Some(out);
      } else if keyframe {
        var out := EncodeU4(g.cells, g.cols, g.rows, g.tileSize);
        p := Some(out);
      }
      if sendOk {
        if keyframe || canDelta {
          last := Some(g);
        }
      } else {
        p := None;
      }
    }
  }

  function Received(held: Held, payload: seq<byte>): Held {
    var decoded :=
      if |payload| > 6 && payload[6] == ENCODING_DELTA then
        if held.Some? then DeltaOf(payload, held.value.1) else None
      else Snapshot(payload);
    if decoded.Some? then decoded else held
  }

  class ApfClient {
    var held: Held

    constructor ()
      ensures held == None
    {
      held := None;
    }

    /** Any payload, however malformed, leaves a map of exactly its header's size. */
    method OnUpdate(payload: seq<byte>)
      requires held.Some? ==> |held.value.1| == TileTotal(held.value.0)
      modifies this
      ensures held == Received(old(held), payload)
      ensures held.Some? ==> |held.value.1| == TileTotal(held.value.0)
    {
      var decoded: Held := None;
      if |payload| > 6 && payload[6] == ENCODING_DELTA {
        if held.Some? {
          decoded := DecodeDelta(payload, held.value.1);
        }
      } else {
        decoded := DecodeU4(payload);
      }
      if decoded.Some? {
        held := decoded;
      }
    }
  }

  // ----- runs

  /** A frame's packet, when one is sent, arrives in order or not at all. */
  datatype Event = Resize | Frame(keyframe: bool, grid: Grid, sendOk: bool, arrives: bool)

  predicate Sound(events: seq<Event>) {
    forall i :: 0 <= i < |events| && events[i].Frame? ==> WellFormed(events[i].grid)
  }

  /** The tiles whose level differs between two maps. */
  function Differing(a: Grid, b: Grid): set<nat>
    requires |a.cells| == |b.cells|
  {
    set i: nat | i < |a.cells| && Quantize(a.cells[i]) != Quantize(b.cells[i])
  }

  /** What is known of the client: nothing, or which tiles may be out of date. */
  datatype Knowledge = Unknown | AllBut(stale: set<nat>)

  datatype Tracked = Tracked(last: Option<Grid>, known: Knowledge)

  /** A snapshot that arrives clears everything; a lost packet makes stale exactly the tiles it would have
      changed; a delta that arrives clears the tiles it changes. */
  function Track(t: Tracked, e: Event): Tracked {
    if e.Resize? then Tracked(None, Unknown)
    else if !e.sendOk then t
    else if t.last.Some? && SameShape(t.last.value, e.grid) then
      Tracked(Some(e.grid), TrackSame(t.known, Differing(t.last.value, e.grid), e))
    else if e.keyframe then Tracked(Some(e.grid), if e.arrives then AllBut({}) else Unknown)
    else t
  }

  function TrackSame(known: Knowledge, changed: set<nat>, e: Event): Knowledge
    requires e.Frame?
  {
    if e.keyframe && e.arrives then AllBut({})
    else if known.Unknown? then Unknown
    else if e.arrives then AllBut(known.stale - changed)
    else AllBut(known.stale + changed)
  }

  function TrackAll(events: seq<Event>): Tracked {
    if events == [] then Tracked(None, Unknown)
    else Track(TrackAll(events[..|events| - 1]), events[|events| - 1])
  }

  /** The client holds the 16-level value of every tile of the host's last map, except stale ones. */
  ghost predicate Agrees(t: Tracked, held: Held) {
    && (t.last.Some? ==> WellFormed(t.last.value))
    && (held.Some? ==> |held.value.1| == TileTotal(held.value.0))
    && (t.known.AllBut? ==>
          && t.last.Some? && held.Some?
          && MirrorsGrid(t.last.value, held.value.0)
          && MirrorsTiles(t.last.value, held.value.1, t.known.stale))
  }

  predicate MirrorsGrid(g: Grid, h: ApfHeader) {
    h.cols == g.cols && h.rows == g.rows && h.tileSize == g.tileSize
  }

  ghost predicate MirrorsTiles(g: Grid, m: seq<real>, stale: set<nat>) {
    |m| == |g.cells| && forall i: nat | i < |m| && i !in stale :: m[i] == Dequantize(Quantize(g.cells[i]))
  }

  lemma SnapshotStep(held: Held, g: Grid)
    requires WellFormed(g)
    ensures var r := Received(held, SnapshotBytes(g.cells, g.cols, g.rows, g.tileSize));
            r.Some? && MirrorsGrid(g, r.value.0) && r.value.1 == Priorities(Levels(g.cells))
  {
    hide Snapshot, DeltaOf, Pack, Levels, Priorities;
    SnapshotRoundTrip(g.cells, g.cols, g.rows, g.tileSize);
  }

  lemma DeltaStep(held: Held, a: Grid, b: Grid)
    requires WellFormed(a) && WellFormed(b) && SameShape(a, b)
    requires held.Some? ==> |held.value.1| == TileTotal(held.value.0)
    ensures var r := Received(held, DeltaBytes(a.cells, b.cells, b.cols, b.rows, b.tileSize));
            if held.Some? && |held.value.1| == |b.cells| then
              r.Some? && MirrorsGrid(b, r.value.0)
              && r.value.1 == Patched(held.value.1, Levels(a.cells), Levels(b.cells), 0)
            else r == held
  {
    hide Snapshot, Changes, Levels, Patched, Replay;
    if held.Some? && |held.value.1| == |b.cells| {
      DeltaPatches(held.value.1, a.cells, b.cells, b.cols, b.rows, b.tileSize);
    } else {
      HeaderRoundTrip(ApfHeader(APF_VERSION, b.tileSize, b.cols, b.rows, ENCODING_DELTA),
                      Changes(Levels(a.cells), Levels(b.cells), 0, 0));
    }
  }

  lemma PatchedTiles(m: seq<real>, a: Grid, b: Grid, stale: set<nat>)
    requires |a.cells| == |b.cells| && MirrorsTiles(a, m, stale)
    ensures MirrorsTiles(b, Patched(m, Levels(a.cells), Levels(b.cells), 0), stale - Differing(a, b))
    ensures MirrorsTiles(b, m, stale + Differing(a, b))
  {
    hide Quantize, Dequantize;
  }

  /** One frame keeps the agreement that `Track` predicts. */
  lemma FrameStep(t: Tracked, held: Held, e: Event)
    requires Agrees(t, held) && e.Frame? && WellFormed(e.grid)
    ensures var p := if e.sendOk then Payload(t.last, e.keyframe, e.grid) else None;
            var held' := if p.Some? && e.arrives then Received(held, p.value) else held;
            && Track(t, e).last == (if p.Some? then Some(e.grid) else t.last)
            && Agrees(Track(t, e), held')
  {
    hide Received, SnapshotBytes, DeltaBytes, Quantize, Dequantize, Patched, MirrorsTiles, Differing;
    if e.sendOk && e.keyframe {
      SnapshotStep(held, e.grid);
      SnapshotTiles(e.grid);
      if t.last.Some? && SameShape(t.last.value, e.grid) && t.known.AllBut? {
        PatchedTiles(held.value.1, t.last.value, e.grid, t.known.stale);
      }
    } else if e.sendOk && t.last.Some? && SameShape(t.last.value, e.grid) {
      DeltaStep(held, t.last.value, e.grid);
      if t.known.AllBut? {
        SizeOfMirror(t.last.value, held.value.1, t.known.stale);
        PatchedTiles(held.value.1, t.last.value, e.grid, t.known.stale);
      }
    }
  }

  lemma SnapshotTiles(g: Grid)
    ensures MirrorsTiles(g, Priorities(Levels(g.cells)), {})
  {
    hide Quantize, Dequantize;
  }

  lemma SizeOfMirror(g: Grid, m: seq<real>, stale: set<nat>)
    requires MirrorsTiles(g, m, stale)
    ensures |m| == |g.cells|
  {
  }

  /** Any session: after every prefix of events the two sides agree as tracked. */
  method RunSession(events: seq<Event>) returns (last: Option<Grid>, held: Held)
    requires Sound(events)
    ensures last == TrackAll(events).last
    ensures Agrees(TrackAll(events), held)
  {
    hide Track, Agrees, Received, Payload;
    var host := new ApfHost();
    var client := new ApfClient();
    Start();
    assert events[..0] == [];
    for i := 0 to |events|
      invariant host.last == TrackAll(events[..i]).last
      invariant Agrees(TrackAll(events[..i]), client.held)
    {
      ghost var t := TrackAll(events[..i]);
      ghost var held := client.held;
      assert events[..i + 1][..i] == events[..i];
      SizesAgree(t, held);
      match events[i]
      case Resize =>
        host.Resize();
        ResizeStep(t, held);
      case Frame(keyframe, g, sendOk, arrives) =>
        var p := host.SendMap(keyframe, g, sendOk);
        if p.Some? && arrives {
          client.OnUpdate(p.value);
        }
        FrameStep(t, held, events[i]);
    }
    assert events[..|events|] == events;
    return host.last, client.held;
  }

  lemma Start()
    ensures TrackAll([]).last == None && Agrees(TrackAll([]), None)
  {
  }

  lemma SizesAgree(t: Tracked, held: Held)
    requires Agrees(t, held)
    ensures t.last.Some? ==> WellFormed(t.last.value)
    ensures held.Some? ==> |held.value.1| == TileTotal(held.value.0)
  {
  }

  lemma ResizeStep(t: Tracked, held: Held)
    requires Agrees(t, held)
    ensures Track(t, Resize).last == None && Agrees(Track(t, Resize), held)
  {
  }

  predicate NothingLost(events: seq<Event>) {
    forall i :: 0 <= i < |events| && events[i].Frame? ==> events[i].arrives
  }

  /** Without losses no tile is ever stale. */
  lemma {:induction false} InOrderRun(events: seq<Event>)
    requires NothingLost(events)
    ensures TrackAll(events).last.Some? ==> TrackAll(events).known == AllBut({})
  {
    if events != [] {
      InOrderRun(events[..|events| - 1]);
    }
  }

  /** Whatever was lost before, a snapshot that arrives leaves no tile stale, and deltas after it keep it so. */
  lemma {:induction false} SnapshotRestores(before: seq<Event>, snapshot: Event, after: seq<Event>)
    requires snapshot.Frame? && snapshot.keyframe && snapshot.sendOk && snapshot.arrives && NothingLost(after)
    ensures var t := TrackAll(before + [snapshot] + after);
            t.last.Some? ==> t.known == AllBut({})
    decreases |after|
  {
    var all := before + [snapshot] + after;
    if after == [] {
      assert all[..|all| - 1] == before && all[|all| - 1] == snapshot;
    } else {
      var init := after[..|after| - 1];
      assert all[..|all| - 1] == before + [snapshot] + init && all[|all| - 1] == after[|after| - 1];
      SnapshotRestores(before, snapshot, init);
    }
  }

  /** With no stale tile the client holds exactly the host's map at 16 levels. */
  lemma AgreementIsExact(t: Tracked, held: Held)
    requires Agrees(t, held) && t.known == AllBut({})
    ensures held.value.1 == Priorities(Levels(t.last.value.cells))
  {
    hide Quantize, Dequantize;
  }

  /** Losing a delta that the client was ready for costs the agreement exactly when the delta changed a tile. */
  lemma LostDelta(a: Grid, b: Grid, m: seq<real>)
    requires |a.cells| == |b.cells| && m == Priorities(Levels(a.cells))
    ensures m == Priorities(Levels(b.cells)) <==> Differing(a, b) == {}
  {
    hide Quantize, Dequantize;
    forall i: nat | i < |m| ensures m[i] == Dequantize(Quantize(b.cells[i])) <==> i !in Differing(a, b) {
      LevelRoundTrip(Quantize(a.cells[i]));
      LevelRoundTrip(Quantize(b.cells[i]));
    }
    if m == Priorities(Levels(b.cells)) {
      assert forall i: nat | i < |m| :: m[i] == Dequantize(Quantize(b.cells[i]));
    } else {
      var i :| 0 <= i < |m| && m[i] != Dequantize(Quantize(b.cells[i]));
      assert i in Differing(a, b);
    }
  }

  // ----- from the host's map to the client's lookup

  /** A key frame's map on its way to the client: the priority that the client reads for any tile is the
      16-level value of the cell at the tile's coordinates divided by the recovered scale, or 0 off the grid;
      with a scale of at most 7 that is the greatest priority in the tile's own cell. */
  method SnapshotLookup(attention: seq<real>, width: nat, height: nat, tile: nat)
    returns (priority: Option<real>, ghost scale: nat)
    requires width > 0 && height > 0
    requires |attention| == DivCeil(width, 32) * DivCeil(height, 32) && tile < |attention|
    ensures priority.None? <==> !Fits(DivCeil(width, 32), DivCeil(height, 32), MAX_SCALE, MAX_PAYLOAD)
    ensures priority.Some? ==> 1 <= scale && forall s: nat | 1 <= s ::
              Fits(DivCeil(width, 32), DivCeil(height, 32), s, MAX_PAYLOAD) <==> s >= scale
    ensures priority.Some? ==> Reads(priority.value, attention, DivCeil(width, 32), DivCeil(height, 32), scale, tile)
    ensures priority.Some? && scale <= 7 ==>
      var tilesX := DivCeil(width, 32);
      var x, y := CellX(tile, tilesX, scale), CellY(tile, tilesX, scale);
      forall v | IsCellMax(v, attention, |attention|, tilesX, scale, x, y) ::
        priority.value == Dequantize(Quantize(v))
  {
    hide IsCellMax, Fits, Quantize, Dequantize, DivCeil, CellX, CellY, GridOf, Lookup;
    hide Received, Payload, Priorities, Reads;
    var tilesX, tilesY := DivCeil(width, 32), DivCeil(height, 32);
    var grid;
    grid, scale := ChooseGrid(attention, tilesX, tilesY);
    if grid.None? {
      return None, 0;
    }
    var g := grid.value;
    GridShape(g, attention, tilesX, tilesY, scale);
    var host := new ApfHost();
    var client := new ApfClient();
    var p := host.SendMap(true, g, true);
    KeyPayload(g);
    client.OnUpdate(p.value);
    SnapshotStep(None, g);
    priority := Some(Lookup(client.held, width, tile));
    LookupReads(g, attention, width, tilesX, tilesY, scale, tile, client.held.value.0);
    if scale <= 7 {
      ghost var x, y := CellX(tile, tilesX, scale), CellY(tile, tilesX, scale);
      forall v | IsCellMax(v, attention, |attention|, tilesX, scale, x, y)
        ensures priority.value == Dequantize(Quantize(v))
      {
        LookupIsCellMax(g, attention, width, tilesX, tilesY, scale, tile, client.held.value.0, v);
      }
    }
  }

  lemma GridShape(g: Grid, attention: seq<real>, tilesX: nat, tilesY: nat, scale: nat)
    requires tilesX > 0 && scale > 0 && GridOf(g, attention, tilesX, tilesY, scale)
    ensures WellFormed(g)
  {
  }

  lemma KeyPayload(g: Grid)
    ensures Payload(None, true, g) == Some(SnapshotBytes(g.cells, g.cols, g.rows, g.tileSize))
  {
  }
}
