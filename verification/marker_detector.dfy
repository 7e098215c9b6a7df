/** The integer side of the detection thread: two per-thread counters of
    frames without a marker, updated once per camera frame, and the
    threshold parameters derived from them, namely how many tiles the frame
    is cut into for a per-tile Otsu threshold, or the neighbourhood of the
    adaptive threshold. The image operations themselves are not modelled;
    a frame is described by its height, its width and the number of markers
    found in it. */
module MarkerDetection {
  import opened ExperienceRules
  import opened Arithmetic

  /** `(cumulativeFramesWithoutMarker % 9) + 1`: how many tiles the
      rows (and the columns) of the frame are cut into. */
  function NumberOfTiles(cumulative: nat): (n: int)
    ensures 1 <= n <= 9
  {
    cumulative % 9 + 1
  }

  /** `(((cumulativeFramesWithoutMarker % 50) + 1) * 4) + 1`: the block size
      of the adaptive threshold, which that call needs to be odd. */
  function Neighbourhood(cumulative: nat): (size: int)
    ensures size % 2 == 1 && 5 <= size <= 201
  {
    (cumulative % 50 + 1) * 4 + 1
  }

  /** The tile count goes up by one with every frame counted as without
      marker and wraps from 9 back to 1. */
  lemma NumberOfTilesCycles(cumulative: nat)
    ensures NumberOfTiles(cumulative + 1) == if NumberOfTiles(cumulative) == 9 then 1 else NumberOfTiles(cumulative) + 1
    ensures NumberOfTiles(cumulative + 9) == NumberOfTiles(cumulative)
  {
    var q, r := cumulative / 9, cumulative % 9;
    assert cumulative == 9 * q + r;
    ModOf(9, q + 1, r);
    if r == 8 {
      ModOf(9, q + 1, 0);
    } else {
      ModOf(9, q, r + 1);
    }
  }

  /** The neighbourhood grows by 4 with every frame counted as without
      marker and wraps from 201 back to 5. */
  lemma NeighbourhoodCycles(cumulative: nat)
    ensures Neighbourhood(cumulative + 1) == if Neighbourhood(cumulative) == 201 then 5 else Neighbourhood(cumulative) + 4
    ensures Neighbourhood(cumulative + 50) == Neighbourhood(cumulative)
  {
    var q, r := cumulative / 50, cumulative % 50;
    assert cumulative == 50 * q + r;
    ModOf(50, q + 1, r);
    if r == 49 {
      ModOf(50, q + 1, 0);
    } else {
      ModOf(50, q, r + 1);
    }
  }

  /** Band `k` of `n` along a side of `length` pixels: bands are
      `length / n` long and the last one runs to the edge. */
  function BandStart(k: nat, length: nat, n: nat): nat
    requires n >= 1
  {
    k * (length / n)
  }

  function BandEnd(k: nat, length: nat, n: nat): nat
    requires n >= 1 && k < n
  {
    if k < n - 1 then (k + 1) * (length / n) else length
  }

  predicate InBand(p: nat, k: nat, length: nat, n: nat)
    requires n >= 1 && k < n
  {
    BandStart(k, length, n) <= p < BandEnd(k, length, n)
  }

  /** Every band starts no later than it ends, even when the side is shorter
      than the number of bands (the bands are then empty and the last one
      takes the whole side), and ends within the side. */
  lemma BandWellFormed(k: nat, length: nat, n: nat)
    requires n >= 1 && k < n
    ensures BandStart(k, length, n) <= BandEnd(k, length, n) <= length
  {
    var q := length / n;
    assert n * q <= length;
    MulMono(k, n, q);
    if k < n - 1 {
      MulMono(k + 1, n, q);
    }
  }

  /** The bands follow each other without gap or overlap, from 0 to the edge. */
  lemma BandsTile(length: nat, n: nat)
    requires n >= 1
    ensures BandStart(0, length, n) == 0 && BandEnd(n - 1, length, n) == length
    ensures forall k | 0 <= k < n - 1 :: BandEnd(k, length, n) == BandStart(k + 1, length, n)
  {
  }

  lemma BandsOrdered(j: nat, k: nat, length: nat, n: nat)
    requires n >= 1 && j < k < n
    ensures BandEnd(j, length, n) <= BandStart(k, length, n)
  {
    MulMono(j + 1, k, length / n);
  }

  /** Each pixel position along a side lies in exactly one band. */
  lemma BandOf(p: nat, length: nat, n: nat) returns (k: nat)
    requires n >= 1 && p < length
    ensures k < n && InBand(p, k, length, n)
    ensures forall j | 0 <= j < n && j != k :: !InBand(p, j, length, n)
  {
    var q := length / n;
    if q == 0 {
      k := n - 1;
    } else {
      var d := p / q;
      assert d * q <= p < (d + 1) * q;
      if d >= n - 1 {
        k := n - 1;
        MulMono(n - 1, d, q);
      } else {
        k := d;
      }
    }
    forall j | 0 <= j < n && j != k ensures !InBand(p, j, length, n) {
      if j < k {
        BandsOrdered(j, k, length, n);
      } else {
        BandsOrdered(k, j, length, n);
      }
    }
  }

  /** The rows `[startRow, endRow)` and columns `[startCol, endCol)` of one tile. */
  datatype Tile = Tile(startRow: int, endRow: int, startCol: int, endCol: int)

  function TileAt(height: nat, width: nat, n: nat, row: nat, col: nat): Tile
    requires n >= 1 && row < n && col < n
  {
    Tile(BandStart(row, height, n), BandEnd(row, height, n), BandStart(col, width, n), BandEnd(col, width, n))
  }

  /** Row `row` of the grid: the `n` tiles of that band of rows, left to right. */
  predicate IsTileRow(line: seq<Tile>, height: nat, width: nat, n: nat, row: nat)
    requires n >= 1 && row < n
  {
    |line| == n && forall col | 0 <= col < n :: line[col] == TileAt(height, width, n, row, col)
  }

  /** `n` rows of `n` tiles, row by row as the nested loops visit them. */
  predicate IsTileGrid(tiles: seq<seq<Tile>>, height: nat, width: nat, n: nat)
    requires n >= 1
  {
    |tiles| == n && forall row | 0 <= row < n :: IsTileRow(tiles[row], height, width, n, row)
  }

  predicate Contains(t: Tile, y: nat, x: nat) {
    t.startRow <= y < t.endRow && t.startCol <= x < t.endCol
  }

  /** The tiles of a grid cover the frame exactly: every pixel lies in one
      tile and in no other. */
  lemma PixelInOneTile(tiles: seq<seq<Tile>>, height: nat, width: nat, n: nat, y: nat, x: nat) returns (row: nat, col: nat)
    requires n >= 1 && IsTileGrid(tiles, height, width, n) && y < height && x < width
    ensures row < n && col < n && Contains(tiles[row][col], y, x)
    ensures forall r, c | 0 <= r < n && 0 <= c < n && (r != row || c != col) :: !Contains(tiles[r][c], y, x)
  {
    row := BandOf(y, height, n);
    col := BandOf(x, width, n);
    forall r, c | 0 <= r < n && 0 <= c < n && (r != row || c != col) ensures !Contains(tiles[r][c], y, x) {
      assert tiles[r][c] == TileAt(height, width, n, r, c);
      if r != row {
        assert !InBand(y, r, height, n);
      } else {
        assert !InBand(x, c, width, n);
      }
    }
  }

  /** Every tile of a grid lies inside the frame and is not inverted. */
  lemma TilesWithinFrame(tiles: seq<seq<Tile>>, height: nat, width: nat, n: nat)
    requires n >= 1 && IsTileGrid(tiles, height, width, n)
    ensures forall r, c | 0 <= r < n && 0 <= c < n ::
      tiles[r][c].startRow <= tiles[r][c].endRow <= height && tiles[r][c].startCol <= tiles[r][c].endCol <= width
  {
    forall r, c | 0 <= r < n && 0 <= c < n
      ensures tiles[r][c].startRow <= tiles[r][c].endRow <= height && tiles[r][c].startCol <= tiles[r][c].endCol <= width
    {
      BandWellFormed(r, height, n);
      BandWellFormed(c, width, n);
    }
  }

  /** The tile loops of `thresholdImage`: the bounds of every sub-matrix that
      is thresholded separately, in the order the loops visit them. */
  method TileGrid(height: nat, width: nat, n: nat) returns (tiles: seq<seq<Tile>>)
    requires n >= 1
    ensures IsTileGrid(tiles, height, width, n)
  {
    var tileHeight := height / n;
    var tileWidth := width / n;
    tiles := [];
    var tileRow := 0;
    while tileRow < n
      invariant 0 <= tileRow <= n && |tiles| == tileRow
      invariant forall row | 0 <= row < tileRow :: IsTileRow(tiles[row], height, width, n, row)
    {
      var startRow := tileRow * tileHeight;
      var endRow := if tileRow < n - 1 then (tileRow + 1) * tileHeight else height;
      var line: seq<Tile> := [];
      var tileCol := 0;
      while tileCol < n
        invariant 0 <= tileCol <= n && |line| == tileCol
        invariant forall col | 0 <= col < tileCol :: line[col] == TileAt(height, width, n, tileRow, col)
      {
        var startCol := tileCol * tileWidth;
        var endCol := if tileCol < n - 1 then (tileCol + 1) * tileWidth else width;
        line := line + [Tile(startRow, endRow, startCol, endCol)];
        tileCol := tileCol + 1;
      }
      tiles := tiles + [line];
      tileRow := tileRow + 1;
    }
  }

  /** What `thresholdImage` does to the frame, as far as modelled: a per-tile
      threshold over a grid of tiles, or an adaptive threshold over
      `neighbourhood` pixels after resizing the frame to 540 by 540. */
  datatype ThresholdPlan = Tiled(tiles: seq<seq<Tile>>) | Adaptive(neighbourhood: int)

  /** The two counters of a detection thread. */
  datatype Counters = Counters(framesSinceLastMarker: nat, cumulativeFramesWithoutMarker: nat)

  /** One frame with camera data: `thresholdImage` counts the frame as without
      marker if more than two frames have passed without one, and then,
      after `findMarkers` has found `found` markers, the run of frames
      without marker grows by one or restarts at 0. */
  function AfterFrame(c: Counters, found: nat): Counters {
    var cumulative := c.cumulativeFramesWithoutMarker + (if c.framesSinceLastMarker > 2 then 1 else 0);
    Counters(if found == 0 then c.framesSinceLastMarker + 1 else 0, cumulative)
  }

  /** A run of frames, given by how many markers each one showed. */
  function AfterFrames(c: Counters, founds: seq<nat>): Counters
    decreases |founds|
  {
    if founds == [] then c else AfterFrames(AfterFrame(c, founds[0]), founds[1..])
  }

  function Max(a: int, b: int): int {
    if a >= b then a else b
  }

  /** `k` frames in a row without marker: the run grows by `k`, and the
      cumulative counter by one for each of them that finds more than two
      frames without marker before it. */
  lemma {:induction false} EmptyFrames(c: Counters, k: nat)
    ensures AfterFrames(c, seq(k, _ => 0)) == Counters(
      c.framesSinceLastMarker + k,
      c.cumulativeFramesWithoutMarker + Max(0, k - Max(0, 3 - c.framesSinceLastMarker)))
    decreases k
  {
    if k > 0 {
      var zeros: seq<nat> := seq(k, _ => 0);
      assert zeros[0] == 0 && zeros[1..] == seq(k - 1, _ => 0);
      EmptyFrames(AfterFrame(c, 0), k - 1);
    }
  }

  /** From a frame that showed a marker, `k` frames without one raise the
      cumulative counter by `max(0, k - 3)`: the first three of them do not
      count, because the counter is raised before markers are looked for. */
  lemma EmptyFramesAfterMarker(cumulative: nat, k: nat)
    ensures AfterFrames(Counters(0, cumulative), seq(k, _ => 0)).cumulativeFramesWithoutMarker == cumulative + Max(0, k - 3)
  {
    EmptyFrames(Counters(0, cumulative), k);
  }

  /** The cumulative counter never decreases, and goes up by at most one a frame. */
  lemma {:induction false} CumulativeMonotone(c: Counters, founds: seq<nat>)
    ensures c.cumulativeFramesWithoutMarker <= AfterFrames(c, founds).cumulativeFramesWithoutMarker
      <= c.cumulativeFramesWithoutMarker + |founds|
    decreases |founds|
  {
    if founds != [] {
      CumulativeMonotone(AfterFrame(c, founds[0]), founds[1..]);
    }
  }

  /** While the run of frames without marker stays at most 3 long, the
      cumulative counter does not move. */
  lemma {:induction false} ShortRunNotCounted(c: Counters, founds: seq<nat>)
    requires c.framesSinceLastMarker + |founds| <= 3
    ensures AfterFrames(c, founds).cumulativeFramesWithoutMarker == c.cumulativeFramesWithoutMarker
    decreases |founds|
  {
    if founds != [] {
      ShortRunNotCounted(AfterFrame(c, founds[0]), founds[1..]);
    }
  }

  /** A frame that shows a marker stops the cumulative counter for the next
      three frames, whatever they show. */
  lemma MarkerPausesCumulative(c: Counters, found: nat, next: seq<nat>)
    requires found > 0 && |next| <= 3
    ensures AfterFrames(c, [found] + next).cumulativeFramesWithoutMarker == AfterFrame(c, found).cumulativeFramesWithoutMarker
  {
    assert ([found] + next)[1..] == next;
    ShortRunNotCounted(AfterFrame(c, found), next);
  }

  /** The state of one `DetectionThread`. */
  class DetectionThread {
    var framesSinceLastMarker: nat
    var cumulativeFramesWithoutMarker: nat

    function State(): Counters
      reads this
    {
      Counters(framesSinceLastMarker, cumulativeFramesWithoutMarker)
    }

    /** A new thread starts both counters at 0. */
    constructor()
      ensures State() == Counters(0, 0)
    {
      framesSinceLastMarker := 0;
      cumulativeFramesWithoutMarker := 0;
    }

    /** `thresholdImage` on a frame of `height` by `width` pixels. */
    method ThresholdImage(threshold: ThresholdMode, height: nat, width: nat) returns (plan: ThresholdPlan)
      modifies this
      ensures framesSinceLastMarker == old(framesSinceLastMarker)
      ensures cumulativeFramesWithoutMarker == old(cumulativeFramesWithoutMarker) + (if old(framesSinceLastMarker) > 2 then 1 else 0)
      ensures threshold == TemporalTile ==> plan.Tiled? && IsTileGrid(plan.tiles, height, width, NumberOfTiles(cumulativeFramesWithoutMarker))
      ensures threshold == Resize ==> plan == Adaptive(Neighbourhood(cumulativeFramesWithoutMarker))
    {
      if framesSinceLastMarker > 2 {
        cumulativeFramesWithoutMarker := cumulativeFramesWithoutMarker + 1;
      }
      if threshold == TemporalTile {
        var numberOfTiles := cumulativeFramesWithoutMarker % 9 + 1;
        var tiles := TileGrid(height, width, numberOfTiles);
        plan := Tiled(tiles);
      } else {
        var neighbourhood := (cumulativeFramesWithoutMarker % 50 + 1) * 4 + 1;
        plan := Adaptive(neighbourhood);
      }
    }

    /** The update after `findMarkers` has found `found` markers. */
    method MarkersFound(found: nat)
      modifies this
      ensures framesSinceLastMarker == if found == 0 then old(framesSinceLastMarker) + 1 else 0
      ensures cumulativeFramesWithoutMarker == old(cumulativeFramesWithoutMarker)
    {
      if found == 0 {
        framesSinceLastMarker := framesSinceLastMarker + 1;
      } else {
        framesSinceLastMarker := 0;
      }
    }

    /** One pass of the `run` loop on a frame with camera data. */
    method ProcessFrame(threshold: ThresholdMode, height: nat, width: nat, found: nat) returns (plan: ThresholdPlan)
      modifies this
      ensures State() == AfterFrame(old(State()), found)
      ensures threshold == TemporalTile ==> plan.Tiled? && IsTileGrid(plan.tiles, height, width, NumberOfTiles(State().cumulativeFramesWithoutMarker))
      ensures threshold == Resize ==> plan == Adaptive(Neighbourhood(State().cumulativeFramesWithoutMarker))
    {
      plan := ThresholdImage(threshold, height, width);
      MarkersFound(found);
    }
  }

  /** The part of `MarkerDetector` that owns the detection thread. */
  class MarkerDetector {
    var thread: DetectionThread?
    var running: bool

    constructor()
      ensures thread == null && running
    {
      thread := null;
      running := true;
    }

    /** `start`: a new thread, with fresh counters, only when none is running. */
    method Start()
      modifies this
      ensures old(thread) == null ==> fresh(thread) && thread.State() == Counters(0, 0) && running
      ensures old(thread) != null ==> thread == old(thread) && running == old(running)
    {
      if thread == null {
        thread := new DetectionThread();
        running := true;
      }
    }

    /** `stop`: the thread is dropped, so the next `start` begins from 0 again. */
    method Stop()
      modifies this
      ensures thread == null && !running
    {
      running := false;
      thread := null;
    }
  }
}
