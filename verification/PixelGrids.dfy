/** What the tiles of a grid come to in the pixel pipe, told from their positions and sizes alone. */
module PixelGrids {
  import opened Arithmetic
  import opened Options
  import opened Pixels
  import opened PixelModel
  import opened PixelMachine
  import opened PixelHistory
  import opened PixelRuns
  import TL = TileLevels

  /** The canvas position is one of the tile's own: within its decoded and its expected size. */
  predicate Brings(t: Tile, px: nat, py: nat) {
    && t.x <= px < t.x + t.columns && t.y <= py < t.y + t.rows
    && (t.expected.Some? ==> px < t.x + t.expected.value.0 && py < t.y + t.expected.value.1)
  }

  /** Every canvas position belongs to one tile and no other. */
  ghost predicate OneEach(c: Canvas, tiles: seq<Tile>) {
    && (forall x: nat, y: nat :: x < c.width && y < c.height ==> Brought(tiles, x, y))
    && (forall i, j, x: nat, y: nat ::
          0 <= i < j < |tiles| && x < c.width && y < c.height && Brings(tiles[i], x, y) ==> !Brings(tiles[j], x, y))
  }

  ghost predicate Brought(tiles: seq<Tile>, x: nat, y: nat) {
    exists j :: 0 <= j < |tiles| && Brings(tiles[j], x, y)
  }

  lemma CoversWhatItBrings(c: Canvas, t: Tile, x: nat, y: nat)
    ensures t.Covers(c, x, y) <==> x < c.width && y < c.height && Brings(t, x, y)
  {
    CoversExactly(c, t, x, y);
    hide Tile.Covers;
  }

  /** Opaque tiles partition the canvas exactly if every position belongs to one of them by its place
      and sizes. */
  lemma PartitionExactly(c: Canvas, tiles: seq<Tile>)
    requires forall j :: 0 <= j < |tiles| ==> tiles[j].Valid() && tiles[j].Opaque()
    ensures Partition(c, tiles) <==> OneEach(c, tiles)
  {
    hide Tile.Covers, Brings, Tile.Opaque, Tile.Valid;
    forall j, x: nat, y: nat | 0 <= j < |tiles|
      ensures tiles[j].Covers(c, x, y) <==> x < c.width && y < c.height && Brings(tiles[j], x, y)
    {
      CoversWhatItBrings(c, tiles[j], x, y);
    }
    if OneEach(c, tiles) {
      forall x: nat, y: nat | x < c.width && y < c.height
        ensures Shown(c, tiles, x, y)
      {
        assert Brought(tiles, x, y);
      }
    }
    if Partition(c, tiles) {
      forall x: nat, y: nat | x < c.width && y < c.height
        ensures Brought(tiles, x, y)
      {
        assert Shown(c, tiles, x, y);
      }
    }
  }

  // ---- Grids -------------------------------------------------------------------------------------------

  /** A grid of cells of one size, numbered row by row; the last column and row may be cut. */
  datatype Grid = Grid(width: nat, height: nat) {
    function Columns(c: Canvas): nat
      requires width > 0
    {
      DivCeil(c.width, width)
    }

    function Rows(c: Canvas): nat
      requires height > 0
    {
      DivCeil(c.height, height)
    }
  }

  /** The tile of a cell: at its corner, opaque, expected as large as what the canvas leaves of the cell,
      and decoded at least that large. */
  ghost predicate IsCell(c: Canvas, g: Grid, column: nat, row: nat, t: Tile) {
    && t.Valid() && t.Opaque() && t.x == column * g.width && t.y == row * g.height
    && t.expected == Some((Min(g.width, SaturatingSub(c.width, t.x)), Min(g.height, SaturatingSub(c.height, t.y))))
    && t.expected.value.0 <= t.columns && t.expected.value.1 <= t.rows
  }

  /** Row by row. */
  function PlaceOf(width: nat, row: nat, column: nat): nat {
    row * width + column
  }

  ghost predicate HasCell(c: Canvas, g: Grid, tiles: seq<Tile>, column: nat, row: nat)
    requires g.width > 0
  {
    PlaceOf(g.Columns(c), row, column) < |tiles| && IsCell(c, g, column, row, tiles[PlaceOf(g.Columns(c), row, column)])
  }

  ghost predicate IsGrid(c: Canvas, g: Grid, tiles: seq<Tile>) {
    && g.width > 0 && g.height > 0 && |tiles| == g.Columns(c) * g.Rows(c)
    && forall column: nat, row: nat :: column < g.Columns(c) && row < g.Rows(c) ==> HasCell(c, g, tiles, column, row)
  }

  lemma StepInside(p: nat, d: nat, n: nat)
    requires d > 0 && p < n
    ensures p / d < DivCeil(n, d)
  {
    TL.InStep(p, p / d, d);
    TL.BelowDivCeil(p / d, n, d);
  }

  lemma Remainder(p: nat, d: nat)
    requires d > 0
    ensures p - (p / d) * d == p % d
  {
  }

  /** Along one axis: a cell's tile brings the positions of its own step. */
  lemma AxisBrings(p: nat, step: nat, corner: nat, cell: nat, side: nat, expected: nat, decoded: nat)
    requires cell > 0 && p < side && corner == step * cell && expected == Min(cell, SaturatingSub(side, corner))
    requires expected <= decoded
    ensures corner <= p < corner + decoded && p < corner + expected <==> step == p / cell
    ensures step == p / cell ==> p - corner == p % cell
  {
    TL.InStep(p, step, cell);
    Remainder(p, cell);
  }

  /** A cell's tile brings exactly the positions of its cell. */
  lemma CellBrings(c: Canvas, g: Grid, column: nat, row: nat, t: Tile, x: nat, y: nat)
    requires g.width > 0 && g.height > 0 && IsCell(c, g, column, row, t) && x < c.width && y < c.height
    ensures Brings(t, x, y) <==> column == x / g.width && row == y / g.height
    ensures Brings(t, x, y) ==> x - t.x == x % g.width && y - t.y == y % g.height
  {
    AxisBrings(x, column, t.x, g.width, c.width, t.expected.value.0, t.columns);
    AxisBrings(y, row, t.y, g.height, c.height, t.expected.value.1, t.rows);
    hide IsCell, Min, SaturatingSub;
  }

  /** A number of the grid is that of one cell. */
  lemma CellOf(c: Canvas, g: Grid, tiles: seq<Tile>, k: nat) returns (column: nat, row: nat)
    requires IsGrid(c, g, tiles) && k < |tiles|
    ensures column < g.Columns(c) && row < g.Rows(c) && k == PlaceOf(g.Columns(c), row, column)
    ensures IsCell(c, g, column, row, tiles[k])
  {
    hide Grid.Columns, Grid.Rows, IsCell;
    var columns, rows := g.Columns(c), g.Rows(c);
    column, row := Split(k, columns, rows);
    assert HasCell(c, g, tiles, column, row);
  }

  lemma Split(k: nat, columns: nat, rows: nat) returns (column: nat, row: nat)
    requires k < columns * rows
    ensures column < columns && row < rows && k == PlaceOf(columns, row, column)
  {
    QuotientBelow(k, columns, rows);
    column, row := k % columns, k / columns;
    assert k == columns * row + column;
  }

  lemma GridIsPartition(c: Canvas, g: Grid, tiles: seq<Tile>)
    requires IsGrid(c, g, tiles)
    ensures Partition(c, tiles)
  {
    hide Brings, IsCell, IsGrid, Grid.Columns, Grid.Rows;
    assert g.width > 0 && g.height > 0 by { GridCells(c, g, tiles); }
    forall x: nat, y: nat | x < c.width && y < c.height
      ensures Brought(tiles, x, y)
    {
      var t := CellAt(c, g, tiles, x, y);
    }
    forall i, j, x: nat, y: nat | 0 <= i < j < |tiles| && x < c.width && y < c.height && Brings(tiles[i], x, y)
      ensures !Brings(tiles[j], x, y)
    {
      var column, row := CellOf(c, g, tiles, i);
      var otherColumn, otherRow := CellOf(c, g, tiles, j);
      CellBrings(c, g, column, row, tiles[i], x, y);
      CellBrings(c, g, otherColumn, otherRow, tiles[j], x, y);
    }
    forall k | 0 <= k < |tiles|
      ensures tiles[k].Valid() && tiles[k].Opaque()
    {
      var column, row := CellOf(c, g, tiles, k);
      CellIsOpaque(c, g, column, row, tiles[k]);
    }
    PartitionExactly(c, tiles);
  }

  lemma GridCells(c: Canvas, g: Grid, tiles: seq<Tile>)
    requires IsGrid(c, g, tiles)
    ensures g.width > 0 && g.height > 0
  {
  }

  lemma CellIsOpaque(c: Canvas, g: Grid, column: nat, row: nat, t: Tile)
    requires IsCell(c, g, column, row, t)
    ensures t.Valid() && t.Opaque()
  {
  }

  /** The number of a position's cell, whose tile brings it. */
  lemma CellAt(c: Canvas, g: Grid, tiles: seq<Tile>, x: nat, y: nat) returns (k: nat)
    requires IsGrid(c, g, tiles) && x < c.width && y < c.height
    ensures k == PlaceOf(g.Columns(c), y / g.height, x / g.width) < |tiles|
    ensures Brings(tiles[k], x, y) && tiles[k].Valid()
    ensures x - tiles[k].x == x % g.width && y - tiles[k].y == y % g.height
  {
    var column, row := x / g.width, y / g.height;
    StepInside(x, g.width, c.width);
    StepInside(y, g.height, c.height);
    assert HasCell(c, g, tiles, column, row);
    k := PlaceOf(g.Columns(c), row, column);
    hide IsGrid, PlaceOf, Grid.Columns, Grid.Rows, Brings;
    CellIsOpaque(c, g, column, row, tiles[k]);
    CellBrings(c, g, column, row, tiles[k], x, y);
  }

  /** For every grid over the canvas, in whatever order its tiles are placed and however that is
      interleaved with the reader: the strips handed over begin at every 64th row, and the pixel at each
      canvas position is the one its own cell's tile has there. */
  lemma GridIsHandedOver(c: Config, states: seq<Machine>, actions: seq<Action>, i: nat, g: Grid, tiles: seq<Tile>)
    requires IsRun(c, states, actions) && i < |states| && IsGrid(c.canvas, g, tiles)
    requires var s := states[i];
      && s.holder.Idle? && s.queue.failure.None? && s.failedCalls == 0 && s.finishes == 0
      && multiset(s.begun) == multiset(tiles)
    ensures var n := |states[i].emitted|; 64 * n >= c.canvas.height > 64 * (n - 1)
    ensures states[i].queue.closed && states[i].producer.late == 0
    ensures forall x: nat, y: nat :: x < c.canvas.width && y < c.canvas.height ==>
      HoldsCell(c.canvas, g, tiles, states[i].emitted, x, y)
  {
    RunInv(c, states, actions, i);
    GridIsPartition(c.canvas, g, tiles);
    EveryOrderHandsOverTheCanvas(c, states, actions, i, tiles);
    var emitted, h := states[i].emitted, c.canvas.height;
    assert |emitted| == DivCeil(h, 64);
    forall x: nat, y: nat | x < c.canvas.width && y < c.canvas.height
      ensures HoldsCell(c.canvas, g, tiles, emitted, x, y)
    {
      CellIsHeld(c.canvas, g, tiles, x, y);
    }
  }

  /** The strip of this position holds the pixel of the tile of its cell. */
  ghost predicate HoldsCell(c: Canvas, g: Grid, tiles: seq<Tile>, strips: seq<Strip>, x: nat, y: nat)
    requires g.width > 0 && g.height > 0
  {
    var k, e, i := PlaceOf(g.Columns(c), y / g.height, x / g.width), y / 64, PlaceOf(c.width, y % 64, x);
    && k < |tiles| && e < |strips| && strips[e].firstRow == 64 * e && i < |strips[e].rgba|
    && var j := PlaceOf(tiles[k].columns, y % g.height, x % g.width);
    j < |tiles[k].pixels| && strips[e].rgba[i] == tiles[k].pixels[j]
  }

  lemma CellIsHeld(c: Canvas, g: Grid, tiles: seq<Tile>, x: nat, y: nat)
    requires c.Valid() && IsGrid(c, g, tiles) && Partition(c, tiles) && x < c.width && y < c.height
    ensures HoldsCell(c, g, tiles, Strips(c, Reference(c, tiles)), x, y)
  {
    var k := CellAt(c, g, tiles, x, y);
    CoversWhatItBrings(c, tiles[k], x, y);
    CoversExactly(c, tiles[k], x, y);
    OnlyOneCovers(c, tiles, k, x, y);
    StripHolds(c, Reference(c, tiles), x, y);
    hide Strips, Reference, Partition, IsGrid, Tile.Covers, Tile.At, Brings, Grid.Columns, Grid.Rows;
  }

  /** The picture's strips hold it row by row, 64 rows each. */
  lemma StripHolds(c: Canvas, picture: Picture, x: nat, y: nat)
    requires c.Valid() && x < c.width && y < c.height
    ensures var strips, i := Strips(c, picture), (y % 64) * c.width + x;
      && y / 64 < |strips| && strips[y / 64].firstRow == 64 * (y / 64)
      && i < |strips[y / 64].rgba| && strips[y / 64].rgba[i] == picture(x, y)
  {
    var firstRow, row := 64 * (y / 64), y % 64;
    assert y / 64 < DivCeil(c.height, 64);
    assert row < StripRows(c, firstRow);
    RowMajor(row, StripRows(c, firstRow), x, c.width);
    FlatIndex(c.width, row, x);
    var strip := StripOfPicture(c, picture, firstRow);
    assert StripPixels(c, firstRow) == StripRows(c, firstRow) * c.width;
    assert Strips(c, picture)[y / 64] == strip;
    assert Column(c, row * c.width + x) == x && Row(c, firstRow, row * c.width + x) == y;
  }

  // ---- What no tile brings -------------------------------------------------------------------------------

  /** Once `finish` has handed everything over, a position that no tile brought is clear. */
  lemma NothingBrought(c: Config, states: seq<Machine>, actions: seq<Action>, i: nat, x: nat, y: nat)
    requires IsRun(c, states, actions) && i < |states| && Enabled(c, states[i], EndFinish)
    requires x < c.canvas.width && y < c.canvas.height && !Brought(states[i].begun, x, y)
    ensures var strips, p := states[i].emitted, (y % 64) * c.canvas.width + x;
      && y / 64 < |strips| && strips[y / 64].firstRow == 64 * (y / 64)
      && p < |strips[y / 64].rgba| && strips[y / 64].rgba[p] == CLEAR
  {
    var s := states[i];
    RunInv(c, states, actions, i);
    AllRowsOnce(c, s);
    var e, blank: Picture := y / 64, (column, row) => CLEAR;
    assert IsWholeStrip(c.canvas, s.emitted[e], STRIP_ROWS * e) && HoldsFold(c.canvas, s.emitted[e], s.log);
    StripHolds(c.canvas, blank, x, y);
    assert StripOfPicture(c.canvas, blank, 64 * e) == Strips(c.canvas, blank)[e];
    FlatIndex(c.canvas.width, y % 64, x);
    forall k | 0 <= k < |s.log|
      ensures !PartCovers(c.canvas, s.log[k], x, y)
    {
      CoversWhatItBrings(c.canvas, s.log[k].tile, x, y);
    }
    FoldUncovered(c.canvas, s.log, x, y);
  }

  // ---- Parts that come too late --------------------------------------------------------------------------

  /** How many strips of 64 rows the rows from `from` up to `until` lie in. */
  function StripsBetween(from: nat, until: nat): nat {
    if until <= from then 0 else (until - 1) / 64 - from / 64 + 1
  }

  function StripsMet(c: Canvas, t: Tile): nat {
    StripsBetween(t.y, TileEnd(c, t))
  }

  function SumMet(c: Canvas, tiles: seq<Tile>): nat {
    if tiles == [] then 0 else SumMet(c, tiles[..|tiles| - 1]) + StripsMet(c, tiles[|tiles| - 1])
  }

  /** As many parts as were tried so far are accepted or were late. */
  ghost predicate PartsCounted(c: Config, s: Machine) {
    && (s.holder.Placing? ==> s.holder.y <= TileEnd(c.canvas, s.holder.tile))
    && (s.failedCalls == 0 ==>
          |s.log| + s.producer.late ==
            if s.holder.Placing? && s.begun != [] then
              SumMet(c.canvas, s.begun[..|s.begun| - 1]) + StripsBetween(s.holder.tile.y, s.holder.y)
            else SumMet(c.canvas, s.begun))
  }

  lemma OneStripMore(c: Canvas, t: Tile, y: nat)
    requires t.y <= y < TileEnd(c, t) && (y == t.y || y % STRIP_ROWS == 0)
    ensures StripsBetween(t.y, SegmentEnd(c, t, y)) == StripsBetween(t.y, y) + 1
  {
    hide TileEnd;
  }

  /** Nothing else tries a part. */
  lemma OtherSections(c: Config, s: Machine, a: Action)
    requires Inv(c, s) && Enabled(c, s, a) && !a.PlaceSegment? && !a.BeginPlace? && !a.EndPlace?
    ensures var next := Apply(c, s, a);
      && next.begun == s.begun && next.log == s.log && next.producer.late == s.producer.late
      && next.failedCalls >= s.failedCalls
      && (next.holder.Placing? ==> s.holder.Placing? && next.holder == s.holder.(publishing := next.holder.publishing))
      && (s.holder.Placing? && !next.holder.Placing? ==> next.failedCalls > 0)
  {
    hide Paint, BlankCharge, Geometry, SumStrips, SumMap, Charges;
  }

  lemma PartsKept(c: Config, s: Machine, a: Action)
    requires Inv(c, s) && PartsCounted(c, s) && Enabled(c, s, a)
    ensures PartsCounted(c, Apply(c, s, a))
  {
    if !a.PlaceSegment? && !a.BeginPlace? && !a.EndPlace? {
      OtherSections(c, s, a);
      hide Apply, Inv, StripsBetween, SumMet;
    } else if a.PlaceSegment? {
      PartTried(c, s);
    } else {
      hide StripsBetween, SumMet, Inv;
      BeginOrEnd(c, s, a);
    }
  }

  lemma BeginOrEnd(c: Config, s: Machine, a: Action)
    requires Inv(c, s) && PartsCounted(c, s) && Enabled(c, s, a) && (a.BeginPlace? || a.EndPlace?)
    ensures PartsCounted(c, Apply(c, s, a))
  {
    hide StripsBetween, SumMet;
    if a.BeginPlace? {
      var begun := s.begun + [a.tile];
      assert begun[..|begun| - 1] == s.begun;
      NothingTried(a.tile);
    } else {
      MetMore(c.canvas, s.begun);
      WholeTile(c, s);
    }
  }

  lemma NothingTried(t: Tile)
    ensures StripsBetween(t.y, t.y) == 0
  {
  }

  lemma MetMore(c: Canvas, tiles: seq<Tile>)
    requires tiles != []
    ensures SumMet(c, tiles) == SumMet(c, tiles[..|tiles| - 1]) + StripsMet(c, tiles[|tiles| - 1])
  {
  }

  lemma WholeTile(c: Config, s: Machine)
    requires Inv(c, s) && PartsCounted(c, s) && Enabled(c, s, EndPlace)
    ensures StripsBetween(s.holder.tile.y, s.holder.y) == StripsMet(c.canvas, s.holder.tile)
  {
  }

  lemma PartTried(c: Config, s: Machine)
    requires Inv(c, s) && PartsCounted(c, s) && Enabled(c, s, PlaceSegment)
    ensures PartsCounted(c, Place(c, s))
  {
    hide StripsBetween, SumMet, Paint, Blank, BlankCharge;
    OneStripMore(c.canvas, s.holder.tile, s.holder.y);
  }

  lemma NoParts(c: Config)
    ensures PartsCounted(c, Start())
  {
  }

  /** In every run in which no call failed, as many parts of tiles are counted late as were not
      accepted. */
  lemma {:induction false} LateIsTheRest(c: Config, states: seq<Machine>, actions: seq<Action>, i: nat)
    requires IsRun(c, states, actions) && i < |states|
    ensures PartsCounted(c, states[i])
  {
    hide Inv, PartsCounted;
    if i == 0 {
      NoParts(c);
    } else {
      LateIsTheRest(c, states, actions, i - 1);
      RunInv(c, states, actions, i - 1);
      assert PixelRuns.Next(c, states[i - 1], actions[i - 1], states[i]);
      PartsKept(c, states[i - 1], actions[i - 1]);
    }
  }
}
