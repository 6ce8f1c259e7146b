/** A producer-owned strip changed in place: pixels composited row by row, and the coverage
    words marked along with them. */
module PixelStrip {
  import opened Arithmetic
  import opened Coverage
  import opened Pixels
  import opened PixelModel

  /** A run of pixels composited onto a buffer. */
  function OverRun(blend: Blend, buffer: seq<Rgba>, start: nat, source: seq<Rgba>): (r: seq<Rgba>)
    requires start + |source| <= |buffer|
    ensures |r| == |buffer|
  {
    seq(|buffer|, i requires 0 <= i < |buffer| =>
      if start <= i < start + |source| then blend(buffer[i], source[i - start]) else buffer[i])
  }

  /** The strip with only the tile's rows above `until` composited. */
  ghost function PaintAbove(c: Canvas, p: Pending, t: Tile, until: nat): (r: Pending)
    requires c.width > 0 && t.Valid() && |p.strip.rgba| == |p.covered|
    ensures |r.strip.rgba| == |r.covered| == |p.covered|
  {
    var fr := p.strip.firstRow;
    p.(strip := p.strip.(rgba := seq(|p.strip.rgba|, i requires 0 <= i < |p.strip.rgba| =>
         if TileCovers(c, t, fr, i) && Row(c, fr, i) < until
         then c.blend(p.strip.rgba[i], t.At(c, Column(c, i), Row(c, fr, i)))
         else p.strip.rgba[i])),
       covered := seq(|p.covered|, i requires 0 <= i < |p.covered| =>
         p.covered[i] || (TileCovers(c, t, fr, i) && Row(c, fr, i) < until)))
  }

  /** Where row `row` of the tile starts in the strip, and the pixels it brings. */
  function RunStart(c: Canvas, t: Tile, firstRow: nat, row: nat): nat
    requires firstRow <= row
  {
    (row - firstRow) * c.width + t.x
  }

  function RunPixels(c: Canvas, t: Tile, row: nat): (r: seq<Rgba>)
    requires t.Valid() && t.y <= row < t.y + t.Height(c) && t.Width(c) > 0
    ensures |r| == t.Width(c)
  {
    seq(t.Width(c), k requires 0 <= k < t.Width(c) => t.Pixel(row - t.y, k))
  }

  lemma RunInStrip(c: Canvas, t: Tile, firstRow: nat, row: nat)
    requires t.Width(c) > 0 && firstRow <= row < firstRow + StripRows(c, firstRow)
    ensures RunStart(c, t, firstRow, row) + t.Width(c) <= StripPixels(c, firstRow)
  {
    RowMajor(row - firstRow, StripRows(c, firstRow), t.x + t.Width(c) - 1, c.width);
    assert c.width * StripRows(c, firstRow) == StripRows(c, firstRow) * c.width;
  }

  /** Pixel `i` is in the run of row `row` exactly when it is in that row and the tile's columns. */
  lemma RunMembers(c: Canvas, t: Tile, firstRow: nat, row: nat, i: nat)
    requires c.width > 0 && firstRow <= row && t.Width(c) > 0
    ensures var start := RunStart(c, t, firstRow, row);
      start <= i < start + t.Width(c)
      <==> Row(c, firstRow, i) == row && t.x <= Column(c, i) < t.x + t.Width(c)
    ensures Row(c, firstRow, i) == row ==> i - RunStart(c, t, firstRow, row) == Column(c, i) - t.x
  {
    var start := RunStart(c, t, firstRow, row);
    assert i == c.width * (i / c.width) + i % c.width;
    if Row(c, firstRow, i) == row {
      assert i / c.width == row - firstRow;
    }
    if start <= i < start + t.Width(c) {
      var column := i - (row - firstRow) * c.width;
      assert 0 <= column < c.width;
      FlatIndex(c.width, row - firstRow, column);
    }
  }

  lemma RunPixelIs(c: Canvas, t: Tile, x: nat, row: nat)
    requires t.Valid() && t.Covers(c, x, row)
    ensures RunPixels(c, t, row)[x - t.x] == t.At(c, x, row)
  {
  }

  lemma RunPaintsAt(c: Canvas, p: Pending, t: Tile, row: nat, i: nat)
    requires c.Valid() && t.Valid() && PendingOk(c, p) && t.Width(c) > 0
    requires t.y <= row < t.y + t.Height(c) && p.strip.firstRow <= row
    requires i < |p.strip.rgba|
    ensures var before, after := PaintAbove(c, p, t, row).strip.rgba[i], PaintAbove(c, p, t, row + 1).strip.rgba[i];
      var start := RunStart(c, t, p.strip.firstRow, row);
      after == if start <= i < start + t.Width(c) then c.blend(before, RunPixels(c, t, row)[i - start]) else before
  {
    var fr := p.strip.firstRow;
    RunMembers(c, t, fr, row, i);
    var x := Column(c, i);
    var start := RunStart(c, t, fr, row);
    var inRun := start <= i < start + t.Width(c);
    if inRun {
      RunPixelIs(c, t, x, row);
    }
    hide Tile.Width, Tile.Height, Tile.At, RunPixels, RunStart, PendingOk;
    assert TileCovers(c, t, fr, i) <==> t.x <= x < t.x + t.Width(c) && t.y <= Row(c, fr, i) < t.y + t.Height(c);
    assert inRun <==> TileCovers(c, t, fr, i) && Row(c, fr, i) == row;
  }

  /** One more row of the tile: the pixels. */
  lemma RunPaints(c: Canvas, p: Pending, t: Tile, row: nat)
    requires c.Valid() && t.Valid() && PendingOk(c, p) && t.Width(c) > 0
    requires t.y <= row < t.y + t.Height(c)
    requires p.strip.firstRow <= row < p.strip.firstRow + p.strip.rows
    ensures RunStart(c, t, p.strip.firstRow, row) + t.Width(c) <= |p.strip.rgba|
    ensures OverRun(c.blend, PaintAbove(c, p, t, row).strip.rgba,
                    RunStart(c, t, p.strip.firstRow, row), RunPixels(c, t, row))
         == PaintAbove(c, p, t, row + 1).strip.rgba
  {
    RunInStrip(c, t, p.strip.firstRow, row);
    var before, after := PaintAbove(c, p, t, row).strip.rgba, PaintAbove(c, p, t, row + 1).strip.rgba;
    var start, source := RunStart(c, t, p.strip.firstRow, row), RunPixels(c, t, row);
    forall i | 0 <= i < |after|
      ensures after[i] == if start <= i < start + |source| then c.blend(before[i], source[i - start]) else before[i]
    {
      RunPaintsAt(c, p, t, row, i);
    }
    hide PaintAbove;
    hide RunPixels;
    assert OverRun(c.blend, before, start, source) == after;
  }

  /** One more row of the tile: the coverage. */
  lemma RunMarks(c: Canvas, p: Pending, t: Tile, row: nat)
    requires c.Valid() && t.Valid() && PendingOk(c, p) && t.Width(c) > 0
    requires t.y <= row < t.y + t.Height(c) && p.strip.firstRow <= row
    ensures var start := RunStart(c, t, p.strip.firstRow, row);
      Mark(PaintAbove(c, p, t, row).covered, start, start + t.Width(c)) == PaintAbove(c, p, t, row + 1).covered
  {
    var fr := p.strip.firstRow;
    var start := RunStart(c, t, fr, row);
    var before, after := PaintAbove(c, p, t, row).covered, PaintAbove(c, p, t, row + 1).covered;
    forall i | 0 <= i < |p.covered|
      ensures Mark(before, start, start + t.Width(c))[i] == after[i]
    {
      RunMembers(c, t, fr, row, i);
    }
  }

  lemma RowsBetween(t: Tile, height: nat, firstRow: nat, row: nat, y: nat, until: nat)
    requires firstRow <= row < firstRow + STRIP_ROWS && t.y <= row < t.y + height
    requires y == (if t.y > firstRow then t.y else firstRow)
    requires until == Min(t.y + height, firstRow + STRIP_ROWS)
    ensures y <= row < until
  {
  }

  lemma RowsOfSegment(c: Canvas, p: Pending, t: Tile, y: nat, until: nat, i: nat)
    requires c.Valid() && PendingOk(c, p) && i < |p.covered| && TileCovers(c, t, p.strip.firstRow, i)
    requires y == (if t.y > p.strip.firstRow then t.y else p.strip.firstRow)
    requires until == Min(t.y + t.Height(c), p.strip.firstRow + STRIP_ROWS)
    ensures y <= Row(c, p.strip.firstRow, i) < until
  {
    hide Tile.Width, Tile.Height, StripPixels, StripRows, BlankCharge, Row, Column;
    var height, row := t.Height(c), Row(c, p.strip.firstRow, i);
    StripRowBound(c, p.strip.firstRow, i);
    assert t.y <= row < t.y + height;
    hide *;
    RowsBetween(t, height, p.strip.firstRow, row, y, until);
  }

  /** All rows of the tile that lie in the strip are above the end of its segment. */
  lemma SegmentPaints(c: Canvas, p: Pending, t: Tile, y: nat, until: nat)
    requires c.Valid() && t.Valid() && PendingOk(c, p)
    requires y == (if t.y > p.strip.firstRow then t.y else p.strip.firstRow)
    requires until == Min(t.y + t.Height(c), p.strip.firstRow + STRIP_ROWS)
    ensures PaintAbove(c, p, t, until) == Paint(c, p, t)
    ensures PaintAbove(c, p, t, y) == p
  {
    forall i | 0 <= i < |p.covered| && TileCovers(c, t, p.strip.firstRow, i)
      ensures y <= Row(c, p.strip.firstRow, i) < until
    {
      RowsOfSegment(c, p, t, y, until, i);
    }
    hide TileCovers, Row, Tile.At, Tile.Height, Tile.Width;
    assert PaintAbove(c, p, t, until).strip.rgba == Paint(c, p, t).strip.rgba;
    assert PaintAbove(c, p, t, until).covered == Paint(c, p, t).covered;
    assert PaintAbove(c, p, t, y).strip.rgba == p.strip.rgba;
    assert PaintAbove(c, p, t, y).covered == p.covered;
  }

  lemma StripRowBound(c: Canvas, firstRow: nat, i: nat)
    requires c.width > 0 && i < StripPixels(c, firstRow)
    ensures firstRow <= Row(c, firstRow, i) < firstRow + STRIP_ROWS
  {
    QuotientBelow(i, c.width, StripRows(c, firstRow));
  }

  /** Painting rows leaves the strip's place and reservation as they are. */
  lemma SameStrip(c: Canvas, p: Pending, t: Tile, row: nat)
    requires c.Valid() && t.Valid() && PendingOk(c, p)
    ensures PaintAbove(c, p, t, row + 1).strip == p.strip.(rgba := PaintAbove(c, p, t, row + 1).strip.rgba)
    ensures PaintAbove(c, p, t, row).strip == p.strip.(rgba := PaintAbove(c, p, t, row).strip.rgba)
  {
    hide TileCovers, Row, Tile.At;
  }

  lemma RowsInside(c: Canvas, t: Tile, firstRow: nat, until: nat)
    requires firstRow < c.height && t.y < until == Min(t.y + t.Height(c), firstRow + STRIP_ROWS)
    ensures until <= t.y + t.Height(c) && until <= firstRow + StripRows(c, firstRow)
  {
  }

  class PendingStrip {
    const canvas: Canvas
    const firstRow: nat
    const rows: nat
    const rgba: array<Rgba>
    const coverage: array<Word>
    var uncovered: nat

    ghost predicate Valid()
      reads this, rgba, coverage
    {
      && canvas.Valid() && firstRow < canvas.height && firstRow % STRIP_ROWS == 0
      && rows == StripRows(canvas, firstRow)
      && rgba.Length == StripPixels(canvas, firstRow)
      && coverage.Length == DivCeil(rgba.Length, 64)
      && uncovered == Unmarked(Bits(coverage[..], rgba.Length))
    }

    ghost function Value(): (p: Pending)
      requires Valid()
      reads this, rgba, coverage
      ensures PendingOk(canvas, p)
    {
      Pending(Strip(firstRow, rows, rgba[..], BlankCharge(canvas, firstRow)), Bits(coverage[..], rgba.Length))
    }

    constructor (canvas: Canvas, firstRow: nat)
      requires canvas.Valid() && firstRow < canvas.height && firstRow % STRIP_ROWS == 0
      ensures Valid() && fresh(rgba) && fresh(coverage)
      ensures this.canvas == canvas && this.firstRow == firstRow && Value() == Blank(canvas, firstRow)
    {
      var n := StripPixels(canvas, firstRow);
      this.canvas, this.firstRow, this.rows := canvas, firstRow, StripRows(canvas, firstRow);
      rgba := new Rgba[n](_ => CLEAR);
      coverage := new Word[DivCeil(n, 64)](_ => NoOnes());
      uncovered := n;
      new;
      var bits := Bits(coverage[..], n);
      NoneMarked(bits, n);
      assert Value().strip.rgba == Blank(canvas, firstRow).strip.rgba;
      assert bits == Blank(canvas, firstRow).covered;
    }

    /** Copies an opaque run, or composites it pixel by pixel. */
    method CompositeRun(start: nat, source: seq<Rgba>, solid: bool)
      requires canvas.Valid() && start + |source| <= rgba.Length
      requires solid ==> forall i :: 0 <= i < |source| ==> source[i].a == 255
      modifies rgba
      ensures rgba[..] == OverRun(canvas.blend, old(rgba[..]), start, source)
    {
      ghost var before := rgba[..];
      var i := 0;
      while i < |source|
        invariant 0 <= i <= |source|
        invariant forall k :: 0 <= k < rgba.Length ==>
          rgba[k] == if start <= k < start + i then canvas.blend(before[k], source[k - start]) else before[k]
      {
        rgba[start + i] := if solid then source[i] else canvas.blend(rgba[start + i], source[i]);
        i := i + 1;
      }
    }

    /** Composites one row of the tile and marks it covered. */
    method PaintRow(ghost before: Pending, t: Tile, row: nat, solid: bool)
      requires Valid() && t.Valid() && t.Width(canvas) > 0 && (solid ==> t.Opaque())
      requires t.y <= row < t.y + t.Height(canvas) && firstRow <= row < firstRow + rows
      requires PendingOk(canvas, before) && before.strip.firstRow == firstRow
      requires Value() == PaintAbove(canvas, before, t, row)
      modifies `uncovered, rgba, coverage
      ensures Valid() && Value() == PaintAbove(canvas, before, t, row + 1)
    {
      var start, source := RunStart(canvas, t, firstRow, row), RunPixels(canvas, t, row);
      RunPaints(canvas, before, t, row);
      RunMarks(canvas, before, t, row);
      SameStrip(canvas, before, t, row);
      hide PaintAbove, RunStart, RunPixels, Paint, PendingOk, Tile.Height, OverRun, Mark, Unmarked;
      hide BlankCharge, StripPixels;
      CompositeRun(start, source, solid);
      uncovered := Cover(coverage, rgba.Length, uncovered, start, start + t.Width(canvas));
    }

    /** Composites the rows of the tile that lie in this strip and marks them covered. */
    method PaintTile(t: Tile, y: nat, until: nat)
      requires Valid() && t.Valid() && t.Width(canvas) > 0
      requires y == (if t.y > firstRow then t.y else firstRow) < until
      requires until == Min(t.y + t.Height(canvas), firstRow + STRIP_ROWS)
      modifies `uncovered, rgba, coverage
      ensures Valid() && Value() == Paint(canvas, old(Value()), t)
    {
      ghost var before := Value();
      var solid := t.Opaque();
      SegmentPaints(canvas, before, t, y, until);
      RowsInside(canvas, t, firstRow, until);
      hide PaintAbove, Paint, Tile.Opaque, Tile.Height, Tile.Width, PendingOk, StripRows;
      var row := y;
      while row < until
        invariant y <= row <= until
        invariant Valid() && Value() == PaintAbove(canvas, before, t, row)
      {
        PaintRow(before, t, row, solid);
        row := row + 1;
      }
    }
  }
}
