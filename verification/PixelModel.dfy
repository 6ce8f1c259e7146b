/** Values and single transitions of the streaming pixel reorderer: tiles are composited
    into strips of 64 rows, and strips are handed over in row order. */
module PixelModel {
  import opened Arithmetic
  import opened Options
  import opened Pixels

  const STRIP_ROWS: nat := 64

  /** Canvas size and compositing function of one pipe. */
  datatype Canvas = Canvas(width: nat, height: nat, blend: Blend) {
    ghost predicate Valid() {
      width > 0 && height > 0 && OpaqueReplaces(blend)
    }
  }

  /** A decoded tile at its planned position. `bytes` and `metadataBytes` are its two
      reservations: raw pixels, and ICC/EXIF data with its finalization copies. */
  datatype Tile = Tile(id: nat, x: nat, y: nat, expected: Option<(nat, nat)>,
                       columns: nat, rows: nat, pixels: seq<Rgba>,
                       bytes: nat, metadataBytes: nat)
  {
    predicate Valid() {
      |pixels| == columns * rows
    }

    predicate Opaque() {
      forall i :: 0 <= i < |pixels| ==> pixels[i].a == 255
    }

    /** Columns and rows that fall inside both the expected size and the canvas. */
    function Width(c: Canvas): nat {
      Min(Min(columns, if expected.Some? then expected.value.0 else columns), SaturatingSub(c.width, x))
    }

    function Height(c: Canvas): nat {
      Min(Min(rows, if expected.Some? then expected.value.1 else rows), SaturatingSub(c.height, y))
    }

    predicate Covers(c: Canvas, px: nat, py: nat) {
      x <= px < x + Width(c) && y <= py < y + Height(c)
    }

    /** The tile's own pixel at a canvas position. */
    function At(c: Canvas, px: nat, py: nat): (r: Rgba)
      requires Valid() && Covers(c, px, py)
      ensures r in pixels
    {
      assert py - y < rows && px - x < columns;
      Pixel(py - y, px - x)
    }

    function Pixel(row: nat, column: nat): (r: Rgba)
      requires Valid() && row < rows && column < columns
      ensures r in pixels
    {
      RowMajor(row, rows, column, columns);
      pixels[row * columns + column]
    }
  }

  /** Which canvas pixels a tile brings, and its pixel there: those on the canvas that lie within both its
      decoded and its expected columns and rows. */
  lemma CoversExactly(c: Canvas, t: Tile, px: nat, py: nat)
    ensures t.Covers(c, px, py) <==>
      && t.x <= px < c.width && t.y <= py < c.height && px - t.x < t.columns && py - t.y < t.rows
      && (t.expected.Some? ==> px - t.x < t.expected.value.0 && py - t.y < t.expected.value.1)
    ensures t.Valid() && t.Covers(c, px, py) ==>
      var i := (py - t.y) * t.columns + (px - t.x);
      0 <= i < |t.pixels| && t.At(c, px, py) == t.pixels[i]
  {
    if t.Valid() && t.Covers(c, px, py) { RowMajor(py - t.y, t.rows, px - t.x, t.columns); }
  }

  /** A strip of full-width rows with the bytes it has reserved. */
  datatype Strip = Strip(firstRow: nat, rows: nat, rgba: seq<Rgba>, charge: nat)

  /** A strip still owned by the producer, with one coverage flag per pixel. */
  datatype Pending = Pending(strip: Strip, covered: seq<bool>)

  function StripRows(c: Canvas, firstRow: nat): nat {
    Min(STRIP_ROWS, SaturatingSub(c.height, firstRow))
  }

  function StripPixels(c: Canvas, firstRow: nat): nat {
    c.width * StripRows(c, firstRow)
  }

  /** What a blank strip reserves: pixels, coverage words and bookkeeping. */
  function BlankCharge(c: Canvas, firstRow: nat): nat {
    StripPixels(c, firstRow) * 4 + DivCeil(StripPixels(c, firstRow), 64) * 8 + 128
  }

  /** In bytes: four a pixel, eight for each 64 pixels begun, and 128 more. */
  lemma BlankBytes(c: Canvas, firstRow: nat, words: nat)
    requires firstRow < c.height
    requires var rows := if c.height - firstRow < 64 then c.height - firstRow else 64;
      64 * words >= c.width * rows && (words > 0 ==> 64 * (words - 1) < c.width * rows)
    ensures var rows := if c.height - firstRow < 64 then c.height - firstRow else 64;
      BlankCharge(c, firstRow) == 4 * (c.width * rows) + 8 * words + 128
  {
    var rows := if c.height - firstRow < 64 then c.height - firstRow else 64;
    assert StripPixels(c, firstRow) == c.width * rows;
  }

  function Blank(c: Canvas, firstRow: nat): Pending {
    var n := StripPixels(c, firstRow);
    Pending(Strip(firstRow, StripRows(c, firstRow), seq(n, _ => CLEAR), BlankCharge(c, firstRow)),
            seq(n, _ => false))
  }

  ghost predicate PendingOk(c: Canvas, p: Pending) {
    && p.strip.firstRow < c.height
    && p.strip.rows == StripRows(c, p.strip.firstRow)
    && |p.strip.rgba| == |p.covered| == StripPixels(c, p.strip.firstRow)
    && p.strip.charge == BlankCharge(c, p.strip.firstRow)
  }

  /** Canvas position of pixel `i` of a strip. */
  function Column(c: Canvas, i: nat): nat
    requires c.width > 0
  {
    i % c.width
  }

  function Row(c: Canvas, firstRow: nat, i: nat): nat
    requires c.width > 0
  {
    firstRow + i / c.width
  }

  predicate TileCovers(c: Canvas, t: Tile, firstRow: nat, i: nat)
    requires c.width > 0
  {
    t.Covers(c, Column(c, i), Row(c, firstRow, i))
  }

  /** The strip after the tile has been composited onto every pixel it covers. */
  function Paint(c: Canvas, p: Pending, t: Tile): (r: Pending)
    requires c.width > 0 && t.Valid() && |p.strip.rgba| == |p.covered|
    ensures |r.strip.rgba| == |r.covered| == |p.covered|
  {
    var fr := p.strip.firstRow;
    p.(strip := p.strip.(rgba := seq(|p.strip.rgba|, i requires 0 <= i < |p.strip.rgba| =>
         if TileCovers(c, t, fr, i) then c.blend(p.strip.rgba[i], t.At(c, Column(c, i), Row(c, fr, i)))
         else p.strip.rgba[i])),
       covered := seq(|p.covered|, i requires 0 <= i < |p.covered| =>
         p.covered[i] || TileCovers(c, t, fr, i)))
  }

  predicate FullyCovered(p: Pending) {
    forall i :: 0 <= i < |p.covered| ==> p.covered[i]
  }

  datatype Error = MemoryLimit | Other(code: int)

  datatype Producer = Producer(pending: map<nat, Pending>, nextRow: nat, late: nat)
  datatype Queue<E> = Queue(ready: seq<Strip>, closed: bool, failure: Option<E>)

  /** Strip that row `y` belongs to. */
  function StripOf(y: nat): nat {
    y / STRIP_ROWS * STRIP_ROWS
  }

  lemma InStrip(firstRow: nat, row: nat)
    requires firstRow % STRIP_ROWS == 0 && row < STRIP_ROWS
    ensures StripOf(firstRow + row) == firstRow
  {
  }

  /** A strip at row `k`, if there is one, has one coverage flag per pixel. */
  predicate Paintable(p: Producer, k: nat) {
    k in p.pending ==> |p.pending[k].strip.rgba| == |p.pending[k].covered|
  }

  /** Composites the part of the tile that lies in the strip of row `y`, adding a blank
      strip when there is none; a strip already handed over only counts as late. */
  function Segment(c: Canvas, p: Producer, t: Tile, y: nat): Producer
    requires c.width > 0 && t.Valid()
    requires Paintable(p, StripOf(y))
  {
    var fr := StripOf(y);
    if fr < p.nextRow then p.(late := p.late + 1)
    else
      var base := if fr in p.pending then p.pending[fr] else Blank(c, fr);
      p.(pending := p.pending[fr := Paint(c, base, t)])
  }

  predicate NeedsBlank(p: Producer, y: nat) {
    StripOf(y) >= p.nextRow && StripOf(y) !in p.pending
  }

  /** The next strip in row order is present and has no uncovered pixel. */
  predicate NextReady(p: Producer) {
    p.nextRow in p.pending && FullyCovered(p.pending[p.nextRow])
  }

  /** The strip as it is handed over: coverage dropped, reservation shrunk to its pixels. */
  function HandOver(p: Pending): Strip {
    p.strip.(charge := |p.strip.rgba| * 4)
  }

  /** Moves the next strip from the producer to the reader's queue. */
  function Publish<E>(c: Canvas, p: Producer, q: Queue<E>): (Producer, Queue<E>)
    requires p.nextRow in p.pending
  {
    var next := p.pending[p.nextRow];
    var p' := p.(pending := p.pending - {p.nextRow}, nextRow := p.nextRow + next.strip.rows);
    (p', q.(ready := q.ready + [HandOver(next)], closed := p'.nextRow == c.height))
  }

  function TileEnd(c: Canvas, t: Tile): nat {
    if t.Width(c) == 0 || t.Height(c) == 0 then t.y else t.y + t.Height(c)
  }

  function SegmentEnd(c: Canvas, t: Tile, y: nat): nat {
    Min(TileEnd(c, t), StripOf(y) + STRIP_ROWS)
  }

  /** Strips are pending at or after the next row, on strip boundaries. */
  ghost predicate Geometry(c: Canvas, p: Producer) {
    && c.Valid() && p.nextRow <= c.height
    && (p.nextRow % STRIP_ROWS == 0 || p.nextRow == c.height)
    && forall k :: k in p.pending ==>
         k % STRIP_ROWS == 0 && p.nextRow <= k < c.height
         && p.pending[k].strip.firstRow == k && PendingOk(c, p.pending[k])
  }

  lemma NextMultiple(a: nat, b: nat)
    requires a % STRIP_ROWS == b % STRIP_ROWS == 0 && a < b
    ensures a + STRIP_ROWS <= b
  {
  }

  lemma PublishGeometry<E>(c: Canvas, p: Producer, q: Queue<E>)
    requires Geometry(c, p) && p.nextRow in p.pending
    ensures Geometry(c, Publish(c, p, q).0) && p.nextRow < Publish(c, p, q).0.nextRow
  {
    var rows := p.pending[p.nextRow].strip.rows;
    assert rows == StripRows(c, p.nextRow);
    forall k | k in p.pending && k != p.nextRow
      ensures p.nextRow + rows <= k
    {
      NextMultiple(p.nextRow, k);
    }
  }

  lemma SegmentAdvances(c: Canvas, t: Tile, y: nat)
    requires y < TileEnd(c, t)
    ensures y < SegmentEnd(c, t, y)
    ensures SegmentEnd(c, t, y) % STRIP_ROWS == 0 || SegmentEnd(c, t, y) == TileEnd(c, t)
    ensures StripOf(y) <= y && StripOf(y) % STRIP_ROWS == 0
  {
  }

  lemma IsPaintable(c: Canvas, p: Producer, k: nat)
    requires Geometry(c, p)
    ensures Paintable(p, k)
  {
  }

  lemma InCanvas(c: Canvas, t: Tile, y: nat)
    requires t.y <= y < TileEnd(c, t)
    ensures y < c.height && t.Width(c) > 0 && t.Height(c) > 0
  {
  }

  lemma SegmentGeometry(c: Canvas, p: Producer, t: Tile, y: nat)
    requires Geometry(c, p) && t.Valid() && y < c.height
    ensures Geometry(c, Segment(c, p, t, y))
  {
    hide TileCovers, Tile.At, StripPixels, BlankCharge;
  }
}
