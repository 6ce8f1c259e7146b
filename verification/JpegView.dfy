/** The JPEG encoder's window on the strips: it holds one strip at a time and still answers
    with the pixel of the whole canvas, as long as the traversal moves down by strips. */
module JpegViews {
  import opened Arithmetic
  import opened Pixels
  import opened PixelModel
  import opened PixelMachine
  import opened PixelRuns

  datatype Rgb = Rgb(r: Byte, g: Byte, b: Byte)
  const BLACK := Rgb(0, 0, 0)

  function Color(p: Rgba): Rgb {
    Rgb(p.r, p.g, p.b)
  }

  type Access = (nat, nat)

  ghost predicate OnCanvas(c: Canvas, accesses: seq<Access>) {
    forall i :: 0 <= i < |accesses| ==> accesses[i].0 < c.width && accesses[i].1 < c.height
  }

  /** A traversal may move within its strip or step to the first row of the next one. */
  predicate StepsDown(from: nat, to: nat) {
    to / STRIP_ROWS == from / STRIP_ROWS || to == STRIP_ROWS * (from / STRIP_ROWS + 1)
  }

  ghost predicate ByStrips(accesses: seq<Access>) {
    && (accesses != [] ==> StepsDown(0, accesses[0].1))
    && (forall i :: 0 < i < |accesses| ==> StepsDown(accesses[i - 1].1, accesses[i].1))
  }

  /** Where a pixel of one row of a strip is. */
  function Offset(c: Canvas, row: nat, x: nat): nat {
    row * c.width + x
  }

  class JpegView {
    const canvas: Canvas
    /** The strips the pipe hands over, in order. */
    const stream: seq<Strip>
    var taken: nat
    var current: Strip
    var failed: bool
    var consumed: nat

    ghost predicate Valid()
      reads this
    {
      && canvas.Valid() && |stream| == DivCeil(canvas.height, STRIP_ROWS)
      && (forall k :: 0 <= k < |stream| ==> IsWholeStrip(canvas, stream[k], STRIP_ROWS * k))
      && (!failed ==> 1 <= taken <= |stream| && current == stream[taken - 1]
                      && consumed == canvas.width * (STRIP_ROWS * (taken - 1)))
    }

    /** Takes the first strip; a pipe of a real canvas always has one. */
    constructor (canvas: Canvas, stream: seq<Strip>)
      requires canvas.Valid() && |stream| == DivCeil(canvas.height, STRIP_ROWS)
      requires forall k :: 0 <= k < |stream| ==> IsWholeStrip(canvas, stream[k], STRIP_ROWS * k)
      ensures Valid() && this.canvas == canvas && this.stream == stream && !failed && taken == 1
    {
      this.canvas, this.stream := canvas, stream;
      taken, current, failed, consumed := 1, stream[0], false, 0;
    }

    method ConsumedStrip()
      modifies this`consumed
      ensures consumed == old(consumed) + canvas.width * current.rows
    {
      consumed := consumed + canvas.width * current.rows;
    }

    /** Releases the current strip and takes the next one, which must begin at row `y`. */
    method Advance(y: nat) returns (ok: bool)
      requires Valid() && !failed && y >= STRIP_ROWS * taken
      modifies this`taken, this`current, this`consumed
      ensures ok <==> old(taken) < |stream| && y == STRIP_ROWS * old(taken)
      ensures ok ==> Valid() && taken == old(taken) + 1
    {
      ConsumedStrip();
      if taken == |stream| { return false; }
      assert IsWholeStrip(canvas, stream[taken - 1], STRIP_ROWS * (taken - 1));
      assert IsWholeStrip(canvas, stream[taken], STRIP_ROWS * taken);
      var next := stream[taken];
      taken := taken + 1;
      if y != next.firstRow { return false; }
      current := next;
      ok := true;
    }

    /** One pixel read. It fails exactly when it leaves the strip other than to the first row
        of the next one, and then every later read is black. */
    method GetPixel(x: nat, y: nat) returns (pixel: Rgb)
      requires Valid() && x < canvas.width && y < canvas.height
      modifies this`taken, this`current, this`consumed, this`failed
      ensures Valid()
      ensures failed <==> old(failed) || !StepsDown(STRIP_ROWS * (old(taken) - 1), y)
      ensures failed ==> pixel == BLACK
      ensures !failed ==> taken - 1 == y / STRIP_ROWS
      ensures !failed ==>
        var i := Offset(canvas, y % STRIP_ROWS, x);
        i < |stream[taken - 1].rgba| && pixel == Color(stream[taken - 1].rgba[i])
    {
      if failed { return BLACK; }
      assert IsWholeStrip(canvas, current, STRIP_ROWS * (taken - 1));
      hide IsWholeStrip, Offset, DivCeil;
      StripFacts(canvas, current, taken - 1, x, y);
      if y < current.firstRow {
        failed := true;
        return BLACK;
      }
      if y >= current.firstRow + current.rows {
        var ok := Advance(y);
        if !ok {
          failed := true;
          return BLACK;
        }
        StripFacts(canvas, current, taken - 1, x, y);
      }
      pixel := Color(current.rgba[Offset(canvas, y - current.firstRow, x)]);
    }
  }

  lemma OffsetInside(c: Canvas, row: nat, rows: nat, x: nat)
    requires row < rows && x < c.width
    ensures Offset(c, row, x) < c.width * rows
  {
    RowMajor(row, rows, x, c.width);
    Commutes(rows, c.width);
  }

  /** Where a row is, seen from strip `k`, and where its pixels are in the strip if it is inside. */
  lemma StripFacts(c: Canvas, strip: Strip, k: nat, x: nat, y: nat)
    requires c.Valid() && IsWholeStrip(c, strip, STRIP_ROWS * k) && x < c.width && y < c.height
    ensures strip.firstRow == STRIP_ROWS * k
    ensures y < strip.firstRow ==> !StepsDown(STRIP_ROWS * k, y)
    ensures y >= strip.firstRow + strip.rows ==> y >= STRIP_ROWS * (k + 1)
    ensures strip.firstRow <= y < strip.firstRow + strip.rows ==>
      && y / STRIP_ROWS == k && y - strip.firstRow == y % STRIP_ROWS && StepsDown(STRIP_ROWS * k, y)
      && Offset(c, y % STRIP_ROWS, x) < |strip.rgba|
    ensures y >= STRIP_ROWS * (k + 1) ==> (StepsDown(STRIP_ROWS * k, y) <==> y == STRIP_ROWS * (k + 1))
  {
    if strip.firstRow <= y < strip.firstRow + strip.rows { OffsetInside(c, y % STRIP_ROWS, strip.rows, x); }
    hide Offset;
  }

  ghost function LastRow(accesses: seq<Access>): nat {
    if accesses == [] then 0 else accesses[|accesses| - 1].1
  }

  lemma ByStripsAppend(accesses: seq<Access>, a: Access)
    ensures ByStrips(accesses + [a]) <==> ByStrips(accesses) && StepsDown(LastRow(accesses), a.1)
    ensures LastRow(accesses + [a]) == a.1
  {
    var longer := accesses + [a];
    assert forall i :: 0 <= i < |accesses| ==> longer[i] == accesses[i];
    if ByStrips(longer) && accesses != [] {
      assert StepsDown(longer[|accesses| - 1].1, longer[|accesses|].1);
    }
  }

  lemma NothingRead()
    ensures ByStrips([]) && LastRow([]) == 0
  {
  }

  /** Reads a whole traversal. The view serves it to the end exactly when the traversal moves
      down by strips, and then every answer is the pixel of the full canvas. */
  method ReadAll(view: JpegView, ghost picture: Picture, accesses: seq<Access>) returns (pixels: seq<Rgb>)
    requires view.Valid() && !view.failed && view.taken == 1
    requires view.stream == Strips(view.canvas, picture) && OnCanvas(view.canvas, accesses)
    modifies view
    ensures !view.failed <==> ByStrips(accesses)
    ensures |pixels| == |accesses|
    ensures ByStrips(accesses) ==> forall i :: 0 <= i < |accesses| ==>
      pixels[i] == Color(picture(accesses[i].0, accesses[i].1))
    ensures ByStrips(accesses) ==>
      view.Valid() && view.consumed == view.canvas.width * (STRIP_ROWS * (LastRow(accesses) / STRIP_ROWS))
  {
    hide ByStrips, LastRow;
    assert ByStrips([]) && LastRow([]) == 0 by { NothingRead(); }
    pixels := [];
    assert accesses[..0] == [];
    var i := 0;
    while i < |accesses|
      invariant 0 <= i <= |accesses| && |pixels| == i
      invariant view.Valid() && (!view.failed <==> ByStrips(accesses[..i]))
      invariant !view.failed ==> view.taken - 1 == LastRow(accesses[..i]) / STRIP_ROWS
      invariant !view.failed ==> forall k :: 0 <= k < i ==> pixels[k] == Color(picture(accesses[k].0, accesses[k].1))
    {
      var (x, y) := accesses[i];
      assert accesses[..i + 1] == accesses[..i] + [(x, y)];
      ByStripsAppend(accesses[..i], (x, y));
      var pixel := view.GetPixel(x, y);
      if !view.failed { PictureAt(view.canvas, picture, x, y); }
      pixels := pixels + [pixel];
      i := i + 1;
    }
    assert accesses[..i] == accesses;
  }

  /** Where the picture's pixel sits in its strip. */
  lemma PictureAt(c: Canvas, picture: Picture, x: nat, y: nat)
    requires c.Valid() && x < c.width && y < c.height
    ensures var k, i := y / STRIP_ROWS, Offset(c, y % STRIP_ROWS, x);
      && k < |Strips(c, picture)| && i < |Strips(c, picture)[k].rgba|
      && Strips(c, picture)[k].rgba[i] == picture(x, y)
  {
    var firstRow := STRIP_ROWS * (y / STRIP_ROWS);
    var i := PixelOfStrip(c, firstRow, x, y);
    assert i == Offset(c, y % STRIP_ROWS, x);
    hide Column, Row, StripPixels, StripRows, Offset;
    assert StripOfPicture(c, picture, firstRow).rgba[i] == picture(x, y);
    assert Strips(c, picture)[y / STRIP_ROWS] == StripOfPicture(c, picture, firstRow);
  }

  // ---- Traversals by bands of eight rows -------------------------------------------------

  const BAND_ROWS: nat := 8

  /** Full-width bands of eight rows in order, each entered at its first row. */
  ghost predicate ByBands(c: Canvas, bands: seq<seq<Access>>) {
    && |bands| == DivCeil(c.height, BAND_ROWS)
    && forall b :: 0 <= b < |bands| ==> IsBand(c, bands[b], BAND_ROWS * b)
  }

  ghost predicate IsBand(c: Canvas, band: seq<Access>, firstRow: nat) {
    && OnCanvas(c, band) && band != [] && band[0].1 == firstRow
    && forall i :: 0 <= i < |band| ==> firstRow <= band[i].1 < firstRow + BAND_ROWS
  }

  ghost function Flatten(bands: seq<seq<Access>>): seq<Access> {
    if bands == [] then [] else Flatten(bands[..|bands| - 1]) + bands[|bands| - 1]
  }

  /** One more access of a band, after its first or from the band before. */
  lemma BandStep(c: Canvas, so: seq<Access>, a: Access, b: nat)
    requires ByStrips(so) && OnCanvas(c, so) && a.0 < c.width && a.1 < c.height
    requires BAND_ROWS * b <= a.1 < BAND_ROWS * (b + 1)
    requires BAND_ROWS * b <= LastRow(so) < BAND_ROWS * (b + 1)
          || (a.1 == BAND_ROWS * b && if b == 0 then so == [] else BAND_ROWS * (b - 1) <= LastRow(so) < BAND_ROWS * b)
    ensures ByStrips(so + [a]) && OnCanvas(c, so + [a]) && BAND_ROWS * b <= LastRow(so + [a]) < BAND_ROWS * (b + 1)
  {
    ByStripsAppend(so, a);
    hide ByStrips;
  }

  lemma {:induction false} BandByStrips(c: Canvas, before: seq<Access>, band: seq<Access>, b: nat, n: nat)
    requires IsBand(c, band, BAND_ROWS * b) && n <= |band| && ByStrips(before) && OnCanvas(c, before)
    requires if b == 0 then before == [] else BAND_ROWS * (b - 1) <= LastRow(before) < BAND_ROWS * b
    ensures ByStrips(before + band[..n]) && OnCanvas(c, before + band[..n])
    ensures n > 0 ==> BAND_ROWS * b <= LastRow(before + band[..n]) < BAND_ROWS * (b + 1)
  {
    if n == 0 {
      assert before + band[..0] == before;
    } else {
      BandByStrips(c, before, band, b, n - 1);
      assert band[n - 1].0 < c.width && band[n - 1].1 < c.height;
      assert BAND_ROWS * b <= band[n - 1].1 < BAND_ROWS * (b + 1);
      assert n == 1 ==> band[n - 1].1 == BAND_ROWS * b && before + band[..0] == before;
      hide ByStrips, OnCanvas, LastRow, IsBand, StepsDown;
      BandStep(c, before + band[..n - 1], band[n - 1], b);
      assert before + band[..n] == before + band[..n - 1] + [band[n - 1]];
    }
  }

  lemma {:induction false} BandsByStrips(c: Canvas, bands: seq<seq<Access>>)
    requires forall b :: 0 <= b < |bands| ==> IsBand(c, bands[b], BAND_ROWS * b)
    ensures ByStrips(Flatten(bands)) && OnCanvas(c, Flatten(bands))
    ensures if bands == [] then Flatten(bands) == []
            else BAND_ROWS * (|bands| - 1) <= LastRow(Flatten(bands)) < BAND_ROWS * |bands|
  {
    if bands != [] {
      var n := |bands| - 1;
      BandsByStrips(c, bands[..n]);
      BandByStrips(c, Flatten(bands[..n]), bands[n], n, |bands[n]|);
      assert bands[n][..|bands[n]|] == bands[n];
    }
  }

  /** Every traversal by bands of eight rows is served, and ends in the last strip: with that
      strip counted too, each canvas pixel has been consumed once. */
  lemma BandsAreServed(c: Canvas, bands: seq<seq<Access>>)
    requires c.Valid() && ByBands(c, bands)
    ensures ByStrips(Flatten(bands)) && OnCanvas(c, Flatten(bands))
    ensures var firstRow := STRIP_ROWS * (LastRow(Flatten(bands)) / STRIP_ROWS);
      c.width * firstRow + c.width * StripRows(c, firstRow) == c.width * c.height
  {
    BandsByStrips(c, bands);
    var accesses := Flatten(bands);
    assert bands != [] && accesses != [];
    assert LastRow(accesses) < c.height && LastRow(accesses) >= BAND_ROWS * (|bands| - 1);
    var last := LastRow(accesses);
    hide ByStrips, OnCanvas, ByBands, IsBand, LastRow, Flatten;
    LastStrip(c, last, |bands|);
  }

  lemma LastStrip(c: Canvas, last: nat, bands: nat)
    requires c.Valid() && last < c.height && bands == DivCeil(c.height, BAND_ROWS) && last >= BAND_ROWS * (bands - 1)
    ensures var firstRow := STRIP_ROWS * (last / STRIP_ROWS);
      c.width * firstRow + c.width * StripRows(c, firstRow) == c.width * c.height
  {
    var firstRow := STRIP_ROWS * (last / STRIP_ROWS);
    assert firstRow + StripRows(c, firstRow) == c.height;
    assert c.width * firstRow + c.width * StripRows(c, firstRow) == c.width * (firstRow + StripRows(c, firstRow));
  }

  /** The strips a view starts from, for tiles placed in any order under any interleaving. */
  lemma StreamIsWhole(c: Canvas, picture: Picture)
    requires c.Valid()
    ensures |Strips(c, picture)| == DivCeil(c.height, STRIP_ROWS)
    ensures forall k :: 0 <= k < |Strips(c, picture)| ==> IsWholeStrip(c, Strips(c, picture)[k], STRIP_ROWS * k)
  {
    forall k | 0 <= k < |Strips(c, picture)|
      ensures IsWholeStrip(c, Strips(c, picture)[k], STRIP_ROWS * k)
    {
      assert Strips(c, picture)[k] == StripOfPicture(c, picture, STRIP_ROWS * k);
    }
  }

  /** From the tiles to the encoder: whatever the order the tiles of a partition are placed in, and
      however that is interleaved with the reader, every traversal by bands is answered with the
      reference canvas, pixel for pixel. */
  method ReadPlaced(c: Config, ghost states: seq<Machine>, ghost actions: seq<Action>, ghost i: nat,
                    ghost tiles: seq<Tile>,
                    stream: seq<Strip>, ghost bands: seq<seq<Access>>, accesses: seq<Access>)
    returns (pixels: seq<Rgb>)
    requires IsRun(c, states, actions) && i < |states| && Partition(c.canvas, tiles)
    requires var s := states[i];
      && s.holder.Idle? && s.queue.failure.None? && s.failedCalls == 0 && s.finishes == 0
      && multiset(s.begun) == multiset(tiles) && stream == s.emitted
    requires ByBands(c.canvas, bands) && accesses == Flatten(bands)
    ensures |pixels| == |accesses|
    ensures forall k :: 0 <= k < |accesses| ==>
      pixels[k] == Color(Reference(c.canvas, tiles)(accesses[k].0, accesses[k].1))
  {
    ghost var picture := Reference(c.canvas, tiles);
    assert c.canvas.Valid();
    EveryOrderHandsOverTheCanvas(c, states, actions, i, tiles);
    StreamIsWhole(c.canvas, picture);
    BandsAreServed(c.canvas, bands);
    hide ByStrips, OnCanvas, ByBands, Flatten, Partition, IsRun, Reference, Strips, IsWholeStrip;
    var view := new JpegView(c.canvas, stream);
    pixels := ReadAll(view, picture, accesses);
  }
}
