/** The tile pyramid: each level half the one before, and the request every tile answers. */
module Pyramids {
  import opened Arithmetic
  import opened Downsampling
  import opened Options
  import opened Pixels
  import opened TileLevels

  /** The largest tile count the options accept. */
  const MAX_TILES: nat := 16_777_216

  // ---- Halving ------------------------------------------------------------------------------

  function Pow2(k: nat): (p: nat)
    ensures p > 0
  {
    if k == 0 then 1 else 2 * Pow2(k - 1)
  }

  function Halved(n: nat, k: nat): nat {
    if k == 0 then n else DivCeil(Halved(n, k - 1), 2)
  }

  /** Rounding up at every halving is the same as rounding up once. */
  lemma {:induction false} HalvedIsDivCeil(n: nat, k: nat)
    ensures Halved(n, k) == DivCeil(n, Pow2(k))
  {
    if k > 0 {
      HalvedIsDivCeil(n, k - 1);
      CeilOfCeil(n, Pow2(k - 1), 2);
      Commutes(Pow2(k - 1), 2);
      hide DivCeil;
    }
  }

  /** A rounded-up quotient is the one multiple that reaches `n` first. */
  lemma DivCeilUnique(n: nat, d: nat, q: nat)
    requires d > 0
    ensures q == DivCeil(n, d) <==> n <= q * d && (q > 0 ==> (q - 1) * d < n)
  {
    BelowDivCeil(q, n, d);
    if q > 0 { BelowDivCeil(q - 1, n, d); }
  }

  lemma CeilOfCeil(n: nat, a: nat, b: nat)
    requires a > 0 && b > 0
    ensures a * b > 0 && DivCeil(DivCeil(n, a), b) == DivCeil(n, a * b)
  {
    var q := DivCeil(DivCeil(n, a), b);
    ProductPositive(a, b);
    DivCeilUnique(DivCeil(n, a), b, q);
    BelowDivCeil(q * b, n, a);
    Regroup(q, b, a);
    if q > 0 {
      BelowDivCeil((q - 1) * b, n, a);
      Regroup(q - 1, b, a);
    }
    DivCeilUnique(n, a * b, q);
  }

  lemma ProductPositive(a: nat, b: nat)
    requires a > 0 && b > 0
    ensures a * b > 0
  {
  }

  lemma Regroup(q: nat, b: nat, a: nat)
    ensures q * b * a == q * (a * b)
  {
  }

  // ---- The request a tile answers -------------------------------------------------------------

  /** The region of the full image and the width a tile's path names. */
  datatype Route = Route(region: Rect, width: nat, height: nat)

  function SaturatingMul(a: nat, b: nat): nat {
    Min(a * b, U32_MAX)
  }

  function TilePath(rect: Rect, scale: nat, canvas: Size): Route
    requires rect.x * scale <= canvas.width && rect.y * scale <= canvas.height
  {
    var x, y := rect.x * scale, rect.y * scale;
    var w := Min(SaturatingMul(rect.w, scale), canvas.width - x);
    var h := Min(SaturatingMul(rect.h, scale), canvas.height - y);
    Route(Rect(x, y, w, h), rect.w, rect.h)
  }

  /** What a client of the IIIF Image API 2.1 asks for, along one axis: the region's start and
      length in the full image, and the length it wants to be sent. */
  datatype Asked = Asked(start: nat, length: nat, size: nat)

  function ClientAxis(n: nat, side: nat, tile: nat, scale: nat): Asked
    requires scale > 0 && n * (tile * scale) <= side
  {
    var start := n * (tile * scale);
    Asked(start, Min(tile * scale, side - start),
          if start + tile * scale > side then DivCeil(side - start, scale) else tile)
  }

  /** One axis of one tile of a reduced level: it is the client's request, and no product leaves
      32 bits. */
  lemma AxisIsClients(n: nat, side: nat, tile: nat, scale: nat)
    requires tile > 0 && scale > 0 && side <= U32_MAX && n < DivCeil(DivCeil(side, scale), tile)
    ensures n * tile < DivCeil(side, scale)
    ensures n * tile * scale < side && n * (tile * scale) < side
    ensures var start, length := n * tile, Min(tile, DivCeil(side, scale) - n * tile);
      ClientAxis(n, side, tile, scale)
      == Asked(start * scale, Min(SaturatingMul(length, scale), side - start * scale), length)
  {
    var level := DivCeil(side, scale);
    var start := n * tile;
    BelowDivCeil(n, level, tile);
    BelowDivCeil(start, side, scale);
    Regroup(n, tile, scale);
    Commutes(scale, tile);
    EdgeCeil(start, side, scale);
    var last := side - start * scale;
    // The tile reaches the level's edge exactly when the client sees the region reach the image's.
    BelowDivCeil(tile, last, scale);
    if tile < level - start {
      assert tile * scale < last;
    } else {
      assert tile * scale >= last;
      DivCeilUnique(last, scale, level - start);
      ProductGrows(scale, level - start, tile);
      Commutes(scale, tile);
      Commutes(scale, level - start);
    }
  }

  lemma EdgeCeil(start: nat, side: nat, scale: nat)
    requires scale > 0 && start * scale < side
    ensures start <= DivCeil(side, scale) && DivCeil(side - start * scale, scale) == DivCeil(side, scale) - start
  {
    var q := DivCeil(side, scale);
    BelowDivCeil(start, side, scale);
    DivCeilUnique(side, scale, q);
    Minus(q, start, scale);
    Minus(q - 1, start, scale);
    DivCeilUnique(side - start * scale, scale, q - start);
  }

  lemma Minus(a: int, b: int, c: int)
    ensures (a - b) * c == a * c - b * c
  {
  }

  /** The columns of a reduced level are as many as a client counts. */
  lemma ClientCount(side: nat, tile: nat, scale: nat)
    requires tile > 0 && scale > 0
    ensures tile * scale > 0 && DivCeil(DivCeil(side, scale), tile) == DivCeil(side, tile * scale)
  {
    CeilOfCeil(side, scale, tile);
    Commutes(scale, tile);
  }

  function LevelSize(canvas: Size, k: nat): Size {
    Size(Halved(canvas.width, k), Halved(canvas.height, k))
  }

  lemma {:induction false} HalvedPositive(n: nat, k: nat)
    requires 0 < n <= U32_MAX
    ensures 0 < Halved(n, k) <= U32_MAX
  {
    if k > 0 { HalvedPositive(n, k - 1); }
  }

  /** A level of the pyramid over this canvas, `k` halvings down. */
  ghost predicate AtDepth(level: Level, canvas: Size, k: nat) {
    && level.Valid() && 0 < canvas.width <= U32_MAX && 0 < canvas.height <= U32_MAX
    && level.size == LevelSize(canvas, k)
  }

  lemma CellAxes(level: Level, canvas: Size, k: nat, index: nat)
    requires AtDepth(level, canvas, k) && index < level.Columns() * level.Rows()
    ensures level.Columns() > 0 && index % level.Columns() < level.Columns() && index / level.Columns() < level.Rows()
    ensures level.Columns() == DivCeil(DivCeil(canvas.width, Pow2(k)), level.cell.width)
    ensures level.Rows() == DivCeil(DivCeil(canvas.height, Pow2(k)), level.cell.height)
    ensures level.size == Size(DivCeil(canvas.width, Pow2(k)), DivCeil(canvas.height, Pow2(k)))
  {
    HalvedIsDivCeil(canvas.width, k);
    HalvedIsDivCeil(canvas.height, k);
    level.CellCorner(index);
    QuotientBelow(index, level.Columns(), level.Rows());
  }

  lemma CornerInside(level: Level, canvas: Size, k: nat, index: nat)
    requires AtDepth(level, canvas, k) && index < level.Columns() * level.Rows()
    ensures level.RectAt(index).x * Pow2(k) < canvas.width && level.RectAt(index).y * Pow2(k) < canvas.height
  {
    CellAxes(level, canvas, k, index);
    var rect, n, m := level.RectAt(index), index % level.Columns(), index / level.Columns();
    assert rect.x == n * level.cell.width && rect.y == m * level.cell.height;
    hide Pow2, DivCeil, AtDepth, LevelSize, Level.RectAt, Level.Columns, Level.Rows;
    AxisIsClients(n, canvas.width, level.cell.width, Pow2(k));
    AxisIsClients(m, canvas.height, level.cell.height, Pow2(k));
  }

  /** The path of one tile of a level. */
  function RouteAt(level: Level, canvas: Size, k: nat, index: nat): Route
    requires AtDepth(level, canvas, k) && index < level.Columns() * level.Rows()
  {
    CornerInside(level, canvas, k, index);
    TilePath(level.RectAt(index), Pow2(k), canvas)
  }

  /** A tile's path is the client's request for that column and row at that scale factor, and
      every number in it fits 32 bits. */
  lemma PathIsClients(level: Level, canvas: Size, k: nat, index: nat)
    requires AtDepth(level, canvas, k) && index < level.Columns() * level.Rows()
    ensures var scale, path := Pow2(k), RouteAt(level, canvas, k, index);
      && level.Columns() > 0
      && var n, m := index % level.Columns(), index / level.Columns();
      && n * (level.cell.width * scale) <= canvas.width && m * (level.cell.height * scale) <= canvas.height
      && Asked(path.region.x, path.region.w, path.width) == ClientAxis(n, canvas.width, level.cell.width, scale)
      && Asked(path.region.y, path.region.h, path.height) == ClientAxis(m, canvas.height, level.cell.height, scale)
  {
    CellAxes(level, canvas, k, index);
    CornerInside(level, canvas, k, index);
    var n, m, scale, rect := index % level.Columns(), index / level.Columns(), Pow2(k), level.RectAt(index);
    var across, down := Min(level.cell.width, level.size.width - n * level.cell.width),
                        Min(level.cell.height, level.size.height - m * level.cell.height);
    assert rect == Rect(n * level.cell.width, m * level.cell.height, across, down);
    assert RouteAt(level, canvas, k, index) == TilePath(rect, scale, canvas);
    hide DivCeil, Pow2, SaturatingMul, ClientAxis, LevelSize, AtDepth, RouteAt, Level.RectAt, Level.Columns, Level.Rows;
    AxisIsClients(n, canvas.width, level.cell.width, scale);
    AxisIsClients(m, canvas.height, level.cell.height, scale);
  }

  /** Where a position of the full image is, `k` halvings down. */
  function Reach(x: nat, k: nat): nat {
    Quotient(x, Pow2(k))
  }

  function Quotient(x: nat, d: nat): nat
    requires d > 0
  {
    x / d
  }

  /** The regions of one level's paths cover every position of the full image exactly once. */
  lemma RegionsPartition(level: Level, canvas: Size, k: nat, x: nat, y: nat, index: nat)
    requires AtDepth(level, canvas, k) && index < level.Columns() * level.Rows()
    requires x < canvas.width && y < canvas.height
    ensures RouteAt(level, canvas, k, index).region.Contains(x, y) <==> index == level.CellOf(Reach(x, k), Reach(y, k))
  {
    var scale, rect := Pow2(k), level.RectAt(index);
    CellAxes(level, canvas, k, index);
    CornerInside(level, canvas, k, index);
    InsideReduced(x, canvas.width, scale);
    InsideReduced(y, canvas.height, scale);
    CellsPartition(level, Reach(x, k), Reach(y, k), index);
    assert RouteAt(level, canvas, k, index) == TilePath(rect, scale, canvas);
    assert Reach(x, k) == x / scale && Reach(y, k) == y / scale;
    hide AtDepth, RouteAt, Pow2, Reach, Level.CellOf, Level.RectAt, Level.Columns, Level.Rows;
    ScaledContains(x, rect.x, rect.w, canvas.width, scale);
    ScaledContains(y, rect.y, rect.h, canvas.height, scale);
    hide SaturatingMul;
  }

  lemma InsideReduced(x: nat, side: nat, scale: nat)
    requires scale > 0 && x < side
    ensures x / scale < DivCeil(side, scale)
  {
    BelowDivCeil(x / scale, side, scale);
    assert x == scale * (x / scale) + x % scale;
    Commutes(scale, x / scale);
  }

  lemma ScaledContains(x: nat, start: nat, length: nat, side: nat, scale: nat)
    requires scale > 0 && x < side <= U32_MAX && start * scale < side
    ensures start * scale <= x < start * scale + Min(SaturatingMul(length, scale), side - start * scale) <==>
      start <= x / scale < start + length
  {
    assert x == scale * (x / scale) + x % scale;
    AtOrAbove(x, start, scale);
    AtOrAbove(x, start + length, scale);
    assert (start + length) * scale == start * scale + length * scale;
  }

  lemma AtOrAbove(x: nat, a: nat, scale: nat)
    requires scale > 0
    ensures a * scale <= x <==> a <= x / scale
  {
    var q := x / scale;
    assert x == scale * q + x % scale;
    Commutes(scale, q);
    Commutes(scale, a);
    if a <= q {
      ProductGrows(scale, a, q);
    } else {
      ProductGrows(scale, q + 1, a);
      assert scale * (q + 1) == scale * q + scale;
    }
  }

  // ---- How deep it goes ---------------------------------------------------------------------------

  predicate NeedsSmaller(size: Size, cell: Size) {
    size.width > cell.width || size.height > cell.height
  }

  /** A level is halved once more exactly as long as it has more than one cell. */
  lemma SmallerExactly(level: Level)
    requires level.Valid()
    ensures NeedsSmaller(level.size, level.cell) <==> level.Columns() * level.Rows() > 1
  {
    var columns, rows := level.Columns(), level.Rows();
    BelowDivCeil(0, level.size.width, level.cell.width);
    BelowDivCeil(1, level.size.width, level.cell.width);
    BelowDivCeil(0, level.size.height, level.cell.height);
    BelowDivCeil(1, level.size.height, level.cell.height);
    hide Level.Columns, Level.Rows;
    if columns > 1 || rows > 1 { MoreThanOne(columns, rows); }
  }

  lemma MoreThanOne(a: nat, b: nat)
    requires a > 0 && b > 0 && (a > 1 || b > 1)
    ensures a * b > 1
  {
  }

  /** While the loop goes on, the scale stays below the tile count the options allow: doubling it
      never leaves 32 bits. */
  lemma ScaleBelowCount(base: Level, k: nat)
    requires base.Valid() && NeedsSmaller(LevelSize(base.size, k), base.cell)
    requires base.Columns() * base.Rows() <= MAX_TILES
    ensures Pow2(k) < MAX_TILES && Pow2(k + 1) <= U32_MAX
  {
    HalvedIsDivCeil(base.size.width, k);
    HalvedIsDivCeil(base.size.height, k);
    DivCeilPositive(base.size.width, base.cell.width);
    DivCeilPositive(base.size.height, base.cell.height);
    ProductGrows(base.Columns(), 1, base.Rows());
    ProductGrows(base.Rows(), 1, base.Columns());
    Commutes(base.Rows(), base.Columns());
    if DivCeil(base.size.width, Pow2(k)) > base.cell.width {
      AxisBelow(base.size.width, base.cell.width, Pow2(k));
    } else {
      AxisBelow(base.size.height, base.cell.height, Pow2(k));
    }
  }

  lemma DivCeilPositive(n: nat, d: nat)
    requires n > 0 && d > 0
    ensures DivCeil(n, d) > 0
  {
    BelowDivCeil(0, n, d);
  }

  lemma AxisBelow(side: nat, cell: nat, scale: nat)
    requires cell > 0 && scale > 0 && DivCeil(side, scale) > cell
    ensures scale < DivCeil(side, cell)
  {
    BelowDivCeil(cell, side, scale);
    Commutes(cell, scale);
    BelowDivCeil(scale, side, cell);
  }

  // ---- Building it ------------------------------------------------------------------------------

  /** What encoding and decoding a tile again yields, with the encoded length. */
  type Codec = Image -> Option<Encoded>
  datatype Encoded = Encoded(length: nat, image: Image)

  ghost predicate KeepsSize(codec: Codec) {
    forall image :: codec(image).Some? ==>
      codec(image).value.image.width == image.width && codec(image).value.image.height == image.height
  }

  /** What is decoded again shows every pixel of the image as it was. */
  ghost predicate Lossless(codec: Codec) {
    forall image, x: nat, y: nat :: codec(image).Some? && x < image.width && y < image.height ==>
      codec(image).value.image.at(x, y) == image.at(x, y)
  }

  function RowsOf(a: array2<Rgba>): (rows: seq<seq<Rgba>>)
    reads a
  {
    seq(a.Length0, y requires 0 <= y < a.Length0 reads a =>
      seq(a.Length1, x requires 0 <= x < a.Length1 reads a => a[y, x]))
  }

  function ImageOf(rows: seq<seq<Rgba>>, width: nat): Image {
    Image(width, |rows|, (x: nat, y: nat) => if y < |rows| && x < |rows[y]| then rows[y][x] else CLEAR)
  }

  /** Encodes nothing but the pixels inside the image, as they are. */
  function Plain(image: Image): Option<Encoded> {
    var inside := (x: nat, y: nat) => if x < image.width && y < image.height then image.at(x, y) else CLEAR;
    Some(Encoded(4 * image.width * image.height, image.(at := inside)))
  }

  /** Such an encoding loses nothing, whatever it leaves out besides. */
  lemma PlainLosesNothing()
    ensures Lossless(Plain) && KeepsSize(Plain)
  {
  }

  /** The tile of a cell of the next level: in place, full, and resampled from the source's
      picture if the codec loses nothing. */
  ghost predicate CellHolds(blend: Blend, codec: Codec, source: Level, next: Level, index: nat, tile: StoredTile)
    requires Halves(source, next) && index < next.Columns() * next.Rows()
  {
    && tile.rect == next.RectAt(index) && tile.image.Some?
    && tile.image.value.width == tile.rect.w && tile.image.value.height == tile.rect.h
    && (Lossless(codec) ==>
          forall x: nat, y: nat :: x < tile.rect.w && y < tile.rect.h ==>
            tile.image.value.at(x, y)
            == Reduced(LevelPicture(blend, source, source.Columns() * source.Rows()), source.size, next.size,
                       tile.rect.x + x, tile.rect.y + y))
  }

  /** Sizes and cells of two neighbouring levels. */
  ghost predicate Halves(source: Level, next: Level) {
    && source.Valid() && next.Valid() && next.regular && next.cell == source.cell
    && next.size == Size(DivCeil(source.size.width, 2), DivCeil(source.size.height, 2))
    && Axis(source.size.width, next.size.width) && Axis(source.size.height, next.size.height)
  }

  /** The next level is whole, and its picture is the source's, reduced. */
  ghost predicate Follows(blend: Blend, codec: Codec, source: Level, next: Level) {
    && Halves(source, next) && Complete(next)
    && (Lossless(codec) ==>
          forall x: nat, y: nat :: x < next.size.width && y < next.size.height ==>
            LevelPicture(blend, next, next.Columns() * next.Rows())(x, y)
            == blend(CLEAR, Reduced(LevelPicture(blend, source, source.Columns() * source.Rows()),
                                    source.size, next.size, x, y)))
  }

  lemma HalvingFits(source: Level, next: Level)
    requires source.Valid() && next.regular && next.cell == source.cell
    requires next.size == Size(DivCeil(source.size.width, 2), DivCeil(source.size.height, 2))
    ensures Halves(source, next) && next.Columns() * next.Rows() <= source.Columns() * source.Rows()
  {
    DivCeilGrows(next.size.width, source.size.width, source.cell.width);
    DivCeilGrows(next.size.height, source.size.height, source.cell.height);
    ProductGrows(next.Columns(), next.Rows(), source.Rows());
    ProductGrows(source.Rows(), next.Columns(), source.Columns());
    Commutes(source.Rows(), next.Columns());
    Commutes(source.Rows(), source.Columns());
  }

  /** Why a picture cannot be encoded: its pixels and copies of the profile do not fit, or the codec
      refuses it. */
  function EncodeTrouble(codec: Codec, rows: seq<seq<Rgba>>, width: nat, profile: nat, available: nat): Option<Error> {
    if width * |rows| * 4 + profile * 3 > available then Some(MemoryLimit)
    else if codec(ImageOf(rows, width)).None? then Some(EncodeFailed)
    else None
  }

  /** Encodes one tile, with the memory check made before it. */
  method EncodeTile(codec: Codec, pixels: array2<Rgba>, profile: nat, available: nat)
    returns (r: Result<Encoded, Error>)
    requires KeepsSize(codec)
    ensures r.Err? <==> EncodeTrouble(codec, RowsOf(pixels), pixels.Length1, profile, available).Some?
    ensures r.Err? ==> EncodeTrouble(codec, RowsOf(pixels), pixels.Length1, profile, available) == Some(r.error)
    ensures r.Ok? ==> r.value.image.width == pixels.Length1 && r.value.image.height == pixels.Length0
    ensures r.Ok? && Lossless(codec) ==>
      forall x: nat, y: nat :: x < pixels.Length1 && y < pixels.Length0 ==> r.value.image.at(x, y) == pixels[y, x]
  {
    if pixels.Length1 * pixels.Length0 * 4 + profile * 3 > available { return Err(MemoryLimit); }
    var image := ImageOf(RowsOf(pixels), pixels.Length1);
    var encoded := codec(image);
    r := if encoded.None? then Err(EncodeFailed) else Ok(encoded.value);
  }

  /** A level whose every cell holds its tile follows the source. */
  lemma FilledFollows(blend: Blend, codec: Codec, source: Level, frame: Level, next: Level)
    requires Halves(source, frame) && next == frame.(tiles := next.tiles)
    requires forall i :: i in next.tiles <==> 0 <= i < frame.Columns() * frame.Rows()
    requires forall i :: 0 <= i < frame.Columns() * frame.Rows() ==>
      CellHolds(blend, codec, source, frame, i, next.tiles[i])
    ensures Follows(blend, codec, source, next)
  {
    assert Halves(source, next);
    CellsComplete(blend, codec, source, frame, next);
    if Lossless(codec) {
      forall x: nat, y: nat | x < next.size.width && y < next.size.height
        ensures LevelPicture(blend, next, next.Columns() * next.Rows())(x, y)
             == blend(CLEAR, Reduced(LevelPicture(blend, source, source.Columns() * source.Rows()),
                                     source.size, next.size, x, y))
      {
        CellIsCounted(next, x, y);
        CellPicture(blend, codec, source, frame, next, x, y, next.CellOf(x, y));
      }
    }
  }

  lemma CellsComplete(blend: Blend, codec: Codec, source: Level, frame: Level, next: Level)
    requires Halves(source, frame) && next == frame.(tiles := next.tiles)
    requires forall i :: i in next.tiles <==> 0 <= i < frame.Columns() * frame.Rows()
    requires forall i :: 0 <= i < frame.Columns() * frame.Rows() ==>
      CellHolds(blend, codec, source, frame, i, next.tiles[i])
    ensures Complete(next)
  {
    assert next.Columns() == frame.Columns() && next.Rows() == frame.Rows();
    forall i | 0 <= i < frame.Columns() * frame.Rows()
      ensures next.RectAt(i) == frame.RectAt(i) && CellHolds(blend, codec, source, frame, i, next.tiles[i])
    {
    }
    hide Level.RectAt, Level.Columns, Level.Rows, LevelPicture, Reduced, Lossless;
  }

  lemma CellPicture(blend: Blend, codec: Codec, source: Level, frame: Level, next: Level,
                    x: nat, y: nat, k: nat)
    requires Halves(source, frame) && next == frame.(tiles := next.tiles) && Complete(next) && Lossless(codec)
    requires x < next.size.width && y < next.size.height && k < frame.Columns() * frame.Rows() && k in next.tiles
    requires CellHolds(blend, codec, source, frame, k, next.tiles[k]) && k == next.CellOf(x, y)
    ensures LevelPicture(blend, next, next.Columns() * next.Rows())(x, y)
         == blend(CLEAR, Reduced(LevelPicture(blend, source, source.Columns() * source.Rows()),
                                 source.size, next.size, x, y))
  {
    hide LevelPixel, Reduced, DivCeil;
    var n := next.Columns() * next.Rows();
    assert frame.Columns() == next.Columns() && frame.Rows() == next.Rows() && frame.CellOf(x, y) == k;
    CellIsCounted(next, x, y);
    CellsPartition(next, x, y, k);
    CellShows(blend, next, n, x, y);
    assert next.RectAt(k) == frame.RectAt(k);
    var tile := next.tiles[k];
    hide Complete, Level.RectAt, Level.Columns, Level.Rows, Level.CellOf, LevelPixel, Reduced, Regular;
    assert tile.At(x, y) == tile.image.value.at(x - tile.rect.x, y - tile.rect.y);
  }

  lemma SameRoute(frame: Level, next: Level, canvas: Size, k: nat, i: nat)
    requires AtDepth(frame, canvas, k) && next == frame.(tiles := next.tiles) && i < frame.Columns() * frame.Rows()
    ensures AtDepth(next, canvas, k) && i < next.Columns() * next.Rows()
    ensures RouteAt(next, canvas, k, i) == RouteAt(frame, canvas, k, i)
  {
    assert next.RectAt(i) == frame.RectAt(i);
  }

  /** The first cells of the next level hold their tiles. */
  ghost predicate CellsHold(blend: Blend, codec: Codec, source: Level, frame: Level, tiles: map<nat, StoredTile>,
                            count: nat)
    requires Halves(source, frame) && count <= frame.Columns() * frame.Rows()
  {
    && (forall i :: i in tiles <==> 0 <= i < count)
    && (forall i :: 0 <= i < count ==> CellHolds(blend, codec, source, frame, i, tiles[i]))
  }

  lemma CellAdded(blend: Blend, codec: Codec, source: Level, frame: Level, tiles: map<nat, StoredTile>, count: nat,
                  tile: StoredTile)
    requires Halves(source, frame) && count < frame.Columns() * frame.Rows()
    requires CellsHold(blend, codec, source, frame, tiles, count) && CellHolds(blend, codec, source, frame, count, tile)
    ensures CellsHold(blend, codec, source, frame, tiles[count := tile], count + 1)
  {
    hide CellHolds, Halves, Level.Columns, Level.Rows;
  }

  /** The paths written for a level, in the order of its cells. */
  ghost predicate RoutesHold(level: Level, canvas: Size, k: nat, routes: seq<Route>)
    requires AtDepth(level, canvas, k)
  {
    && |routes| <= level.Columns() * level.Rows()
    && forall i :: 0 <= i < |routes| ==> routes[i] == RouteAt(level, canvas, k, i)
  }

  ghost predicate AllRoutes(level: Level, canvas: Size, k: nat, routes: seq<Route>)
    requires AtDepth(level, canvas, k)
  {
    RoutesHold(level, canvas, k, routes) && |routes| == level.Columns() * level.Rows()
  }

  lemma RouteAdded(level: Level, canvas: Size, k: nat, routes: seq<Route>, route: Route)
    requires AtDepth(level, canvas, k) && RoutesHold(level, canvas, k, routes)
    requires |routes| < level.Columns() * level.Rows() && route == RouteAt(level, canvas, k, |routes|)
    ensures RoutesHold(level, canvas, k, routes + [route])
  {
    hide AtDepth, RouteAt, Level.Columns, Level.Rows;
  }

  lemma SameRoutes(frame: Level, next: Level, canvas: Size, k: nat, routes: seq<Route>)
    requires AtDepth(frame, canvas, k) && next == frame.(tiles := next.tiles) && RoutesHold(frame, canvas, k, routes)
    ensures AtDepth(next, canvas, k) && next.Columns() == frame.Columns() && next.Rows() == frame.Rows()
    ensures RoutesHold(next, canvas, k, routes)
  {
    forall i | 0 <= i < |routes|
      ensures routes[i] == RouteAt(next, canvas, k, i)
    {
      SameRoute(frame, next, canvas, k, i);
    }
  }

  lemma CellInside(level: Level, index: nat)
    requires level.Valid() && index < level.Columns() * level.Rows()
    ensures var rect := level.RectAt(index);
      0 < rect.w && rect.x + rect.w <= level.size.width && 0 < rect.h && rect.y + rect.h <= level.size.height
  {
    level.CellCorner(index);
  }

  /** The pixels of one cell of the next level. */
  ghost predicate CellPixels(blend: Blend, source: Level, frame: Level, rect: Rect, pixels: array2<Rgba>)
    requires Halves(source, frame) && rect.x + rect.w <= frame.size.width && rect.y + rect.h <= frame.size.height
    reads pixels
  {
    && pixels.Length1 == rect.w && pixels.Length0 == rect.h
    && forall x: nat, y: nat :: x < rect.w && y < rect.h ==>
         pixels[y, x] == Reduced(LevelPicture(blend, source, source.Columns() * source.Rows()), source.size, frame.size,
                                 rect.x + x, rect.y + y)
  }

  lemma ArePixels(blend: Blend, source: Level, frame: Level, rect: Rect, pixels: array2<Rgba>, n: nat)
    requires Halves(source, frame) && rect.x + rect.w <= frame.size.width && rect.y + rect.h <= frame.size.height
    requires n == source.Columns() * source.Rows() && pixels.Length1 == rect.w && pixels.Length0 == rect.h
    requires forall x: nat, y: nat :: x < rect.w && y < rect.h ==>
      pixels[y, x] == Reduced(LevelPicture(blend, source, n), source.size, frame.size, rect.x + x, rect.y + y)
    ensures CellPixels(blend, source, frame, rect, pixels)
  {
    hide Reduced, LevelPicture, Level.Columns, Level.Rows;
  }

  function ResampleTrouble(source: Level, frame: Level, rect: Rect, available: nat,
                           cancelled: nat -> bool): Option<Error>
    requires Axis(source.size.width, frame.size.width) && Axis(source.size.height, frame.size.height) && source.Valid()
    requires 0 < rect.w && rect.x + rect.w <= frame.size.width && 0 < rect.h && rect.y + rect.h <= frame.size.height
  {
    DownsampleTrouble(source, source.Columns() * source.Rows(), frame.size, rect, available, cancelled)
  }

  method HalfCellPixels(blend: Blend, source: Level, frame: Level, rect: Rect, available: nat, cancelled: nat -> bool)
    returns (r: Result<array2<Rgba>, Error>)
    requires Complete(source) && Halves(source, frame)
    requires 0 < rect.w && rect.x + rect.w <= frame.size.width && 0 < rect.h && rect.y + rect.h <= frame.size.height
    ensures r.Err? <==> ResampleTrouble(source, frame, rect, available, cancelled).Some?
    ensures r.Err? ==> ResampleTrouble(source, frame, rect, available, cancelled) == Some(r.error)
    ensures r.Ok? ==> CellPixels(blend, source, frame, rect, r.value)
  {
    var n := source.Columns() * source.Rows();
    assert Bounded(source, n) by { assert Regular(source); }
    assert Axis(source.size.width, frame.size.width) && Axis(source.size.height, frame.size.height);
    assert ResampleTrouble(source, frame, rect, available, cancelled)
        == DownsampleTrouble(source, n, frame.size, rect, available, cancelled);
    hide *;
    var decoded;
    r, decoded := Downsample(blend, source, n, frame.size, rect, available, cancelled);
    if r.Ok? { ArePixels(blend, source, frame, rect, r.value, n); }
  }

  /** A cell of the next level, resampled from the source's picture, can be stored as its tile. */
  lemma ResampledCellHolds(blend: Blend, codec: Codec, source: Level, frame: Level, index: nat, tile: StoredTile,
                           pixels: array2<Rgba>)
    requires Halves(source, frame) && index < frame.Columns() * frame.Rows() && tile.image.Some?
    requires tile.rect == frame.RectAt(index)
    requires tile.rect.x + tile.rect.w <= frame.size.width && tile.rect.y + tile.rect.h <= frame.size.height
    requires CellPixels(blend, source, frame, tile.rect, pixels)
    requires tile.image.value.width == pixels.Length1 && tile.image.value.height == pixels.Length0
    requires Lossless(codec) ==>
      forall x: nat, y: nat :: x < pixels.Length1 && y < pixels.Length0 ==> tile.image.value.at(x, y) == pixels[y, x]
    ensures CellHolds(blend, codec, source, frame, index, tile)
  {
    hide Halves, Level.RectAt, Level.Columns, Level.Rows, LevelPicture, Reduced;
  }

  /** The rows of one rectangle of the next level: the source's picture, resampled. */
  function CellRows(blend: Blend, source: Level, frame: Level, rect: Rect): (rows: seq<seq<Rgba>>)
    requires source.Valid() && Axis(source.size.width, frame.size.width) && Axis(source.size.height, frame.size.height)
    requires rect.x + rect.w <= frame.size.width && rect.y + rect.h <= frame.size.height
    ensures |rows| == rect.h
  {
    var picture := LevelPicture(blend, source, source.Columns() * source.Rows());
    seq(rect.h, y requires 0 <= y < rect.h =>
      seq(rect.w, x requires 0 <= x < rect.w => Reduced(picture, source.size, frame.size, rect.x + x, rect.y + y)))
  }

  lemma AreCellRows(blend: Blend, source: Level, frame: Level, rect: Rect, pixels: array2<Rgba>)
    requires Halves(source, frame) && rect.x + rect.w <= frame.size.width && rect.y + rect.h <= frame.size.height
    requires CellPixels(blend, source, frame, rect, pixels)
    ensures RowsOf(pixels) == CellRows(blend, source, frame, rect)
  {
    hide LevelPicture, Reduced, Level.Columns, Level.Rows;
    var rows, wanted := RowsOf(pixels), CellRows(blend, source, frame, rect);
    forall y | 0 <= y < |rows|
      ensures rows[y] == wanted[y]
    {
    }
  }

  /** The flag as it reads at the polls of one cell, and from the second poll on. */
  function Polls(cancelled: (nat, nat) -> bool, index: nat): nat -> bool {
    (poll: nat) => cancelled(index, poll)
  }

  function Later(cancelled: nat -> bool): nat -> bool {
    (poll: nat) => cancelled(poll + 1)
  }

  /** Why one cell of the next level cannot be made: the flag is up, its pixels cannot be resampled in
      the memory there is, or they cannot be encoded. */
  function CellTrouble(blend: Blend, codec: Codec, source: Level, frame: Level, index: nat, budget: nat, profile: nat,
                       cancelled: nat -> bool): Option<Error>
    requires source.Valid() && frame.Valid() && index < frame.Columns() * frame.Rows()
    requires Axis(source.size.width, frame.size.width) && Axis(source.size.height, frame.size.height)
  {
    CellInside(frame, index);
    var available, rect := SaturatingSub(budget, profile), frame.RectAt(index);
    var resampling := ResampleTrouble(source, frame, rect, available, Later(cancelled));
    if cancelled(0) then Some(Cancelled)
    else if resampling.Some? then resampling
    else EncodeTrouble(codec, CellRows(blend, source, frame, rect), rect.w, profile, available)
  }

  /** The first trouble among the first cells of the next level. */
  function LevelTrouble(blend: Blend, codec: Codec, source: Level, frame: Level, count: nat, budget: nat, profile: nat,
                        cancelled: (nat, nat) -> bool): Option<Error>
    requires source.Valid() && frame.Valid() && count <= frame.Columns() * frame.Rows()
    requires Axis(source.size.width, frame.size.width) && Axis(source.size.height, frame.size.height)
  {
    if count == 0 then None
    else
      var before := LevelTrouble(blend, codec, source, frame, count - 1, budget, profile, cancelled);
      if before.Some? then before
      else CellTrouble(blend, codec, source, frame, count - 1, budget, profile, Polls(cancelled, count - 1))
  }

  lemma {:induction false} LevelTroubleStays(blend: Blend, codec: Codec, source: Level, frame: Level, k: nat,
                                             count: nat,
                                             budget: nat, profile: nat, cancelled: (nat, nat) -> bool)
    requires Halves(source, frame) && k < count <= frame.Columns() * frame.Rows()
    requires LevelTrouble(blend, codec, source, frame, k, budget, profile, cancelled).None?
    requires CellTrouble(blend, codec, source, frame, k, budget, profile, Polls(cancelled, k)).Some?
    ensures LevelTrouble(blend, codec, source, frame, count, budget, profile, cancelled)
         == CellTrouble(blend, codec, source, frame, k, budget, profile, Polls(cancelled, k))
  {
    hide CellTrouble, Polls, Level.Columns, Level.Rows;
    if count > k + 1 { LevelTroubleStays(blend, codec, source, frame, k, count - 1, budget, profile, cancelled); }
  }

  lemma LevelTroubleNext(blend: Blend, codec: Codec, source: Level, frame: Level, k: nat, budget: nat, profile: nat,
                         cancelled: (nat, nat) -> bool)
    requires Halves(source, frame) && k < frame.Columns() * frame.Rows()
    requires LevelTrouble(blend, codec, source, frame, k, budget, profile, cancelled).None?
    ensures LevelTrouble(blend, codec, source, frame, k + 1, budget, profile, cancelled)
         == CellTrouble(blend, codec, source, frame, k, budget, profile, Polls(cancelled, k))
  {
    hide CellTrouble, Polls, Level.Columns, Level.Rows;
  }

  /** The half of a level, without tiles yet. */
  function Frame(source: Level): Level {
    Level(Size(DivCeil(source.size.width, 2), DivCeil(source.size.height, 2)), source.cell, map[], true)
  }

  /** Why the next level cannot be made. */
  function HalvingTrouble(blend: Blend, codec: Codec, source: Level, budget: nat, profile: nat,
                          cancelled: (nat, nat) -> bool): Option<Error>
    requires source.Valid()
  {
    HalvingFits(source, Frame(source));
    var frame := Frame(source);
    LevelTrouble(blend, codec, source, frame, frame.Columns() * frame.Rows(), budget, profile, cancelled)
  }

  /** Resamples and encodes one cell of the next level. */
  method HalfCell(blend: Blend, codec: Codec, source: Level, frame: Level, index: nat, budget: nat, profile: nat,
                  cancelled: nat -> bool)
    returns (r: Result<StoredTile, Error>)
    requires KeepsSize(codec) && Complete(source) && Halves(source, frame) && index < frame.Columns() * frame.Rows()
    ensures r.Err? <==> CellTrouble(blend, codec, source, frame, index, budget, profile, cancelled).Some?
    ensures r.Err? ==> CellTrouble(blend, codec, source, frame, index, budget, profile, cancelled) == Some(r.error)
    ensures r.Ok? ==> CellHolds(blend, codec, source, frame, index, r.value)
  {
    var available, rect := SaturatingSub(budget, profile), frame.RectAt(index);
    CellInside(frame, index);
    hide Complete, Halves, CellHolds, CellPixels, Level.RectAt, Level.Columns, Level.Rows, Lossless;
    hide ResampleTrouble, EncodeTrouble, CellRows, Axis;
    if cancelled(0) { return Err(Cancelled); }
    var pixels := HalfCellPixels(blend, source, frame, rect, available, Later(cancelled));
    if pixels.Err? { return Err(pixels.error); }
    AreCellRows(blend, source, frame, rect, pixels.value);
    var encoded := EncodeTile(codec, pixels.value, profile, available);
    if encoded.Err? { return Err(encoded.error); }
    var tile := StoredTile(rect, Size(rect.w, rect.h), encoded.value.length, Some(encoded.value.image));
    ResampledCellHolds(blend, codec, source, frame, index, tile, pixels.value);
    r := Ok(tile);
  }

  /** Resamples the cells of the next level, in order, up to the first trouble. */
  method HalfCells(blend: Blend, codec: Codec, source: Level, frame: Level, canvas: Size, k: nat, budget: nat,
                   profile: nat,
                   cancelled: (nat, nat) -> bool)
    returns (r: Result<map<nat, StoredTile>, Error>, routes: seq<Route>)
    requires KeepsSize(codec) && Complete(source) && Halves(source, frame) && AtDepth(frame, canvas, k)
    ensures var trouble :=
        LevelTrouble(blend, codec, source, frame, frame.Columns() * frame.Rows(), budget, profile, cancelled);
      (r.Err? <==> trouble.Some?) && (r.Err? ==> trouble == Some(r.error))
    ensures r.Ok? ==> CellsHold(blend, codec, source, frame, r.value, frame.Columns() * frame.Rows())
    ensures r.Ok? ==> AllRoutes(frame, canvas, k, routes)
  {
    hide *;
    NothingHalved(blend, codec, source, frame, canvas, k, budget, profile, cancelled);
    routes := [];
    var count := frame.Columns() * frame.Rows();
    var tiles: map<nat, StoredTile> := map[];
    var index := 0;
    while index < count
      invariant 0 <= index <= count && |routes| == index
      invariant CellsHold(blend, codec, source, frame, tiles, index) && RoutesHold(frame, canvas, k, routes)
      invariant LevelTrouble(blend, codec, source, frame, index, budget, profile, cancelled).None?
    {
      var tile := HalfCell(blend, codec, source, frame, index, budget, profile, Polls(cancelled, index));
      if tile.Err? {
        LevelTroubleStays(blend, codec, source, frame, index, count, budget, profile, cancelled);
        return Err(tile.error), routes;
      }
      LevelTroubleNext(blend, codec, source, frame, index, budget, profile, cancelled);
      CellAdded(blend, codec, source, frame, tiles, index, tile.value);
      var route := RouteAt(frame, canvas, k, index);
      RouteAdded(frame, canvas, k, routes, route);
      tiles, routes := tiles[index := tile.value], routes + [route];
      index := index + 1;
    }
    EveryRoute(frame, canvas, k, routes);
    r := Ok(tiles);
  }

  lemma NothingHalved(blend: Blend, codec: Codec, source: Level, frame: Level, canvas: Size, k: nat, budget: nat,
                      profile: nat,
                      cancelled: (nat, nat) -> bool)
    requires Halves(source, frame) && AtDepth(frame, canvas, k)
    ensures source.Valid() && frame.Valid()
    ensures Axis(source.size.width, frame.size.width) && Axis(source.size.height, frame.size.height)
    ensures CellsHold(blend, codec, source, frame, map[], 0) && RoutesHold(frame, canvas, k, [])
    ensures LevelTrouble(blend, codec, source, frame, 0, budget, profile, cancelled).None?
  {
    hide Axis, Level.Valid, Level.Columns, Level.Rows, CellHolds, RouteAt, CellTrouble, DivCeil;
  }

  lemma EveryRoute(level: Level, canvas: Size, k: nat, routes: seq<Route>)
    requires AtDepth(level, canvas, k) && RoutesHold(level, canvas, k, routes)
    requires |routes| == level.Columns() * level.Rows()
    ensures AllRoutes(level, canvas, k, routes)
  {
    hide AtDepth, RoutesHold, Level.Columns, Level.Rows;
  }

  /** Resamples every cell of the next level. It fails exactly for the first trouble among them. */
  method HalfLevel(blend: Blend, codec: Codec, source: Level, canvas: Size, k: nat, budget: nat, profile: nat,
                   cancelled: (nat, nat) -> bool)
    returns (r: Result<Level, Error>, routes: seq<Route>)
    requires KeepsSize(codec) && Complete(source) && AtDepth(source, canvas, k)
    requires source.Columns() * source.Rows() <= MAX_TILES
    ensures r.Err? <==> HalvingTrouble(blend, codec, source, budget, profile, cancelled).Some?
    ensures r.Err? ==> HalvingTrouble(blend, codec, source, budget, profile, cancelled) == Some(r.error)
    ensures r.Ok? ==> Follows(blend, codec, source, r.value) && AtDepth(r.value, canvas, k + 1)
    ensures r.Ok? ==> r.value.Columns() * r.value.Rows() <= MAX_TILES && AllRoutes(r.value, canvas, k + 1, routes)
  {
    var frame := Frame(source);
    HalvingFits(source, frame);
    assert frame.Count() == Some(frame.Columns() * frame.Rows()) && AtDepth(frame, canvas, k + 1);
    assert HalvingTrouble(blend, codec, source, budget, profile, cancelled)
        == LevelTrouble(blend, codec, source, frame, frame.Columns() * frame.Rows(), budget, profile, cancelled);
    hide *;
    var tiles;
    tiles, routes := HalfCells(blend, codec, source, frame, canvas, k + 1, budget, profile, cancelled);
    if tiles.Err? { return Err(tiles.error), routes; }
    var next := frame.(tiles := tiles.value);
    HeldFollows(blend, codec, source, frame, next);
    AllSameRoutes(frame, next, canvas, k + 1, routes);
    r := Ok(next);
  }

  lemma HeldFollows(blend: Blend, codec: Codec, source: Level, frame: Level, next: Level)
    requires Halves(source, frame) && next == frame.(tiles := next.tiles)
    requires CellsHold(blend, codec, source, frame, next.tiles, frame.Columns() * frame.Rows())
    ensures Follows(blend, codec, source, next)
  {
    hide CellHolds, Halves, Level.Columns, Level.Rows, Follows;
    FilledFollows(blend, codec, source, frame, next);
  }

  lemma AllSameRoutes(frame: Level, next: Level, canvas: Size, k: nat, routes: seq<Route>)
    requires AtDepth(frame, canvas, k) && next == frame.(tiles := next.tiles) && AllRoutes(frame, canvas, k, routes)
    ensures AtDepth(next, canvas, k) && next.Columns() == frame.Columns() && next.Rows() == frame.Rows()
    ensures AllRoutes(next, canvas, k, routes)
  {
    SameRoutes(frame, next, canvas, k, routes);
    hide AtDepth, RoutesHold, Level.Columns, Level.Rows;
  }

  /** The levels built so far: each follows the one before, has the next scale factor, and its
      paths are the client's requests. */
  ghost predicate Chain(blend: Blend, codec: Codec, base: Level, factors: seq<nat>, levels: seq<Level>,
                        routes: seq<seq<Route>>) {
    && |levels| == |factors| == |routes| + 1 && levels[0] == base
    && (forall i :: 0 <= i < |factors| ==> factors[i] == Pow2(i) <= U32_MAX)
    && (forall i :: 0 <= i < |levels| ==> AtDepth(levels[i], base.size, i))
    && (forall i :: 0 < i < |levels| ==> Reduces(blend, codec, levels[i - 1], levels[i]))
    && (forall i :: 0 < i < |levels| ==>
          AllRoutes(levels[i], base.size, i, routes[i - 1]))
  }

  /** One turn of the loop: the source did not fit a cell, and the next level is its half. */
  ghost predicate Reduces(blend: Blend, codec: Codec, source: Level, next: Level) {
    Follows(blend, codec, source, next) && NeedsSmaller(source.size, source.cell)
  }

  lemma ChainGrows(blend: Blend, codec: Codec, base: Level, factors: seq<nat>, levels: seq<Level>,
                   routes: seq<seq<Route>>,
                   next: Level, paths: seq<Route>)
    requires Chain(blend, codec, base, factors, levels, routes)
    requires Reduces(blend, codec, levels[|levels| - 1], next) && AtDepth(next, base.size, |levels|)
    requires AllRoutes(next, base.size, |levels|, paths)
    requires Pow2(|factors|) <= U32_MAX
    ensures Chain(blend, codec, base, factors + [factors[|factors| - 1] * 2], levels + [next], routes + [paths])
  {
    hide AtDepth, Reduces, AllRoutes, LevelSize;
    var n, l, p := |levels|, levels + [next], routes + [paths];
    forall i | 0 < i < |l|
      ensures Reduces(blend, codec, l[i - 1], l[i]) && AtDepth(l[i], base.size, i)
      ensures AllRoutes(l[i], base.size, i, p[i - 1])
    {
      assert l[i - 1] == levels[i - 1];
      if i < n { assert l[i] == levels[i] && p[i - 1] == routes[i - 1]; }
    }
  }

  /** The flag as it reads while the level with this scale factor is made. */
  function AtScale(cancelled: (nat, nat, nat) -> bool, scale: nat): (nat, nat) -> bool {
    (index: nat, poll: nat) => cancelled(scale, index, poll)
  }

  /** The half of every level but the lowest could be made. */
  ghost predicate NoHalvingTrouble(blend: Blend, codec: Codec, factors: seq<nat>, levels: seq<Level>, budget: nat,
                                   profile: nat, cancelled: (nat, nat, nat) -> bool) {
    |levels| == |factors| > 0 && forall i :: 0 <= i < |levels| - 1 ==>
      && levels[i].Valid()
      && HalvingTrouble(blend, codec, levels[i], budget, profile, AtScale(cancelled, factors[i] * 2)).None?
  }

  lemma NoTroubleGrows(blend: Blend, codec: Codec, factors: seq<nat>, levels: seq<Level>, factor: nat, next: Level,
                       budget: nat, profile: nat, cancelled: (nat, nat, nat) -> bool)
    requires NoHalvingTrouble(blend, codec, factors, levels, budget, profile, cancelled) && levels[|levels| - 1].Valid()
    requires HalvingTrouble(blend, codec, levels[|levels| - 1], budget, profile,
                            AtScale(cancelled, factors[|factors| - 1] * 2)).None?
    ensures NoHalvingTrouble(blend, codec, factors + [factor], levels + [next], budget, profile, cancelled)
  {
    hide HalvingTrouble, AtScale, Level.Valid;
  }

  /** The pyramid loop. Level `k` has the scale factor `2^k`; each level follows the one before,
      and the loop stops at the first that fits one cell, which is a single tile. It fails exactly
      at the first level too large for one cell whose half cannot be made. */
  method Build(blend: Blend, codec: Codec, base: Level, budget: nat, profile: nat, cancelled: (nat, nat, nat) -> bool)
    returns (r: Result<Level, Error>, factors: seq<nat>, levels: seq<Level>, routes: seq<seq<Route>>)
    requires KeepsSize(codec) && Complete(base) && base.Columns() * base.Rows() <= MAX_TILES
    ensures Chain(blend, codec, base, factors, levels, routes)
    ensures NoHalvingTrouble(blend, codec, factors, levels, budget, profile, cancelled)
    ensures r.Err? <==>
      var lowest := levels[|levels| - 1];
      && NeedsSmaller(lowest.size, base.cell)
      && HalvingTrouble(blend, codec, lowest, budget, profile, AtScale(cancelled, factors[|factors| - 1] * 2)).Some?
    ensures r.Err? ==>
      HalvingTrouble(blend, codec, levels[|levels| - 1], budget, profile,
                     AtScale(cancelled, factors[|factors| - 1] * 2))
      == Some(r.error)
    ensures r.Ok? ==> r.value == levels[|levels| - 1] && !NeedsSmaller(r.value.size, base.cell)
    ensures r.Ok? ==> r.value.Valid() && r.value.Columns() * r.value.Rows() == 1 && 0 in r.value.tiles
  {
    var level := base;
    factors, levels, routes := [1], [base], [];
    assert Chain(blend, codec, base, factors, levels, routes);
    assert NoHalvingTrouble(blend, codec, factors, levels, budget, profile, cancelled);
    assert forall f: seq<nat>, l, p :: Chain(blend, codec, base, f, l, p) ==> |f| == |l| > 0;
    hide Complete, Chain, Reduces, AtDepth, AllRoutes, Level.Columns, Level.Rows, LevelSize, Level.Valid;
    hide NoHalvingTrouble, HalvingTrouble, AtScale, Follows, Pow2;
    while NeedsSmaller(level.size, level.cell)
      invariant Chain(blend, codec, base, factors, levels, routes) && level == levels[|levels| - 1]
      invariant NoHalvingTrouble(blend, codec, factors, levels, budget, profile, cancelled)
      invariant Complete(level) && level.Valid() && level.cell == base.cell
      invariant level.Columns() * level.Rows() <= MAX_TILES
      decreases level.size.width + level.size.height
    {
      var k := |factors| - 1;
      ChainFacts(blend, codec, base, factors, levels, routes);
      ScaleBelowCount(base, k);
      var scale := factors[k] * 2;
      var next, paths := HalfLevel(blend, codec, level, base.size, k, budget, profile, AtScale(cancelled, scale));
      if next.Err? { return Err(next.error), factors, levels, routes; }
      FollowsFacts(blend, codec, level, next.value);
      ChainGrows(blend, codec, base, factors, levels, routes, next.value, paths);
      NoTroubleGrows(blend, codec, factors, levels, scale, next.value, budget, profile, cancelled);
      factors, levels, routes := factors + [scale], levels + [next.value], routes + [paths];
      level := next.value;
    }
    OneCell(level);
    r := Ok(level);
  }

  lemma ChainFacts(blend: Blend, codec: Codec, base: Level, factors: seq<nat>, levels: seq<Level>,
                   routes: seq<seq<Route>>)
    requires Chain(blend, codec, base, factors, levels, routes)
    ensures |factors| > 0 && |levels| == |factors|
    ensures var k := |factors| - 1;
      factors[k] == Pow2(k) && AtDepth(levels[k], base.size, k) && levels[k].size == LevelSize(base.size, k)
  {
  }

  lemma FollowsFacts(blend: Blend, codec: Codec, source: Level, next: Level)
    requires Follows(blend, codec, source, next) && NeedsSmaller(source.size, source.cell)
    ensures Complete(next) && next.Valid() && next.cell == source.cell && Reduces(blend, codec, source, next)
    ensures next.size.width + next.size.height < source.size.width + source.size.height
  {
  }

  /** A level that fits one cell is one tile: the overview always exists, and is the whole level. */
  lemma OneCell(level: Level)
    requires level.Valid() && !NeedsSmaller(level.size, level.cell) && Complete(level)
    ensures level.Columns() == 1 && level.Rows() == 1 && 0 in level.tiles
    ensures level.RectAt(0) == Rect(0, 0, level.size.width, level.size.height)
  {
    DivCeilUnique(level.size.width, level.cell.width, 1);
    DivCeilUnique(level.size.height, level.cell.height, 1);
  }

  /** The canvas of a level. */
  function Canvas(blend: Blend, level: Level): Picture
    requires level.Valid()
  {
    LevelPicture(blend, level, level.Columns() * level.Rows())
  }

  /** The next level's picture is exactly the source's, resampled. */
  ghost predicate Resamples(blend: Blend, source: Level, next: Level) {
    && Halves(source, next)
    && forall x: nat, y: nat :: x < next.size.width && y < next.size.height ==>
         Canvas(blend, next)(x, y) == Reduced(Canvas(blend, source), source.size, next.size, x, y)
  }

  /** Where the source is opaque, nothing of the clear canvas beneath the tiles shows through. */
  lemma OpaqueFollows(blend: Blend, codec: Codec, source: Level, next: Level)
    requires OpaqueReplaces(blend) && Lossless(codec) && Follows(blend, codec, source, next)
    requires Opaque(Canvas(blend, source), source.size)
    ensures Resamples(blend, source, next) && Opaque(Canvas(blend, next), next.size)
  {
    var picture := Canvas(blend, source);
    assert picture == LevelPicture(blend, source, source.Columns() * source.Rows());
    forall x: nat, y: nat | x < next.size.width && y < next.size.height
      ensures Canvas(blend, next)(x, y) == Reduced(picture, source.size, next.size, x, y)
      ensures Canvas(blend, next)(x, y).a == 255
    {
      OpaqueStays(picture, source.size, next.size, x, y);
      hide Reduced, LevelPicture, Level.Columns, Level.Rows, Opaque, DivCeil;
    }
    hide Reduced, LevelPicture, Level.Columns, Level.Rows, DivCeil, Complete;
  }

  /** Every level of an opaque pyramid kept without loss is opaque and is the level above it,
      resampled. */
  lemma {:induction false} OpaquePyramid(blend: Blend, codec: Codec, base: Level, factors: seq<nat>, levels: seq<Level>,
                                         routes: seq<seq<Route>>, i: nat)
    requires OpaqueReplaces(blend) && Lossless(codec) && Chain(blend, codec, base, factors, levels, routes)
    requires base.Valid() && Opaque(Canvas(blend, base), base.size) && i < |levels|
    ensures levels[i].Valid() && Opaque(Canvas(blend, levels[i]), levels[i].size)
    ensures i > 0 ==> Resamples(blend, levels[i - 1], levels[i])
  {
    if i > 0 {
      OpaquePyramid(blend, codec, base, factors, levels, routes, i - 1);
      assert Reduces(blend, codec, levels[i - 1], levels[i]);
      hide Chain, Opaque, Canvas, Halves, Complete, Lossless, Resamples;
      OpaqueFollows(blend, codec, levels[i - 1], levels[i]);
    }
  }
}
