/** One level of encoded tiles: row-major cells, and assembly of a region from the tiles that
    meet it, by a range of cells or by testing every tile. */
module TileLevels {
  import opened Arithmetic
  import opened Options
  import opened Pixels

  const U32_MAX: nat := 0xFFFF_FFFF

  datatype Size = Size(width: nat, height: nat)
  datatype Rect = Rect(x: nat, y: nat, w: nat, h: nat) {
    predicate Contains(px: nat, py: nat) {
      x <= px < x + w && y <= py < y + h
    }
  }

  function SaturatingAdd(a: nat, b: nat): nat {
    Min(a + b, U32_MAX)
  }

  predicate Intersects(a: Rect, b: Rect) {
    && a.x < SaturatingAdd(b.x, b.w) && b.x < SaturatingAdd(a.x, a.w)
    && a.y < SaturatingAdd(b.y, b.h) && b.y < SaturatingAdd(a.y, a.h)
  }

  /** A decoded image, read pixel by pixel. */
  datatype Image = Image(width: nat, height: nat, at: (nat, nat) -> Rgba)

  /** An encoded tile with its place in the level; `image` is what decoding it yields. */
  datatype StoredTile = StoredTile(rect: Rect, size: Size, encodedLength: nat, image: Option<Image>) {
    /** The tile has a pixel for this canvas position. */
    predicate Covers(x: nat, y: nat) {
      image.Some? && rect.Contains(x, y) && x - rect.x < image.value.width && y - rect.y < image.value.height
    }

    function At(x: nat, y: nat): Rgba
      requires Covers(x, y)
    {
      image.value.at(x - rect.x, y - rect.y)
    }
  }

  datatype Level = Level(size: Size, cell: Size, tiles: map<nat, StoredTile>, regular: bool) {
    predicate Valid() {
      0 < cell.width && 0 < cell.height && 0 < size.width <= U32_MAX && 0 < size.height <= U32_MAX
    }

    function Columns(): (r: nat)
      requires Valid()
    {
      DivCeil(size.width, cell.width)
    }

    function Rows(): nat
      requires Valid()
    {
      DivCeil(size.height, cell.height)
    }

    /** Number of cells, unless it does not fit 32 bits. */
    function Count(): Option<nat>
      requires Valid()
    {
      if Columns() * Rows() > U32_MAX then None else Some(Columns() * Rows())
    }

    /** Cell number `index`, clipped to the level. */
    function RectAt(index: nat): Rect
      requires Valid() && index < Columns() * Rows()
    {
      CellCorner(index);
      var x, y := (index % Columns()) * cell.width, (index / Columns()) * cell.height;
      Rect(x, y, Min(cell.width, size.width - x), Min(cell.height, size.height - y))
    }

    lemma CellCorner(index: nat)
      requires Valid() && index < Columns() * Rows()
      ensures Columns() > 0
      ensures (index % Columns()) * cell.width < size.width
      ensures (index / Columns()) * cell.height < size.height
    {
      var columns, rows := Columns(), Rows();
      QuotientBelow(index, columns, rows);
      BelowDivCeil(index % columns, size.width, cell.width);
      BelowDivCeil(index / columns, size.height, cell.height);
    }

    /** The cell a canvas position belongs to. */
    function CellOf(x: nat, y: nat): nat
      requires Valid()
    {
      (y / cell.height) * Columns() + x / cell.width
    }
  }

  /** `k` steps of `d` start below `n` exactly when `k` is below the rounded-up quotient. */
  lemma BelowDivCeil(k: nat, n: nat, d: nat)
    requires d > 0
    ensures k < DivCeil(n, d) <==> k * d < n
  {
    var q := DivCeil(n, d);
    assert n + d - 1 == d * q + (n + d - 1) % d;
    if k < q {
      ProductGrows(d, k + 1, q);
      assert d * (k + 1) == d * k + d;
    } else {
      ProductGrows(d, q, k);
    }
  }

  /** Division picks the step a position lies in. */
  lemma InStep(p: nat, k: nat, d: nat)
    requires d > 0
    ensures k * d <= p < k * d + d <==> k == p / d
  {
    assert p == d * (p / d) + p % d;
    if k * d <= p < k * d + d {
      FlatIndex(d, k, p - k * d);
    }
  }

  /** The cells are counted as long as the number fits 32 bits. */
  lemma CountExactly(level: Level)
    requires level.Valid()
    ensures level.Count() ==
      if level.Columns() * level.Rows() < 0x1_0000_0000 then Some(level.Columns() * level.Rows()) else None
  {
    hide Level.Columns, Level.Rows;
  }

  /** Rectangles within 32 bits intersect exactly if they share a position. */
  lemma IntersectsExactly(a: Rect, b: Rect)
    requires a.x + a.w < 0x1_0000_0000 && a.y + a.h < 0x1_0000_0000
    requires b.x + b.w < 0x1_0000_0000 && b.y + b.h < 0x1_0000_0000
    requires a.w > 0 && a.h > 0 && b.w > 0 && b.h > 0
    ensures Intersects(a, b) <==> exists x: nat, y: nat :: a.Contains(x, y) && b.Contains(x, y)
  {
    if Intersects(a, b) {
      var x, y := if a.x < b.x then b.x else a.x, if a.y < b.y then b.y else a.y;
      assert a.Contains(x, y) && b.Contains(x, y);
    }
  }

  // ---- Cells partition the level --------------------------------------------------------------

  /** The cells of a level cover every position exactly once. */
  lemma CellsPartition(level: Level, x: nat, y: nat, index: nat)
    requires level.Valid() && x < level.size.width && y < level.size.height
    requires index < level.Columns() * level.Rows()
    ensures level.CellOf(x, y) < level.Columns() * level.Rows()
    ensures level.RectAt(index).Contains(x, y) <==> index == level.CellOf(x, y)
  {
    level.CellCorner(index);
    CellIsCounted(level, x, y);
    InCell(index, level.Columns(), level.cell, level.size, x, y);
  }

  lemma InCell(index: nat, columns: nat, cell: Size, size: Size, x: nat, y: nat)
    requires columns > 0 && cell.width > 0 && cell.height > 0 && x < size.width && y < size.height
    requires (index % columns) * cell.width < size.width && (index / columns) * cell.height < size.height
    requires x / cell.width < columns
    ensures var left, top := (index % columns) * cell.width, (index / columns) * cell.height;
      Rect(left, top, Min(cell.width, size.width - left), Min(cell.height, size.height - top)).Contains(x, y)
      <==> index == (y / cell.height) * columns + x / cell.width
  {
    AxisContains(x, index % columns, cell.width, size.width);
    AxisContains(y, index / columns, cell.height, size.height);
    SameCell(index, columns, y / cell.height, x / cell.width);
    hide Min;
  }

  lemma AxisContains(p: nat, step: nat, cell: nat, side: nat)
    requires cell > 0 && p < side && step * cell < side
    ensures step * cell <= p < step * cell + Min(cell, side - step * cell) <==> step == p / cell
  {
    InStep(p, step, cell);
  }

  lemma SameCell(index: nat, columns: nat, row: nat, column: nat)
    requires column < columns
    ensures index == row * columns + column <==> index / columns == row && index % columns == column
  {
    FlatIndex(columns, row, column);
    assert index == columns * (index / columns) + index % columns;
  }

  lemma CellIsCounted(level: Level, x: nat, y: nat)
    requires level.Valid() && x < level.size.width && y < level.size.height
    ensures x / level.cell.width < level.Columns() && y / level.cell.height < level.Rows()
    ensures level.CellOf(x, y) < level.Columns() * level.Rows()
  {
    InStep(x, x / level.cell.width, level.cell.width);
    InStep(y, y / level.cell.height, level.cell.height);
    BelowDivCeil(x / level.cell.width, level.size.width, level.cell.width);
    BelowDivCeil(y / level.cell.height, level.size.height, level.cell.height);
    RowMajor(y / level.cell.height, level.Rows(), x / level.cell.width, level.Columns());
    Commutes(level.Columns(), level.Rows());
  }

  // ---- The tiles that meet a rectangle ------------------------------------------------------

  /** Stored tiles sit in their own cells and fill them. */
  ghost predicate Regular(level: Level) {
    && level.Valid() && level.regular
    && forall k :: k in level.tiles ==>
         && k < level.Columns() * level.Rows()
         && level.tiles[k].rect == level.RectAt(k)
         && (level.tiles[k].image.Some? ==>
               level.tiles[k].image.value.width >= level.tiles[k].rect.w
               && level.tiles[k].image.value.height >= level.tiles[k].rect.h)
  }

  /** Every tile tested against the rectangle, in the map's key order. */
  function Meeting(tiles: map<nat, StoredTile>, rect: Rect, n: nat): seq<nat> {
    if n == 0 then []
    else Meeting(tiles, rect, n - 1) + (if n - 1 in tiles && Intersects(rect, tiles[n - 1].rect) then [n - 1] else [])
  }

  /** The stored cells in columns `c0..c1` of one row. */
  function RowRange(tiles: map<nat, StoredTile>, columns: nat, row: nat, c0: nat, c1: nat): seq<nat> {
    if c1 <= c0 then []
    else
      var key := row * columns + (c1 - 1);
      RowRange(tiles, columns, row, c0, c1 - 1) + (if key in tiles then [key] else [])
  }

  /** The stored cells in a range of rows and columns, row by row. */
  function CellRange(tiles: map<nat, StoredTile>, columns: nat, r0: nat, r1: nat, c0: nat, c1: nat): seq<nat> {
    if r1 <= r0 then []
    else CellRange(tiles, columns, r0, r1 - 1, c0, c1) + RowRange(tiles, columns, r1 - 1, c0, c1)
  }

  /** The fast path: only the cells the rectangle can reach. */
  function Reached(level: Level, rect: Rect): seq<nat>
    requires level.Valid()
  {
    CellRange(level.tiles, level.Columns(),
              rect.y / level.cell.height, DivCeil(rect.y + rect.h, level.cell.height),
              rect.x / level.cell.width, DivCeil(rect.x + rect.w, level.cell.width))
  }

  ghost predicate Ascending(s: seq<nat>) {
    forall i, j :: 0 <= i < j < |s| ==> s[i] < s[j]
  }

  lemma {:induction false} SameAscending(a: seq<nat>, b: seq<nat>)
    requires Ascending(a) && Ascending(b) && forall k :: k in a <==> k in b
    ensures a == b
  {
    assert a != [] ==> a[0] in b;
    assert b != [] ==> b[0] in a;
    if a != [] {
      var m, n := |a| - 1, |b| - 1;
      assert a[m] in b && b[n] in a;
      assert a[m] == b[n];
      var a', b' := a[..m], b[..n];
      forall k
        ensures k in a' <==> k in b'
      {
        assert k in a <==> k in a' || k == a[m];
        assert k in b <==> k in b' || k == b[n];
      }
      SameAscending(a', b');
    }
  }

  lemma AscendingConcat(a: seq<nat>, b: seq<nat>)
    requires Ascending(a) && Ascending(b) && forall k, l :: k in a && l in b ==> k < l
    ensures Ascending(a + b)
  {
    var s := a + b;
    forall i, j | 0 <= i < j < |s|
      ensures s[i] < s[j]
    {
      assert i < |a| <= j ==> s[i] in a && s[j] in b;
    }
  }

  lemma {:induction false} MeetingMembers(tiles: map<nat, StoredTile>, rect: Rect, n: nat)
    ensures Ascending(Meeting(tiles, rect, n))
    ensures forall k :: k in Meeting(tiles, rect, n) <==> k < n && k in tiles && Intersects(rect, tiles[k].rect)
  {
    if n > 0 {
      MeetingMembers(tiles, rect, n - 1);
      var last := if n - 1 in tiles && Intersects(rect, tiles[n - 1].rect) then [n - 1] else [];
      hide Intersects;
      AscendingConcat(Meeting(tiles, rect, n - 1), last);
    }
  }

  lemma {:induction false} RowRangeMembers(tiles: map<nat, StoredTile>, columns: nat, row: nat, c0: nat, c1: nat)
    ensures Ascending(RowRange(tiles, columns, row, c0, c1))
    ensures forall k :: k in RowRange(tiles, columns, row, c0, c1) <==>
      k in tiles && row * columns + c0 <= k < row * columns + c1
  {
    if c0 < c1 {
      RowRangeMembers(tiles, columns, row, c0, c1 - 1);
      var key := row * columns + (c1 - 1);
      AscendingConcat(RowRange(tiles, columns, row, c0, c1 - 1), if key in tiles then [key] else []);
    }
  }

  lemma {:induction false} CellRangeMembers(tiles: map<nat, StoredTile>, columns: nat, r0: nat, r1: nat, c0: nat,
                                            c1: nat)
    requires c1 <= columns && columns > 0
    ensures Ascending(CellRange(tiles, columns, r0, r1, c0, c1))
    ensures forall k :: k in CellRange(tiles, columns, r0, r1, c0, c1) <==>
      k in tiles && r0 <= k / columns < r1 && c0 <= k % columns < c1
  {
    if r0 < r1 {
      var above, row := CellRange(tiles, columns, r0, r1 - 1, c0, c1), RowRange(tiles, columns, r1 - 1, c0, c1);
      CellRangeMembers(tiles, columns, r0, r1 - 1, c0, c1);
      RowRangeMembers(tiles, columns, r1 - 1, c0, c1);
      forall k: nat
        ensures k in row <==> k in tiles && k / columns == r1 - 1 && c0 <= k % columns < c1
      {
        InRow(k, columns, r1 - 1, c0, c1);
      }
      forall k, l | k in above && l in row
        ensures k < l
      {
        QuotientOrder(k, l, columns);
      }
      AscendingConcat(above, row);
    }
  }

  lemma QuotientOrder(k: nat, l: nat, d: nat)
    requires d > 0 && k / d < l / d
    ensures k < l
  {
    assert k == d * (k / d) + k % d && l == d * (l / d) + l % d;
    ProductGrows(d, k / d + 1, l / d);
    assert d * (k / d + 1) == d * (k / d) + d;
  }

  lemma InRow(k: nat, columns: nat, row: nat, c0: nat, c1: nat)
    requires c1 <= columns && columns > 0
    ensures row * columns + c0 <= k < row * columns + c1 <==> k / columns == row && c0 <= k % columns < c1
  {
    if row * columns + c0 <= k < row * columns + c1 {
      FlatIndex(columns, row, k - row * columns);
    }
    assert k == columns * (k / columns) + k % columns;
  }

  ghost predicate Inside(rect: Rect, size: Size) {
    rect.x < size.width && rect.y < size.height && rect.x + rect.w <= size.width && rect.y + rect.h <= size.height
  }

  /** A stored cell meets the rectangle exactly when its row and column are in range. */
  lemma MeetsInRange(level: Level, rect: Rect, k: nat)
    requires Regular(level) && Inside(rect, level.size) && k in level.tiles
    ensures Intersects(rect, level.tiles[k].rect) <==>
        && rect.y / level.cell.height <= k / level.Columns() < DivCeil(rect.y + rect.h, level.cell.height)
        && rect.x / level.cell.width <= k % level.Columns() < DivCeil(rect.x + rect.w, level.cell.width)
  {
    var columns := level.Columns();
    level.CellCorner(k);
    AxisMeets(rect.x, rect.w, k % columns, level.cell.width, level.size.width);
    AxisMeets(rect.y, rect.h, k / columns, level.cell.height, level.size.height);
  }

  lemma AxisMeets(start: nat, length: nat, step: nat, cell: nat, side: nat)
    requires cell > 0 && start < side && start + length <= side <= U32_MAX && step * cell < side
    ensures step < DivCeil(start + length, cell) <==> step * cell < SaturatingAdd(start, length)
    ensures start / cell <= step <==> start < SaturatingAdd(step * cell, Min(cell, side - step * cell))
  {
    BelowDivCeil(step, start + length, cell);
    AtOrAfter(start, step, cell);
  }

  lemma AtOrAfter(start: nat, step: nat, cell: nat)
    requires cell > 0
    ensures start / cell <= step <==> start < step * cell + cell
  {
    assert start == cell * (start / cell) + start % cell;
    if start / cell <= step {
      ProductGrows(cell, start / cell, step);
    } else {
      ProductGrows(cell, step + 1, start / cell);
      assert cell * (step + 1) == step * cell + cell;
    }
  }

  /** On a regular level the row and column range reaches exactly the tiles, in the same order,
      that testing every tile finds. */
  lemma RangeIsFilter(level: Level, rect: Rect)
    requires Regular(level) && Inside(rect, level.size)
    ensures Reached(level, rect) == Meeting(level.tiles, rect, level.Columns() * level.Rows())
  {
    hide *;
    ReachedMembers(level, rect);
    var n := level.Columns() * level.Rows();
    MeetingMembers(level.tiles, rect, n);
    forall k
      ensures k in Reached(level, rect) <==> k in Meeting(level.tiles, rect, n)
    {
      if k in level.tiles { MeetsInRange(level, rect, k); }
    }
    SameAscending(Reached(level, rect), Meeting(level.tiles, rect, n));
  }

  lemma ReachedMembers(level: Level, rect: Rect)
    requires Regular(level) && Inside(rect, level.size)
    ensures level.Valid() && Ascending(Reached(level, rect))
    ensures forall k :: k in level.tiles ==> k < level.Columns() * level.Rows()
    ensures var columns := level.Columns();
      && columns > 0
      && forall k: nat :: k in Reached(level, rect) <==>
           && k in level.tiles
           && rect.y / level.cell.height <= k / columns < DivCeil(rect.y + rect.h, level.cell.height)
           && rect.x / level.cell.width <= k % columns < DivCeil(rect.x + rect.w, level.cell.width)
  {
    var r0, r1 := rect.y / level.cell.height, DivCeil(rect.y + rect.h, level.cell.height);
    var c0, c1 := rect.x / level.cell.width, DivCeil(rect.x + rect.w, level.cell.width);
    DivCeilGrows(rect.x + rect.w, level.size.width, level.cell.width);
    BelowDivCeil(0, level.size.width, level.cell.width);
    hide Intersects, DivCeil, Level.Rows, CellRange;
    CellRangeMembers(level.tiles, level.Columns(), r0, r1, c0, c1);
  }

  lemma DivCeilGrows(a: nat, b: nat, d: nat)
    requires a <= b && d > 0
    ensures DivCeil(a, d) <= DivCeil(b, d)
  {
    if DivCeil(a, d) > DivCeil(b, d) {
      BelowDivCeil(DivCeil(b, d), a, d);
      BelowDivCeil(DivCeil(b, d), b, d);
      assert false;
    }
  }

  // ---- Assembling a region -------------------------------------------------------------------

  datatype Error = MemoryLimit | Cancelled | DecodeFailed | EncodeFailed

  /** Tiles composited in order onto transparency, at one position. */
  function Composite(blend: Blend, tiles: map<nat, StoredTile>, keys: seq<nat>, x: nat, y: nat): Rgba {
    if keys == [] then CLEAR
    else
      var before, key := Composite(blend, tiles, keys[..|keys| - 1], x, y), keys[|keys| - 1];
      if key in tiles && tiles[key].Covers(x, y) then blend(before, tiles[key].At(x, y)) else before
  }

  /** The stored keys below `n`, in the map's order. */
  function StoredKeys(tiles: map<nat, StoredTile>, n: nat): seq<nat> {
    if n == 0 then [] else StoredKeys(tiles, n - 1) + (if n - 1 in tiles then [n - 1] else [])
  }

  /** The canvas of a level: all its tiles composited in key order. */
  function LevelPixel(blend: Blend, tiles: map<nat, StoredTile>, n: nat, x: nat, y: nat): Rgba {
    Composite(blend, tiles, StoredKeys(tiles, n), x, y)
  }

  lemma CompositeStep(blend: Blend, tiles: map<nat, StoredTile>, keys: seq<nat>, k: nat, x: nat, y: nat)
    requires k in tiles
    ensures Composite(blend, tiles, keys + [k], x, y)
         == if tiles[k].Covers(x, y) then blend(Composite(blend, tiles, keys, x, y), tiles[k].At(x, y))
            else Composite(blend, tiles, keys, x, y)
  {
    assert (keys + [k])[..|keys|] == keys;
  }

  lemma CoveringMeets(tile: StoredTile, rect: Rect, x: nat, y: nat)
    requires rect.Contains(x, y) && tile.Covers(x, y)
    requires rect.x + rect.w <= U32_MAX && rect.y + rect.h <= U32_MAX
    ensures Intersects(rect, tile.rect)
  {
  }

  /** Leaving out the tiles that do not meet the rectangle changes no pixel of it. */
  lemma {:induction false} MeetingIsEnough(blend: Blend, tiles: map<nat, StoredTile>, rect: Rect, n: nat, x: nat,
                                           y: nat)
    requires rect.Contains(x, y) && rect.x + rect.w <= U32_MAX && rect.y + rect.h <= U32_MAX
    ensures Composite(blend, tiles, Meeting(tiles, rect, n), x, y) == LevelPixel(blend, tiles, n, x, y)
  {
    if n > 0 {
      var met, all := Meeting(tiles, rect, n - 1), StoredKeys(tiles, n - 1);
      MeetingIsEnough(blend, tiles, rect, n - 1, x, y);
      hide Composite, Intersects, StoredTile.Covers;
      if n - 1 in tiles {
        CompositeStep(blend, tiles, all, n - 1, x, y);
        CompositeStep(blend, tiles, met, n - 1, x, y);
        if tiles[n - 1].Covers(x, y) { CoveringMeets(tiles[n - 1], rect, x, y); }
        assert StoredKeys(tiles, n) == all + [n - 1];
        assert Meeting(tiles, rect, n) == if Intersects(rect, tiles[n - 1].rect) then met + [n - 1] else met;
        hide StoredKeys, Meeting;
      } else {
        assert Meeting(tiles, rect, n) == met && StoredKeys(tiles, n) == all;
      }
    }
  }

  /** On a regular level a position shows the tile stored in its own cell, and only that. */
  lemma {:induction false} CellShows(blend: Blend, level: Level, n: nat, x: nat, y: nat)
    requires Regular(level) && x < level.size.width && y < level.size.height
    requires n <= level.Columns() * level.Rows()
    ensures LevelPixel(blend, level.tiles, n, x, y) == OwnCell(blend, level, n, x, y)
  {
    if n > 0 {
      CellShows(blend, level, n - 1, x, y);
      CellsPartition(level, x, y, n - 1);
      var tiles, all := level.tiles, StoredKeys(level.tiles, n - 1);
      assert n - 1 in tiles ==> tiles[n - 1].rect == level.RectAt(n - 1);
      hide Composite, Regular, Level.Columns, Level.Rows, Level.CellOf, Level.RectAt, Rect.Contains;
      if n - 1 in tiles {
        CompositeStep(blend, tiles, all, n - 1, x, y);
      } else {
        assert StoredKeys(tiles, n) == all;
      }
    }
  }

  /** What the tile stored in the cell of this position shows there, if its number is below `n`. */
  function OwnCell(blend: Blend, level: Level, n: nat, x: nat, y: nat): Rgba
    requires level.Valid()
  {
    var k := level.CellOf(x, y);
    if k < n && k in level.tiles && level.tiles[k].Covers(x, y) then blend(CLEAR, level.tiles[k].At(x, y)) else CLEAR
  }

  function Max(a: nat, b: nat): nat {
    if a < b then b else a
  }

  /** Crops the tile to the rectangle and composites it onto the region. */
  method Overlay(blend: Blend, region: array2<Rgba>, rect: Rect, tile: StoredTile)
    requires region.Length0 == rect.h && region.Length1 == rect.w
    requires tile.image.Some?
    requires Max(rect.x, tile.rect.x) <= Min(rect.x + rect.w, tile.rect.x + tile.rect.w)
    requires Max(rect.y, tile.rect.y) <= Min(rect.y + rect.h, tile.rect.y + tile.rect.h)
    modifies region
    ensures forall x, y :: 0 <= x < rect.w && 0 <= y < rect.h ==>
      region[y, x] == if tile.Covers(rect.x + x, rect.y + y)
                      then blend(old(region[y, x]), tile.At(rect.x + x, rect.y + y)) else old(region[y, x])
  {
    var image := tile.image.value;
    var left, top := Max(rect.x, tile.rect.x), Max(rect.y, tile.rect.y);
    var right := Min(rect.x + rect.w, tile.rect.x + tile.rect.w);
    var bottom := Min(rect.y + rect.h, tile.rect.y + tile.rect.h);
    var columns := Min(right - left, SaturatingSub(image.width, left - tile.rect.x));
    var rows := Min(bottom - top, SaturatingSub(image.height, top - tile.rect.y));
    var dy := 0;
    while dy < rows
      invariant 0 <= dy <= rows
      invariant forall x, y :: 0 <= x < rect.w && 0 <= y < rect.h ==>
        region[y, x] == if tile.Covers(rect.x + x, rect.y + y) && rect.y + y < top + dy
                        then blend(old(region[y, x]), tile.At(rect.x + x, rect.y + y)) else old(region[y, x])
    {
      var dx := 0;
      while dx < columns
        invariant 0 <= dx <= columns
        invariant forall x, y :: 0 <= x < rect.w && 0 <= y < rect.h ==>
          region[y, x] == if tile.Covers(rect.x + x, rect.y + y)
                             && (rect.y + y < top + dy || (rect.y + y == top + dy && rect.x + x < left + dx))
                          then blend(old(region[y, x]), tile.At(rect.x + x, rect.y + y)) else old(region[y, x])
      {
        var x, y := left - rect.x + dx, top - rect.y + dy;
        region[y, x] := blend(region[y, x], image.at(left - tile.rect.x + dx, top - tile.rect.y + dy));
        dx := dx + 1;
      }
      dy := dy + 1;
    }
  }

  lemma MeetsWithin(a: Rect, b: Rect)
    requires Intersects(a, b)
    ensures Max(a.x, b.x) <= Min(a.x + a.w, b.x + b.w) && Max(a.y, b.y) <= Min(a.y + a.h, b.y + b.h)
  {
  }

  /** Why one tile cannot be composited: the flag is up, it does not fit the budget beside the
      region, or it cannot be decoded. */
  function TileTrouble(tile: StoredTile, bytes: nat, budget: nat, stop: bool): Option<Error> {
    if stop then Some(Cancelled)
    else if bytes + tile.size.width * tile.size.height * 8 + tile.encodedLength > budget then Some(MemoryLimit)
    else if tile.image.None? then Some(DecodeFailed)
    else None
  }

  /** The first trouble among the tiles, in order. `cancelled` is the flag as it reads before each. */
  function Trouble(tiles: map<nat, StoredTile>, keys: seq<nat>, bytes: nat, budget: nat,
                   cancelled: nat -> bool): Option<Error> {
    if keys == [] then None
    else
      var last := |keys| - 1;
      var before := Trouble(tiles, keys[..last], bytes, budget, cancelled);
      if before.Some? || keys[last] !in tiles then before
      else TileTrouble(tiles[keys[last]], bytes, budget, cancelled(last))
  }

  lemma TroubleStep(tiles: map<nat, StoredTile>, keys: seq<nat>, k: nat, bytes: nat, budget: nat,
                    cancelled: nat -> bool)
    requires k < |keys| && keys[k] in tiles
    ensures Trouble(tiles, keys[..k + 1], bytes, budget, cancelled) ==
      var before := Trouble(tiles, keys[..k], bytes, budget, cancelled);
      if before.Some? then before else TileTrouble(tiles[keys[k]], bytes, budget, cancelled(k))
  {
    assert keys[..k + 1][..k] == keys[..k];
  }

  /** Once there is trouble, later tiles do not matter. */
  lemma {:induction false} TroubleStays(tiles: map<nat, StoredTile>, keys: seq<nat>, k: nat, bytes: nat, budget: nat,
                                        cancelled: nat -> bool)
    requires k <= |keys| && Trouble(tiles, keys[..k], bytes, budget, cancelled).Some?
    ensures Trouble(tiles, keys, bytes, budget, cancelled) == Trouble(tiles, keys[..k], bytes, budget, cancelled)
  {
    if k < |keys| {
      assert keys[..|keys| - 1][..k] == keys[..k];
      TroubleStays(tiles, keys[..|keys| - 1], k, bytes, budget, cancelled);
    } else {
      assert keys[..k] == keys;
    }
  }

  /** There is no trouble exactly if every tile is taken before a cancellation, fits, and decodes. */
  lemma {:induction false} NoTrouble(tiles: map<nat, StoredTile>, keys: seq<nat>, bytes: nat, budget: nat,
                                     cancelled: nat -> bool)
    requires forall i :: 0 <= i < |keys| ==> keys[i] in tiles
    ensures Trouble(tiles, keys, bytes, budget, cancelled).None? <==>
      forall i :: 0 <= i < |keys| ==>
        && !cancelled(i) && tiles[keys[i]].image.Some?
        && bytes + tiles[keys[i]].size.width * tiles[keys[i]].size.height * 8 + tiles[keys[i]].encodedLength <= budget
  {
    if keys != [] { NoTrouble(tiles, keys[..|keys| - 1], bytes, budget, cancelled); }
  }

  /** Composites the tiles in order onto a clear region, up to the first trouble. */
  method OverlayAll(blend: Blend, region: array2<Rgba>, tiles: map<nat, StoredTile>, keys: seq<nat>, rect: Rect,
                    budget: nat, cancelled: nat -> bool)
    returns (error: Option<Error>, decoded: nat)
    requires region.Length0 == rect.h && region.Length1 == rect.w
    requires forall x, y :: 0 <= x < rect.w && 0 <= y < rect.h ==> region[y, x] == CLEAR
    requires forall i :: 0 <= i < |keys| ==> keys[i] in tiles && Intersects(rect, tiles[keys[i]].rect)
    modifies region
    ensures error == Trouble(tiles, keys, rect.w * rect.h * 4, budget, cancelled)
    ensures error.None? ==> decoded == |keys| && forall x, y :: 0 <= x < rect.w && 0 <= y < rect.h ==>
      region[y, x] == Composite(blend, tiles, keys, rect.x + x, rect.y + y)
    ensures error == Some(DecodeFailed) ==> 0 < decoded <= |keys| && tiles[keys[decoded - 1]].image.None?
    ensures error == Some(Cancelled) ==> decoded < |keys| && cancelled(decoded)
    ensures forall i :: 0 <= i < decoded ==> !cancelled(i)
  {
    hide Intersects, StoredTile.Covers, Max, Min, Trouble;
    decoded := 0;
    var bytes := rect.w * rect.h * 4;
    NoTrouble(tiles, [], bytes, budget, cancelled);
    assert keys[..0] == [] && Trouble(tiles, [], bytes, budget, cancelled).None?;
    while decoded < |keys|
      invariant 0 <= decoded <= |keys| && Trouble(tiles, keys[..decoded], bytes, budget, cancelled).None?
      invariant forall i :: 0 <= i < decoded ==> !cancelled(i)
      invariant forall x, y :: 0 <= x < rect.w && 0 <= y < rect.h ==>
        region[y, x] == Composite(blend, tiles, keys[..decoded], rect.x + x, rect.y + y)
    {
      TroubleStep(tiles, keys, decoded, bytes, budget, cancelled);
      var tile := tiles[keys[decoded]];
      if TileTrouble(tile, bytes, budget, cancelled(decoded)).Some? {
        TroubleStays(tiles, keys, decoded + 1, bytes, budget, cancelled);
      }
      if cancelled(decoded) { return Some(Cancelled), decoded; }
      if bytes + tile.size.width * tile.size.height * 8 + tile.encodedLength > budget {
        return Some(MemoryLimit), decoded;
      }
      if tile.image.None? { return Some(DecodeFailed), decoded + 1; }
      MeetsWithin(rect, tile.rect);
      Overlay(blend, region, rect, tile);
      forall x, y | 0 <= x < rect.w && 0 <= y < rect.h
        ensures region[y, x] == Composite(blend, tiles, keys[..decoded] + [keys[decoded]], rect.x + x, rect.y + y)
      {
        CompositeStep(blend, tiles, keys[..decoded], keys[decoded], rect.x + x, rect.y + y);
      }
      assert keys[..decoded + 1] == keys[..decoded] + [keys[decoded]];
      decoded := decoded + 1;
    }
    assert keys[..decoded] == keys;
    error := None;
  }

  /** The tiles a region is assembled from: a range of cells, or every tile tested. */
  function Relevant(level: Level, n: nat, rect: Rect): seq<nat>
    requires level.Valid()
  {
    if level.regular then Reached(level, rect) else Meeting(level.tiles, rect, n)
  }

  /** The map holds no key from `n` on, and on a regular level `n` is the number of cells. */
  ghost predicate Bounded(level: Level, n: nat) {
    && level.Valid()
    && (if level.regular then Regular(level) && n == level.Columns() * level.Rows()
        else forall k :: k in level.tiles ==> k < n)
  }

  lemma RelevantIsMeeting(level: Level, n: nat, rect: Rect)
    requires Bounded(level, n) && (level.regular ==> Inside(rect, level.size))
    ensures Relevant(level, n, rect) == Meeting(level.tiles, rect, n)
    ensures forall i :: 0 <= i < |Relevant(level, n, rect)| ==>
      Relevant(level, n, rect)[i] in level.tiles && Intersects(rect, level.tiles[Relevant(level, n, rect)[i]].rect)
  {
    if level.regular { RangeIsFilter(level, rect); }
    MeetingMembers(level.tiles, rect, n);
    var keys := Relevant(level, n, rect);
    forall i | 0 <= i < |keys|
      ensures keys[i] in level.tiles && Intersects(rect, level.tiles[keys[i]].rect)
    {
      assert keys[i] in Meeting(level.tiles, rect, n);
    }
  }

  /** Why a region cannot be assembled, in terms of the tiles that meet it, however they are found. */
  function RegionTrouble(level: Level, n: nat, rect: Rect, budget: nat, cancelled: nat -> bool): Option<Error> {
    var bytes := rect.w * rect.h * 4;
    if bytes > budget then Some(MemoryLimit)
    else Trouble(level.tiles, Meeting(level.tiles, rect, n), bytes, budget, cancelled)
  }

  /** Assembles the rectangle: the result is the crop of the level's canvas, whichever way the
      tiles were found. It fails exactly for the first trouble among the tiles that meet it. */
  method Region(blend: Blend, level: Level, n: nat, rect: Rect, budget: nat, cancelled: nat -> bool)
    returns (r: Result<array2<Rgba>, Error>, decoded: nat)
    requires Bounded(level, n) && (level.regular ==> Inside(rect, level.size))
    requires rect.x + rect.w <= U32_MAX && rect.y + rect.h <= U32_MAX
    ensures r.Err? <==> RegionTrouble(level, n, rect, budget, cancelled).Some?
    ensures r.Err? ==> RegionTrouble(level, n, rect, budget, cancelled) == Some(r.error)
    ensures r.Ok? ==> fresh(r.value) && r.value.Length0 == rect.h && r.value.Length1 == rect.w
    ensures r.Ok? ==> forall x, y :: 0 <= x < rect.w && 0 <= y < rect.h ==>
      r.value[y, x] == LevelPixel(blend, level.tiles, n, rect.x + x, rect.y + y)
    ensures r.Ok? ==> decoded == |Meeting(level.tiles, rect, n)|
  {
    RelevantIsMeeting(level, n, rect);
    hide Bounded, Inside, Composite, LevelPixel, Meeting, Intersects, Relevant, Trouble;
    if rect.w * rect.h * 4 > budget { return Err(MemoryLimit), 0; }
    var region := new Rgba[rect.h, rect.w]((y, x) => CLEAR);
    var error;
    error, decoded := OverlayAll(blend, region, level.tiles, Relevant(level, n, rect), rect, budget, cancelled);
    if error.Some? { return Err(error.value), decoded; }
    forall x, y | 0 <= x < rect.w && 0 <= y < rect.h
      ensures region[y, x] == LevelPixel(blend, level.tiles, n, rect.x + x, rect.y + y)
    {
      MeetingIsEnough(blend, level.tiles, rect, n, rect.x + x, rect.y + y);
    }
    r := Ok(region);
  }

  /** Every cell has a tile. */
  ghost predicate Complete(level: Level) {
    && Regular(level)
    && forall k :: 0 <= k < level.Columns() * level.Rows() ==> k in level.tiles && level.tiles[k].image.Some?
  }

  /** A complete level of opaque tiles shows, at every position, the pixel of that cell's tile. */
  lemma CompleteLevelShowsItsTiles(blend: Blend, level: Level, x: nat, y: nat)
    requires OpaqueReplaces(blend) && Complete(level) && x < level.size.width && y < level.size.height
    ensures var k := level.CellOf(x, y);
      && k in level.tiles && level.tiles[k].Covers(x, y)
      && (level.tiles[k].At(x, y).a == 255 ==>
            LevelPixel(blend, level.tiles, level.Columns() * level.Rows(), x, y) == level.tiles[k].At(x, y))
  {
    var k := level.CellOf(x, y);
    CellIsCounted(level, x, y);
    CellsPartition(level, x, y, k);
    CellShows(blend, level, level.Columns() * level.Rows(), x, y);
  }
}
