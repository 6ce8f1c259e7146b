/** The lower levels of an image that an output can take over instead of making its own. */
module JobLevels {
  import opened Arithmetic
  import opened Options
  import opened Pyramids
  import opened TileLevels

  /** A grid in row-major order; a tile that cannot be made has no destination. */
  datatype Grid = Grid(image: Size, tile: Size, overlapping: bool, destinations: seq<Option<nat>>) {
    predicate Valid() {
      0 < tile.width && 0 < tile.height && image.width <= U32_MAX && image.height <= U32_MAX
    }
  }

  /** A probed source finds its geometry by measuring tiles; a generic one checks once more before
      each probe. */
  datatype Source = Tiled(grid: Grid) | Positioned(destinations: seq<Option<nat>>) | Probed(generic: bool)

  // ---- Levels that can be reused --------------------------------------------------------------------

  /** A level of the image with the size the pyramid needs next. */
  predicate Fits(level: Source, base: Grid, image: Size) {
    level.Tiled? && level.grid.image == image && level.grid.tile == base.tile && !level.grid.overlapping
  }

  /** The first level that fits, if any. */
  function Find(levels: seq<Source>, base: Grid, image: Size): (r: Option<Grid>)
    ensures r.Some? <==> exists i :: 0 <= i < |levels| && Fits(levels[i], base, image)
    ensures r.Some? ==> r.value.image == image && r.value.tile == base.tile && !r.value.overlapping
  {
    if levels == [] then None
    else if Fits(levels[0], base, image) then Some(levels[0].grid)
    else Find(levels[1..], base, image)
  }

  predicate CanReuse(zif: bool, source: Source) {
    && zif && source.Tiled? && !source.grid.overlapping
    && source.grid.tile.width == source.grid.tile.height && source.grid.tile.width % 16 == 0
  }

  /** The levels found at the first `depth` halvings of the base, in order. */
  function Lower(levels: seq<Source>, base: Grid, depth: nat): seq<Grid> {
    if depth == 0 then []
    else
      var found := Find(levels, base, LevelSize(base.image, depth));
      Lower(levels, base, depth - 1) + if found.Some? then [found.value] else []
  }

  /** The first halving that fits one tile. */
  ghost predicate LastHalving(base: Grid, depth: nat) {
    && !NeedsSmaller(LevelSize(base.image, depth), base.tile)
    && forall k: nat :: k < depth ==> NeedsSmaller(LevelSize(base.image, k), base.tile)
  }

  /** Looks for each halving of the base among the image's levels, down to one tile. */
  method ReusableLevels(levels: seq<Source>, base: Grid) returns (lower: seq<Grid>)
    requires base.Valid()
    ensures exists depth :: lower == Lower(levels, base, depth) && LastHalving(base, depth)
  {
    lower := [];
    var dimensions := base.image;
    ghost var depth: nat := 0;
    while NeedsSmaller(dimensions, base.tile)
      invariant dimensions == LevelSize(base.image, depth) && lower == Lower(levels, base, depth)
      invariant forall k: nat :: k < depth ==> NeedsSmaller(LevelSize(base.image, k), base.tile)
      decreases dimensions.width + dimensions.height
    {
      dimensions := Size(DivCeil(dimensions.width, 2), DivCeil(dimensions.height, 2));
      depth := depth + 1;
      var found := Find(levels, base, dimensions);
      if found.Some? { lower := lower + [found.value]; }
      assert dimensions == LevelSize(base.image, depth);
      hide Find;
    }
  }

  // ---- What is promised of them -----------------------------------------------------------------------

  /** The size of the base halved `d` times. */
  function HalvedSize(base: Grid, d: nat): Size {
    Size(DivCeil(base.image.width, Pow2(d)), DivCeil(base.image.height, Pow2(d)))
  }

  /** The base is halved once more as long as this is larger than one tile. */
  predicate LargerThanTile(base: Grid, d: nat) {
    HalvedSize(base, d).width > base.tile.width || HalvedSize(base, d).height > base.tile.height
  }

  /** The level is the first with this size, in tiles like the base's that do not overlap. */
  ghost predicate FirstOfSize(levels: seq<Source>, base: Grid, size: Size, grid: Grid) {
    && grid.image == size && grid.tile == base.tile && !grid.overlapping
    && exists j :: 0 <= j < |levels| && levels[j] == Tiled(grid) && NoneOfSize(levels[..j], base, size)
  }

  ghost predicate NoneOfSize(levels: seq<Source>, base: Grid, size: Size) {
    forall k :: 0 <= k < |levels| ==>
      !(levels[k].Tiled? && levels[k].grid.image == size && levels[k].grid.tile == base.tile
        && !levels[k].grid.overlapping)
  }

  /** Which lower levels may be taken over, from the output and the base: none, unless the output is ZIF and
      the base's tiles are square, do not overlap, and have sides that are multiples of 16; and then for
      each halving of the base that is larger than a tile before it, the first level of the next size. */
  ghost predicate ReusedAsPromised(zif: bool, levels: seq<Source>, source: Source, lower: seq<Grid>) {
    if zif && source.Tiled? && !source.grid.overlapping && source.grid.tile.width == source.grid.tile.height
       && source.grid.tile.width % 16 == 0 then
      && (forall i :: 0 <= i < |lower| ==> IsLevel(levels, source.grid, lower[i]))
      && (forall d: nat :: LargerThanTile(source.grid, d) ==> NoneMissed(levels, source.grid, lower, d))
      && (forall i, j :: 0 <= i < j < |lower| ==> Smaller(lower[j].image, lower[i].image))
    else lower == []
  }

  /** A halving's level is among those taken over, if there is one. */
  ghost predicate NoneMissed(levels: seq<Source>, base: Grid, lower: seq<Grid>, d: nat) {
    || NoneOfSize(levels, base, HalvedSize(base, d + 1))
    || exists i :: 0 <= i < |lower| && lower[i].image == HalvedSize(base, d + 1)
  }

  ghost predicate IsLevel(levels: seq<Source>, base: Grid, grid: Grid) {
    exists d: nat :: ReusedAt(levels, base, d, grid)
  }

  predicate Smaller(a: Size, b: Size) {
    a.width <= b.width && a.height <= b.height && a != b
  }

  ghost predicate ReusedAt(levels: seq<Source>, base: Grid, d: nat, grid: Grid) {
    LargerThanTile(base, d) && FirstOfSize(levels, base, HalvedSize(base, d + 1), grid)
  }

  lemma HalvedSizeIs(base: Grid, d: nat)
    ensures LevelSize(base.image, d) == HalvedSize(base, d)
    ensures NeedsSmaller(LevelSize(base.image, d), base.tile) <==> LargerThanTile(base, d)
  {
    HalvedIsDivCeil(base.image.width, d);
    HalvedIsDivCeil(base.image.height, d);
    hide Halved, DivCeil, Pow2;
  }

  lemma {:induction false} FindIsFirst(levels: seq<Source>, base: Grid, size: Size)
    ensures Find(levels, base, size).None? <==> NoneOfSize(levels, base, size)
    ensures Find(levels, base, size).Some? ==> FirstOfSize(levels, base, size, Find(levels, base, size).value)
  {
    if levels != [] && !Fits(levels[0], base, size) {
      var rest := levels[1..];
      FindIsFirst(rest, base, size);
      assert forall k :: 0 < k < |levels| ==> levels[k] == rest[k - 1];
      if Find(levels, base, size).Some? {
        var grid := Find(levels, base, size).value;
        var j :| 0 <= j < |rest| && rest[j] == Tiled(grid) && NoneOfSize(rest[..j], base, size);
        assert levels[..j + 1] == [levels[0]] + rest[..j];
        assert levels[j + 1] == Tiled(grid) && NoneOfSize(levels[..j + 1], base, size);
      }
    } else if levels != [] {
      assert levels[..0] == [] && NoneOfSize(levels[..0], base, size);
    }
  }

  ghost predicate IsLevelAbove(levels: seq<Source>, base: Grid, depth: nat, grid: Grid) {
    exists d: nat :: d < depth && ReusedAt(levels, base, d, grid)
  }

  /** What is found at some halving is a level of that size, and of the halvings above what fits is
      found. */
  lemma {:induction false} LowerIs(levels: seq<Source>, base: Grid, depth: nat)
    requires forall k: nat :: k < depth ==> LargerThanTile(base, k)
    ensures var lower := Lower(levels, base, depth);
      && (forall i :: 0 <= i < |lower| ==> IsLevelAbove(levels, base, depth, lower[i]))
      && (forall d: nat :: d < depth ==> NoneMissed(levels, base, lower, d))
  {
    if depth > 0 {
      var before, lower := Lower(levels, base, depth - 1), Lower(levels, base, depth);
      LowerIs(levels, base, depth - 1);
      LowerNext(levels, base, depth);
      LastFound(levels, base, depth);
      hide *;
      forall i | 0 <= i < |lower|
        ensures IsLevelAbove(levels, base, depth, lower[i])
      {
        if i < |before| { LevelsStay(levels, base, depth, before[i]); }
      }
      forall d: nat | d < depth
        ensures NoneMissed(levels, base, lower, d)
      {
        if d < depth - 1 { NoneMissedStays(levels, base, before, lower, d); }
      }
    }
  }

  /** What the last halving adds. */
  lemma LastFound(levels: seq<Source>, base: Grid, depth: nat)
    requires depth > 0 && LargerThanTile(base, depth - 1)
    ensures var before, lower := Lower(levels, base, depth - 1), Lower(levels, base, depth);
      && before <= lower && |lower| <= |before| + 1
      && (|lower| == |before| + 1 ==> IsLevelAbove(levels, base, depth, lower[|before|]))
      && NoneMissed(levels, base, lower, depth - 1)
  {
    LowerNext(levels, base, depth);
    HalvedSizeIs(base, depth);
    FindIsFirst(levels, base, HalvedSize(base, depth));
    var before, lower := Lower(levels, base, depth - 1), Lower(levels, base, depth);
    hide Find, HalvedSize, LargerThanTile, NoneOfSize, LevelSize, Lower;
    if |lower| > |before| {
      assert ReusedAt(levels, base, depth - 1, lower[|before|]);
      assert lower[|before|].image == HalvedSize(base, depth);
    }
  }

  lemma LowerNext(levels: seq<Source>, base: Grid, depth: nat)
    requires depth > 0
    ensures var found := Find(levels, base, LevelSize(base.image, depth));
      Lower(levels, base, depth) == Lower(levels, base, depth - 1) + if found.Some? then [found.value] else []
  {
    hide Find, LevelSize;
  }

  lemma LevelsStay(levels: seq<Source>, base: Grid, depth: nat, grid: Grid)
    requires depth > 0 && IsLevelAbove(levels, base, depth - 1, grid)
    ensures IsLevelAbove(levels, base, depth, grid)
  {
    hide ReusedAt;
  }

  lemma NoneMissedStays(levels: seq<Source>, base: Grid, before: seq<Grid>, lower: seq<Grid>, d: nat)
    requires before <= lower && NoneMissed(levels, base, before, d)
    ensures NoneMissed(levels, base, lower, d)
  {
    hide NoneOfSize, HalvedSize;
    if i :| 0 <= i < |before| && before[i].image == HalvedSize(base, d + 1) { assert lower[i] == before[i]; }
  }

  lemma HalvingShrinks(n: nat, k: nat)
    ensures Halved(n, k + 1) <= Halved(n, k) && (Halved(n, k) > 1 ==> Halved(n, k + 1) < Halved(n, k))
  {
    hide Halved;
    assert Halved(n, k + 1) == DivCeil(Halved(n, k), 2) by { HalvedNext(n, k); }
  }

  lemma HalvedNext(n: nat, k: nat)
    ensures Halved(n, k + 1) == DivCeil(Halved(n, k), 2)
  {
  }

  lemma {:induction false} SizesShrink(base: Grid, d: nat, e: nat)
    requires d < e && base.tile.width > 0 && base.tile.height > 0
    requires forall k: nat :: k < e ==> LargerThanTile(base, k)
    ensures Smaller(LevelSize(base.image, e), LevelSize(base.image, d))
  {
    HalvedSizeIs(base, e - 1);
    HalvingShrinks(base.image.width, e - 1);
    HalvingShrinks(base.image.height, e - 1);
    hide Halved, LargerThanTile;
    if d < e - 1 { SizesShrink(base, d, e - 1); }
  }

  lemma {:induction false} LowerShrinks(levels: seq<Source>, base: Grid, depth: nat)
    requires base.tile.width > 0 && base.tile.height > 0 && forall k: nat :: k < depth ==> LargerThanTile(base, k)
    ensures var lower := Lower(levels, base, depth);
      forall i, j :: 0 <= i < j < |lower| ==> Smaller(lower[j].image, lower[i].image)
  {
    if depth > 0 {
      LowerShrinks(levels, base, depth - 1);
      LowerIs(levels, base, depth - 1);
      HalvedSizeIs(base, depth);
      var before, lower := Lower(levels, base, depth - 1), Lower(levels, base, depth);
      LowerNext(levels, base, depth);
      hide Find, HalvedSize, LargerThanTile, LevelSize, Smaller, NoneOfSize, Lower, IsLevelAbove;
      forall i, j | 0 <= i < j < |lower|
        ensures Smaller(lower[j].image, lower[i].image)
      {
        assert lower[i] == before[i];
        if j == |before| { LastIsSmaller(levels, base, depth, before[i]); }
      }
    }
  }

  /** A level found above is larger. */
  lemma LastIsSmaller(levels: seq<Source>, base: Grid, depth: nat, grid: Grid)
    requires base.tile.width > 0 && base.tile.height > 0 && forall k: nat :: k < depth ==> LargerThanTile(base, k)
    requires depth > 0 && IsLevelAbove(levels, base, depth - 1, grid)
    ensures Smaller(LevelSize(base.image, depth), grid.image)
  {
    hide LargerThanTile, LevelSize, Smaller, HalvedSize;
    var d: nat :| d < depth - 1 && ReusedAt(levels, base, d, grid);
    HalvedSizeIs(base, d + 1);
    SizesShrink(base, d + 1, depth);
  }

  /** The levels found are as promised. */
  lemma LevelsAsPromised(zif: bool, levels: seq<Source>, source: Source, lower: seq<Grid>)
    requires source.Tiled? ==> source.grid.Valid()
    requires if CanReuse(zif, source) then
               exists depth :: lower == Lower(levels, source.grid, depth) && LastHalving(source.grid, depth)
             else lower == []
    ensures ReusedAsPromised(zif, levels, source, lower)
  {
    if CanReuse(zif, source) {
      var base := source.grid;
      var depth :| lower == Lower(levels, base, depth) && LastHalving(base, depth);
      forall d: nat
        ensures LargerThanTile(base, d) <==> d < depth
      {
        EndsAt(base, depth, d);
      }
      hide LastHalving, Lower, LargerThanTile, NoneMissed, Smaller, IsLevelAbove, IsLevel;
      LowerIs(levels, base, depth);
      LowerShrinks(levels, base, depth);
      forall i | 0 <= i < |lower|
        ensures IsLevel(levels, base, lower[i])
      {
        AboveIsLevel(levels, base, depth, lower[i]);
      }
    }
  }

  lemma AboveIsLevel(levels: seq<Source>, base: Grid, depth: nat, grid: Grid)
    requires IsLevelAbove(levels, base, depth, grid)
    ensures IsLevel(levels, base, grid)
  {
    hide ReusedAt;
  }

  lemma {:induction false} EndsAt(base: Grid, depth: nat, d: nat)
    requires LastHalving(base, depth)
    ensures LargerThanTile(base, d) <==> d < depth
  {
    HalvedSizeIs(base, d);
    if d > depth {
      EndsAt(base, depth, d - 1);
      HalvedSizeIs(base, d - 1);
      HalvingShrinks(base.image.width, d - 1);
      HalvingShrinks(base.image.height, d - 1);
    }
    hide Halved, LargerThanTile;
  }
}
