/** Triangle resampling of one level into the next, rectangle by rectangle, in coordinates of
    the whole level. Weights are real numbers. */
module Downsampling {
  import opened Arithmetic
  import opened Options
  import opened Pixels
  import opened TileLevels

  // ---- Weights along one axis ---------------------------------------------------------------

  type Weights = seq<(nat, real)>

  function Ceil(v: real): int {
    -((-v).Floor)
  }

  function Abs(v: real): real {
    if v < 0.0 then -v else v
  }

  function Center(pixel: nat, ratio: real): real {
    (pixel as real + 0.5) * ratio
  }

  /** First source position that can weigh in, and the end of the range. */
  function First(pixel: nat, ratio: real): nat {
    var left := (Center(pixel, ratio) - ratio).Floor;
    if left > 0 then left else 0
  }

  function End(pixel: nat, ratio: real, side: nat): int {
    var right := Ceil(Center(pixel, ratio) + ratio);
    if right < side then right else side
  }

  function Raw(p: nat, center: real, ratio: real): (w: real)
    requires ratio > 0.0
    ensures w >= 0.0
  {
    var w := 1.0 - Abs(p as real + 0.5 - center) / ratio;
    if w > 0.0 then w else 0.0
  }

  function RawWeights(pixel: nat, ratio: real, side: nat): (ws: Weights)
    requires ratio > 0.0
    ensures |ws| ==
      if End(pixel, ratio, side) > First(pixel, ratio) then End(pixel, ratio, side) - First(pixel, ratio) else 0
  {
    var first, end := First(pixel, ratio), End(pixel, ratio, side);
    seq(if end > first then end - first else 0,
        i requires 0 <= i => (first + i, Raw(first + i, Center(pixel, ratio), ratio)))
  }

  function Total(ws: Weights): real {
    if ws == [] then 0.0 else Total(ws[..|ws| - 1]) + ws[|ws| - 1].1
  }

  function Scaled(ws: Weights, divisor: real): (r: Weights)
    requires divisor != 0.0
    ensures |r| == |ws|
  {
    seq(|ws|, i requires 0 <= i < |ws| => (ws[i].0, ws[i].1 / divisor))
  }

  /** The weights of one target position, normalised. */
  function AxisWeights(pixel: nat, ratio: real, side: nat): (ws: Weights)
    requires ratio > 0.0 && Total(RawWeights(pixel, ratio, side)) != 0.0
    ensures |ws| == |RawWeights(pixel, ratio, side)|
  {
    var raw := RawWeights(pixel, ratio, side);
    Scaled(raw, Total(raw))
  }

  ghost predicate NonNegative(ws: Weights) {
    forall i :: 0 <= i < |ws| ==> ws[i].1 >= 0.0
  }

  lemma {:induction false} TotalAtLeast(ws: Weights, i: nat)
    requires NonNegative(ws) && i < |ws|
    ensures Total(ws) >= ws[i].1
  {
    var shorter := ws[..|ws| - 1];
    TotalNonNegative(shorter);
    if i < |ws| - 1 { TotalAtLeast(shorter, i); }
  }

  lemma {:induction false} TotalNonNegative(ws: Weights)
    requires NonNegative(ws)
    ensures Total(ws) >= 0.0
  {
    if ws != [] { TotalNonNegative(ws[..|ws| - 1]); }
  }

  lemma {:induction false} TotalScaled(ws: Weights, divisor: real)
    requires divisor != 0.0
    ensures Total(Scaled(ws, divisor)) == Total(ws) / divisor
  {
    if ws != [] {
      TotalScaled(ws[..|ws| - 1], divisor);
      assert Scaled(ws, divisor)[..|ws| - 1] == Scaled(ws[..|ws| - 1], divisor);
      Distributes(Total(ws[..|ws| - 1]), ws[|ws| - 1].1, divisor);
    }
  }

  lemma Distributes(a: real, b: real, divisor: real)
    requires divisor != 0.0
    ensures a / divisor + b / divisor == (a + b) / divisor
  {
  }

  /** One axis of a level reduced, kept, or enlarged at most twofold. */
  ghost predicate Axis(source: nat, target: nat) {
    0 < target <= 2 * source
  }

  function Ratio(source: nat, target: nat): real
    requires target > 0
  {
    source as real / target as real
  }

  lemma RatioTimes(source: nat, target: nat)
    requires target > 0
    ensures Ratio(source, target) * target as real == source as real
    ensures source > 0 ==> Ratio(source, target) > 0.0
  {
  }

  lemma CenterInside(pixel: nat, source: nat, target: nat)
    requires Axis(source, target) && pixel < target
    ensures var ratio := Ratio(source, target);
      ratio >= 0.5 && 0.0 < Center(pixel, ratio) < source as real && (ratio == 0.5 ==> target == 2 * source)
  {
    var ratio := Ratio(source, target);
    var s, t, c := source as real, target as real, pixel as real + 0.5;
    RatioTimes(source, target);
    assert t <= 2.0 * s && 0.0 < c < t;
    hide Ratio;
    AtLeastHalf(ratio, s, t);
    TimesLess(c, t, ratio);
  }

  lemma AtLeastHalf(ratio: real, s: real, t: real)
    requires t > 0.0 && ratio * t == s && t <= 2.0 * s
    ensures ratio >= 0.5
  {
    if ratio < 0.5 {
      TimesLess2(ratio, 0.5, t);
      assert false;
    }
  }

  lemma TimesLess2(a: real, b: real, c: real)
    requires a < b && c > 0.0
    ensures a * c < b * c
  {
  }

  lemma TimesLess(a: real, b: real, c: real)
    requires 0.0 < a < b && c > 0.0
    ensures 0.0 < a * c < b * c
  {
  }

  /** The source position under the centre is in range and has a positive weight. */
  lemma NearestWeighs(pixel: nat, source: nat, target: nat)
    requires Axis(source, target) && pixel < target
    ensures var ratio := Ratio(source, target); var p := Center(pixel, ratio).Floor;
      && ratio >= 0.5 && 0 <= p && First(pixel, ratio) <= p < End(pixel, ratio, source)
      && Raw(p, Center(pixel, ratio), ratio) > 0.0
  {
    CenterInside(pixel, source, target);
    var ratio := Ratio(source, target);
    var center := Center(pixel, ratio);
    var p := center.Floor;
    if ratio == 0.5 { HalfIsNoInteger(pixel, center); }
    assert Abs(p as real + 0.5 - center) < ratio;
    hide Ratio, Center;
    BelowOne(Abs(p as real + 0.5 - center), ratio);
  }

  /** Enlarged exactly twofold no centre falls between two source positions. */
  lemma HalfIsNoInteger(pixel: nat, center: real)
    requires center == (pixel as real + 0.5) * 0.5
    ensures center != center.Floor as real
  {
    var p := center.Floor;
    assert center == p as real ==> 4 * p == 2 * pixel + 1;
  }

  lemma BelowOne(a: real, b: real)
    requires 0.0 <= a < b
    ensures a / b < 1.0
  {
  }

  // ---- Where weights exist ------------------------------------------------------------------

  /** Enlarged more than twofold, some position lies too close to the middle between two source
      positions: this one. */
  function Unweighed(source: nat, target: nat): nat
    requires target > 2 * source
  {
    var excess := target - 2 * source;
    if source <= excess then 0 else 2 * DivCeil(source - excess, 2 * excess)
  }

  lemma UnweighedInside(source: nat, target: nat)
    requires target > 2 * source > 0
    ensures var m, excess := Unweighed(source, target) / 2, target - 2 * source;
      && Unweighed(source, target) == 2 * m < target
      && source - excess <= 2 * excess * m <= source + excess
  {
    var excess := target - 2 * source;
    if source > excess {
      var m := DivCeil(source - excess, 2 * excess);
      BelowDivCeil(m, source - excess, 2 * excess);
      BelowDivCeil(m - 1, source - excess, 2 * excess);
      hide DivCeil;
      assert (m - 1) * (2 * excess) == m * (2 * excess) - 2 * excess;
      Commutes(m, 2 * excess);
      ProductAtLeast(m, 2 * excess);
    }
  }

  lemma ProductAtLeast(m: nat, d: nat)
    requires d >= 2
    ensures d * m >= 2 * m
  {
  }

  /** Its centre is within half a step less the ratio of an integer. */
  lemma UnweighedCenter(source: nat, target: nat)
    requires target > 2 * source > 0
    ensures var ratio, x := Ratio(source, target), Unweighed(source, target);
      -(0.5 - ratio) <= Center(x, ratio) - (x / 2) as real <= 0.5 - ratio
  {
    var ratio, x := Ratio(source, target), Unweighed(source, target);
    var m, s, t, excess := x / 2, source as real, target as real, target - 2 * source;
    UnweighedInside(source, target);
    RatioTimes(source, target);
    var center := Center(x, ratio);
    assert center == (2.0 * m as real + 0.5) * ratio;
    hide Ratio, Center, Unweighed;
    var product := excess as real * m as real;
    ProductAsReal(excess, m);
    CenterTimes(ratio, t, s, m as real, center);
    Bounds(center - m as real, 0.5 - ratio, t, excess as real, s - 2.0 * product);
  }

  lemma ProductAsReal(a: nat, b: nat)
    ensures (a * b) as real == a as real * b as real
  {
  }

  lemma CenterTimes(ratio: real, t: real, s: real, m: real, center: real)
    requires ratio * t == s && center == (2.0 * m + 0.5) * ratio
    ensures 2.0 * ((center - m) * t) == s - 2.0 * ((t - 2.0 * s) * m)
    ensures 2.0 * ((0.5 - ratio) * t) == t - 2.0 * s
  {
    assert center * t == (2.0 * m + 0.5) * s;
  }

  lemma Bounds(u: real, h: real, t: real, e: real, q: real)
    requires t > 0.0 && 2.0 * (u * t) == q && 2.0 * (h * t) == e && -e <= q <= e
    ensures -h <= u <= h
  {
    Cancel(u, h, t);
    assert (-h) * t == -(h * t);
    Cancel(-h, u, t);
  }

  lemma Cancel(a: real, b: real, t: real)
    requires t > 0.0 && a * t <= b * t
    ensures a <= b
  {
    if a > b {
      TimesLess2(b, a, t);
      assert false;
    }
  }

  lemma {:induction false} TotalOfZeros(ws: Weights)
    requires forall i :: 0 <= i < |ws| ==> ws[i].1 == 0.0
    ensures Total(ws) == 0.0
  {
    if ws != [] { TotalOfZeros(ws[..|ws| - 1]); }
  }

  lemma NoneWeighs(source: nat, target: nat)
    requires target > 2 * source > 0
    ensures Unweighed(source, target) < target && Ratio(source, target) > 0.0
    ensures Total(RawWeights(Unweighed(source, target), Ratio(source, target), source)) == 0.0
  {
    var ratio, x := Ratio(source, target), Unweighed(source, target);
    UnweighedInside(source, target);
    UnweighedCenter(source, target);
    RatioTimes(source, target);
    var ws, first, center := RawWeights(x, ratio, source), First(x, ratio), Center(x, ratio);
    assert forall i :: 0 <= i < |ws| ==> ws[i].1 == Raw(first + i, center, ratio);
    hide Ratio, Unweighed, Center, First, RawWeights, Raw;
    forall i | 0 <= i < |ws|
      ensures ws[i].1 == 0.0
    {
      FarIsZero(first + i, x / 2, center, ratio);
    }
    TotalOfZeros(ws);
  }

  lemma FarIsZero(p: nat, m: nat, center: real, ratio: real)
    requires ratio > 0.0 && -(0.5 - ratio) <= center - m as real <= 0.5 - ratio
    ensures Raw(p, center, ratio) == 0.0
  {
    var distance := Abs(p as real + 0.5 - center);
    assert p >= m || p as real + 1.0 <= m as real;
    assert distance >= ratio;
    AtLeastOne(distance, ratio);
  }

  lemma AtLeastOne(a: real, b: real)
    requires 0.0 < b <= a
    ensures a / b >= 1.0
  {
  }

  /** Every position of an axis has weights exactly if it is enlarged at most twofold. Elsewhere the
      sum the weights are divided by is nought. */
  lemma WeightsExistExactly(source: nat, target: nat)
    requires source > 0 && target > 0
    ensures Ratio(source, target) > 0.0
    ensures (forall pixel: nat :: pixel < target ==> Total(RawWeights(pixel, Ratio(source, target), source)) > 0.0) <==>
      target <= 2 * source
  {
    RatioTimes(source, target);
    if target <= 2 * source {
      forall pixel: nat | pixel < target
        ensures Total(RawWeights(pixel, Ratio(source, target), source)) > 0.0
      {
        WeightsSumToOne(pixel, source, target);
      }
    } else {
      NoneWeighs(source, target);
    }
  }

  /** Every target position has weights, none negative, that sum to one. */
  lemma WeightsSumToOne(pixel: nat, source: nat, target: nat)
    requires Axis(source, target) && pixel < target
    ensures var ratio := Ratio(source, target);
      && ratio > 0.0 && Total(RawWeights(pixel, ratio, source)) > 0.0
      && AxisWeights(pixel, ratio, source) != [] && NonNegative(AxisWeights(pixel, ratio, source))
      && Total(AxisWeights(pixel, ratio, source)) == 1.0
  {
    NearestWeighs(pixel, source, target);
    var ratio := Ratio(source, target);
    var raw, i := RawWeights(pixel, ratio, source), Center(pixel, ratio).Floor - First(pixel, ratio);
    assert raw[i].1 == Raw(Center(pixel, ratio).Floor, Center(pixel, ratio), ratio);
    RawNonNegative(pixel, ratio, source);
    TotalAtLeast(raw, i);
    hide Ratio, Center, First, End, Raw, RawWeights, Total, NonNegative, Scaled;
    ScaledSumsToOne(raw);
  }

  lemma RawNonNegative(pixel: nat, ratio: real, side: nat)
    requires ratio > 0.0
    ensures NonNegative(RawWeights(pixel, ratio, side))
  {
    var ws, first, center := RawWeights(pixel, ratio, side), First(pixel, ratio), Center(pixel, ratio);
    forall i | 0 <= i < |ws|
      ensures ws[i].1 >= 0.0
    {
      assert ws[i].1 == Raw(first + i, center, ratio);
    }
  }

  lemma ScaledSumsToOne(ws: Weights)
    requires NonNegative(ws) && Total(ws) > 0.0
    ensures NonNegative(Scaled(ws, Total(ws))) && Total(Scaled(ws, Total(ws))) == 1.0
  {
    var total := Total(ws);
    TotalScaled(ws, total);
    SelfQuotient(total);
    hide Total;
    forall i | 0 <= i < |ws|
      ensures Scaled(ws, total)[i].1 >= 0.0
    {
      NonNegativeQuotient(ws[i].1, total);
    }
  }

  lemma SelfQuotient(a: real)
    requires a != 0.0
    ensures a / a == 1.0
  {
  }

  lemma NonNegativeQuotient(a: real, b: real)
    requires a >= 0.0 && b > 0.0
    ensures a / b >= 0.0
  {
  }

  /** The weights of one position fit what `axis_bytes` charges for it: twice the ratio, rounded
      up, plus two. */
  lemma WeightsFit(pixel: nat, ratio: real, side: nat)
    requires ratio > 0.0
    ensures |RawWeights(pixel, ratio, side)| <= Ceil(2.0 * ratio) + 1
  {
    var center := Center(pixel, ratio);
    var low, high := (center - ratio).Floor, Ceil(center + ratio);
    assert (high - low) as real < 2.0 * ratio + 2.0;
    assert high - low <= Ceil(2.0 * ratio) + 1;
  }

  /** Later target positions never start or end earlier. */
  lemma WindowsMoveForward(a: nat, b: nat, ratio: real, side: nat)
    requires ratio > 0.0 && a <= b
    ensures First(a, ratio) <= First(b, ratio) && End(a, ratio, side) <= End(b, ratio, side)
  {
    assert (a as real + 0.5) * ratio <= (b as real + 0.5) * ratio;
    var ca, cb := Center(a, ratio), Center(b, ratio);
    assert (ca - ratio).Floor <= (cb - ratio).Floor;
    assert (-(ca + ratio)).Floor >= (-(cb + ratio)).Floor;
  }

  /** The weights of one target position. */
  function PositionWeights(pixel: nat, source: nat, target: nat): (ws: Weights)
    requires Axis(source, target) && pixel < target
    ensures ws != []
  {
    WeightsSumToOne(pixel, source, target);
    AxisWeights(pixel, Ratio(source, target), source)
  }

  // ---- One resampled pixel ----------------------------------------------------------------

  type Picture = (nat, nat) -> Rgba

  /** Colours premultiplied by alpha; channel 3 is alpha itself. */
  function Channel(p: Rgba, c: nat): real
    requires c < 4
  {
    var a := p.a as real;
    if c == 0 then Premultiplied(p.r as real, a)
    else if c == 1 then Premultiplied(p.g as real, a)
    else if c == 2 then Premultiplied(p.b as real, a)
    else a
  }

  function Premultiplied(v: real, a: real): real {
    v * a / 255.0
  }

  function Weighted(v: real, w: real): real {
    v * w
  }

  /** Weighted sum of one channel along a source row. */
  function RowSum(picture: Picture, xs: Weights, c: nat, sy: nat): real
    requires c < 4
  {
    if xs == [] then 0.0
    else
      var (sx, wx) := xs[|xs| - 1];
      RowSum(picture, xs[..|xs| - 1], c, sy) + Weighted(Channel(picture(sx, sy), c), wx)
  }

  /** Weighted sum of one channel over the window of a target position. */
  function WindowSum(picture: Picture, xs: Weights, ys: Weights, c: nat): real
    requires c < 4
  {
    if ys == [] then 0.0
    else
      var (sy, wy) := ys[|ys| - 1];
      WindowSum(picture, xs, ys[..|ys| - 1], c) + Weighted(RowSum(picture, xs, c, sy), wy)
  }

  /** Rounded half away from zero, then clamped to a byte. */
  function ToByte(v: real): Byte {
    var n := if v >= 0.0 then (v + 0.5).Floor else -((-v + 0.5).Floor);
    if n < 0 then 0 else if n > 255 then 255 else n
  }

  function Restore(v: real, alpha: real): real
    requires alpha > 0.0
  {
    v * (255.0 / alpha)
  }

  function Finished(c0: real, c1: real, c2: real, alpha: real): Rgba {
    if alpha > 0.0 then
      Rgba(ToByte(Restore(c0, alpha)), ToByte(Restore(c1, alpha)), ToByte(Restore(c2, alpha)), ToByte(alpha))
    else Rgba(ToByte(c0), ToByte(c1), ToByte(c2), ToByte(alpha))
  }

  /** The resampled pixel of a target position, from the whole source picture. */
  function Resampled(picture: Picture, xs: Weights, ys: Weights): Rgba {
    Finished(WindowSum(picture, xs, ys, 0), WindowSum(picture, xs, ys, 1),
             WindowSum(picture, xs, ys, 2), WindowSum(picture, xs, ys, 3))
  }

  /** The target level as a whole: every position resampled from the source picture. */
  function Reduced(picture: Picture, source: Size, target: Size, x: nat, y: nat): Rgba
    requires Axis(source.width, target.width) && Axis(source.height, target.height)
    requires x < target.width && y < target.height
  {
    Resampled(picture, PositionWeights(x, source.width, target.width), PositionWeights(y, source.height, target.height))
  }

  // ---- The weight lists of a rectangle ----------------------------------------------------------

  /** The weight lists of positions `start` to `start + length` along one axis. */
  function AxisLists(start: nat, length: nat, source: nat, target: nat): (lists: seq<Weights>)
    requires Axis(source, target) && start + length <= target
    ensures |lists| == length
    ensures forall i :: 0 <= i < length ==> lists[i] == PositionWeights(start + i, source, target)
  {
    seq(length, i requires 0 <= i < length => PositionWeights(start + i, source, target))
  }

  /** The weights of a position are on consecutive source positions. */
  lemma PositionRange(pixel: nat, source: nat, target: nat)
    requires Axis(source, target) && pixel < target
    ensures var ratio := Ratio(source, target); var ws := PositionWeights(pixel, source, target);
      && ratio > 0.0 && |ws| == End(pixel, ratio, source) - First(pixel, ratio) && End(pixel, ratio, source) <= source
      && forall j :: 0 <= j < |ws| ==> ws[j].0 == First(pixel, ratio) + j
  {
    WeightsSumToOne(pixel, source, target);
    hide Ratio, First, Center, Raw, Total;
  }

  ghost predicate Within(lists: seq<Weights>, lo: nat, hi: nat) {
    forall i :: 0 <= i < |lists| ==> ListWithin(lists[i], lo, hi)
  }

  ghost predicate ListWithin(ws: Weights, lo: nat, hi: nat) {
    forall j :: 0 <= j < |ws| ==> lo <= ws[j].0 < hi
  }

  lemma ListInside(start: nat, end: nat, pixel: nat, source: nat, target: nat)
    requires Axis(source, target) && start <= pixel < end <= target
    ensures var ratio := Ratio(source, target);
      && ratio > 0.0 && End(end - 1, ratio, source) >= 0
      && ListWithin(PositionWeights(pixel, source, target), First(start, ratio), End(end - 1, ratio, source))
  {
    PositionRange(pixel, source, target);
    PositionRange(end - 1, source, target);
    var ratio := Ratio(source, target);
    hide Ratio, PositionWeights, First, End, Axis;
    WindowsMoveForward(start, pixel, ratio, source);
    WindowsMoveForward(pixel, end - 1, ratio, source);
  }

  /** The source columns a rectangle needs: from the first weight of its first list to the last of
      its last. */
  lemma ListsWithin(start: nat, length: nat, source: nat, target: nat)
    requires Axis(source, target) && 0 < length && start + length <= target
    ensures var lists := AxisLists(start, length, source, target);
      && lists[0] != [] && lists[length - 1] != []
      && var lo, hi := lists[0][0].0, lists[length - 1][|lists[length - 1]| - 1].0 + 1;
      lo < hi <= source && Within(lists, lo, hi)
  {
    hide PositionWeights, Ratio, AxisLists, First, End, ListWithin;
    var lists: seq<Weights> := AxisLists(start, length, source, target);
    var ratio, last := Ratio(source, target), start + length - 1;
    ListEnds(start, source, target);
    ListEnds(last, source, target);
    hide Axis;
    forall i | 0 <= i < |lists|
      ensures ListWithin(lists[i], First(start, ratio), End(last, ratio, source))
    {
      ListInside(start, start + length, start + i, source, target);
    }
    NonEmptyWindow(lists[0], First(start, ratio), End(last, ratio, source));
  }

  lemma ListEnds(pixel: nat, source: nat, target: nat)
    requires Axis(source, target) && pixel < target
    ensures var ratio := Ratio(source, target); var ws := PositionWeights(pixel, source, target);
      && ratio > 0.0 && ws[0].0 == First(pixel, ratio) && 0 <= End(pixel, ratio, source) <= source
      && ws[|ws| - 1].0 + 1 == End(pixel, ratio, source)
  {
    PositionRange(pixel, source, target);
    hide PositionWeights, Ratio, First, End, Axis;
  }

  lemma NonEmptyWindow(ws: Weights, lo: nat, hi: nat)
    requires ws != [] && ListWithin(ws, lo, hi)
    ensures lo < hi
  {
    assert lo <= ws[0].0 < hi;
  }

  /** What is charged for the weight lists along one axis. */
  function AxisBytes(length: nat, ratio: real): int {
    length * (24 + (Ceil(2.0 * ratio) + 2) * 16)
  }

  /** Bytes the weight lists take: a list header each, and sixteen bytes a weight. */
  function ListBytes(lists: seq<Weights>): nat {
    if lists == [] then 0 else ListBytes(lists[..|lists| - 1]) + 24 + |lists[|lists| - 1]| * 16
  }

  /** The weight lists fit what is charged for them. */
  lemma {:induction false} ListsFit(start: nat, length: nat, source: nat, target: nat)
    requires Axis(source, target) && start + length <= target
    ensures ListBytes(AxisLists(start, length, source, target)) <= AxisBytes(length, Ratio(source, target))
  {
    if length == 0 {
      NothingCharged(start, source, target);
    } else {
      hide *;
      ListsFit(start, length - 1, source, target);
      PositionFits(start + length - 1, source, target);
      OneListMore(start, length - 1, source, target);
      OneListCharged(length - 1, Ratio(source, target));
    }
  }

  lemma NothingCharged(start: nat, source: nat, target: nat)
    requires Axis(source, target) && start <= target
    ensures ListBytes(AxisLists(start, 0, source, target)) == 0 == AxisBytes(0, Ratio(source, target))
  {
    hide Ratio, PositionWeights, Ceil;
    assert AxisLists(start, 0, source, target) == [];
  }

  lemma OneListMore(start: nat, length: nat, source: nat, target: nat)
    requires Axis(source, target) && start + length < target
    ensures ListBytes(AxisLists(start, length + 1, source, target)) ==
      ListBytes(AxisLists(start, length, source, target)) + 24 + |PositionWeights(start + length, source, target)| * 16
  {
    var lists := AxisLists(start, length + 1, source, target);
    hide Ratio, PositionWeights, Ceil;
    assert lists[..length] == AxisLists(start, length, source, target);
  }

  lemma OneListCharged(length: nat, ratio: real)
    ensures AxisBytes(length + 1, ratio) == AxisBytes(length, ratio) + 24 + (Ceil(2.0 * ratio) + 2) * 16
  {
    var each := 24 + (Ceil(2.0 * ratio) + 2) * 16;
    hide Ceil;
    assert (length + 1) * each == length * each + each;
  }

  lemma PositionFits(pixel: nat, source: nat, target: nat)
    requires Axis(source, target) && pixel < target
    ensures |PositionWeights(pixel, source, target)| <= Ceil(2.0 * Ratio(source, target)) + 1
  {
    WeightsSumToOne(pixel, source, target);
    WeightsFit(pixel, Ratio(source, target), source);
  }

  lemma AddProduct(a: real, b: real, c: real, d: real)
    ensures Weighted(a + Weighted(b, c), d) == Weighted(a, d) + b * c * d
  {
    assert (a + b * c) * d == a * d + b * c * d;
  }

  lemma NothingWeighted(d: real)
    ensures Weighted(0.0, d) == 0.0
  {
  }

  lemma RowStep(picture: Picture, xs: Weights, c: nat, sy: nat, j: nat)
    requires c < 4 && j < |xs|
    ensures RowSum(picture, xs[..j + 1], c, sy) ==
      RowSum(picture, xs[..j], c, sy) + Weighted(Channel(picture(xs[j].0, sy), c), xs[j].1)
  {
    assert xs[..j + 1][..j] == xs[..j];
    hide Channel, Weighted;
  }

  lemma WindowStep(picture: Picture, xs: Weights, ys: Weights, c: nat, i: nat)
    requires c < 4 && i < |ys|
    ensures WindowSum(picture, xs, ys[..i + 1], c) ==
      WindowSum(picture, xs, ys[..i], c) + Weighted(RowSum(picture, xs, c, ys[i].0), ys[i].1)
  {
    assert ys[..i + 1][..i] == ys[..i];
    hide RowSum, Weighted;
  }

  lemma NothingSummed(picture: Picture, xs: Weights, c: nat, sy: nat)
    requires c < 4
    ensures RowSum(picture, [], c, sy) == 0.0 && WindowSum(picture, xs, [], c) == 0.0
  {
  }

  /** Accumulates one channel over the window, from the assembled input. */
  method SumWindow(input: array2<Rgba>, left: nat, top: nat, xs: Weights, ys: Weights, c: nat, ghost picture: Picture)
    returns (sum: real)
    requires c < 4
    requires forall i, j :: 0 <= i < |ys| && 0 <= j < |xs| ==>
      && top <= ys[i].0 < top + input.Length0 && left <= xs[j].0 < left + input.Length1
      && input[ys[i].0 - top, xs[j].0 - left] == picture(xs[j].0, ys[i].0)
    ensures sum == WindowSum(picture, xs, ys, c)
  {
    hide *;
    sum := 0.0;
    var i := 0;
    assert ys[..0] == [] && xs[..0] == [];
    NothingSummed(picture, xs, c, 0);
    while i < |ys|
      invariant 0 <= i <= |ys| && sum == WindowSum(picture, xs, ys[..i], c)
    {
      var (sy, wy) := ys[i];
      var j := 0;
      NothingSummed(picture, xs, c, sy);
      NothingWeighted(wy);
      while j < |xs|
        invariant 0 <= j <= |xs|
        invariant sum == WindowSum(picture, xs, ys[..i], c) + Weighted(RowSum(picture, xs[..j], c, sy), wy)
      {
        var (sx, wx) := xs[j];
        var p := input[sy - top, sx - left];
        AddProduct(RowSum(picture, xs[..j], c, sy), Channel(p, c), wx, wy);
        RowStep(picture, xs, c, sy, j);
        sum := sum + Channel(p, c) * wx * wy;
        j := j + 1;
      }
      assert xs[..j] == xs;
      WindowStep(picture, xs, ys, c, i);
      i := i + 1;
    }
    assert ys[..i] == ys;
  }

  /** Fills the output from the assembled input, pixel by pixel. */
  method FillFrom(input: array2<Rgba>, left: nat, top: nat, xs: seq<Weights>, ys: seq<Weights>, ghost picture: Picture)
    returns (out: array2<Rgba>)
    requires forall sx: nat, sy: nat :: left <= sx < left + input.Length1 && top <= sy < top + input.Length0 ==>
      input[sy - top, sx - left] == picture(sx, sy)
    requires Within(xs, left, left + input.Length1) && Within(ys, top, top + input.Length0)
    ensures fresh(out) && out.Length0 == |ys| && out.Length1 == |xs|
    ensures forall x, y :: 0 <= x < |xs| && 0 <= y < |ys| ==> out[y, x] == Resampled(picture, xs[x], ys[y])
  {
    hide WindowSum, Finished;
    out := new Rgba[|ys|, |xs|]((y, x) => CLEAR);
    var y := 0;
    while y < |ys|
      invariant 0 <= y <= |ys|
      invariant forall i, j :: 0 <= i < |xs| && 0 <= j < y ==> out[j, i] == Resampled(picture, xs[i], ys[j])
    {
      var x := 0;
      while x < |xs|
        invariant 0 <= x <= |xs|
        invariant forall i, j :: 0 <= i < |xs| && 0 <= j < y ==> out[j, i] == Resampled(picture, xs[i], ys[j])
        invariant forall i :: 0 <= i < x ==> out[y, i] == Resampled(picture, xs[i], ys[y])
      {
        var c0 := SumWindow(input, left, top, xs[x], ys[y], 0, picture);
        var c1 := SumWindow(input, left, top, xs[x], ys[y], 1, picture);
        var c2 := SumWindow(input, left, top, xs[x], ys[y], 2, picture);
        var alpha := SumWindow(input, left, top, xs[x], ys[y], 3, picture);
        out[y, x] := Finished(c0, c1, c2, alpha);
        x := x + 1;
      }
      y := y + 1;
    }
  }

  /** The canvas of a level, as a picture. */
  function LevelPicture(blend: Blend, level: Level, n: nat): Picture {
    (x: nat, y: nat) => LevelPixel(blend, level.tiles, n, x, y)
  }

  lemma ReducedAt(picture: Picture, source: Size, target: Size, rect: Rect, x: nat, y: nat)
    requires Axis(source.width, target.width) && Axis(source.height, target.height)
    requires rect.x + rect.w <= target.width && rect.y + rect.h <= target.height && x < rect.w && y < rect.h
    ensures Reduced(picture, source, target, rect.x + x, rect.y + y) ==
      Resampled(picture, AxisLists(rect.x, rect.w, source.width, target.width)[x],
                AxisLists(rect.y, rect.h, source.height, target.height)[y])
  {
  }

  /** The source rectangle two axes of weight lists reach over. */
  function Window(xs: seq<Weights>, ys: seq<Weights>): Rect
    requires |xs| > 0 && |ys| > 0
    requires xs[0] != [] && xs[|xs| - 1] != [] && ys[0] != [] && ys[|ys| - 1] != []
    requires xs[0][0].0 <= xs[|xs| - 1][|xs[|xs| - 1]| - 1].0 && ys[0][0].0 <= ys[|ys| - 1][|ys[|ys| - 1]| - 1].0
  {
    var left, top := xs[0][0].0, ys[0][0].0;
    Rect(left, top, xs[|xs| - 1][|xs[|xs| - 1]| - 1].0 + 1 - left, ys[|ys| - 1][|ys[|ys| - 1]| - 1].0 + 1 - top)
  }

  /** Why a rectangle cannot be resampled: its buffers do not fit the budget, or the source
      rectangle it needs cannot be assembled in what is left. */
  function DownsampleTrouble(source: Level, n: nat, target: Size, rect: Rect, budget: nat,
                             cancelled: nat -> bool): Option<Error>
    requires Axis(source.size.width, target.width) && Axis(source.size.height, target.height)
    requires 0 < rect.w && rect.x + rect.w <= target.width && 0 < rect.h && rect.y + rect.h <= target.height
  {
    var charged := rect.w * rect.h * 4 + AxisBytes(rect.w, Ratio(source.size.width, target.width))
                   + AxisBytes(rect.h, Ratio(source.size.height, target.height));
    if charged > budget then Some(MemoryLimit)
    else
      ListsFit(rect.x, rect.w, source.size.width, target.width);
      ListsFit(rect.y, rect.h, source.size.height, target.height);
      ListsWithin(rect.x, rect.w, source.size.width, target.width);
      ListsWithin(rect.y, rect.h, source.size.height, target.height);
      RegionTrouble(source, n, Window(AxisLists(rect.x, rect.w, source.size.width, target.width),
                                      AxisLists(rect.y, rect.h, source.size.height, target.height)),
                    budget - charged, cancelled)
  }

  /** Assembles the source pixels the weight lists need, and resamples from them. */
  method FromSource(blend: Blend, source: Level, n: nat, xs: seq<Weights>, ys: seq<Weights>, budget: int,
                    cancelled: nat -> bool)
    returns (r: Result<array2<Rgba>, Error>, decoded: nat)
    requires Bounded(source, n) && |xs| > 0 && |ys| > 0 && budget >= 0
    requires xs[0] != [] && xs[|xs| - 1] != [] && ys[0] != [] && ys[|ys| - 1] != []
    requires var lo, hi := xs[0][0].0, xs[|xs| - 1][|xs[|xs| - 1]| - 1].0 + 1;
      lo < hi <= source.size.width && Within(xs, lo, hi)
    requires var lo, hi := ys[0][0].0, ys[|ys| - 1][|ys[|ys| - 1]| - 1].0 + 1;
      lo < hi <= source.size.height && Within(ys, lo, hi)
    ensures r.Err? <==> RegionTrouble(source, n, Window(xs, ys), budget, cancelled).Some?
    ensures r.Err? ==> RegionTrouble(source, n, Window(xs, ys), budget, cancelled) == Some(r.error)
    ensures r.Ok? ==> fresh(r.value) && r.value.Length0 == |ys| && r.value.Length1 == |xs|
    ensures r.Ok? ==> forall x, y :: 0 <= x < |xs| && 0 <= y < |ys| ==>
      r.value[y, x] == Resampled(LevelPicture(blend, source, n), xs[x], ys[y])
  {
    assert source.Valid();
    hide Bounded, Within, Resampled, LevelPixel, RegionTrouble;
    var left, top := xs[0][0].0, ys[0][0].0;
    var right, bottom := xs[|xs| - 1][|xs[|xs| - 1]| - 1].0 + 1, ys[|ys| - 1][|ys[|ys| - 1]| - 1].0 + 1;
    var region;
    region, decoded := Region(blend, source, n, Rect(left, top, right - left, bottom - top), budget, cancelled);
    if region.Err? { return Err(region.error), decoded; }
    ghost var picture := LevelPicture(blend, source, n);
    var out := FillFrom(region.value, left, top, xs, ys, picture);
    r := Ok(out);
  }

  /** The output pixels and the weight lists actually built fit the budget. */
  ghost predicate BuffersFit(rect: Rect, source: Size, target: Size, budget: nat)
    requires Axis(source.width, target.width) && Axis(source.height, target.height)
    requires rect.x + rect.w <= target.width && rect.y + rect.h <= target.height
  {
    rect.w * rect.h * 4 + ListBytes(AxisLists(rect.x, rect.w, source.width, target.width))
    + ListBytes(AxisLists(rect.y, rect.h, source.height, target.height)) <= budget
  }

  /** Resamples one rectangle of the target level. Whatever the rectangle, each pixel is the one
      the whole target level has there. It fails exactly for want of memory or for trouble with the
      source tiles it needs. */
  method Downsample(blend: Blend, source: Level, n: nat, target: Size, rect: Rect, budget: nat, cancelled: nat -> bool)
    returns (r: Result<array2<Rgba>, Error>, decoded: nat)
    requires Bounded(source, n) && Axis(source.size.width, target.width) && Axis(source.size.height, target.height)
    requires 0 < rect.w && rect.x + rect.w <= target.width && 0 < rect.h && rect.y + rect.h <= target.height
    ensures r.Err? <==> DownsampleTrouble(source, n, target, rect, budget, cancelled).Some?
    ensures r.Err? ==> DownsampleTrouble(source, n, target, rect, budget, cancelled) == Some(r.error)
    ensures r.Ok? ==> fresh(r.value) && r.value.Length0 == rect.h && r.value.Length1 == rect.w
    ensures r.Ok? ==> forall x: nat, y: nat :: x < rect.w && y < rect.h ==>
      r.value[y, x] == Reduced(LevelPicture(blend, source, n), source.size, target, rect.x + x, rect.y + y)
    ensures r.Ok? ==> BuffersFit(rect, source.size, target, budget)
  {
    hide Bounded, Within, Reduced, AxisLists, PositionWeights, Resampled, LevelPixel, AxisBytes, ListBytes, Ratio;
    hide Level.Columns, Level.Rows, LevelPicture, RegionTrouble, Window;
    var rx, ry := Ratio(source.size.width, target.width), Ratio(source.size.height, target.height);
    var outputBytes, weightBytes := rect.w * rect.h * 4, AxisBytes(rect.w, rx) + AxisBytes(rect.h, ry);
    ListsFit(rect.x, rect.w, source.size.width, target.width);
    ListsFit(rect.y, rect.h, source.size.height, target.height);
    if outputBytes + weightBytes > budget { return Err(MemoryLimit), 0; }
    var xs: seq<Weights> := AxisLists(rect.x, rect.w, source.size.width, target.width);
    var ys: seq<Weights> := AxisLists(rect.y, rect.h, source.size.height, target.height);
    ListsWithin(rect.x, rect.w, source.size.width, target.width);
    ListsWithin(rect.y, rect.h, source.size.height, target.height);
    hide Axis;
    r, decoded := FromSource(blend, source, n, xs, ys, budget - outputBytes - weightBytes, cancelled);
    ghost var picture := LevelPicture(blend, source, n);
    if r.Ok? {
      forall x: nat, y: nat | x < rect.w && y < rect.h
        ensures r.value[y, x] == Reduced(picture, source.size, target, rect.x + x, rect.y + y)
      {
        ReducedAt(picture, source.size, target, rect, x, y);
      }
    }
  }

  // ---- What the weights preserve ------------------------------------------------------------

  lemma ChannelRange(p: Rgba, c: nat)
    requires c < 4
    ensures 0.0 <= Channel(p, c) <= Channel(p, 3) <= 255.0
  {
    PremultipliedRange(p.r as real, p.a as real);
    PremultipliedRange(p.g as real, p.a as real);
    PremultipliedRange(p.b as real, p.a as real);
    hide Premultiplied;
  }

  lemma PremultipliedRange(v: real, a: real)
    requires 0.0 <= v <= 255.0 && 0.0 <= a
    ensures 0.0 <= Premultiplied(v, a) <= a
  {
    assert v * a <= 255.0 * a;
  }

  lemma StepRange(a: real, b: real, total: real, u: real, v: real, w: real)
    requires 0.0 <= a <= b <= 255.0 * total && 0.0 <= u <= v <= 255.0 && w >= 0.0
    ensures 0.0 <= a + Weighted(u, w) <= b + Weighted(v, w) <= 255.0 * (total + w)
  {
    assert u * w <= v * w <= 255.0 * w;
  }

  lemma {:induction false} RowSumRange(picture: Picture, xs: Weights, c: nat, sy: nat)
    requires c < 4 && NonNegative(xs)
    ensures 0.0 <= RowSum(picture, xs, c, sy) <= RowSum(picture, xs, 3, sy) <= 255.0 * Total(xs)
  {
    if xs != [] {
      var shorter := xs[..|xs| - 1];
      var (sx, wx) := xs[|xs| - 1];
      RowSumRange(picture, shorter, c, sy);
      var p := picture(sx, sy);
      ChannelRange(p, c);
      hide Channel;
      StepRange(RowSum(picture, shorter, c, sy), RowSum(picture, shorter, 3, sy), Total(shorter),
                Channel(p, c), Channel(p, 3), wx);
    }
  }

  lemma {:induction false} WindowSumRange(picture: Picture, xs: Weights, ys: Weights, c: nat)
    requires c < 4 && NonNegative(xs) && NonNegative(ys) && Total(xs) == 1.0
    ensures 0.0 <= WindowSum(picture, xs, ys, c) <= WindowSum(picture, xs, ys, 3) <= 255.0 * Total(ys)
  {
    if ys != [] {
      var shorter := ys[..|ys| - 1];
      var (sy, wy) := ys[|ys| - 1];
      var u, v := RowSum(picture, xs, c, sy), RowSum(picture, xs, 3, sy);
      RowSumRange(picture, xs, c, sy);
      WindowSumRange(picture, xs, shorter, c);
      hide RowSum, NonNegative, Weighted;
      StepRange(WindowSum(picture, xs, shorter, c), WindowSum(picture, xs, shorter, 3), Total(shorter), u, v, wy);
    }
  }

  lemma RestoreRange(v: real, alpha: real)
    requires 0.0 <= v <= alpha && alpha > 0.0
    ensures 0.0 <= Restore(v, alpha) <= 255.0
  {
    var k := 255.0 / alpha;
    assert alpha * k == 255.0 && k > 0.0;
    assert v * k <= alpha * k;
  }

  /** Every resampled channel is between 0 and 255 before it is rounded: the clamp never
      changes a value. */
  lemma ClampNeverFires(picture: Picture, xs: Weights, ys: Weights, c: nat)
    requires c < 3 && NonNegative(xs) && NonNegative(ys) && Total(xs) == 1.0 && Total(ys) == 1.0
    ensures var v, alpha := WindowSum(picture, xs, ys, c), WindowSum(picture, xs, ys, 3);
      && 0.0 <= alpha <= 255.0 && (alpha == 0.0 ==> v == 0.0)
      && (alpha > 0.0 ==> 0.0 <= Restore(v, alpha) <= 255.0)
  {
    WindowSumRange(picture, xs, ys, c);
    var v, alpha := WindowSum(picture, xs, ys, c), WindowSum(picture, xs, ys, 3);
    hide WindowSum;
    if alpha > 0.0 { RestoreRange(v, alpha); }
  }

  function Flat(p: Rgba): Picture {
    (x: nat, y: nat) => p
  }

  lemma {:induction false} FlatRow(p: Rgba, xs: Weights, c: nat, sy: nat)
    requires c < 4
    ensures RowSum(Flat(p), xs, c, sy) == Channel(p, c) * Total(xs)
  {
    if xs != [] {
      FlatRow(p, xs[..|xs| - 1], c, sy);
      hide Channel;
      var v := Channel(p, c);
      assert v * (Total(xs[..|xs| - 1]) + xs[|xs| - 1].1) == v * Total(xs[..|xs| - 1]) + v * xs[|xs| - 1].1;
    }
  }

  lemma {:induction false} FlatWindow(p: Rgba, xs: Weights, ys: Weights, c: nat)
    requires c < 4 && Total(xs) == 1.0
    ensures WindowSum(Flat(p), xs, ys, c) == Channel(p, c) * Total(ys)
    ensures Total(ys) == 1.0 ==> WindowSum(Flat(p), xs, ys, c) == Channel(p, c)
  {
    if ys != [] {
      FlatWindow(p, xs, ys[..|ys| - 1], c);
      FlatRow(p, xs, c, ys[|ys| - 1].0);
      hide Channel, RowSum, Flat;
      var v := Channel(p, c);
      assert v * (Total(ys[..|ys| - 1]) + ys[|ys| - 1].1) == v * Total(ys[..|ys| - 1]) + v * ys[|ys| - 1].1;
    }
  }

  lemma Restored(v: Byte, a: Byte)
    requires a > 0
    ensures ToByte(Restore(Premultiplied(v as real, a as real), a as real)) == v
  {
    var x, y := v as real, a as real;
    assert x * y / 255.0 * (255.0 / y) == x;
  }

  lemma FlatFinish(p: Rgba)
    requires p.a > 0
    ensures Finished(Channel(p, 0), Channel(p, 1), Channel(p, 2), Channel(p, 3)) == p
  {
    Restored(p.r, p.a);
    Restored(p.g, p.a);
    Restored(p.b, p.a);
    WholeByte(p.a);
    hide ToByte, Premultiplied, Restore;
  }

  lemma WholeByte(v: Byte)
    ensures ToByte(v as real) == v
  {
  }

  /** A picture of one visible colour is reduced to exactly that colour; an invisible one loses
      its hidden colour and becomes clear. */
  lemma FlatColorIsKept(p: Rgba, source: Size, target: Size, x: nat, y: nat)
    requires Axis(source.width, target.width) && Axis(source.height, target.height)
    requires x < target.width && y < target.height
    ensures Reduced(Flat(p), source, target, x, y) == if p.a > 0 then p else CLEAR
  {
    var xs, ys := PositionWeights(x, source.width, target.width), PositionWeights(y, source.height, target.height);
    WeightsSumToOne(x, source.width, target.width);
    WeightsSumToOne(y, source.height, target.height);
    hide PositionWeights;
    FlatWindow(p, xs, ys, 0);
    FlatWindow(p, xs, ys, 1);
    FlatWindow(p, xs, ys, 2);
    FlatWindow(p, xs, ys, 3);
    hide WindowSum, Total, Finished, Channel;
    if p.a > 0 { FlatFinish(p); }
  }

  // ---- Opaque pictures ------------------------------------------------------------------------

  ghost predicate Opaque(picture: Picture, size: Size) {
    forall x: nat, y: nat :: x < size.width && y < size.height ==> picture(x, y).a == 255
  }

  lemma {:induction false} OpaqueRow(picture: Picture, size: Size, xs: Weights, sy: nat)
    requires Opaque(picture, size) && ListWithin(xs, 0, size.width) && sy < size.height
    ensures RowSum(picture, xs, 3, sy) == 255.0 * Total(xs)
  {
    if xs != [] {
      OpaqueRow(picture, size, xs[..|xs| - 1], sy);
      assert Channel(picture(xs[|xs| - 1].0, sy), 3) == 255.0;
      hide Channel, Opaque;
    }
  }

  lemma {:induction false} OpaqueWindow(picture: Picture, size: Size, xs: Weights, ys: Weights)
    requires Opaque(picture, size) && ListWithin(xs, 0, size.width)
    requires ListWithin(ys, 0, size.height) && Total(xs) == 1.0
    ensures WindowSum(picture, xs, ys, 3) == 255.0 * Total(ys)
  {
    if ys != [] {
      OpaqueWindow(picture, size, xs, ys[..|ys| - 1]);
      OpaqueRow(picture, size, xs, ys[|ys| - 1].0);
      hide RowSum, Opaque;
    }
  }

  lemma PositionsInside(pixel: nat, source: nat, target: nat)
    requires Axis(source, target) && pixel < target
    ensures ListWithin(PositionWeights(pixel, source, target), 0, source)
    ensures Total(PositionWeights(pixel, source, target)) == 1.0
  {
    PositionRange(pixel, source, target);
    WeightsSumToOne(pixel, source, target);
    hide Ratio, First, End, Raw, Total;
  }

  /** An opaque picture is opaque at every position when reduced. */
  lemma OpaqueStays(picture: Picture, source: Size, target: Size, x: nat, y: nat)
    requires Axis(source.width, target.width) && Axis(source.height, target.height)
    requires x < target.width && y < target.height && Opaque(picture, source)
    ensures Reduced(picture, source, target, x, y).a == 255
  {
    var xs, ys := PositionWeights(x, source.width, target.width), PositionWeights(y, source.height, target.height);
    PositionsInside(x, source.width, target.width);
    PositionsInside(y, source.height, target.height);
    hide PositionWeights, Opaque, ListWithin;
    OpaqueWindow(picture, source, xs, ys);
    hide WindowSum, Total;
    WholeByte(255);
    hide ToByte;
  }
}
