/** The triangle filter by position. A source position weighs in by how near it lies, in whole numbers;
    a reduced pixel is the mean of the whole source so weighed. */
module Triangles {
  import opened Arithmetic
  import opened Options
  import opened Pixels
  import opened TileLevels
  import opened Downsampling

  /** Twice the target size times the distance between the centres of source position `q` and of target
      position `p`. */
  function Distance(p: nat, s: nat, t: nat, q: nat): nat {
    var d := (2 * q + 1) * t - (2 * p + 1) * s;
    if d < 0 then -d else d
  }

  /** How far it falls short of one step of the source, and nought beyond. */
  function Nearness(p: nat, s: nat, t: nat, q: nat): nat {
    SaturatingSub(2 * s, Distance(p, s, t, q))
  }

  /** Of the first `n` source positions together. */
  function Nearnesses(p: nat, s: nat, t: nat, n: nat): nat {
    if n == 0 then 0 else Nearnesses(p, s, t, n - 1) + Nearness(p, s, t, n - 1)
  }

  // ---- Weights -----------------------------------------------------------------------------------------

  /** A weight in units in which nearness is counted. */
  function Units(w: real, s: nat): real {
    w * (2 * s) as real
  }

  lemma UnitsAdd(a: real, b: real, s: nat)
    ensures Units(a + b, s) == Units(a, s) + Units(b, s) && Units(0.0, s) == 0.0
    ensures s > 0 ==> (a > 0.0 <==> Units(a, s) > 0.0)
  {
    SameSign(a, if s > 0 then (2 * s) as real else 1.0);
  }

  /** The weight is this part of all. */
  predicate IsShare(w: real, part: nat, all: nat) {
    w * all as real == part as real
  }

  lemma UnitsOfQuotient(a: real, total: real, s: nat, part: nat, all: nat)
    requires total > 0.0 && Units(total, s) == all as real && Units(a, s) == part as real
    ensures IsShare(a / total, part, all)
  {
    assert a / total * total == a;
  }

  lemma RawIsNearness(p: nat, s: nat, t: nat, q: nat)
    requires s > 0 && t > 0
    ensures Ratio(s, t) > 0.0
    ensures Units(Raw(q, Center(p, Ratio(s, t)), Ratio(s, t)), s) == Nearness(p, s, t, q) as real
  {
    RatioTimes(s, t);
    var r := Ratio(s, t);
    var d := q as real + 0.5 - Center(p, r);
    Scale(p, s, t, q, r, d);
    hide Ratio, Center;
    TentScaled(Abs(d), r, s as real, t as real, Distance(p, s, t, q) as real);
    hide Distance;
  }

  lemma Scale(p: nat, s: nat, t: nat, q: nat, r: real, d: real)
    requires t > 0 && r * t as real == s as real && d == q as real + 0.5 - Center(p, r)
    ensures Abs(d) * (2.0 * t as real) == Distance(p, s, t, q) as real
  {
    var x, y := t as real, s as real;
    assert (p as real + 0.5) * r * x == (p as real + 0.5) * y;
    assert d * (2.0 * x) == (2.0 * q as real + 1.0) * x - (2.0 * p as real + 1.0) * y;
    assert ((2 * q + 1) * t) as real == (2.0 * q as real + 1.0) * x;
    assert ((2 * p + 1) * s) as real == (2.0 * p as real + 1.0) * y;
    assert d < 0.0 ==> (-d) * (2.0 * x) == -(d * (2.0 * x));
  }

  lemma TentScaled(d: real, r: real, s: real, t: real, distance: real)
    requires r > 0.0 && s > 0.0 && t > 0.0 && r * t == s && d * (2.0 * t) == distance
    ensures (1.0 - d / r) * (2.0 * s) == 2.0 * s - distance
    ensures 1.0 - d / r > 0.0 <==> distance < 2.0 * s
  {
    assert d / r * s == d * t by {
      assert d / r * (r * t) == d / r * r * t;
    }
    SameSign(1.0 - d / r, 2.0 * s);
  }

  lemma SameSign(a: real, b: real)
    requires b > 0.0
    ensures a > 0.0 <==> a * b > 0.0
  {
  }

  /** Positions that are not listed are too far. */
  lemma UnlistedIsFar(p: nat, s: nat, t: nat, q: nat)
    requires Axis(s, t) && p < t
    requires q < First(p, Ratio(s, t)) || q >= End(p, Ratio(s, t), s)
    ensures q < s ==> Nearness(p, s, t, q) == 0
  {
    RatioTimes(s, t);
    RawIsNearness(p, s, t, q);
    var r, center := Ratio(s, t), Center(p, Ratio(s, t));
    hide Ratio, Center, Nearness;
    if q < s {
      assert Abs(q as real + 0.5 - center) >= r;
      FarWeighsNothing(Abs(q as real + 0.5 - center), r);
    }
  }

  lemma FarWeighsNothing(d: real, r: real)
    requires r > 0.0 && d >= r
    ensures 1.0 - d / r <= 0.0
  {
    assert d / r * r == d;
    SameSign(d / r - 1.0, r);
  }

  lemma {:induction false} NothingNearBefore(p: nat, s: nat, t: nat, n: nat)
    requires Axis(s, t) && p < t && n <= First(p, Ratio(s, t)) && n <= s
    ensures Nearnesses(p, s, t, n) == 0
  {
    if n > 0 {
      NothingNearBefore(p, s, t, n - 1);
      UnlistedIsFar(p, s, t, n - 1);
    }
  }

  lemma {:induction false} NothingNearAfter(p: nat, s: nat, t: nat, n: nat)
    requires Axis(s, t) && p < t && End(p, Ratio(s, t), s) <= n <= s
    ensures Nearnesses(p, s, t, n) == Nearnesses(p, s, t, s)
    decreases s - n
  {
    if n < s {
      NothingNearAfter(p, s, t, n + 1);
      UnlistedIsFar(p, s, t, n);
    }
  }

  /** Raw weights from `first` on, each in proportion to its position's nearness. */
  ghost predicate InProportion(raw: Weights, p: nat, s: nat, t: nat, first: nat) {
    forall j :: 0 <= j < |raw| ==> Units(raw[j].1, s) == Nearness(p, s, t, first + j) as real
  }

  lemma RawInProportion(p: nat, s: nat, t: nat)
    requires Axis(s, t) && p < t
    ensures Ratio(s, t) > 0.0
    ensures InProportion(RawWeights(p, Ratio(s, t), s), p, s, t, First(p, Ratio(s, t)))
  {
    RatioTimes(s, t);
    var r, first := Ratio(s, t), First(p, Ratio(s, t));
    var raw := RawWeights(p, r, s);
    assert forall j :: 0 <= j < |raw| ==> raw[j].1 == Raw(first + j, Center(p, r), r);
    hide Ratio, First, End, Raw, RawWeights, Center, Nearness, Units;
    forall j | 0 <= j < |raw|
      ensures Units(raw[j].1, s) == Nearness(p, s, t, first + j) as real
    {
      RawIsNearness(p, s, t, first + j);
    }
  }

  lemma {:induction false} SumInProportion(raw: Weights, p: nat, s: nat, t: nat, first: nat, j: nat)
    requires InProportion(raw, p, s, t, first) && Nearnesses(p, s, t, first) == 0 && j <= |raw|
    ensures Units(Total(raw[..j]), s) == Nearnesses(p, s, t, first + j) as real
  {
    hide Nearness, Units;
    UnitsAdd(0.0, 0.0, s);
    if j > 0 {
      SumInProportion(raw, p, s, t, first, j - 1);
      assert raw[..j][..j - 1] == raw[..j - 1];
      UnitsAdd(Total(raw[..j - 1]), raw[j - 1].1, s);
    }
  }

  /** All weights together are in proportion to all nearness. */
  lemma TotalInProportion(p: nat, s: nat, t: nat)
    requires Axis(s, t) && p < t
    ensures Ratio(s, t) > 0.0
    ensures var total := Total(RawWeights(p, Ratio(s, t), s));
      total > 0.0 && Units(total, s) == Nearnesses(p, s, t, s) as real
  {
    PositionRange(p, s, t);
    WeightsSumToOne(p, s, t);
    RawInProportion(p, s, t);
    var raw, first := RawWeights(p, Ratio(s, t), s), First(p, Ratio(s, t));
    NothingNearBefore(p, s, t, first);
    NothingNearAfter(p, s, t, first + |raw|);
    hide Ratio, First, End, RawWeights, PositionWeights, InProportion, Nearnesses, Total, Units;
    SumInProportion(raw, p, s, t, first, |raw|);
    assert raw[..|raw|] == raw;
  }

  lemma WeightIsShare(p: nat, s: nat, t: nat, j: nat)
    requires Axis(s, t) && p < t && j < |PositionWeights(p, s, t)|
    ensures Ratio(s, t) > 0.0
    ensures var raw, w := RawWeights(p, Ratio(s, t), s), PositionWeights(p, s, t)[j].1;
      j < |raw| && Total(raw) > 0.0 && w == raw[j].1 / Total(raw)
  {
    WeightsSumToOne(p, s, t);
    hide Ratio, RawWeights, Total;
  }

  /** A weight is in proportion to its position's nearness. */
  lemma WeightByPosition(p: nat, s: nat, t: nat, j: nat)
    requires Axis(s, t) && p < t && j < |PositionWeights(p, s, t)|
    ensures PositionWeights(p, s, t)[j].0 < s
    ensures PositionWeights(p, s, t)[j].0 == PositionWeights(p, s, t)[0].0 + j == First(p, Ratio(s, t)) + j
    ensures IsShare(PositionWeights(p, s, t)[j].1, Nearness(p, s, t, PositionWeights(p, s, t)[j].0),
                    Nearnesses(p, s, t, s))
  {
    PositionRange(p, s, t);
    TotalInProportion(p, s, t);
    RawInProportion(p, s, t);
    WeightIsShare(p, s, t, j);
    hide Ratio, First, End, RawWeights, PositionWeights, Nearness, Nearnesses, Total, Units, IsShare;
    var raw, first := RawWeights(p, Ratio(s, t), s), First(p, Ratio(s, t));
    UnitsOfQuotient(raw[j].1, Total(raw), s, Nearness(p, s, t, first + j), Nearnesses(p, s, t, s));
  }

  lemma NearIsListed(p: nat, s: nat, t: nat, q: nat)
    requires Axis(s, t) && p < t && q < s && Nearness(p, s, t, q) > 0
    ensures var ws := PositionWeights(p, s, t); ws[0].0 <= q < ws[0].0 + |ws|
  {
    PositionRange(p, s, t);
    var first, end := First(p, Ratio(s, t)), End(p, Ratio(s, t), s);
    if q < first || q >= end { UnlistedIsFar(p, s, t, q); }
    hide Ratio, First, End, PositionWeights, Nearness;
  }

  lemma SomeAreNear(p: nat, s: nat, t: nat)
    requires Axis(s, t) && p < t
    ensures Nearnesses(p, s, t, s) > 0
  {
    TotalInProportion(p, s, t);
    hide Ratio, RawWeights, Nearnesses, Total, Units;
    UnitsAdd(Total(RawWeights(p, Ratio(s, t), s)), 0.0, s);
  }

  /** The weights by position: each is in proportion to its position's nearness, and every position that
      is near at all is listed. */
  lemma WeightsAreTriangle(p: nat, s: nat, t: nat)
    requires Axis(s, t) && p < t
    ensures Nearnesses(p, s, t, s) > 0
    ensures var ws := PositionWeights(p, s, t);
      && (forall j :: 0 <= j < |ws| ==> ws[j].0 == ws[0].0 + j && ws[j].0 < s)
      && (forall j :: 0 <= j < |ws| ==>
            IsShare(ws[j].1, Nearness(p, s, t, ws[j].0), Nearnesses(p, s, t, s)))
      && (forall q: nat :: q < s && Nearness(p, s, t, q) > 0 ==> ws[0].0 <= q < ws[0].0 + |ws|)
  {
    SomeAreNear(p, s, t);
    hide PositionWeights, Nearness, Nearnesses, Ratio, First, IsShare;
    var ws := PositionWeights(p, s, t);
    forall j | 0 <= j < |ws|
      ensures ws[j].0 == ws[0].0 + j && ws[j].0 < s
      ensures IsShare(ws[j].1, Nearness(p, s, t, ws[j].0), Nearnesses(p, s, t, s))
    {
      WeightByPosition(p, s, t, j);
    }
    forall q: nat | q < s && Nearness(p, s, t, q) > 0
      ensures ws[0].0 <= q < ws[0].0 + |ws|
    {
      NearIsListed(p, s, t, q);
    }
  }

  /** Halved exactly, a position inside weighs its four neighbours by one, three, three and one eighths. */
  lemma HalfWeights(p: nat, t: nat)
    requires 0 < p && p + 1 < t
    ensures PositionWeights(p, 2 * t, t) ==
      [(2 * p - 1, 0.125), (2 * p, 0.375), (2 * p + 1, 0.375), (2 * p + 2, 0.125)]
  {
    var s := 2 * t;
    var ws := PositionWeights(p, s, t);
    HalfRange(p, t);
    HalfTotal(p, t);
    hide PositionWeights, Nearnesses, Nearness, Ratio, First, End, IsShare;
    forall j | 0 <= j < 4
      ensures ws[j] == (2 * p - 1 + j, if j == 0 || j == 3 then 0.125 else 0.375)
    {
      WeightByPosition(p, s, t, j);
      HalfNearness(p, t, 2 * p - 1 + j);
      Eighths(ws[j].1, t, if j == 0 || j == 3 then 1 else 3);
    }
  }

  lemma Eighths(w: real, t: nat, k: nat)
    requires t > 0 && IsShare(w, k * t, 8 * t)
    ensures w == k as real / 8.0
  {
    assert (k * t) as real == k as real * t as real;
    assert (w * 8.0 - k as real) * t as real == 0.0;
  }

  lemma HalfRange(p: nat, t: nat)
    requires 0 < p && p + 1 < t
    ensures |PositionWeights(p, 2 * t, t)| == 4 && First(p, Ratio(2 * t, t)) == 2 * p - 1
  {
    hide *;
    HalfEnds(p, t);
    RatioIsTwo(t);
    PositionRange(p, 2 * t, t);
  }

  lemma HalfEnds(p: nat, t: nat)
    requires 0 < p && p + 1 < t
    ensures Axis(2 * t, t) && First(p, 2.0) == 2 * p - 1 && End(p, 2.0, 2 * t) == 2 * p + 3
  {
    assert Center(p, 2.0) == 2.0 * p as real + 1.0;
    hide Center;
  }

  lemma RatioIsTwo(t: nat)
    requires t > 0
    ensures Ratio(2 * t, t) == 2.0
  {
    TwiceOver(t as real);
  }

  lemma TwiceOver(x: real)
    requires x > 0.0
    ensures (x + x) / x == 2.0
  {
  }

  lemma HalfNearness(p: nat, t: nat, q: nat)
    requires 0 < p && p + 1 < t
    ensures Nearness(p, 2 * t, t, q) ==
      if q == 2 * p - 1 || q == 2 * p + 2 then t else if q == 2 * p || q == 2 * p + 1 then 3 * t else 0
  {
    var d := 2 * q - 4 * p - 1;
    assert (2 * q + 1) * t - (2 * p + 1) * (2 * t) == d * t;
    if d >= 4 { assert d * t >= 4 * t; }
    if d <= -4 { assert d * t <= -4 * t; }
  }

  lemma {:induction false} HalfTotalUpTo(p: nat, t: nat, n: nat)
    requires 0 < p && p + 1 < t
    ensures Nearnesses(p, 2 * t, t, n) ==
      if n <= 2 * p - 1 then 0 else if n == 2 * p then t else if n == 2 * p + 1 then 4 * t
      else if n == 2 * p + 2 then 7 * t else 8 * t
  {
    if n > 0 {
      HalfTotalUpTo(p, t, n - 1);
      HalfNearness(p, t, n - 1);
      hide Nearness;
    }
  }

  lemma HalfTotal(p: nat, t: nat)
    requires 0 < p && p + 1 < t
    ensures Nearnesses(p, 2 * t, t, 2 * t) == 8 * t
  {
    HalfTotalUpTo(p, t, 2 * t);
  }

  // ---- Reduced pixels --------------------------------------------------------------------------------------

  /** What a pixel brings to a mean: its colours as far as it is opaque, and its opacity. */
  function Share(p: Rgba, c: nat): nat {
    if c == 0 then p.r * p.a else if c == 1 then p.g * p.a else if c == 2 then p.b * p.a else p.a
  }

  /** Along a row, weighed by nearness. */
  function RowShares(picture: Picture, x: nat, s: nat, t: nat, c: nat, row: nat, n: nat): nat {
    if n == 0 then 0
    else RowShares(picture, x, s, t, c, row, n - 1) + Share(picture(n - 1, row), c) * Nearness(x, s, t, n - 1)
  }

  /** Over whole rows, weighed by nearness both ways. */
  function Shares(picture: Picture, x: nat, y: nat, source: Size, target: Size, c: nat, n: nat): nat {
    if n == 0 then 0
    else
      Shares(picture, x, y, source, target, c, n - 1)
      + RowShares(picture, x, source.width, target.width, c, n - 1, source.width)
        * Nearness(y, source.height, target.height, n - 1)
  }

  /** The nearest whole number, halves up. */
  function Rounded(a: nat, b: nat): nat
    requires b > 0
  {
    (2 * a + b) / (2 * b)
  }

  function Scale255(c: nat): nat {
    if c < 3 then 255 else 1
  }

  lemma ChannelIsShare(p: Rgba, c: nat)
    requires c < 4
    ensures Channel(p, c) * Scale255(c) as real == Share(p, c) as real
  {
    var a := p.a as real;
    assert p.r as real * a == (p.r * p.a) as real;
    assert p.g as real * a == (p.g * p.a) as real;
    assert p.b as real * a == (p.b * p.a) as real;
  }

  /** A weighted sum is this number of shares of `unit` and `all`. */
  predicate Measures(sum: real, unit: nat, all: nat, shares: nat) {
    sum * (unit * all) as real == shares as real
  }

  lemma NothingMeasured(unit: nat, all: nat)
    ensures Measures(0.0, unit, all, 0)
  {
  }

  /** One more term. */
  lemma TermMeasured(sum: real, v: real, w: real, unit: nat, all: nat, part: nat, share: nat, shares: nat)
    requires IsShare(w, part, all) && v * unit as real == share as real && Measures(sum, unit, all, shares)
    ensures Measures(sum + Weighted(v, w), unit, all, shares + share * part)
  {
    var k, n := unit as real, all as real;
    assert (unit * all) as real == k * n;
    assert v * w * (k * n) == (v * k) * (w * n);
    assert (share * part) as real == share as real * part as real;
  }

  lemma {:induction false} NoRowShares(picture: Picture, x: nat, s: nat, t: nat, c: nat, row: nat, n: nat)
    requires Axis(s, t) && x < t && n <= First(x, Ratio(s, t)) && n <= s
    ensures RowShares(picture, x, s, t, c, row, n) == 0
  {
    if n > 0 {
      NoRowShares(picture, x, s, t, c, row, n - 1);
      UnlistedIsFar(x, s, t, n - 1);
      hide Nearness;
    }
  }

  lemma {:induction false} NoMoreRowShares(picture: Picture, x: nat, s: nat, t: nat, c: nat, row: nat, n: nat)
    requires Axis(s, t) && x < t && End(x, Ratio(s, t), s) <= n <= s
    ensures RowShares(picture, x, s, t, c, row, n) == RowShares(picture, x, s, t, c, row, s)
    decreases s - n
  {
    if n < s {
      NoMoreRowShares(picture, x, s, t, c, row, n + 1);
      UnlistedIsFar(x, s, t, n);
      hide Nearness;
    }
  }

  lemma {:induction false} RowUpTo(picture: Picture, x: nat, s: nat, t: nat, c: nat, row: nat, j: nat)
    requires Axis(s, t) && x < t && c < 4 && j <= |PositionWeights(x, s, t)|
    ensures Measures(RowSum(picture, PositionWeights(x, s, t)[..j], c, row), Scale255(c), Nearnesses(x, s, t, s),
                     RowShares(picture, x, s, t, c, row, First(x, Ratio(s, t)) + j))
  {
    hide *;
    var ws, first, all := PositionWeights(x, s, t), First(x, Ratio(s, t)), Nearnesses(x, s, t, s);
    if j == 0 {
      PositionRange(x, s, t);
      NoRowShares(picture, x, s, t, c, row, first);
      NothingMeasured(Scale255(c), all);
      assert ws[..0] == [];
      NothingSummed(picture, ws, c, row);
    } else {
      RowUpTo(picture, x, s, t, c, row, j - 1);
      RowStep(picture, ws, c, row, j - 1);
      WeightByPosition(x, s, t, j - 1);
      var p := picture(first + j - 1, row);
      ChannelIsShare(p, c);
      TermMeasured(RowSum(picture, ws[..j - 1], c, row), Channel(p, c), ws[j - 1].1, Scale255(c), all,
                   Nearness(x, s, t, first + j - 1), Share(p, c), RowShares(picture, x, s, t, c, row, first + j - 1));
      RowSharesMore(picture, x, s, t, c, row, first + j - 1);
    }
  }

  lemma RowSharesMore(picture: Picture, x: nat, s: nat, t: nat, c: nat, row: nat, n: nat)
    ensures RowShares(picture, x, s, t, c, row, n + 1) ==
      RowShares(picture, x, s, t, c, row, n) + Share(picture(n, row), c) * Nearness(x, s, t, n)
  {
    hide Nearness, Share;
  }

  /** A row's sum is its mean over all of the source. */
  lemma WholeRow(picture: Picture, x: nat, s: nat, t: nat, c: nat, row: nat)
    requires Axis(s, t) && x < t && c < 4
    ensures Measures(RowSum(picture, PositionWeights(x, s, t), c, row), Scale255(c), Nearnesses(x, s, t, s),
                     RowShares(picture, x, s, t, c, row, s))
  {
    var ws := PositionWeights(x, s, t);
    PositionRange(x, s, t);
    hide PositionWeights, Nearnesses, Ratio, First, End, RowSum, RowShares, Scale255, Measures;
    RowUpTo(picture, x, s, t, c, row, |ws|);
    assert ws[..|ws|] == ws;
    NoMoreRowShares(picture, x, s, t, c, row, First(x, Ratio(s, t)) + |ws|);
  }

  // ---- Both axes -------------------------------------------------------------------------------------------

  /** The target position is one of a level reduced, kept, or enlarged at most twofold. */
  ghost predicate At(source: Size, target: Size, x: nat, y: nat) {
    Axis(source.width, target.width) && Axis(source.height, target.height) && x < target.width && y < target.height
  }

  ghost function Rows(source: Size, target: Size, x: nat, y: nat): Weights
    requires At(source, target, x, y)
  {
    PositionWeights(y, source.height, target.height)
  }

  ghost function SumOf(picture: Picture, source: Size, target: Size, x: nat, y: nat, c: nat, rows: Weights): real
    requires At(source, target, x, y) && c < 4
  {
    WindowSum(picture, PositionWeights(x, source.width, target.width), rows, c)
  }

  ghost function SumAt(picture: Picture, source: Size, target: Size, x: nat, y: nat, c: nat): real
    requires At(source, target, x, y) && c < 4
  {
    SumOf(picture, source, target, x, y, c, Rows(source, target, x, y))
  }

  /** All nearness along the two axes. */
  function Across(source: Size, target: Size, x: nat): nat {
    Nearnesses(x, source.width, target.width, source.width)
  }

  function Down(source: Size, target: Size, y: nat): nat {
    Nearnesses(y, source.height, target.height, source.height)
  }

  lemma {:induction false} NoShares(picture: Picture, x: nat, y: nat, source: Size, target: Size, c: nat, n: nat)
    requires Axis(source.height, target.height) && y < target.height
    requires n <= First(y, Ratio(source.height, target.height)) && n <= source.height
    ensures Shares(picture, x, y, source, target, c, n) == 0
  {
    if n > 0 {
      NoShares(picture, x, y, source, target, c, n - 1);
      UnlistedIsFar(y, source.height, target.height, n - 1);
      hide Nearness, RowShares;
    }
  }

  lemma {:induction false} NoMoreShares(picture: Picture, x: nat, y: nat, source: Size, target: Size, c: nat, n: nat)
    requires Axis(source.height, target.height) && y < target.height
    requires End(y, Ratio(source.height, target.height), source.height) <= n <= source.height
    ensures Shares(picture, x, y, source, target, c, n) == Shares(picture, x, y, source, target, c, source.height)
    decreases source.height - n
  {
    if n < source.height {
      NoMoreShares(picture, x, y, source, target, c, n + 1);
      UnlistedIsFar(y, source.height, target.height, n);
      hide Nearness, RowShares;
    }
  }

  function RowUnit(c: nat, nx: nat): nat {
    Scale255(c) * nx
  }

  /** A measured row is a value of its own in the sum over rows. */
  lemma RowMeasured(sum: real, v: real, w: real, c: nat, nx: nat, ny: nat, part: nat, share: nat, shares: nat)
    requires IsShare(w, part, ny) && Measures(v, Scale255(c), nx, share) && Measures(sum, RowUnit(c, nx), ny, shares)
    ensures Measures(sum + Weighted(v, w), RowUnit(c, nx), ny, shares + share * part)
  {
    TermMeasured(sum, v, w, RowUnit(c, nx), ny, part, share, shares);
  }

  lemma {:induction false} WindowUpTo(picture: Picture, x: nat, y: nat, source: Size, target: Size, c: nat, i: nat)
    requires At(source, target, x, y) && c < 4 && i <= |Rows(source, target, x, y)|
    ensures Measures(SumOf(picture, source, target, x, y, c, Rows(source, target, x, y)[..i]),
                     RowUnit(c, Across(source, target, x)), Down(source, target, y),
                     Shares(picture, x, y, source, target, c, First(y, Ratio(source.height, target.height)) + i))
  {
    hide *;
    if i == 0 {
      WindowStarts(picture, x, y, source, target, c);
    } else {
      WindowUpTo(picture, x, y, source, target, c, i - 1);
      WindowGrows(picture, x, y, source, target, c, i - 1);
    }
  }

  lemma WindowStarts(picture: Picture, x: nat, y: nat, source: Size, target: Size, c: nat)
    requires At(source, target, x, y) && c < 4
    ensures Measures(SumOf(picture, source, target, x, y, c, Rows(source, target, x, y)[..0]),
                     RowUnit(c, Across(source, target, x)), Down(source, target, y),
                     Shares(picture, x, y, source, target, c, First(y, Ratio(source.height, target.height)) + 0))
  {
    var first := First(y, Ratio(source.height, target.height));
    PositionRange(y, source.height, target.height);
    NoShares(picture, x, y, source, target, c, first);
    NothingMeasured(RowUnit(c, Across(source, target, x)), Down(source, target, y));
    NothingSummed(picture, PositionWeights(x, source.width, target.width), c, 0);
    assert Rows(source, target, x, y)[..0] == [];
    hide PositionWeights, First, End, Ratio, Measures, RowUnit, Across, Down, Shares, WindowSum;
  }

  lemma WindowGrows(picture: Picture, x: nat, y: nat, source: Size, target: Size, c: nat, i: nat)
    requires At(source, target, x, y) && c < 4 && i < |Rows(source, target, x, y)|
    requires Measures(SumOf(picture, source, target, x, y, c, Rows(source, target, x, y)[..i]),
                      RowUnit(c, Across(source, target, x)), Down(source, target, y),
                      Shares(picture, x, y, source, target, c, First(y, Ratio(source.height, target.height)) + i))
    ensures Measures(SumOf(picture, source, target, x, y, c, Rows(source, target, x, y)[..i + 1]),
                     RowUnit(c, Across(source, target, x)), Down(source, target, y),
                     Shares(picture, x, y, source, target, c, First(y, Ratio(source.height, target.height)) + i + 1))
  {
    hide PositionWeights, First, End, Ratio, Measures, RowUnit, Nearness, Nearnesses, Shares, RowShares;
    hide WindowSum, RowSum, IsShare, Weighted, Scale255;
    var row := First(y, Ratio(source.height, target.height)) + i;
    var xs, ys := PositionWeights(x, source.width, target.width), Rows(source, target, x, y);
    WindowStep(picture, xs, ys, c, i);
    WeightByPosition(y, source.height, target.height, i);
    WholeRow(picture, x, source.width, target.width, c, row);
    RowMeasured(WindowSum(picture, xs, ys[..i], c), RowSum(picture, xs, c, row), ys[i].1, c,
                Across(source, target, x), Down(source, target, y), Nearness(y, source.height, target.height, row),
                RowShares(picture, x, source.width, target.width, c, row, source.width),
                Shares(picture, x, y, source, target, c, row));
    SharesMore(picture, x, y, source, target, c, row);
  }

  lemma SharesMore(picture: Picture, x: nat, y: nat, source: Size, target: Size, c: nat, n: nat)
    ensures Shares(picture, x, y, source, target, c, n + 1) ==
      Shares(picture, x, y, source, target, c, n)
      + RowShares(picture, x, source.width, target.width, c, n, source.width)
        * Nearness(y, source.height, target.height, n)
  {
    hide Nearness, RowShares;
  }

  lemma WholeWindow(picture: Picture, x: nat, y: nat, source: Size, target: Size, c: nat)
    requires At(source, target, x, y) && c < 4
    ensures Measures(SumAt(picture, source, target, x, y, c), RowUnit(c, Across(source, target, x)),
                     Down(source, target, y), Shares(picture, x, y, source, target, c, source.height))
  {
    var ys := Rows(source, target, x, y);
    PositionRange(y, source.height, target.height);
    hide PositionWeights, Ratio, First, End, WindowSum, Shares, RowUnit, Measures, Across, Down, SumOf;
    WindowUpTo(picture, x, y, source, target, c, |ys|);
    assert ys[..|ys|] == ys;
    NoMoreShares(picture, x, y, source, target, c, First(y, Ratio(source.height, target.height)) + |ys|);
  }

  // ---- The pixel -------------------------------------------------------------------------------------------

  lemma RoundedQuotient(v: real, a: nat, b: nat)
    requires b > 0 && v * b as real == a as real && 0.0 <= v <= 255.0
    ensures ToByte(v) == Rounded(a, b)
  {
    var n: nat := (v + 0.5).Floor;
    Between(v + 0.5, n, 2 * b, 2 * a + b);
    InStep(2 * a + b, n, 2 * b);
  }

  lemma Between(v: real, n: nat, b: nat, a: nat)
    requires b > 0 && n as real <= v < n as real + 1.0 && v * b as real == a as real
    ensures n * b <= a < n * b + b
  {
    var y := b as real;
    SameSign(n as real + 1.0 - v, y);
    assert n as real * y <= v * y < (n as real + 1.0) * y;
    assert (n * b) as real == n as real * y;
    assert (n * b + b) as real == (n as real + 1.0) * y;
  }

  /** Restoring a colour divides its shares by the opacity's. */
  lemma RestoredQuotient(v: real, alpha: real, nx: nat, ny: nat, share: nat, opacity: nat)
    requires Measures(v, 255 * nx, ny, share) && Measures(alpha, 1 * nx, ny, opacity)
    requires alpha > 0.0 && nx > 0 && ny > 0
    ensures opacity > 0 && Restore(v, alpha) * opacity as real == share as real
  {
    var n := (nx * ny) as real;
    assert nx * ny > 0;
    assert 1 * nx * ny == nx * ny && 255 * nx * ny == 255 * (nx * ny);
    assert alpha * n == opacity as real && v * (255.0 * n) == share as real;
    SameSign(alpha, n);
    assert 255.0 / alpha * alpha == 255.0;
    assert v * (255.0 / alpha) * (alpha * n) == v * (255.0 / alpha * alpha) * n;
  }

  lemma OpacityPresent(alpha: real, nx: nat, ny: nat, opacity: nat)
    requires Measures(alpha, 1 * nx, ny, opacity) && nx > 0 && ny > 0
    ensures alpha > 0.0 <==> opacity > 0
    ensures alpha * (nx * ny) as real == opacity as real && nx * ny > 0
  {
    assert nx * ny > 0 && 1 * nx * ny == nx * ny;
    SameSign(alpha, (nx * ny) as real);
  }

  /** Every pixel of a reduced level, from the whole source in whole numbers: its opacity is the mean of
      all opacities, each weighed by its nearness along both axes; its colours are the means of all colours,
      each weighed by nearness and opacity; and all are rounded to the nearest, halves up. */
  lemma ReducedIsMean(picture: Picture, source: Size, target: Size, x: nat, y: nat)
    requires At(source, target, x, y)
    ensures var all := Across(source, target, x) * Down(source, target, y);
      var opacity := Shares(picture, x, y, source, target, 3, source.height);
      var r := Reduced(picture, source, target, x, y);
      && all > 0
      && if opacity == 0 then r == CLEAR
         else
           && r.a == Rounded(opacity, all)
           && r.r == Rounded(Shares(picture, x, y, source, target, 0, source.height), opacity)
           && r.g == Rounded(Shares(picture, x, y, source, target, 1, source.height), opacity)
           && r.b == Rounded(Shares(picture, x, y, source, target, 2, source.height), opacity)
  {
    hide *;
    var nx, ny := Across(source, target, x), Down(source, target, y);
    NearBothWays(source, target, x, y);
    WholeWindow(picture, x, y, source, target, 3);
    UnitOfColours(nx);
    var alpha := SumAt(picture, source, target, x, y, 3);
    var opacity := Shares(picture, x, y, source, target, 3, source.height);
    OpacityPresent(alpha, nx, ny, opacity);
    SumsInRange(picture, source, target, x, y, 0);
    SumsInRange(picture, source, target, x, y, 1);
    SumsInRange(picture, source, target, x, y, 2);
    if opacity > 0 { RoundedQuotient(alpha, opacity, nx * ny); }
    Colour(picture, source, target, x, y, 0);
    Colour(picture, source, target, x, y, 1);
    Colour(picture, source, target, x, y, 2);
    ReducedFinish(picture, source, target, x, y);
  }

  lemma UnitOfColours(nx: nat)
    ensures RowUnit(0, nx) == RowUnit(1, nx) == RowUnit(2, nx) == 255 * nx && RowUnit(3, nx) == 1 * nx
  {
  }

  lemma NearBothWays(source: Size, target: Size, x: nat, y: nat)
    requires At(source, target, x, y)
    ensures Across(source, target, x) > 0 && Down(source, target, y) > 0
  {
    SomeAreNear(x, source.width, target.width);
    SomeAreNear(y, source.height, target.height);
    hide Nearnesses;
  }

  lemma SumsInRange(picture: Picture, source: Size, target: Size, x: nat, y: nat, c: nat)
    requires At(source, target, x, y) && c < 3
    ensures var v, alpha := SumAt(picture, source, target, x, y, c), SumAt(picture, source, target, x, y, 3);
      && 0.0 <= alpha <= 255.0 && (alpha == 0.0 ==> v == 0.0)
      && (alpha > 0.0 ==> 0.0 <= Restore(v, alpha) <= 255.0)
  {
    var xs, ys := PositionWeights(x, source.width, target.width), Rows(source, target, x, y);
    WeightsSumToOne(x, source.width, target.width);
    WeightsSumToOne(y, source.height, target.height);
    hide Ratio, AxisWeights, WindowSum, Total, NonNegative, Restore, RawWeights;
    ClampNeverFires(picture, xs, ys, c);
  }

  /** How the pixel is made of the four sums. */
  lemma ReducedFinish(picture: Picture, source: Size, target: Size, x: nat, y: nat)
    requires At(source, target, x, y)
    ensures var v0, v1 := SumAt(picture, source, target, x, y, 0), SumAt(picture, source, target, x, y, 1);
      var v2, alpha := SumAt(picture, source, target, x, y, 2), SumAt(picture, source, target, x, y, 3);
      var r := Reduced(picture, source, target, x, y);
      && (alpha > 0.0 ==>
            && r.a == ToByte(alpha) && r.r == ToByte(Restore(v0, alpha)) && r.g == ToByte(Restore(v1, alpha))
            && r.b == ToByte(Restore(v2, alpha)))
      && (alpha == v0 == v1 == v2 == 0.0 ==> r == CLEAR)
  {
    WholeByte(0);
    hide PositionWeights, WindowSum, Restore, ToByte;
  }

  lemma Colour(picture: Picture, source: Size, target: Size, x: nat, y: nat, c: nat)
    requires At(source, target, x, y) && c < 3
    ensures var v, alpha := SumAt(picture, source, target, x, y, c), SumAt(picture, source, target, x, y, 3);
      var opacity := Shares(picture, x, y, source, target, 3, source.height);
      alpha > 0.0 ==>
        && opacity > 0
        && ToByte(Restore(v, alpha)) == Rounded(Shares(picture, x, y, source, target, c, source.height), opacity)
  {
    hide *;
    var nx, ny := Across(source, target, x), Down(source, target, y);
    NearBothWays(source, target, x, y);
    WholeWindow(picture, x, y, source, target, c);
    WholeWindow(picture, x, y, source, target, 3);
    UnitOfColours(nx);
    SumsInRange(picture, source, target, x, y, c);
    var v, alpha := SumAt(picture, source, target, x, y, c), SumAt(picture, source, target, x, y, 3);
    if alpha > 0.0 {
      var share, opacity := Shares(picture, x, y, source, target, c, source.height),
                            Shares(picture, x, y, source, target, 3, source.height);
      RestoredQuotient(v, alpha, nx, ny, share, opacity);
      RoundedQuotient(Restore(v, alpha), share, opacity);
    }
  }

  // ---- What it takes ---------------------------------------------------------------------------------------

  /** A list header of 24 bytes and 16 bytes a weight, for two more than twice the ratio, rounded up. */
  function BytesEach(s: nat, t: nat): nat
    requires t > 0
  {
    24 + 16 * (DivCeil(2 * s, t) + 2)
  }

  lemma AtMost(v: real, n: nat, b: nat, a: nat)
    requires b > 0 && v * b as real == a as real
    ensures v <= n as real <==> a <= n * b
  {
    var y := b as real;
    assert (n * b) as real == n as real * y;
    assert (n as real - v) * y == (n * b) as real - a as real;
    SameSign(v - n as real, y);
    assert (v - n as real) * y == a as real - (n * b) as real;
  }

  lemma CeilOver(v: real, a: nat, b: nat)
    requires b > 0 && v * b as real == a as real && v >= 0.0
    ensures Ceil(v) == DivCeil(a, b)
  {
    var n: nat := Ceil(v);
    AtMost(v, n, b, a);
    hide DivCeil;
    BelowDivCeil(n, a, b);
    if n > 0 {
      AtMost(v, n - 1, b, a);
      BelowDivCeil(n - 1, a, b);
    }
  }

  lemma AxisCharge(length: nat, s: nat, t: nat)
    requires t > 0
    ensures AxisBytes(length, Ratio(s, t)) == length * BytesEach(s, t)
  {
    TwiceTheRatio(s, t);
    CeilOver(2.0 * Ratio(s, t), 2 * s, t);
    hide Ratio, DivCeil, Ceil;
  }

  lemma TwiceTheRatio(s: nat, t: nat)
    requires t > 0
    ensures 2.0 * Ratio(s, t) >= 0.0 && 2.0 * Ratio(s, t) * t as real == (2 * s) as real
  {
    var x, y := s as real, t as real;
    assert (2 * s) as real == 2.0 * x;
    assert x / y * y == x;
  }

  /** Resampling is refused for memory at the latest when the output's pixels and the lists exceed the
      budget. */
  lemma RefusedOver(source: Level, n: nat, target: Size, rect: Rect, budget: nat, cancelled: nat -> bool)
    requires Axis(source.size.width, target.width) && Axis(source.size.height, target.height)
    requires 0 < rect.w && rect.x + rect.w <= target.width && 0 < rect.h && rect.y + rect.h <= target.height
    requires rect.w * rect.h * 4 + rect.w * BytesEach(source.size.width, target.width)
             + rect.h * BytesEach(source.size.height, target.height) > budget
    ensures DownsampleTrouble(source, n, target, rect, budget, cancelled) == Some(MemoryLimit)
  {
    AxisCharge(rect.w, source.size.width, target.width);
    AxisCharge(rect.h, source.size.height, target.height);
    hide Ratio, AxisBytes, BytesEach, RegionTrouble, AxisLists, Window;
  }
}
