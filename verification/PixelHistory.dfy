/** What the strips hold: every strip handed over is, pixel by pixel, the left fold of the
    contributions accepted before its handoff. */
module PixelHistory {
  import opened Arithmetic
  import opened Options
  import opened MemoryAccounting
  import opened Pixels
  import opened PixelModel
  import opened PixelMachine

  ghost predicate PartCovers(c: Canvas, part: Part, x: nat, y: nat) {
    part.tile.Covers(c, x, y) && StripOf(y) == part.firstRow
  }

  ghost predicate ValidParts(log: seq<Part>) {
    forall k :: 0 <= k < |log| ==> log[k].tile.Valid()
  }

  /** The value of one canvas pixel: contributions composited in order onto transparency. */
  ghost function Fold(c: Canvas, log: seq<Part>, x: nat, y: nat): Rgba
    requires ValidParts(log)
  {
    if log == [] then CLEAR
    else
      var before, part := Fold(c, log[..|log| - 1], x, y), log[|log| - 1];
      if PartCovers(c, part, x, y) then c.blend(before, part.tile.At(c, x, y)) else before
  }

  ghost predicate CoveredBy(c: Canvas, log: seq<Part>, x: nat, y: nat) {
    exists k :: 0 <= k < |log| && PartCovers(c, log[k], x, y)
  }

  /** Strip `strip` holds the fold of the log. */
  ghost predicate HoldsFold(c: Canvas, strip: Strip, log: seq<Part>)
    requires c.width > 0 && ValidParts(log)
  {
    forall i :: 0 <= i < |strip.rgba| ==>
      strip.rgba[i] == Fold(c, log, Column(c, i), Row(c, strip.firstRow, i))
  }

  ghost predicate HoldsCoverage(c: Canvas, p: Pending, log: seq<Part>)
    requires c.width > 0
  {
    forall i :: 0 <= i < |p.covered| ==>
      (p.covered[i] <==> CoveredBy(c, log, Column(c, i), Row(c, p.strip.firstRow, i)))
  }

  ghost predicate AllCovered(c: Canvas, strip: Strip, log: seq<Part>)
    requires c.width > 0
  {
    forall i :: 0 <= i < |strip.rgba| ==> CoveredBy(c, log, Column(c, i), Row(c, strip.firstRow, i))
  }

  /** Accepted contributions are parts of tiles whose placement has begun. */
  ghost predicate PartsInv(c: Config, s: Machine) {
    && (forall j :: 0 <= j < |s.begun| ==> s.begun[j].Valid())
    && (forall k :: 0 <= k < |s.log| ==>
          && s.log[k].index < |s.begun| && s.log[k].tile == s.begun[s.log[k].index]
          && s.log[k].firstRow % STRIP_ROWS == 0 && s.log[k].firstRow < c.canvas.height)
  }

  /** An accepted contribution is in a pending strip or in one handed over. */
  ghost predicate KeptInv(s: Machine) {
    s.queue.failure.None? ==> forall k :: 0 <= k < |s.log| ==>
      s.log[k].firstRow < s.producer.nextRow || s.log[k].firstRow in s.producer.pending
  }

  /** The tile being placed is split at strip boundaries, one contribution a strip. */
  ghost predicate CursorInv(c: Config, s: Machine) {
    s.holder.Placing? ==>
      var Placing(t, y, _) := s.holder;
      && (y == t.y || y % STRIP_ROWS == 0 || y == TileEnd(c.canvas, t))
      && (forall k :: 0 <= k < |s.log| && s.log[k].index == |s.begun| - 1 ==>
            s.log[k].firstRow < y && y != t.y)
  }

  predicate Before(a: Part, b: Part) {
    a.index < b.index || (a.index == b.index && a.firstRow < b.firstRow)
  }

  /** Contributions are listed by tile in order of placing, then from the top down: none twice. */
  ghost predicate InPlacingOrder(log: seq<Part>) {
    forall j, k :: 0 <= j < k < |log| ==> Before(log[j], log[k])
  }

  ghost predicate LogInv(c: Config, s: Machine) {
    PartsInv(c, s) && KeptInv(s) && CursorInv(c, s) && InPlacingOrder(s.log)
  }

  ghost predicate FoldInv(c: Config, s: Machine)
    requires c.Valid() && ValidParts(s.log)
  {
    && (s.queue.failure.None? ==> forall k :: k in s.producer.pending ==>
          && HoldsFold(c.canvas, s.producer.pending[k].strip, s.log)
          && HoldsCoverage(c.canvas, s.producer.pending[k], s.log))
    && (forall e :: 0 <= e < |s.emitted| ==> HoldsFold(c.canvas, s.emitted[e], s.log))
    && (s.finishes == 0 ==> forall e :: 0 <= e < |s.emitted| ==> AllCovered(c.canvas, s.emitted[e], s.log))
  }

  ghost predicate Inv2(c: Config, s: Machine) {
    Inv1(c, s) && LogInv(c, s) && ValidParts(s.log) && FoldInv(c, s)
  }

  lemma RowInStrip(c: Canvas, firstRow: nat, i: nat)
    requires c.width > 0 && firstRow % STRIP_ROWS == 0 && i < StripPixels(c, firstRow)
    ensures StripOf(Row(c, firstRow, i)) == firstRow
    ensures Row(c, firstRow, i) < c.height
  {
    QuotientBelow(i, c.width, StripRows(c, firstRow));
    InStrip(firstRow, i / c.width);
  }

  /** A contribution to another strip changes nothing in this one. */
  lemma FoldElsewhere(c: Canvas, strip: Strip, log: seq<Part>, part: Part)
    requires c.width > 0 && ValidParts(log) && part.tile.Valid()
    requires strip.firstRow % STRIP_ROWS == 0 && |strip.rgba| == StripPixels(c, strip.firstRow)
    requires part.firstRow != strip.firstRow
    ensures HoldsFold(c, strip, log) ==> HoldsFold(c, strip, log + [part])
    ensures AllCovered(c, strip, log) ==> AllCovered(c, strip, log + [part])
    ensures forall covered :: |covered| == |strip.rgba| && HoldsCoverage(c, Pending(strip, covered), log) ==>
              HoldsCoverage(c, Pending(strip, covered), log + [part])
  {
    forall i | 0 <= i < |strip.rgba|
      ensures var x, y := Column(c, i), Row(c, strip.firstRow, i);
        && Fold(c, log + [part], x, y) == Fold(c, log, x, y)
        && (CoveredBy(c, log + [part], x, y) <==> CoveredBy(c, log, x, y))
    {
      RowInStrip(c, strip.firstRow, i);
      FoldStep(c, log, part, Column(c, i), Row(c, strip.firstRow, i));
    }
  }

  lemma FoldStep(c: Canvas, log: seq<Part>, part: Part, x: nat, y: nat)
    requires ValidParts(log) && part.tile.Valid()
    ensures ValidParts(log + [part])
    ensures Fold(c, log + [part], x, y)
         == if PartCovers(c, part, x, y) then c.blend(Fold(c, log, x, y), part.tile.At(c, x, y)) else Fold(c, log, x, y)
    ensures CoveredBy(c, log + [part], x, y) <==> CoveredBy(c, log, x, y) || PartCovers(c, part, x, y)
  {
    var longer := log + [part];
    assert longer[..|longer| - 1] == log;
    if CoveredBy(c, log, x, y) {
      var k :| 0 <= k < |log| && PartCovers(c, log[k], x, y);
      assert PartCovers(c, longer[k], x, y);
    }
    if PartCovers(c, part, x, y) {
      assert PartCovers(c, longer[|log|], x, y);
    }
  }

  /** Painting a strip appends the tile's contribution to its fold. */
  lemma PaintFold(c: Canvas, p: Pending, log: seq<Part>, part: Part)
    requires c.width > 0 && ValidParts(log) && part.tile.Valid()
    requires PendingOk(c, p) && p.strip.firstRow % STRIP_ROWS == 0 && part.firstRow == p.strip.firstRow
    requires HoldsFold(c, p.strip, log) && HoldsCoverage(c, p, log)
    ensures ValidParts(log + [part])
    ensures HoldsFold(c, Paint(c, p, part.tile).strip, log + [part])
    ensures HoldsCoverage(c, Paint(c, p, part.tile), log + [part])
  {
    var painted := Paint(c, p, part.tile);
    forall i | 0 <= i < |painted.strip.rgba|
      ensures painted.strip.rgba[i] == Fold(c, log + [part], Column(c, i), Row(c, p.strip.firstRow, i))
    {
      PaintFoldAt(c, p, log, part, i);
    }
    forall i | 0 <= i < |painted.covered|
      ensures painted.covered[i] <==> CoveredBy(c, log + [part], Column(c, i), Row(c, p.strip.firstRow, i))
    {
      PaintFoldAt(c, p, log, part, i);
    }
  }

  lemma PaintFoldAt(c: Canvas, p: Pending, log: seq<Part>, part: Part, i: nat)
    requires c.width > 0 && ValidParts(log) && part.tile.Valid()
    requires PendingOk(c, p) && p.strip.firstRow % STRIP_ROWS == 0 && part.firstRow == p.strip.firstRow
    requires i < |p.strip.rgba|
    requires p.strip.rgba[i] == Fold(c, log, Column(c, i), Row(c, p.strip.firstRow, i))
    requires p.covered[i] <==> CoveredBy(c, log, Column(c, i), Row(c, p.strip.firstRow, i))
    ensures ValidParts(log + [part])
    ensures Paint(c, p, part.tile).strip.rgba[i]
         == Fold(c, log + [part], Column(c, i), Row(c, p.strip.firstRow, i))
    ensures Paint(c, p, part.tile).covered[i]
       <==> CoveredBy(c, log + [part], Column(c, i), Row(c, p.strip.firstRow, i))
  {
    var x, y := Column(c, i), Row(c, p.strip.firstRow, i);
    RowInStrip(c, p.strip.firstRow, i);
    FoldStep(c, log, part, x, y);
    assert PartCovers(c, part, x, y) <==> TileCovers(c, part.tile, p.strip.firstRow, i);
  }

  /** A blank strip holds the fold of a log that has nothing for it. */
  lemma BlankFold(c: Canvas, firstRow: nat, log: seq<Part>)
    requires c.width > 0 && ValidParts(log) && firstRow % STRIP_ROWS == 0
    requires forall k :: 0 <= k < |log| ==> log[k].firstRow != firstRow
    ensures HoldsFold(c, Blank(c, firstRow).strip, log) && HoldsCoverage(c, Blank(c, firstRow), log)
  {
    forall i | 0 <= i < StripPixels(c, firstRow)
      ensures var x, y := Column(c, i), Row(c, firstRow, i);
        Fold(c, log, x, y) == CLEAR && !CoveredBy(c, log, x, y)
    {
      RowInStrip(c, firstRow, i);
      FoldUncovered(c, log, Column(c, i), Row(c, firstRow, i));
    }
  }

  lemma {:induction false} FoldUncovered(c: Canvas, log: seq<Part>, x: nat, y: nat)
    requires ValidParts(log) && !CoveredBy(c, log, x, y)
    ensures Fold(c, log, x, y) == CLEAR
  {
    if log != [] {
      var shorter := log[..|log| - 1];
      forall k | 0 <= k < |shorter|
        ensures !PartCovers(c, shorter[k], x, y)
      {
        assert !PartCovers(c, log[k], x, y);
      }
      FoldUncovered(c, shorter, x, y);
    }
  }

  // ---- The log and the fold over every action ----------------------------------------

  /** What a section that accepts a contribution changes. */
  lemma Accepted(c: Config, s: Machine)
    requires WellFormed(c, s) && GeometryInv(c, s) && Enabled(c, s, PlaceSegment)
    requires StripOf(s.holder.y) >= s.producer.nextRow && Place(c, s).holder.Placing?
    ensures var t, k, s' := s.holder.tile, StripOf(s.holder.y), Place(c, s);
      var base := if k in s.producer.pending then s.producer.pending[k] else Blank(c.canvas, k);
      && s' == s.(usage := s'.usage,
                  producer := s.producer.(pending := s.producer.pending[k := Paint(c.canvas, base, t)]),
                  holder := Placing(t, SegmentEnd(c.canvas, t, s.holder.y), true),
                  log := s.log + [Part(|s.begun| - 1, t, k)])
      && PendingOk(c.canvas, base) && k % STRIP_ROWS == 0 && k < c.canvas.height
  {
    hide Paint;
    SegmentAdvances(c.canvas, s.holder.tile, s.holder.y);
    assert s.holder.y < c.canvas.height;
  }

  /** What a section that accepts nothing changes: the strip is late, or there is no memory. */
  lemma Refused(c: Config, s: Machine)
    requires WellFormed(c, s) && Enabled(c, s, PlaceSegment)
    requires StripOf(s.holder.y) < s.producer.nextRow || !Place(c, s).holder.Placing?
    ensures Place(c, s)
         == if StripOf(s.holder.y) < s.producer.nextRow
            then s.(producer := s.producer.(late := s.producer.late + 1),
                    holder := Placing(s.holder.tile, SegmentEnd(c.canvas, s.holder.tile, s.holder.y), false))
            else s.(holder := Idle, failedCalls := s.failedCalls + 1)
  {
  }

  /** The part accepted next comes after all others. */
  lemma NextIsLast(c: Config, s: Machine, k: nat)
    requires PartsInv(c, s) && CursorInv(c, s) && Enabled(c, s, PlaceSegment) && k < |s.log| && s.begun != []
    ensures Before(s.log[k], Part(|s.begun| - 1, s.holder.tile, StripOf(s.holder.y)))
  {
  }

  lemma AcceptedParts(c: Config, s: Machine)
    requires WellFormed(c, s) && GeometryInv(c, s) && LogInv(c, s) && Enabled(c, s, PlaceSegment)
    requires StripOf(s.holder.y) >= s.producer.nextRow && Place(c, s).holder.Placing?
    ensures PartsInv(c, Place(c, s)) && KeptInv(Place(c, s)) && InPlacingOrder(Place(c, s).log)
  {
    Accepted(c, s);
    hide Paint, Blank, Place, GeometryInv, PendingOk, SegmentEnd, TileEnd;
    var part, log := Part(|s.begun| - 1, s.holder.tile, StripOf(s.holder.y)), Place(c, s).log;
    assert log == s.log + [part];
    forall j, k | 0 <= j < k < |log|
      ensures Before(log[j], log[k])
    {
      if k == |s.log| { NextIsLast(c, s, j); }
    }
  }

  lemma AcceptedCursor(c: Config, s: Machine)
    requires WellFormed(c, s) && GeometryInv(c, s) && LogInv(c, s) && Enabled(c, s, PlaceSegment)
    requires StripOf(s.holder.y) >= s.producer.nextRow && Place(c, s).holder.Placing?
    ensures CursorInv(c, Place(c, s))
  {
    SegmentAdvances(c.canvas, s.holder.tile, s.holder.y);
    Accepted(c, s);
    hide Paint, Blank, Place, GeometryInv, PendingOk, KeptInv, PartsInv, InPlacingOrder, SegmentEnd, TileEnd;
  }

  lemma PlaceKeepsLog(c: Config, s: Machine)
    requires WellFormed(c, s) && GeometryInv(c, s) && LogInv(c, s) && Enabled(c, s, PlaceSegment)
    ensures LogInv(c, Place(c, s))
  {
    SegmentAdvances(c.canvas, s.holder.tile, s.holder.y);
    if StripOf(s.holder.y) < s.producer.nextRow || !Place(c, s).holder.Placing? {
      Refused(c, s);
      hide Place, SegmentEnd, TileEnd, InPlacingOrder;
    } else {
      AcceptedParts(c, s);
      AcceptedCursor(c, s);
      hide PartsInv, KeptInv, CursorInv, InPlacingOrder;
    }
  }

  lemma PublishKeepsLog(c: Config, s: Machine, next: Holder)
    requires Inv1(c, s) && LogInv(c, s) && s.producer.nextRow in s.producer.pending
    requires next == s.holder || !next.Placing?
    ensures LogInv(c, PublishNext(c, s, next))
  {
    assert s.producer.pending[s.producer.nextRow].strip.rows > 0;
    hide Inv1, InPlacingOrder, HandOver, TileEnd;
  }

  /** A section that neither places nor hands over leaves the log and its tiles alone. */
  lemma OthersKeepLog(c: Config, s: Machine, a: Action)
    requires WellFormed(c, s) && LogInv(c, s) && Enabled(c, s, a)
    requires !a.PlaceSegment? && !a.FinishPublish? && !(a.PlacePublish? && NextReady(s.producer)) && !a.BeginPlace?
    ensures LogInv(c, Apply(c, s, a))
  {
    hide WellFormed, NextReady, TileEnd, Blank, BlankCharge, Reserved, InPlacingOrder, Canvas.Valid;
  }

  lemma BeginKeepsLog(c: Config, s: Machine, tile: Tile)
    requires WellFormed(c, s) && LogInv(c, s) && Enabled(c, s, BeginPlace(tile))
    ensures LogInv(c, Apply(c, s, BeginPlace(tile)))
  {
    hide WellFormed, TileEnd, InPlacingOrder;
  }

  /** The log lists contributions of begun tiles, each once, in order of placing; every one is in a
      pending strip or handed over. */
  lemma LogKept(c: Config, s: Machine, a: Action)
    requires Inv1(c, s) && LogInv(c, s) && Enabled(c, s, a)
    ensures LogInv(c, Apply(c, s, a))
  {
    hide LogInv;
    match a
    case PlaceSegment => PlaceKeepsLog(c, s);
    case PlacePublish =>
      if NextReady(s.producer) { PublishKeepsLog(c, s, s.holder); } else { OthersKeepLog(c, s, a); }
    case FinishPublish => PublishKeepsLog(c, s, Finishing);
    case BeginPlace(tile) => BeginKeepsLog(c, s, tile);
    case _ => OthersKeepLog(c, s, a);
  }

  /** A new contribution keeps the fold of every other strip. */
  lemma OthersKeepFold(c: Config, s: Machine, part: Part)
    requires Inv2(c, s) && part.tile.Valid()
    requires part.firstRow >= s.producer.nextRow && part.firstRow % STRIP_ROWS == 0
    ensures ValidParts(s.log + [part])
    ensures forall e :: 0 <= e < |s.emitted| ==> HoldsFold(c.canvas, s.emitted[e], s.log + [part])
    ensures s.finishes == 0 ==>
      forall e :: 0 <= e < |s.emitted| ==> AllCovered(c.canvas, s.emitted[e], s.log + [part])
    ensures s.queue.failure.None? ==> forall k :: k in s.producer.pending && k != part.firstRow ==>
      && HoldsFold(c.canvas, s.producer.pending[k].strip, s.log + [part])
      && HoldsCoverage(c.canvas, s.producer.pending[k], s.log + [part])
  {
    forall e | 0 <= e < |s.emitted|
      ensures ValidParts(s.log + [part]) && HoldsFold(c.canvas, s.emitted[e], s.log + [part])
      ensures s.finishes == 0 ==> AllCovered(c.canvas, s.emitted[e], s.log + [part])
    {
      assert IsWholeStrip(c.canvas, s.emitted[e], STRIP_ROWS * e);
      FoldElsewhere(c.canvas, s.emitted[e], s.log, part);
    }
    if s.queue.failure.None? {
      forall k | k in s.producer.pending && k != part.firstRow
        ensures HoldsFold(c.canvas, s.producer.pending[k].strip, s.log + [part])
        ensures HoldsCoverage(c.canvas, s.producer.pending[k], s.log + [part])
      {
        var p := s.producer.pending[k];
        FoldElsewhere(c.canvas, p.strip, s.log, part);
        assert Pending(p.strip, p.covered) == p;
      }
    }
  }

  lemma PlaceKeepsFold(c: Config, s: Machine)
    requires Inv2(c, s) && Enabled(c, s, PlaceSegment)
    ensures ValidParts(Place(c, s).log) && FoldInv(c, Place(c, s))
  {
    var t, k := s.holder.tile, StripOf(s.holder.y);
    if k >= s.producer.nextRow && Place(c, s).holder.Placing? {
      Accepted(c, s);
      var part := Part(|s.begun| - 1, t, k);
      OthersKeepFold(c, s, part);
      if s.queue.failure.None? {
        var base := if k in s.producer.pending then s.producer.pending[k] else Blank(c.canvas, k);
        if k !in s.producer.pending { BlankFold(c.canvas, k, s.log); }
        PaintFold(c.canvas, base, s.log, part);
      }
    }
  }

  lemma PublishKeepsFold(c: Config, s: Machine, next: Holder)
    requires Inv2(c, s) && s.producer.nextRow in s.producer.pending
    requires s.finishes == 0 ==> FullyCovered(s.producer.pending[s.producer.nextRow])
    ensures FoldInv(c, PublishNext(c, s, next))
  {
    if s.queue.failure.None? {
      var p := s.producer.pending[s.producer.nextRow];
      assert HoldsFold(c.canvas, p.strip, s.log) && HoldsCoverage(c.canvas, p, s.log);
      assert HoldsFold(c.canvas, HandOver(p), s.log);
      if s.finishes == 0 {
        assert AllCovered(c.canvas, HandOver(p), s.log);
      }
    }
  }

  lemma BlankKeepsFold(c: Config, s: Machine)
    requires Inv2(c, s) && Enabled(c, s, FinishBlank)
    ensures FoldInv(c, Apply(c, s, FinishBlank))
  {
    if s.queue.failure.None? { BlankFold(c.canvas, s.producer.nextRow, s.log); }
  }

  lemma FoldKept(c: Config, s: Machine, a: Action)
    requires Inv2(c, s) && Enabled(c, s, a)
    requires s.holder.Finishing? ==> s.finishes > 0
    ensures ValidParts(Apply(c, s, a).log) && FoldInv(c, Apply(c, s, a))
  {
    match a
    case PlaceSegment => PlaceKeepsFold(c, s);
    case PlacePublish => if NextReady(s.producer) { PublishKeepsFold(c, s, s.holder); }
    case FinishBlank => BlankKeepsFold(c, s);
    case FinishPublish => PublishKeepsFold(c, s, Finishing);
    case _ =>
  }
}
