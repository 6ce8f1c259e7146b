/** Whole runs of the pixel pipe, under every interleaving of its locked sections. */
module PixelRuns {
  import opened Arithmetic
  import opened Options
  import opened MemoryAccounting
  import opened Pixels
  import opened PixelModel
  import opened PixelMachine
  import opened PixelHistory

  /** Between sections no complete strip is left waiting at the head. */
  ghost predicate ReadyInv(s: Machine) {
    && (s.holder.Finishing? ==> s.finishes > 0)
    && (s.queue.failure.None? && (s.holder.Idle? || (s.holder.Placing? && !s.holder.publishing)) ==>
          !NextReady(s.producer))
  }

  ghost predicate Accounted(s: Machine, j: nat, firstRow: nat) {
    || firstRow < s.producer.nextRow
    || exists k :: 0 <= k < |s.log| && s.log[k].index == j && s.log[k].firstRow == firstRow
  }

  /** Row `y` of tile number `j` has been reached. */
  ghost predicate Reached(s: Machine, j: nat, y: nat) {
    j < |s.begun| && (s.holder.Placing? && j == |s.begun| - 1 ==> y < s.holder.y)
  }

  /** Every pixel of every placed tile was accepted or belongs to a strip handed over. */
  ghost predicate CompleteInv(c: Config, s: Machine) {
    s.failedCalls == 0 ==>
      forall j, x, y :: 0 <= j < |s.begun| && s.begun[j].Covers(c.canvas, x, y) && Reached(s, j, y) ==>
        Accounted(s, j, StripOf(y))
  }

  ghost predicate Overlap(c: Canvas, tiles: seq<Tile>) {
    exists i, j, x, y :: 0 <= i < j < |tiles| && tiles[i].Covers(c, x, y) && tiles[j].Covers(c, x, y)
  }

  /** Until `finish` is called, a contribution is late only if two tiles overlap. */
  ghost predicate LateInv(c: Config, s: Machine) {
    s.finishes == 0 && s.producer.late > 0 ==> Overlap(c.canvas, s.begun)
  }

  ghost predicate Inv(c: Config, s: Machine) {
    Inv2(c, s) && ReadyInv(s) && CompleteInv(c, s) && LateInv(c, s)
  }

  lemma StartInv(c: Config, s: Machine)
    requires c.Valid() && s == Start()
    ensures Inv(c, s)
  {
    StartInv1(c);
    hide Inv1;
    hide Start;
    StartHistory(c, s);
  }

  lemma StartHistory(c: Config, s: Machine)
    requires c.Valid() && s == Start()
    ensures LogInv(c, s) && ValidParts(s.log) && FoldInv(c, s)
    ensures ReadyInv(s) && CompleteInv(c, s) && LateInv(c, s)
  {
  }

  lemma ReadyKept(c: Config, s: Machine, a: Action)
    requires Inv1(c, s) && ReadyInv(s) && Enabled(c, s, a)
    ensures ReadyInv(Apply(c, s, a))
  {
    hide Paint;
    match a
    case PlaceSegment =>
      if StripOf(s.holder.y) < s.producer.nextRow || !Place(c, s).holder.Placing? {
        Refused(c, s);
      }
    case _ =>
  }

  lemma SameStrip(a: nat, b: nat)
    requires a <= b < StripOf(a) + STRIP_ROWS
    ensures StripOf(b) == StripOf(a)
  {
  }

  /** Accounting survives any step that only extends the log and advances the rows. */
  lemma StillAccounted(s: Machine, s': Machine, j: nat, firstRow: nat)
    requires Accounted(s, j, firstRow) && s.log <= s'.log && s.producer.nextRow <= s'.producer.nextRow
    ensures Accounted(s', j, firstRow)
  {
    if firstRow >= s.producer.nextRow {
      var k :| 0 <= k < |s.log| && s.log[k].index == j && s.log[k].firstRow == firstRow;
      assert s'.log[k] == s.log[k];
    }
  }

  lemma SegmentComplete(c: Config, s: Machine)
    requires Inv2(c, s) && CompleteInv(c, s) && Enabled(c, s, PlaceSegment)
    ensures CompleteInv(c, Place(c, s))
  {
    var s' := Place(c, s);
    var y := s.holder.y;
    SegmentAdvances(c.canvas, s.holder.tile, y);
    var late := StripOf(y) < s.producer.nextRow;
    if late || !s'.holder.Placing? { Refused(c, s); } else { Accepted(c, s); }
    if s'.failedCalls == 0 {
      forall j, px, py | 0 <= j < |s'.begun| && s'.begun[j].Covers(c.canvas, px, py) && Reached(s', j, py)
        ensures Accounted(s', j, StripOf(py))
      {
        if Reached(s, j, py) {
          StillAccounted(s, s', j, StripOf(py));
        } else {
          SameStrip(y, py);
          if !late { assert s'.log[|s.log|].index == j; }
        }
      }
    }
  }

  lemma CompleteKept(c: Config, s: Machine, a: Action)
    requires Inv2(c, s) && CompleteInv(c, s) && Enabled(c, s, a)
    ensures CompleteInv(c, Apply(c, s, a))
  {
    if a.PlaceSegment? {
      SegmentComplete(c, s);
    } else {
      hide Paint;
      var s' := Apply(c, s, a);
      assert s.log == s'.log && s.producer.nextRow <= s'.producer.nextRow;
      if s'.failedCalls == 0 {
        forall j, px, py | 0 <= j < |s'.begun| && s'.begun[j].Covers(c.canvas, px, py) && Reached(s', j, py)
          ensures Accounted(s', j, StripOf(py))
        {
          assert j < |s.begun| && Reached(s, j, py) && s.begun[j] == s'.begun[j];
          StillAccounted(s, s', j, StripOf(py));
        }
      }
    }
  }

  /** The pixel of strip `firstRow` at a canvas position. */
  lemma PixelOfStrip(c: Canvas, firstRow: nat, x: nat, y: nat) returns (i: nat)
    requires x < c.width && firstRow <= y < firstRow + StripRows(c, firstRow)
    ensures i == (y - firstRow) * c.width + x < StripPixels(c, firstRow)
    ensures Column(c, i) == x && Row(c, firstRow, i) == y
  {
    var row, rows := y - firstRow, StripRows(c, firstRow);
    i := row * c.width + x;
    assert i < StripPixels(c, firstRow) by {
      RowMajor(row, rows, x, c.width);
      Commutes(rows, c.width);
    }
    FlatIndex(c.width, row, x);
    hide StripRows, StripPixels;
  }

  lemma LateOverlaps(c: Config, s: Machine)
    requires Inv2(c, s) && Enabled(c, s, PlaceSegment)
    requires StripOf(s.holder.y) < s.producer.nextRow && s.finishes == 0
    ensures Overlap(c.canvas, s.begun)
  {
    var t, y, last := s.holder.tile, s.holder.y, |s.begun| - 1;
    var e, firstRow := y / STRIP_ROWS, StripOf(y);
    assert t.Covers(c.canvas, t.x, y);
    assert IsWholeStrip(c.canvas, s.emitted[e], firstRow);
    var i := PixelOfStrip(c.canvas, firstRow, t.x, y);
    assert CoveredBy(c.canvas, s.log, Column(c.canvas, i), Row(c.canvas, firstRow, i));
    var k :| 0 <= k < |s.log| && PartCovers(c.canvas, s.log[k], t.x, y);
    assert s.log[k].index != last;
    assert s.begun[s.log[k].index].Covers(c.canvas, t.x, y) && s.begun[last].Covers(c.canvas, t.x, y);
  }

  lemma LateKept(c: Config, s: Machine, a: Action)
    requires Inv2(c, s) && LateInv(c, s) && Enabled(c, s, a)
    ensures LateInv(c, Apply(c, s, a))
  {
    hide Paint;
    if a.PlaceSegment? {
      if StripOf(s.holder.y) < s.producer.nextRow || !Place(c, s).holder.Placing? {
        Refused(c, s);
        if StripOf(s.holder.y) < s.producer.nextRow && s.finishes == 0 { LateOverlaps(c, s); }
      } else {
        Accepted(c, s);
      }
    } else {
      var s' := Apply(c, s, a);
      assert s'.producer.late == s.producer.late && s.begun <= s'.begun && s.finishes <= s'.finishes;
      if s'.finishes == 0 && s'.producer.late > 0 {
        var i, j, x, y :|
          0 <= i < j < |s.begun| && s.begun[i].Covers(c.canvas, x, y) && s.begun[j].Covers(c.canvas, x, y);
        assert s'.begun[i].Covers(c.canvas, x, y) && s'.begun[j].Covers(c.canvas, x, y);
      }
    }
  }

  // ---- Runs ----------------------------------------------------------------------------

  ghost predicate Next(c: Config, s: Machine, a: Action, s': Machine) {
    WellFormed(c, s) && Enabled(c, s, a) && s' == Apply(c, s, a)
  }

  /** Any interleaving of the sections, from an empty pipe. */
  ghost predicate IsRun(c: Config, states: seq<Machine>, actions: seq<Action>) {
    && c.Valid()
    && |states| == |actions| + 1
    && states[0] == Start()
    && forall i :: 0 <= i < |actions| ==> Next(c, states[i], actions[i], states[i + 1])
  }

  lemma InvKept(c: Config, s: Machine, a: Action)
    requires Inv(c, s) && Enabled(c, s, a)
    ensures Inv(c, Apply(c, s, a))
  {
    GeometryKept(c, s, a);
    OrderKept(c, s, a);
    BudgetKept(c, s, a);
    LogKept(c, s, a);
    FoldKept(c, s, a);
    ReadyKept(c, s, a);
    CompleteKept(c, s, a);
    LateKept(c, s, a);
    hide Apply;
    hide GeometryInv;
    hide OrderInv;
    hide BudgetInv;
    hide LogInv;
    hide FoldInv;
    hide ReadyInv;
    hide CompleteInv;
    hide LateInv;
  }

  /** Every state of every run satisfies the invariant. */
  lemma {:induction false} RunInv(c: Config, states: seq<Machine>, actions: seq<Action>, i: nat)
    requires IsRun(c, states, actions) && i < |states|
    ensures Inv(c, states[i])
  {
    hide Inv;
    if i == 0 {
      StartInv(c, states[0]);
    } else {
      RunInv(c, states, actions, i - 1);
      assert Next(c, states[i - 1], actions[i - 1], states[i]);
      InvKept(c, states[i - 1], actions[i - 1]);
    }
  }

  /** The bytes in use are the live reservations and never pass the cap. */
  lemma BytesAreLiveReservations(c: Config, states: seq<Machine>, actions: seq<Action>, i: nat)
    requires IsRun(c, states, actions) && i < |states|
    ensures states[i].usage.current == LiveBytes(states[i]) <= c.cap
  {
    RunInv(c, states, actions, i);
  }

  ghost function Highest(states: seq<Machine>): nat
    requires states != []
  {
    var current := states[|states| - 1].usage.current;
    if |states| == 1 then current else Max(Highest(states[..|states| - 1]), current)
  }

  lemma PeakStep(c: Config, s: Machine, a: Action)
    requires Inv1(c, s) && Enabled(c, s, a)
    ensures Apply(c, s, a).usage.peak == Max(s.usage.peak, Apply(c, s, a).usage.current)
  {
    hide Paint;
    match a
    case Reserve(bytes) => ReserveIsExact(c.cap, s.usage, bytes);
    case PlaceSegment =>
      if NeedsBlank(s.producer, s.holder.y) {
        ReserveIsExact(c.cap, s.usage, BlankCharge(c.canvas, StripOf(s.holder.y)));
      }
    case FinishBlank => ReserveIsExact(c.cap, s.usage, BlankCharge(c.canvas, s.producer.nextRow));
    case _ =>
  }

  /** The recorded peak is the maximum of the bytes in use so far. */
  lemma {:induction false} PeakIsRunningMaximum(c: Config, states: seq<Machine>, actions: seq<Action>)
    requires IsRun(c, states, actions)
    ensures states[|actions|].usage.peak == Highest(states)
  {
    var n := |actions|;
    if n > 0 {
      PeakIsRunningMaximum(c, states[..n], actions[..n - 1]);
      RunInv(c, states, actions, n - 1);
      assert Next(c, states[n - 1], actions[n - 1], states[n]);
      PeakStep(c, states[n - 1], actions[n - 1]);
    }
  }

  lemma FailureStep(c: Config, s: Machine, a: Action)
    requires Inv1(c, s) && Enabled(c, s, a) && s.queue.failure.Some?
    ensures var s' := Apply(c, s, a);
      && s'.queue.failure == s.queue.failure && s'.queue.ready == []
      && s'.emitted == s.emitted && s'.received == s.received
  {
    hide Paint;
  }

  /** The first failure is never replaced, and from then on no strip is queued or received. */
  lemma RunInv1(c: Config, states: seq<Machine>, actions: seq<Action>, i: nat)
    requires IsRun(c, states, actions) && i < |states|
    ensures Inv1(c, states[i])
  {
    RunInv(c, states, actions, i);
  }

  lemma FailureClears(c: Config, s: Machine)
    requires Inv1(c, s) && s.queue.failure.Some?
    ensures s.queue.ready == []
  {
  }

  lemma {:induction false} FailureIsFinal(
      c: Config, states: seq<Machine>, actions: seq<Action>, i: nat, j: nat)
    requires IsRun(c, states, actions) && i <= j < |states| && states[i].queue.failure.Some?
    ensures states[j].queue.failure == states[i].queue.failure && states[j].queue.ready == []
    ensures states[j].emitted == states[i].emitted && states[j].received == states[i].received
  {
    hide Inv1;
    hide Apply;
    if i == j {
      RunInv1(c, states, actions, j);
      FailureClears(c, states[j]);
    } else {
      FailureIsFinal(c, states, actions, i, j - 1);
      RunInv1(c, states, actions, j - 1);
      assert Next(c, states[j - 1], actions[j - 1], states[j]);
      FailureStep(c, states[j - 1], actions[j - 1]);
    }
  }

  // ---- What has been handed over ----------------------------------------------------------

  /** In every state of every run the strips handed over are whole, in row order, and hold the
      fold of the contributions accepted so far; the reader has received a prefix of them. */
  lemma HandedOverStripsHoldTheFold(c: Config, states: seq<Machine>, actions: seq<Action>, i: nat)
    requires IsRun(c, states, actions) && i < |states|
    ensures ValidParts(states[i].log) && states[i].received <= states[i].emitted
    ensures forall e :: 0 <= e < |states[i].emitted| ==>
      && IsWholeStrip(c.canvas, states[i].emitted[e], STRIP_ROWS * e)
      && HoldsFold(c.canvas, states[i].emitted[e], states[i].log)
      && (states[i].finishes == 0 ==> AllCovered(c.canvas, states[i].emitted[e], states[i].log))
  {
    RunInv(c, states, actions, i);
  }

  predicate HasRow(strip: Strip, y: nat) {
    strip.firstRow <= y < strip.firstRow + strip.rows
  }

  /** When `finish` returns normally each canvas row has been handed over exactly once. */
  lemma FinishHandsOverEveryRow(c: Config, states: seq<Machine>, actions: seq<Action>, i: nat)
    requires IsRun(c, states, actions) && i < |states| && Enabled(c, states[i], EndFinish)
    ensures states[i].queue.closed
    ensures |states[i].emitted| == DivCeil(c.canvas.height, STRIP_ROWS)
    ensures forall y: nat, e :: y < c.canvas.height && 0 <= e < |states[i].emitted| ==>
      (HasRow(states[i].emitted[e], y) <==> e == y / STRIP_ROWS)
  {
    RunInv(c, states, actions, i);
    AllRowsOnce(c, states[i]);
  }

  lemma AllRowsOnce(c: Config, s: Machine)
    requires c.Valid() && OrderInv(c, s) && s.producer.nextRow == c.canvas.height
    ensures |s.emitted| == DivCeil(c.canvas.height, STRIP_ROWS)
    ensures forall y: nat, e :: y < c.canvas.height && 0 <= e < |s.emitted| ==>
      (HasRow(s.emitted[e], y) <==> e == y / STRIP_ROWS)
  {
    forall y: nat, e | y < c.canvas.height && 0 <= e < |s.emitted|
      ensures HasRow(s.emitted[e], y) <==> e == y / STRIP_ROWS
    {
      assert IsWholeStrip(c.canvas, s.emitted[e], STRIP_ROWS * e);
    }
  }

  // ---- Tiles that make up a canvas -----------------------------------------------------

  type Picture = (nat, nat) -> Rgba

  ghost predicate Shown(c: Canvas, tiles: seq<Tile>, x: nat, y: nat) {
    exists j :: 0 <= j < |tiles| && tiles[j].Covers(c, x, y)
  }

  /** Opaque tiles that show the picture and leave no pixel out. */
  ghost predicate Shows(c: Canvas, tiles: seq<Tile>, picture: Picture) {
    && (forall j :: 0 <= j < |tiles| ==> tiles[j].Valid() && tiles[j].Opaque())
    && (forall j, x, y :: 0 <= j < |tiles| && tiles[j].Covers(c, x, y) ==> tiles[j].At(c, x, y) == picture(x, y))
    && (forall x: nat, y: nat :: x < c.width && y < c.height ==> Shown(c, tiles, x, y))
  }

  /** The picture cut into strips. */
  function Strips(c: Canvas, picture: Picture): seq<Strip>
    requires c.width > 0
  {
    seq(DivCeil(c.height, STRIP_ROWS), k requires 0 <= k => StripOfPicture(c, picture, STRIP_ROWS * k))
  }

  function StripOfPicture(c: Canvas, picture: Picture, firstRow: nat): Strip
    requires c.width > 0
  {
    var n := StripPixels(c, firstRow);
    Strip(firstRow, StripRows(c, firstRow),
          seq(n, i requires 0 <= i < n => picture(Column(c, i), Row(c, firstRow, i))), 4 * n)
  }

  /** Compositing opaque contributions that agree gives their common pixel. */
  lemma {:induction false} FoldOfOpaque(c: Canvas, log: seq<Part>, x: nat, y: nat, pixel: Rgba)
    requires OpaqueReplaces(c.blend) && ValidParts(log) && CoveredBy(c, log, x, y)
    requires forall k :: 0 <= k < |log| && PartCovers(c, log[k], x, y) ==>
      log[k].tile.Opaque() && log[k].tile.At(c, x, y) == pixel
    ensures Fold(c, log, x, y) == pixel
  {
    var shorter, part := log[..|log| - 1], log[|log| - 1];
    if PartCovers(c, part, x, y) {
      OpaqueAt(c, part.tile, x, y);
    } else {
      var k :| 0 <= k < |log| && PartCovers(c, log[k], x, y);
      assert PartCovers(c, shorter[k], x, y);
      FoldOfOpaque(c, shorter, x, y, pixel);
    }
  }

  lemma OpaqueAt(c: Canvas, t: Tile, x: nat, y: nat)
    requires t.Valid() && t.Covers(c, x, y) && t.Opaque()
    ensures t.At(c, x, y).a == 255
  {
  }

  /** Between calls, once the placed tiles leave no pixel out, no strip is left to hand over. */
  lemma NoStripLeft(c: Config, s: Machine, picture: Picture)
    requires Inv(c, s) && s.holder.Idle? && s.queue.failure.None? && s.failedCalls == 0
    requires Shows(c.canvas, s.begun, picture)
    ensures s.producer.nextRow == c.canvas.height
  {
    var firstRow := s.producer.nextRow;
    if firstRow < c.canvas.height {
      NonEmptyStrip(c.canvas, firstRow);
      PixelAccepted(c, s, picture, 0);
      var p := s.producer.pending[firstRow];
      assert HoldsCoverage(c.canvas, p, s.log);
      forall i | 0 <= i < |p.covered|
        ensures p.covered[i]
      {
        PixelAccepted(c, s, picture, i);
      }
      assert false;
    }
  }

  lemma PixelAccepted(c: Config, s: Machine, picture: Picture, i: nat)
    requires Inv(c, s) && s.holder.Idle? && s.queue.failure.None? && s.failedCalls == 0
    requires Shows(c.canvas, s.begun, picture)
    requires s.producer.nextRow < c.canvas.height && i < StripPixels(c.canvas, s.producer.nextRow)
    ensures s.producer.nextRow in s.producer.pending
    ensures CoveredBy(c.canvas, s.log, Column(c.canvas, i), Row(c.canvas, s.producer.nextRow, i))
  {
    var firstRow := s.producer.nextRow;
    var x, y := Column(c.canvas, i), Row(c.canvas, firstRow, i);
    RowInStrip(c.canvas, firstRow, i);
    assert Shown(c.canvas, s.begun, x, y);
    var j :| 0 <= j < |s.begun| && s.begun[j].Covers(c.canvas, x, y);
    assert Reached(s, j, y);
    assert Accounted(s, j, firstRow);
    var k :| 0 <= k < |s.log| && s.log[k].index == j && s.log[k].firstRow == firstRow;
    assert PartCovers(c.canvas, s.log[k], x, y);
  }

  lemma NonEmptyStrip(c: Canvas, firstRow: nat)
    requires c.width > 0 && firstRow < c.height
    ensures StripPixels(c, firstRow) > 0
  {
    var rows := StripRows(c, firstRow);
    assert rows > 0;
    hide StripRows;
    assert c.width * rows > 0;
  }

  /** Tiles that show a picture, placed in any order and under any interleaving with the
      reader, are handed over as exactly the picture's strips; the queue is closed, and
      nothing is late unless two tiles overlap. */
  lemma PlacedPictureIsHandedOver(c: Config, states: seq<Machine>, actions: seq<Action>, i: nat, picture: Picture)
    requires IsRun(c, states, actions) && i < |states|
    requires var s := states[i];
      && s.holder.Idle? && s.queue.failure.None? && s.failedCalls == 0 && s.finishes == 0
      && Shows(c.canvas, s.begun, picture)
    ensures states[i].emitted == Strips(c.canvas, picture)
    ensures states[i].queue.closed
    ensures !Overlap(c.canvas, states[i].begun) ==> states[i].producer.late == 0
  {
    var s := states[i];
    RunInv(c, states, actions, i);
    NoStripLeft(c, s, picture);
    AllRowsOnce(c, s);
    forall e | 0 <= e < |s.emitted|
      ensures s.emitted[e] == StripOfPicture(c.canvas, picture, STRIP_ROWS * e)
    {
      EmittedShows(c, s, picture, e);
    }
  }

  lemma EmittedShows(c: Config, s: Machine, picture: Picture, e: nat)
    requires Inv(c, s) && s.finishes == 0 && Shows(c.canvas, s.begun, picture) && e < |s.emitted|
    ensures s.emitted[e] == StripOfPicture(c.canvas, picture, STRIP_ROWS * e)
  {
    var strip, firstRow := s.emitted[e], STRIP_ROWS * e;
    assert IsWholeStrip(c.canvas, strip, firstRow);
    assert HoldsFold(c.canvas, strip, s.log) && AllCovered(c.canvas, strip, s.log);
    forall p | 0 <= p < |strip.rgba|
      ensures strip.rgba[p] == picture(Column(c.canvas, p), Row(c.canvas, firstRow, p))
    {
      var x, y := Column(c.canvas, p), Row(c.canvas, firstRow, p);
      FoldOfOpaque(c.canvas, s.log, x, y, picture(x, y));
    }
  }

  // ---- Any order -------------------------------------------------------------------------

  lemma TwoPositions(tiles: seq<Tile>, a: Tile, b: Tile) returns (i: nat, j: nat)
    requires multiset{a, b} <= multiset(tiles)
    ensures i < |tiles| && j < |tiles| && i != j && tiles[i] == a && tiles[j] == b
  {
    assert a in multiset(tiles);
    i :| 0 <= i < |tiles| && tiles[i] == a;
    var rest := tiles[..i] + tiles[i + 1..];
    assert tiles == tiles[..i] + [a] + tiles[i + 1..];
    assert multiset(tiles) == multiset(rest) + multiset{a};
    assert b in multiset(rest);
    var k :| 0 <= k < |rest| && rest[k] == b;
    j := if k < i then k else k + 1;
  }

  lemma OverlapIsUnordered(c: Canvas, tiles: seq<Tile>, other: seq<Tile>)
    requires multiset(tiles) == multiset(other) && Overlap(c, tiles)
    ensures Overlap(c, other)
  {
    var i, j, x, y :| 0 <= i < j < |tiles| && tiles[i].Covers(c, x, y) && tiles[j].Covers(c, x, y);
    assert tiles == tiles[..i] + [tiles[i]] + tiles[i + 1..j] + [tiles[j]] + tiles[j + 1..];
    assert multiset{tiles[i], tiles[j]} <= multiset(tiles);
    var i', j' := TwoPositions(other, tiles[i], tiles[j]);
    if i' < j' {
      assert other[i'].Covers(c, x, y) && other[j'].Covers(c, x, y);
    } else {
      assert other[j'].Covers(c, x, y) && other[i'].Covers(c, x, y);
    }
  }

  /** Opaque tiles that cover every canvas pixel exactly once. */
  ghost predicate Partition(c: Canvas, tiles: seq<Tile>) {
    && (forall j :: 0 <= j < |tiles| ==> tiles[j].Valid() && tiles[j].Opaque())
    && (forall x: nat, y: nat :: x < c.width && y < c.height ==> Shown(c, tiles, x, y))
    && !Overlap(c, tiles)
  }

  /** The reference canvas of a partition. */
  ghost function Reference(c: Canvas, tiles: seq<Tile>): Picture
    requires forall j :: 0 <= j < |tiles| ==> tiles[j].Valid()
  {
    (x: nat, y: nat) =>
      if Shown(c, tiles, x, y) then
        var j :| 0 <= j < |tiles| && tiles[j].Covers(c, x, y);
        tiles[j].At(c, x, y)
      else CLEAR
  }

  /** Any order of a partition shows its reference canvas. */
  lemma PartitionShows(c: Canvas, tiles: seq<Tile>, other: seq<Tile>)
    requires Partition(c, tiles) && multiset(other) == multiset(tiles)
    ensures Shows(c, other, Reference(c, tiles)) && !Overlap(c, other)
  {
    if Overlap(c, other) { OverlapIsUnordered(c, other, tiles); assert false; }
    var picture := Reference(c, tiles);
    forall j | 0 <= j < |other|
      ensures other[j].Valid() && other[j].Opaque()
      ensures forall x, y :: other[j].Covers(c, x, y) ==> other[j].At(c, x, y) == picture(x, y)
    {
      assert other[j] in multiset(tiles);
      var k :| 0 <= k < |tiles| && tiles[k] == other[j];
      forall x, y | tiles[k].Covers(c, x, y)
        ensures tiles[k].At(c, x, y) == picture(x, y)
      {
        OnlyOneCovers(c, tiles, k, x, y);
      }
    }
    forall x: nat, y: nat | x < c.width && y < c.height
      ensures Shown(c, other, x, y)
    {
      assert Shown(c, tiles, x, y);
      var k :| 0 <= k < |tiles| && tiles[k].Covers(c, x, y);
      assert tiles[k] in multiset(other);
      var j :| 0 <= j < |other| && other[j] == tiles[k];
      assert other[j].Covers(c, x, y);
    }
  }

  lemma OnlyOneCovers(c: Canvas, tiles: seq<Tile>, k: nat, x: nat, y: nat)
    requires forall j :: 0 <= j < |tiles| ==> tiles[j].Valid()
    requires !Overlap(c, tiles) && k < |tiles| && tiles[k].Covers(c, x, y)
    ensures Reference(c, tiles)(x, y) == tiles[k].At(c, x, y)
  {
    assert Shown(c, tiles, x, y);
    forall j | 0 <= j < |tiles| && tiles[j].Covers(c, x, y)
      ensures j == k
    {
    }
  }

  /** For any opaque tiles that exactly partition the canvas, every order of placing them, and
      every interleaving with the reader, hands over the same strips: the reference canvas cut
      into 64-row strips. Nothing is late and the queue ends closed. */
  lemma EveryOrderHandsOverTheCanvas(
      c: Config, states: seq<Machine>, actions: seq<Action>, i: nat, tiles: seq<Tile>)
    requires IsRun(c, states, actions) && i < |states| && Partition(c.canvas, tiles)
    requires var s := states[i];
      && s.holder.Idle? && s.queue.failure.None? && s.failedCalls == 0 && s.finishes == 0
      && multiset(s.begun) == multiset(tiles)
    ensures states[i].emitted == Strips(c.canvas, Reference(c.canvas, tiles))
    ensures states[i].producer.late == 0 && states[i].queue.closed
  {
    PartitionShows(c.canvas, tiles, states[i].begun);
    PlacedPictureIsHandedOver(c, states, actions, i, Reference(c.canvas, tiles));
  }
}
