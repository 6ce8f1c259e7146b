/** A `place` or `finish` call that nothing interrupts is one of the machine's runs: what the
    pipe's methods compute is reached by the interleaved sections. */
module PixelCalls {
  import opened MemoryAccounting
  import opened Options
  import opened PixelModel
  import opened PixelMachine
  import opened PixelPipes
  import Arithmetic
  import PixelRuns

  /** The actions are enabled one after the other and lead from `s` to `t`. */
  ghost predicate Leads(c: Config, s: Machine, actions: seq<Action>, t: Machine)
    decreases |actions|
  {
    if actions == [] then s == t
    else WellFormed(c, s) && Enabled(c, s, actions[0]) && Leads(c, Apply(c, s, actions[0]), actions[1..], t)
  }

  lemma StepFirst(c: Config, s: Machine, a: Action, rest: seq<Action>, t: Machine)
    requires WellFormed(c, s) && Enabled(c, s, a) && Leads(c, Apply(c, s, a), rest, t)
    ensures Leads(c, s, [a] + rest, t)
  {
    assert ([a] + rest)[1..] == rest;
  }

  lemma Kept(c: Config, s: Machine, a: Action)
    requires Inv1(c, s) && Enabled(c, s, a)
    ensures Inv1(c, Apply(c, s, a))
  {
    GeometryKept(c, s, a);
    OrderKept(c, s, a);
    BudgetKept(c, s, a);
  }

  lemma {:induction false} PublishingLeads(c: Config, s: Machine) returns (actions: seq<Action>, t: Machine)
    requires Inv1(c, s) && s.holder.Placing? && s.holder.publishing && s.queue.failure.None?
    ensures Placings(actions) && Leads(c, s, actions, t) && Inv1(c, t) && t.holder == s.holder.(publishing := false)
    ensures Geometry(c.canvas, s.producer)
    ensures (t.producer, t.queue) == PublishReady(c.canvas, s.producer, s.queue)
    ensures t.failedCalls == s.failedCalls && t.queue.failure.None?
    decreases c.canvas.height - s.producer.nextRow
  {
    assert s.producer.nextRow in s.producer.pending ==>
      Publish(c.canvas, s.producer, s.queue).1.failure == s.queue.failure;
    hide Inv1, Leads, Publish, Geometry, WellFormed, BlankCharge;
    GeometryOf(c, s);
    Kept(c, s, PlacePublish);
    var next := Apply(c, s, PlacePublish);
    if NextReady(s.producer) {
      GeometryOf(c, s);
      PublishGeometry(c.canvas, s.producer, s.queue);
      actions, t := PublishingLeads(c, next);
    } else {
      actions, t := [], next;
      NoSteps(c, t);
      GeometryOf(c, s);
    }
    StepFirst(c, s, PlacePublish, actions, t);
    actions := [PlacePublish] + actions;
  }

  lemma NoSteps(c: Config, s: Machine)
    ensures Leads(c, s, [], s)
  {
  }

  lemma GeometryOf(c: Config, s: Machine)
    requires Inv1(c, s)
    ensures WellFormed(c, s) && Geometry(c.canvas, s.producer)
  {
  }

  lemma {:induction false} LeadsOn(c: Config, s: Machine, first: seq<Action>, u: Machine, second: seq<Action>,
                                   t: Machine)
    requires Leads(c, s, first, u) && Leads(c, u, second, t)
    ensures Leads(c, s, first + second, t)
    decreases |first|
  {
    if first == [] {
      assert first + second == second;
    } else {
      LeadsOn(c, Apply(c, s, first[0]), first[1..], u, second, t);
      assert (first + second)[1..] == first[1..] + second;
    }
  }

  /** The section that composites one strip, when its memory can be reserved. */
  lemma SegmentStep(c: Config, s: Machine)
    requires Inv1(c, s) && Enabled(c, s, PlaceSegment) && Place(c, s).holder.Placing?
    ensures var Placing(t, y, _) := s.holder; var u := Place(c, s);
      && IsSegment(c, s, u) && Inv1(c, u)
  {
    Kept(c, s, PlaceSegment);
    hide Paint, Inv1;
    var Placing(t, y, _) := s.holder;
    InCanvas(c.canvas, t, y);
    GeometryOf(c, s);
    if NeedsBlank(s.producer, y) { SegmentOfBlank(c.canvas, s.producer, t, y); }
  }

  ghost predicate IsSegment(c: Config, s: Machine, u: Machine)
    requires c.Valid() && s.holder.Placing? && s.holder.tile.Valid() && Paintable(s.producer, StripOf(s.holder.y))
  {
    var Placing(t, y, _) := s.holder;
    && u.producer == Segment(c.canvas, s.producer, t, y) && u.queue == s.queue
    && u.holder == Placing(t, SegmentEnd(c.canvas, t, y), StripOf(y) >= s.producer.nextRow)
    && u.failedCalls == s.failedCalls
  }

  /** One strip's part of a `place` call. */
  lemma StripLeads(c: Config, s: Machine) returns (actions: seq<Action>, v: Machine)
    requires Inv1(c, s) && Enabled(c, s, PlaceSegment) && s.queue.failure.None? && Place(c, s).holder.Placing?
    ensures Placings(actions) && Leads(c, s, actions, v) && Inv1(c, v)
    ensures Geometry(c.canvas, s.producer) && s.holder.y >= s.holder.tile.y
    ensures v.failedCalls == s.failedCalls && v.queue.failure.None?
    ensures v.holder == Placing(s.holder.tile, SegmentEnd(c.canvas, s.holder.tile, s.holder.y), false)
    ensures (v.producer, v.queue) == PlaceOne(c.canvas, s.producer, s.queue, s.holder.tile, s.holder.y)
  {
    assert s.holder.Placing? && !s.holder.publishing;
    assert s.holder.y < TileEnd(c.canvas, s.holder.tile);
    hide Place, Inv1, Leads, Segment, Geometry, PublishReady, SegmentEnd, WellFormed, Enabled, Apply, TileEnd;
    hide Paintable;
    hide Canvas.Valid, Reserved, BlankCharge;
    var Placing(tile, y, _) := s.holder;
    CallFacts(c, s);
    InCanvas(c.canvas, tile, y);
    SegmentGeometry(c.canvas, s.producer, tile, y);
    SegmentStep(c, s);
    var u := Place(c, s);
    if u.holder.publishing {
      actions, v := PublishingLeads(c, u);
    } else {
      actions, v := [], u;
      NoSteps(c, u);
    }
    StepFirst(c, s, PlaceSegment, actions, v);
    actions := [PlaceSegment] + actions;
  }

  /** Only the sections of a `place` call. */
  ghost predicate Placings(actions: seq<Action>) {
    forall i :: 0 <= i < |actions| ==> actions[i].PlaceSegment? || actions[i].PlacePublish?
  }

  /** The call stopped at the strip of row `y`: everything above is placed, and the bytes of the
      blank strip needed there cannot be reserved. */
  ghost predicate PlaceRefused(c: Config, s: Machine, t: Machine, y: nat)
    requires Geometry(c.canvas, s.producer) && Geometry(c.canvas, t.producer)
    requires s.holder.Placing? && s.holder.tile.Valid() && s.holder.y >= s.holder.tile.y
  {
    var tile := s.holder.tile;
    && s.holder.y <= y < TileEnd(c.canvas, tile) && NeedsBlank(t.producer, y)
    && Reserved(c.cap, t.usage, BlankCharge(c.canvas, StripOf(y))) == None
    && PlaceFrom(c.canvas, s.producer, s.queue, tile, s.holder.y) == PlaceFrom(c.canvas, t.producer, t.queue, tile, y)
    && t.holder.Idle? && t.failedCalls == s.failedCalls + 1
  }

  /** The call reached the end of the tile. */
  ghost predicate Placed(c: Config, s: Machine, t: Machine)
    requires Geometry(c.canvas, s.producer) && s.holder.Placing?
    requires s.holder.tile.Valid() && s.holder.y >= s.holder.tile.y
  {
    && t.holder.Placing? && t.holder.tile == s.holder.tile && Enabled(c, t, EndPlace) && t.failedCalls == s.failedCalls
    && (t.producer, t.queue) == PlaceFrom(c.canvas, s.producer, s.queue, s.holder.tile, s.holder.y)
  }

  /** From anywhere inside a `place` call, its remaining sections lead either to the end of the
      tile with the producer and queue that `PlaceFrom` computes, or to the first strip whose blank
      cannot be reserved. */
  lemma {:induction false} PlaceLeads(c: Config, s: Machine) returns (actions: seq<Action>, t: Machine)
    requires Inv1(c, s) && s.holder.Placing? && !s.holder.publishing && s.queue.failure.None?
    ensures Placings(actions) && Leads(c, s, actions, t) && Inv1(c, t)
    ensures Geometry(c.canvas, s.producer) && Geometry(c.canvas, t.producer) && s.holder.y >= s.holder.tile.y
    ensures Placed(c, s, t) || exists y :: PlaceRefused(c, s, t, y)
    decreases TileEnd(c.canvas, s.holder.tile) - s.holder.y
  {
    hide Inv1, WellFormed, Enabled, Apply, Leads, Geometry, Place, PlaceOne, SegmentEnd, TileEnd, PlaceFrom, Placed;
    hide PlaceRefused, NeedsBlank, BlankCharge, Segment, Paintable, Canvas.Valid;
    var Placing(tile, y, _) := s.holder;
    CallFacts(c, s);
    PlaceFromUnfolds(c.canvas, s.producer, s.queue, tile, y);
    if y >= TileEnd(c.canvas, tile) {
      actions, t := [], s;
      NoSteps(c, s);
    } else if !Place(c, s).holder.Placing? {
      Kept(c, s, PlaceSegment);
      RefusedCall(c, s);
      t := Apply(c, s, PlaceSegment);
      NoSteps(c, t);
      StepFirst(c, s, PlaceSegment, [], t);
      actions := [PlaceSegment] + [];
      assert PlaceRefused(c, s, t, y);
    } else {
      SegmentAdvances(c.canvas, tile, y);
      var first, v := StripLeads(c, s);
      var rest;
      rest, t := PlaceLeads(c, v);
      LeadsOn(c, s, first, v, rest, t);
      actions := first + rest;
      OutcomeOfRest(c, s, v, t);
    }
  }

  lemma CallFacts(c: Config, s: Machine)
    requires Inv1(c, s) && s.holder.Placing? && !s.holder.publishing
    ensures WellFormed(c, s) && Geometry(c.canvas, s.producer) && c.canvas.width > 0 && s.begun != []
    ensures s.holder.tile.Valid() && s.holder.y >= s.holder.tile.y && Paintable(s.producer, StripOf(s.holder.y))
    ensures Enabled(c, s, PlaceSegment) <==> s.holder.y < TileEnd(c.canvas, s.holder.tile)
    ensures Enabled(c, s, PlaceSegment) ==> Apply(c, s, PlaceSegment) == Place(c, s)
    ensures s.holder.y >= TileEnd(c.canvas, s.holder.tile) ==> Placed(c, s, s)
  {
    GeometryOf(c, s);
    IsPaintable(c.canvas, s.producer, StripOf(s.holder.y));
    PlaceFromUnfolds(c.canvas, s.producer, s.queue, s.holder.tile, s.holder.y);
    hide Inv1, Geometry, PlaceFrom, Place, Paintable;
  }

  lemma RefusedCall(c: Config, s: Machine)
    requires Inv1(c, s) && WellFormed(c, s) && Geometry(c.canvas, s.producer)
    requires Enabled(c, s, PlaceSegment) && !Place(c, s).holder.Placing?
    ensures s.holder.Placing? && s.holder.tile.Valid() && s.holder.y >= s.holder.tile.y
    ensures Geometry(c.canvas, Apply(c, s, PlaceSegment).producer)
    ensures PlaceRefused(c, s, Apply(c, s, PlaceSegment), s.holder.y)
  {
    hide PlaceFrom, Geometry, Inv1, BlankCharge;
  }

  /** What becomes of the rest of the call becomes of the call. */
  lemma OutcomeOfRest(c: Config, s: Machine, v: Machine, t: Machine)
    requires Geometry(c.canvas, s.producer) && Geometry(c.canvas, v.producer) && Geometry(c.canvas, t.producer)
    requires s.holder.Placing? && v.holder.Placing? && v.holder.tile == s.holder.tile && s.holder.tile.Valid()
    requires s.holder.tile.y <= s.holder.y <= v.holder.y && v.failedCalls == s.failedCalls
    requires PlaceFrom(c.canvas, s.producer, s.queue, s.holder.tile, s.holder.y)
          == PlaceFrom(c.canvas, v.producer, v.queue, v.holder.tile, v.holder.y)
    requires Placed(c, v, t) || exists y :: PlaceRefused(c, v, t, y)
    ensures Placed(c, s, t) || exists y :: PlaceRefused(c, s, t, y)
  {
    hide PlaceFrom, Geometry, NeedsBlank, BlankCharge;
    if y :| PlaceRefused(c, v, t, y) {
      assert PlaceRefused(c, s, t, y);
    }
  }

  // ---- `finish` ---------------------------------------------------------------------------------

  /** Only the sections of a `finish` call. */
  ghost predicate Finishings(actions: seq<Action>) {
    forall i :: 0 <= i < |actions| ==> actions[i].FinishBlank? || actions[i].FinishPublish?
  }

  /** The call stopped at the next strip: everything above is handed over, and the bytes of the
      blank strip needed there cannot be reserved. */
  ghost predicate FinishRefused(c: Config, s: Machine, t: Machine)
    requires Geometry(c.canvas, s.producer) && Geometry(c.canvas, t.producer)
  {
    && t.producer.nextRow < c.canvas.height && t.producer.nextRow !in t.producer.pending
    && Reserved(c.cap, t.usage, BlankCharge(c.canvas, t.producer.nextRow)) == None
    && PublishAll(c.canvas, s.producer, s.queue) == PublishAll(c.canvas, t.producer, t.queue)
    && t.holder.Idle? && t.failedCalls == s.failedCalls + 1
  }

  /** What `PublishAll` does first. */
  lemma PublishAllUnfolds<E>(c: Canvas, p: Producer, q: Queue<E>)
    requires Geometry(c, p)
    ensures p.nextRow >= c.height ==> PublishAll(c, p, q) == (p, q)
    ensures p.nextRow < c.height && p.nextRow in p.pending ==>
      var (p', q') := Publish(c, p, q);
      Geometry(c, p') && p.nextRow < p'.nextRow && PublishAll(c, p, q) == PublishAll(c, p', q')
    ensures p.nextRow < c.height && p.nextRow !in p.pending ==>
      var filled := p.(pending := p.pending[p.nextRow := Blank(c, p.nextRow)]);
      Geometry(c, filled) && PublishAll(c, p, q) == PublishAll(c, filled, q)
  {
    if p.nextRow < c.height {
      FilledGeometry(c, p);
      PublishGeometry(c, Filled(c, p), q);
      hide Geometry, Publish, Blank;
    }
  }

  lemma BlankStep(c: Config, s: Machine)
    requires s.holder.Finishing? && s.producer.nextRow !in s.producer.pending
    ensures var k, added := s.producer.nextRow, AddBlank(c, s, s.producer.nextRow);
      && (added.None? <==> Reserved(c.cap, s.usage, BlankCharge(c.canvas, k)) == None)
      && (added.Some? ==>
            added.value == s.(usage := added.value.usage,
                              producer := s.producer.(pending := s.producer.pending[k := Blank(c.canvas, k)])))
  {
    hide Reserved, BlankCharge, Blank;
  }

  lemma HandOverStep(c: Config, s: Machine)
    requires s.holder.Finishing? && s.producer.nextRow in s.producer.pending && s.queue.failure.None?
    ensures var t := PublishNext(c, s, Finishing);
      && (t.producer, t.queue) == Publish(c.canvas, s.producer, s.queue)
      && t.holder.Finishing? && t.failedCalls == s.failedCalls && t.queue.failure.None?
  {
  }

  /** One section of `finish` from a state that has a next strip, or the refusal of a blank one. */
  lemma FinishStep(c: Config, s: Machine) returns (action: Action, t: Machine)
    requires Inv1(c, s) && s.holder.Finishing? && s.queue.failure.None? && s.producer.nextRow < c.canvas.height
    ensures Geometry(c.canvas, s.producer) && WellFormed(c, s)
    ensures Enabled(c, s, action) && t == Apply(c, s, action) && Inv1(c, t)
    ensures action == if s.producer.nextRow in s.producer.pending then FinishPublish else FinishBlank
    ensures Geometry(c.canvas, t.producer)
    ensures if t.holder.Idle? then FinishRefused(c, s, t) else
      && t.holder.Finishing? && t.queue.failure.None? && t.failedCalls == s.failedCalls
      && PublishAll(c.canvas, s.producer, s.queue) == PublishAll(c.canvas, t.producer, t.queue)
      && (s.producer.nextRow < t.producer.nextRow
          || (&& s.producer.nextRow == t.producer.nextRow && action.FinishBlank?
              && t.producer.nextRow in t.producer.pending))
  {
    hide Inv1, WellFormed, Geometry, Blank, PublishAll, BlankCharge, PublishNext, AddBlank, Publish;
    action := if s.producer.nextRow in s.producer.pending then FinishPublish else FinishBlank;
    GeometryOf(c, s);
    Kept(c, s, action);
    t := Apply(c, s, action);
    GeometryOf(c, t);
    PublishAllUnfolds(c.canvas, s.producer, s.queue);
    if action.FinishBlank? { BlankStep(c, s); } else { HandOverStep(c, s); }
  }

  /** A refusal of the rest of the call is a refusal of the call. */
  lemma FinishedLater(c: Config, s: Machine, v: Machine, t: Machine)
    requires Geometry(c.canvas, s.producer) && Geometry(c.canvas, v.producer) && Geometry(c.canvas, t.producer)
    requires v.failedCalls == s.failedCalls
    requires PublishAll(c.canvas, s.producer, s.queue) == PublishAll(c.canvas, v.producer, v.queue)
    ensures FinishRefused(c, v, t) ==> FinishRefused(c, s, t)
  {
    hide Geometry, PublishAll, BlankCharge;
  }

  /** From anywhere inside a `finish` call, its remaining sections lead either to its end with the
      producer and queue that `PublishAll` computes, or to the first strip whose blank cannot be
      reserved. */
  lemma {:induction false} FinishLeads(c: Config, s: Machine) returns (actions: seq<Action>, t: Machine)
    requires Inv1(c, s) && s.holder.Finishing? && s.queue.failure.None?
    ensures Finishings(actions) && Leads(c, s, actions, t) && Inv1(c, t)
    ensures Geometry(c.canvas, s.producer) && Geometry(c.canvas, t.producer)
    ensures FinishRefused(c, s, t)
      || (Enabled(c, t, EndFinish) && t.failedCalls == s.failedCalls
          && (t.producer, t.queue) == PublishAll(c.canvas, s.producer, s.queue))
    decreases c.canvas.height - s.producer.nextRow, s.producer.nextRow !in s.producer.pending
  {
    hide Inv1, Leads, Geometry, PublishAll, WellFormed, BlankCharge, Apply, FinishRefused, Reserved, Blank, Publish;
    GeometryOf(c, s);
    PublishAllUnfolds(c.canvas, s.producer, s.queue);
    if s.producer.nextRow >= c.canvas.height {
      actions, t := [], s;
      NoSteps(c, s);
    } else {
      var action, next := FinishStep(c, s);
      if next.holder.Idle? {
        actions, t := [], next;
        NoSteps(c, next);
      } else {
        actions, t := FinishLeads(c, next);
        FinishedLater(c, s, next, t);
      }
      StepFirst(c, s, action, actions, t);
      actions := [action] + actions;
    }
  }

  /** A run goes on along actions that lead from its last state. */
  lemma {:induction false} RunGoesOn(c: Config, states: seq<Machine>, actions: seq<Action>, more: seq<Action>,
                                     t: Machine)
    returns (longer: seq<Machine>)
    requires PixelRuns.IsRun(c, states, actions) && Leads(c, states[|actions|], more, t)
    ensures PixelRuns.IsRun(c, longer, actions + more) && longer[|actions + more|] == t
    decreases |more|
  {
    if more == [] {
      assert actions + more == actions;
      longer := states;
    } else {
      var s := states[|actions|];
      var next := Apply(c, s, more[0]);
      RunStep(c, states, actions, more[0], next);
      longer := RunGoesOn(c, states + [next], actions + [more[0]], more[1..], t);
      assert actions + [more[0]] + more[1..] == actions + more;
    }
  }

  lemma RunStep(c: Config, states: seq<Machine>, actions: seq<Action>, action: Action, next: Machine)
    requires PixelRuns.IsRun(c, states, actions) && PixelRuns.Next(c, states[|actions|], action, next)
    ensures PixelRuns.IsRun(c, states + [next], actions + [action]) && (states + [next])[|actions| + 1] == next
  {
    hide PixelRuns.Next;
  }

  /** A `finish` call nothing interrupts, after any run without failure: either memory runs out, or
      the queue is what `PublishAll` computes, closed, with every canvas row handed over once. */
  lemma FinishedRun(c: Config, states: seq<Machine>, actions: seq<Action>)
    returns (longer: seq<Machine>, calls: seq<Action>, t: Machine)
    requires PixelRuns.IsRun(c, states, actions)
    requires states[|actions|].holder.Idle? && states[|actions|].queue.failure.None?
    ensures Finishings(calls) && PixelRuns.IsRun(c, longer, actions + ([BeginFinish] + calls))
    ensures longer[|longer| - 1] == t
    ensures var s := states[|actions|];
      && Geometry(c.canvas, s.producer) && Geometry(c.canvas, t.producer)
      && (FinishRefused(c, s, t)
          || (&& (t.producer, t.queue) == PublishAll(c.canvas, s.producer, s.queue) && t.queue.closed
              && |t.emitted| == Strips(c.canvas) && t.failedCalls == s.failedCalls
              && forall y: nat, e :: y < c.canvas.height && 0 <= e < |t.emitted| ==>
                   (PixelRuns.HasRow(t.emitted[e], y) <==> e == y / STRIP_ROWS)))
  {
    var s := states[|actions|];
    PixelRuns.RunInv1(c, states, actions, |actions|);
    Kept(c, s, BeginFinish);
    GeometryOf(c, s);
    var begun := Apply(c, s, BeginFinish);
    hide Inv1, Leads, Geometry, PublishAll, WellFormed, BlankCharge, PixelRuns.IsRun, PixelRuns.HasRow;
    calls, t := FinishLeads(c, begun);
    StepFirst(c, s, BeginFinish, calls, t);
    longer := RunGoesOn(c, states, actions, [BeginFinish] + calls, t);
    RunLength(c, longer, actions + ([BeginFinish] + calls));
    if !FinishRefused(c, begun, t) {
      PixelRuns.FinishHandsOverEveryRow(c, longer, actions + ([BeginFinish] + calls), |longer| - 1);
    }
  }

  function Strips(c: Canvas): nat {
    Arithmetic.DivCeil(c.height, STRIP_ROWS)
  }

  lemma RunLength(c: Config, states: seq<Machine>, actions: seq<Action>)
    requires PixelRuns.IsRun(c, states, actions)
    ensures |states| == |actions| + 1
  {
  }
}
