/** What a job promises, told from its settings and what the host answers. */
module JobLaws {
  import opened JobProtocol
  import opened JobRuns
  import opened Options
  import TA = TileAcquisition

  // ---- Which jobs are begun -------------------------------------------------------------------------------

  ghost predicate InputsFit(inputs: seq<Input>) {
    && (exists i :: 0 <= i < |inputs| && inputs[i].source)
    && forall i :: 0 <= i < |inputs| ==> inputs[i].wellFormed
  }

  ghost predicate SettingsFit(o: Settings) {
    && o.pacingValid && 1 <= o.maxConcurrent <= 64 && o.maxConcurrent <= o.maxTiles <= 16_777_216
    && 1024 <= o.maxBytes <= 4_294_967_296 && o.maxRetries <= 1024 && o.maxFollows <= 64 && o.retryDelay <= 300_000
  }

  /** A job is begun exactly if it has a source, all its inputs are well formed, its settings are in range,
      and what is supplied with the inputs is neither empty nor too large; and what is wrong with the
      inputs is reported first. */
  lemma BegunExactly(inputs: seq<Input>, o: Settings)
    ensures Invalid(inputs, o).None? <==>
      && InputsFit(inputs) && SettingsFit(o)
      && forall i :: 0 <= i < |inputs| && inputs[i].contents.Some? ==> 1 <= inputs[i].contents.value <= o.maxBytes
    ensures Invalid(inputs, o) == Some(InvalidInput) <==> !InputsFit(inputs)
    ensures InputsFit(inputs) && SettingsFit(o) && Invalid(inputs, o).Some? ==>
      Invalid(inputs, o) == Some(ResourceLimit)
    ensures InputsFit(inputs) && (!o.pacingValid || o.maxConcurrent == 0 || o.maxTiles == 0 || o.maxBytes == 0) ==>
      Invalid(inputs, o) == Some(InvalidOptions)
  {
  }

  // ---- Reads ----------------------------------------------------------------------------------------------

  /** How many reads are under way. */
  function UnderWay(tasks: seq<Reading>): nat {
    if tasks == [] then 0 else UnderWay(tasks[..|tasks| - 1]) + if tasks[|tasks| - 1].Over? then 0 else 1
  }

  lemma {:induction false} UnderWayIs(tasks: seq<Reading>)
    ensures CountIf(tasks, ACTIVE) == UnderWay(tasks)
  {
    if tasks != [] { UnderWayIs(tasks[..|tasks| - 1]); }
  }

  /** As many reads as the settings allow, and always one. */
  function MostReads(o: Settings): nat {
    if o.maxConcurrent == 0 then 1 else o.maxConcurrent
  }

  /** A read is taken up exactly if fewer are under way than allowed; observations are asked for exactly if
      none is. */
  lemma WhatAStepDoes(w: World, o: Settings, t: Talk, uri: Uri)
    requires t.stopped.None?
    ensures var next := Stepped(w, o, t, Begin(uri));
      next.tasks == if UnderWay(t.tasks) < MostReads(o) then t.tasks + [Waiting(uri)] else t.tasks
    ensures Stepped(w, o, t, Look).trace != t.trace <==> UnderWay(t.tasks) == 0
  {
    UnderWayIs(t.tasks);
    hide CountIf, UnderWay;
  }

  /** A read that failed without ending discovery: an empty body, or a failure that is not terminal. */
  predicate Harmless(w: World, r: Reading) {
    r.Over? && r.failure.Some? ==>
      r.failure == Some(EmptyResource) || (r.failure.value.HostFailure? && !w.ends(r.failure.value.code))
  }

  ghost predicate TalkInv(w: World, o: Settings, talk: Talk) {
    && UnderWay(talk.tasks) <= MostReads(o)
    && (talk.stopped.None? ==> forall i :: 0 <= i < |talk.tasks| ==> Harmless(w, talk.tasks[i]))
    && (talk.stopped.Some? ==>
          || talk.stopped == Some(ResourceLimit)
          || (talk.stopped.value.HostFailure? && (w.ends(talk.stopped.value.code) || UnderWay(talk.tasks) == 0)))
  }

  /** Discovery goes on exactly as long as no read was cancelled or too large: while it does, every failed
      read is harmless; and what ends it is a body over the limit, a terminal failure, or an observation
      that failed while no read was under way. */
  lemma {:induction false} OnlyTerminalFailuresEnd(w: World, o: Settings, t: Talk, steps: seq<Interaction>)
    requires t.tasks == [] && t.stopped.None?
    ensures TalkInv(w, o, Discussed(w, o, t, steps))
  {
    if steps != [] {
      var n := |steps| - 1;
      OnlyTerminalFailuresEnd(w, o, t, steps[..n]);
      hide Stepped, TalkInv;
      StepKeepsTalk(w, o, Discussed(w, o, t, steps[..n]), steps[n]);
    }
  }

  lemma StepKeepsTalk(w: World, o: Settings, t: Talk, step: Interaction)
    requires TalkInv(w, o, t)
    ensures TalkInv(w, o, Stepped(w, o, t, step))
  {
    if t.stopped.None? {
      StepIs(w, o, t, step);
      UnderWayIs(t.tasks);
      hide *;
      match step
      case Begin(uri) => TakenUpKeeps(w, o, t, uri);
      case Poll(id) =>
        if id < |t.tasks| && !t.tasks[id].Over? {
          PollKeepsTalk(w, o, t, PolledOn(w, o, id, t.tasks[id], t.trace, t.followed), id);
        }
      case Look => LookKeepsTalk(w, o, t);
    }
  }

  lemma TakenUpKeeps(w: World, o: Settings, t: Talk, uri: Uri)
    requires TalkInv(w, o, t) && t.stopped.None?
    ensures CountIf(t.tasks, ACTIVE) == UnderWay(t.tasks)
    ensures CountIf(t.tasks, ACTIVE) < ReadLimit(o) ==> TalkInv(w, o, t.(tasks := t.tasks + [Waiting(uri)]))
  {
    UnderWayIs(t.tasks);
    assert (t.tasks + [Waiting(uri)])[..|t.tasks|] == t.tasks;
    hide CountIf;
  }

  lemma PollKeepsTalk(w: World, o: Settings, t: Talk, polled: (Reading, seq<Event>, set<Uri>), id: nat)
    requires TalkInv(w, o, t) && t.stopped.None? && id < |t.tasks| && !t.tasks[id].Over?
    requires polled == PolledOn(w, o, id, t.tasks[id], t.trace, t.followed)
    ensures TalkInv(w, o, Talk(polled.1, polled.2, t.tasks[id := polled.0], StopOf(w, polled.0)))
  {
    PollIsHarmless(w, o, t.tasks[id], t.trace, t.followed, id);
    NoMoreUnderWay(t.tasks, id, polled.0);
    hide PolledOn, UnderWay, Harmless, StopOf, MostReads;
  }

  lemma PollIsHarmless(w: World, o: Settings, r: Reading, trace: seq<Event>, followed: set<Uri>, id: nat)
    requires !r.Over?
    ensures var next := PolledOn(w, o, id, r, trace, followed).0; var stop := StopOf(w, next);
      && (stop.None? ==> Harmless(w, next))
      && (stop.Some? ==> stop == Some(ResourceLimit) || (stop.value.HostFailure? && w.ends(stop.value.code)))
  {
  }

  lemma LookKeepsTalk(w: World, o: Settings, t: Talk)
    requires TalkInv(w, o, t) && t.stopped.None?
    ensures CountIf(t.tasks, ACTIVE) == UnderWay(t.tasks)
    ensures UnderWay(t.tasks) == 0 ==>
      && (forall trace :: TalkInv(w, o, t.(trace := trace)))
      && (forall trace, code :: TalkInv(w, o, t.(trace := trace, stopped := Some(HostFailure(code)))))
  {
    UnderWayIs(t.tasks);
    hide CountIf, UnderWay, Harmless;
  }

  lemma {:induction false} NoMoreUnderWay(tasks: seq<Reading>, id: nat, next: Reading)
    requires id < |tasks| && !tasks[id].Over?
    ensures UnderWay(tasks[id := next]) <= UnderWay(tasks)
  {
    var n := |tasks| - 1;
    if id < n {
      NoMoreUnderWay(tasks[..n], id, next);
      assert tasks[id := next][..n] == tasks[..n][id := next];
    } else {
      assert tasks[id := next][..n] == tasks[..n];
    }
  }

  // ---- Tiles ----------------------------------------------------------------------------------------------

  /** Without interactive retries no tile is called for more often than the settings allow. */
  ghost predicate AttemptsAllowed(o: Settings, trace: seq<Event>, from: nat) {
    !o.interactive ==> forall i :: from <= i < |trace| && trace[i].CallTile? ==> trace[i].attempt <= o.maxRetries
  }

  lemma {:induction false} CallsAllowed(o: Settings, tiles: TA.Tiles, events: seq<TA.Event>)
    requires forall i :: 0 <= i < |events| ==> events[i].place < |tiles| && tiles[events[i].place].Some?
    requires forall i :: 0 <= i < |events| && events[i].Called? ==> events[i].attempt <= o.maxRetries
    ensures forall i :: 0 <= i < |Calls(tiles, events)| && Calls(tiles, events)[i].CallTile? ==>
      Calls(tiles, events)[i].attempt <= o.maxRetries
  {
    if events != [] { CallsAllowed(o, tiles, events[..|events| - 1]); }
  }

  lemma {:induction false} NumberedAtMost(events: seq<TA.Event>, k: nat, i: nat, most: nat)
    requires i < |events| && events[i].Called? && events[i].place == k
    requires TA.Numbered(TA.CallsOf(events, k)) && |TA.CallsOf(events, k)| <= most
    ensures events[i].attempt < most
  {
    var n := |events| - 1;
    var before := TA.CallsOf(events[..n], k);
    assert before <= TA.CallsOf(events, k);
    assert TA.Numbered(before) by {
      forall j | 0 <= j < |before|
        ensures before[j] == j
      {
        assert before[j] == TA.CallsOf(events, k)[j];
      }
    }
    if i < n {
      NumberedAtMost(events[..n], k, i, most);
    } else {
      assert TA.CallsOf(events, k)[|before|] == events[n].attempt;
    }
  }

  lemma ListAllowed(w: World, o: Settings, tiles: TA.Tiles, n: nat)
    ensures AttemptsAllowed(o, ListCalls(w, o, tiles, n), 0)
    ensures |PoolOf(w, o, tiles, n).tasks| - |PoolOf(w, o, tiles, n).yielded| <= o.maxConcurrent
  {
    var events := PoolOf(w, o, tiles, n).events;
    PoolPlaces(w, o, tiles, n);
    TA.AttemptsAreNumbered(PolicyOf(o), tiles, w.schedule(n), 0);
    if !o.interactive {
      forall i | 0 <= i < |events| && events[i].Called?
        ensures events[i].attempt <= o.maxRetries
      {
        TA.AttemptsAreNumbered(PolicyOf(o), tiles, w.schedule(n), events[i].place);
        NumberedAtMost(events, events[i].place, i, o.maxRetries + 1);
      }
      hide TA.After, TA.CallsOf;
      CallsAllowed(o, tiles, events);
    }
  }

  /** In all calls of a plan's acquisition the retries keep to the settings. */
  lemma {:induction false} PlanAllowed(w: World, o: Settings, plan: Plan, start: seq<Event>, i: nat)
    requires i <= |plan.lower| + 1
    ensures start <= Gathered(w, o, plan, start, i).trace
    ensures AttemptsAllowed(o, Gathered(w, o, plan, start, i).trace, |start|)
  {
    if i > 0 {
      PlanAllowed(w, o, plan, start, i - 1);
      var g := Gathered(w, o, plan, start, i - 1);
      var tiles := ListOf(plan, i - 1);
      ListAllowed(w, o, tiles, |g.trace|);
      hide ListOf, ListCalls, EndOf, PoolOf;
    }
  }
}
