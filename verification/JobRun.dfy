/** A whole job: validation, discovery, selection, the plan, acquisition and output, as the host
    sees it, call by call. */
module JobRuns {
  import opened Arithmetic
  import opened JobLevels
  import opened JobProtocol
  import opened Options
  import opened Pyramids
  import TA = TileAcquisition
  import opened TileLevels

  datatype Error =
    | InvalidInput | InvalidOptions | ResourceLimit | PlanEmpty | InvalidState | DeferredLimit | DiscoveryFailed
    | EmptyResource | HostFailure(code: nat) | Acquisition(cause: TA.Error)

  // ---- Validation ---------------------------------------------------------------------------------

  /** `wellFormed` is the verdict on the address; `contents` the length of a supplied document. */
  datatype Input = Input(url: Uri, source: bool, wellFormed: bool, contents: Option<nat>)

  datatype Settings = Settings(
    maxConcurrent: nat, maxTiles: nat, maxRetries: nat, maxBytes: nat, maxFollows: nat, retryDelay: nat,
    interactive: bool, zif: bool, pacingValid: bool)

  function Invalid(inputs: seq<Input>, o: Settings): Option<Error> {
    if inputs == [] || (forall i :: 0 <= i < |inputs| ==> !inputs[i].source)
       || (exists i :: 0 <= i < |inputs| && !inputs[i].wellFormed) then Some(InvalidInput)
    else if !o.pacingValid then Some(InvalidOptions)
    else if o.maxConcurrent == 0 || o.maxTiles == 0 || o.maxBytes == 0 then Some(InvalidOptions)
    else if o.maxConcurrent > 64 || o.maxTiles > 16_777_216 || o.maxRetries > 1024 || o.maxBytes < 1024
            || o.maxBytes > 4_294_967_296 || o.maxFollows > 64 || o.retryDelay > 300_000 then Some(ResourceLimit)
    else if o.maxConcurrent > o.maxTiles then Some(InvalidOptions)
    else if exists i :: 0 <= i < |inputs| && inputs[i].contents.Some?
              && (inputs[i].contents.value == 0 || inputs[i].contents.value > o.maxBytes) then Some(ResourceLimit)
    else None
  }

  // ---- Plans ----------------------------------------------------------------------------------------

  datatype Image = Image(levels: seq<Source>)
  datatype Entry = Deferred(uri: Uri) | Ready(image: Image)

  /** The tiles still to acquire among the first `n`, each under its ordinal. */
  function Fresh(destinations: seq<Option<nat>>, previous: seq<nat>, n: nat): TA.Tiles
    requires n <= |destinations|
  {
    if n == 0 then []
    else
      var d := destinations[n - 1];
      Fresh(destinations, previous, n - 1)
      + if d.None? then [None] else if d.value in previous then [] else [Some(n - 1)]
  }

  /** The ordinals already output among the first `n`. */
  function Reused(destinations: seq<Option<nat>>, previous: seq<nat>, n: nat): seq<nat>
    requires n <= |destinations|
  {
    if n == 0 then []
    else
      var d := destinations[n - 1];
      Reused(destinations, previous, n - 1) + if d.Some? && d.value in previous then [n - 1] else []
  }

  /** The tiles of a lower level, numbered on from `offset`. */
  function Shifted(destinations: seq<Option<nat>>, offset: nat): (r: TA.Tiles)
    ensures |r| == |destinations|
    ensures forall i :: 0 <= i < |r| ==> r[i] == if destinations[i].Some? then Some(offset + i) else None
  {
    seq(|destinations|, i requires 0 <= i < |destinations| => if destinations[i].Some? then Some(offset + i) else None)
  }

  /** Distinct numbers from `low` up to `high`. */
  ghost predicate Within(tiles: TA.Tiles, low: nat, high: nat) {
    && (forall i :: 0 <= i < |tiles| && tiles[i].Some? ==> low <= tiles[i].value < high)
    && (forall i, j :: 0 <= i < j < |tiles| && tiles[i].Some? && tiles[j].Some? ==> tiles[i].value != tiles[j].value)
  }

  lemma {:induction false} FreshAndReused(destinations: seq<Option<nat>>, previous: seq<nat>, n: nat)
    requires n <= |destinations|
    ensures var todo, reused := Fresh(destinations, previous, n), Reused(destinations, previous, n);
      && |todo| + |reused| == n && Within(todo, 0, n)
      && (forall i, j :: 0 <= i < j < |reused| ==> reused[i] < reused[j])
      && (forall i :: 0 <= i < |reused| ==> reused[i] < n && Some(reused[i]) !in todo)
  {
    if n > 0 {
      FreshAndReused(destinations, previous, n - 1);
    }
  }

  /** If every tile left to acquire can be made, each ordinal is among them or reused. */
  lemma {:induction false} FreshOrReused(destinations: seq<Option<nat>>, previous: seq<nat>, n: nat, i: nat)
    requires i < n <= |destinations| && None !in Fresh(destinations, previous, n)
    ensures Some(i) in Fresh(destinations, previous, n) || i in Reused(destinations, previous, n)
  {
    var before := Fresh(destinations, previous, n - 1);
    assert before <= Fresh(destinations, previous, n);
    if i < n - 1 {
      assert None !in before;
      FreshOrReused(destinations, previous, n - 1, i);
    } else {
      assert destinations[i].Some?;
    }
  }

  // ---- How far progress gets ------------------------------------------------------------------------

  /** Tile `i` is planned at a corner output before. */
  predicate Matches(destinations: seq<Option<nat>>, previous: seq<nat>, i: nat)
    requires i < |destinations|
  {
    destinations[i].Some? && destinations[i].value in previous
  }

  ghost function Matching(destinations: seq<Option<nat>>, previous: seq<nat>): (r: set<nat>)
    ensures forall i: nat :: i in r <==> i < |destinations| && Matches(destinations, previous, i)
  {
    set i: nat | i < |destinations| && Matches(destinations, previous, i)
  }

  /** The filter counts exactly those. */
  lemma {:induction false} ReusedAreMatching(destinations: seq<Option<nat>>, previous: seq<nat>, n: nat)
    requires n <= |destinations|
    ensures |Reused(destinations, previous, n)| == |Matching(destinations[..n], previous)|
  {
    hide *;
    if n == 0 {
      NoneMatch(destinations, previous);
    } else {
      ReusedAreMatching(destinations, previous, n - 1);
      MatchingNext(destinations, previous, n - 1);
      ReusedNext(destinations, previous, n - 1);
    }
  }

  lemma NoneMatch(destinations: seq<Option<nat>>, previous: seq<nat>)
    ensures Reused(destinations, previous, 0) == [] && |Matching(destinations[..0], previous)| == 0
  {
    assert Matching(destinations[..0], previous) == {};
  }

  lemma {:induction false} ReusedMatch(destinations: seq<Option<nat>>, previous: seq<nat>, n: nat, i: nat)
    requires n <= |destinations|
    ensures i in Reused(destinations, previous, n) <==> i < n && Matches(destinations, previous, i)
  {
    if n > 0 {
      hide *;
      ReusedMatch(destinations, previous, n - 1, i);
      ReusedNext(destinations, previous, n - 1);
    }
  }

  lemma ReusedNext(destinations: seq<Option<nat>>, previous: seq<nat>, n: nat)
    requires n < |destinations|
    ensures Reused(destinations, previous, n + 1)
         == Reused(destinations, previous, n) + if Matches(destinations, previous, n) then [n] else []
  {
  }

  lemma MatchingNext(destinations: seq<Option<nat>>, previous: seq<nat>, n: nat)
    requires n < |destinations|
    ensures var before, now := Matching(destinations[..n], previous), Matching(destinations[..n + 1], previous);
      && now == before + (if Matches(destinations, previous, n) then {n} else {})
      && |now| == |before| + (if Matches(destinations, previous, n) then 1 else 0)
  {
    hide Matching;
    var before, now := Matching(destinations[..n], previous), Matching(destinations[..n + 1], previous);
    forall i: nat
      ensures i in now <==> i in before || (i == n && Matches(destinations, previous, n))
    {
      if i < n { assert Matches(destinations[..n + 1], previous, i) <==> Matches(destinations[..n], previous, i); }
      if i == n { assert Matches(destinations[..n + 1], previous, n) <==> Matches(destinations, previous, n); }
    }
    hide Matches;
    assert now == before + if Matches(destinations, previous, n) then {n} else {};
  }

  ghost predicate Distinct(s: seq<nat>) {
    forall i, j :: 0 <= i < j < |s| ==> s[i] != s[j]
  }

  /** No corner output before is planned twice. */
  ghost predicate PlannedOnce(destinations: seq<Option<nat>>, previous: seq<nat>) {
    forall i, j :: 0 <= i < j < |destinations| && destinations[i].Some? && destinations[i].value in previous ==>
      destinations[i] != destinations[j]
  }

  /** Corners output once and planned at most once: as many tiles match as there are corners exactly
      if every corner is planned. */
  lemma {:induction false} AllMatch(destinations: seq<Option<nat>>, previous: seq<nat>)
    requires Distinct(previous) && PlannedOnce(destinations, previous)
    ensures |Matching(destinations, previous)| <= |previous|
    ensures |Matching(destinations, previous)| == |previous| <==>
      forall corner :: corner in previous ==> Some(corner) in destinations
  {
    hide Matching;
    if previous == [] {
      assert Matching(destinations, previous) == {};
    } else {
      var rest, corner := previous[..|previous| - 1], previous[|previous| - 1];
      assert previous == rest + [corner] && corner !in rest;
      assert PlannedOnce(destinations, rest);
      AllMatch(destinations, rest);
      OneCornerMore(destinations, rest, corner);
    }
  }

  lemma OneCornerMore(destinations: seq<Option<nat>>, rest: seq<nat>, corner: nat)
    requires corner !in rest && PlannedOnce(destinations, rest + [corner])
    ensures |Matching(destinations, rest + [corner])|
         == |Matching(destinations, rest)| + if Some(corner) in destinations then 1 else 0
  {
    hide Matching;
    var before, now := Matching(destinations, rest), Matching(destinations, rest + [corner]);
    forall i: nat | i < |destinations|
      ensures i in now <==> i in before || destinations[i] == Some(corner)
    {
      assert Matches(destinations, rest + [corner], i) <==>
        Matches(destinations, rest, i) || destinations[i] == Some(corner);
    }
    if Some(corner) in destinations {
      var k: nat :| k < |destinations| && destinations[k] == Some(corner);
      forall i: nat | i < |destinations|
        ensures destinations[i] == Some(corner) <==> i == k
      {
      }
      hide PlannedOnce;
      assert now == before + {k} && k !in before;
    } else {
      assert now == before;
    }
  }

  // ---- The calls of an acquisition ----------------------------------------------------------------

  /** What the pool's events look like to the host. */
  function Calls(tiles: TA.Tiles, events: seq<TA.Event>): seq<Event>
    requires forall i :: 0 <= i < |events| ==> events[i].place < |tiles| && tiles[events[i].place].Some?
  {
    if events == [] then []
    else
      var e := events[|events| - 1];
      Calls(tiles, events[..|events| - 1])
      + [if e.Called? then CallTile(tiles[e.place].value, e.attempt) else TileAcquired(tiles[e.place].value)]
  }

  lemma {:induction false} ProperPlaces(tiles: TA.Tiles, events: seq<TA.Event>)
    requires TA.Proper(tiles, events)
    ensures forall i :: 0 <= i < |events| ==> events[i].place < |tiles| && tiles[events[i].place].Some?
    ensures forall k :: k in TA.Confirmed(events) ==> k < |tiles| && tiles[k].Some?
  {
    if events != [] {
      ProperPlaces(tiles, events[..|events| - 1]);
      assert forall i :: 0 <= i < |events| - 1 ==> events[i] == events[..|events| - 1][i];
    }
  }

  /** The indices of the tiles confirmed so far. */
  ghost function Indices(tiles: TA.Tiles, events: seq<TA.Event>): set<nat> {
    set k: nat | k in TA.Confirmed(events) && k < |tiles| && tiles[k].Some? :: tiles[k].value
  }

  /** Acquiring a list of distinct tiles, none acquired before, keeps the protocol whatever the
      interleaving: each tile is called for until it is acquired, and never again. */
  lemma {:induction false} CallsKeepProtocol(trace: seq<Event>, tiles: TA.Tiles, events: seq<TA.Event>, low: nat,
                                             high: nat)
    requires Monitor(trace).Output? && TA.Proper(tiles, events)
    requires Within(tiles, low, high) && high <= Monitor(trace).total
    requires forall i :: i in Monitor(trace).done ==> !(low <= i < high)
    ensures forall i :: 0 <= i < |events| ==> events[i].place < |tiles| && tiles[events[i].place].Some?
    ensures var s, t := Monitor(trace), Monitor(trace + Calls(tiles, events));
      t.Output? && t.total == s.total && t.done == s.done + Indices(tiles, events)
    decreases |events|
  {
    ProperPlaces(tiles, events);
    if events == [] {
      assert trace + Calls(tiles, events) == trace;
      assert Indices(tiles, events) == {};
    } else {
      var before, e := events[..|events| - 1], events[|events| - 1];
      assert TA.Proper(tiles, before) && e.place !in TA.Confirmed(before);
      hide TA.Proper, TA.Confirmed, Monitor, EveryTile, Indices, Within;
      CallsKeepProtocol(trace, tiles, before, low, high);
      var index, so := tiles[e.place].value, trace + Calls(tiles, before);
      var call := if e.Called? then CallTile(index, e.attempt) else TileAcquired(index);
      assert Calls(tiles, events) == Calls(tiles, before) + [call];
      hide Calls;
      assert trace + (Calls(tiles, before) + [call]) == so + [call];
      MonitorMore(so, call);
      NotYet(tiles, before, e.place, low, high);
      IndicesMore(tiles, before, e);
      assert before + [e] == events;
      ProtocolStep(Monitor(so), Monitor(trace).done, Indices(tiles, before), call, index);
    }
  }

  lemma ProtocolStep(s: Stage, done: set<nat>, acquired: set<nat>, call: Event, index: nat)
    requires s.Output? && index < s.total && index !in done && index !in acquired && s.done == done + acquired
    requires (call.CallTile? && call.index == index) || call == TileAcquired(index)
    ensures var t := Next(s, call);
      t.Output? && t.total == s.total && t.done == done + (acquired + if call.TileAcquired? then {index} else {})
  {
    hide EveryTile;
    assert done + acquired + {index} == done + (acquired + {index});
    assert acquired + {} == acquired;
  }

  lemma NotYet(tiles: TA.Tiles, events: seq<TA.Event>, place: nat, low: nat, high: nat)
    requires Within(tiles, low, high) && place < |tiles| && tiles[place].Some? && place !in TA.Confirmed(events)
    ensures tiles[place].value !in Indices(tiles, events) && low <= tiles[place].value < high
  {
    hide TA.Confirmed;
  }

  lemma IndicesMore(tiles: TA.Tiles, events: seq<TA.Event>, e: TA.Event)
    requires e.place < |tiles| && tiles[e.place].Some?
    ensures Indices(tiles, events + [e]) == Indices(tiles, events) + if e.Acquired? then {tiles[e.place].value} else {}
  {
    forall k
      ensures k in TA.Confirmed(events + [e]) <==> k in TA.Confirmed(events) || (e.Acquired? && e.place == k)
    {
      if k >= 0 { TA.OneMore(events, e, k); }
    }
  }

  /** A drained pool has acquired exactly the tiles of its list, and every one could be made. */
  lemma DrainedIndices(p: TA.Policy, tiles: TA.Tiles, actions: seq<TA.Action>)
    requires TA.Drained(tiles, TA.After(p, tiles, actions))
    ensures var pool := TA.After(p, tiles, actions);
      && None !in tiles && |pool.yielded| == |tiles|
      && forall i: nat :: i in Indices(tiles, pool.events) <==> Some(i) in tiles
  {
    var events := TA.After(p, tiles, actions).events;
    TA.DrainedIsComplete(p, tiles, actions);
    ProperPlaces(tiles, events);
    hide TA.After, TA.Confirmed, TA.Proper, TA.Drained;
    assert forall k: nat :: k < |tiles| ==> k in TA.Confirmed(events);
    forall i: nat
      ensures i in Indices(tiles, events) <==> Some(i) in tiles
    {
      if Some(i) in tiles {
        var k: nat :| k < |tiles| && tiles[k] == Some(i);
        assert k in TA.Confirmed(events);
      }
    }
  }

  // ---- The job ----------------------------------------------------------------------------------------

  /** One step of the executor while discovery runs: a read is taken up, polled on, or the host is asked
      for observations. */
  datatype Interaction = Begin(uri: Uri) | Poll(id: nat) | Look
  datatype Response = Response(isBody: bool, finalUri: Option<Uri>, length: nat)
  datatype Resolved = Resolved(grid: Grid, previous: seq<nat>)

  /** Where one metadata read awaits: its check, its answer; or that it is over. */
  datatype Reading = Waiting(uri: Uri) | Checked(uri: Uri) | Fetching(uri: Uri) | Over(failure: Option<Error>)

  /** Everything the job asks for, by its place in the run: which calls fail, and which failures end
      discovery (a cancellation, an invalid value, a resource limit); which choices are made, what
      discovery reads and finds, what probing resolves, and how the executor interleaves reads and
      tiles. A schedule that stops early leaves the job unfinished. */
  datatype World = World(
    fails: nat -> Option<nat>,
    ends: nat -> bool,
    picks: nat -> nat,
    interactions: nat -> seq<Interaction>,
    responses: (nat, nat) -> Response,
    catalog: nat -> Option<seq<Entry>>,
    warnings: nat -> nat,
    probes: nat -> nat,
    resolved: nat -> Option<Resolved>,
    schedule: nat -> seq<TA.Action>)

  datatype Plan = Plan(destinations: seq<Option<nat>>, previous: seq<nat>, lower: seq<Grid>)
  datatype Summary = Summary(plan: Plan, completed: nat)

  function LowerCount(lower: seq<Grid>): nat {
    if lower == [] then 0 else LowerCount(lower[..|lower| - 1]) + |lower[|lower| - 1].destinations|
  }

  function Total(plan: Plan): nat {
    |plan.destinations| + LowerCount(plan.lower)
  }

  /** How many of the reads satisfy a test. */
  function CountIf(tasks: seq<Reading>, test: Reading -> bool): nat {
    if tasks == [] then 0 else CountIf(tasks[..|tasks| - 1], test) + if test(tasks[|tasks| - 1]) then 1 else 0
  }

  lemma {:induction false} CountChanges(tasks: seq<Reading>, test: Reading -> bool, i: nat, r: Reading)
    requires i < |tasks|
    ensures CountIf(tasks[i := r], test) + (if test(tasks[i]) then 1 else 0) ==
      CountIf(tasks, test) + if test(r) then 1 else 0
  {
    var n := |tasks| - 1;
    var changed := tasks[i := r];
    if i < n {
      CountChanges(tasks[..n], test, i, r);
      assert changed[..n] == tasks[..n][i := r];
    } else {
      assert changed[..n] == tasks[..n];
    }
  }

  lemma CountMore(tasks: seq<Reading>, test: Reading -> bool, r: Reading)
    ensures CountIf(tasks + [r], test) == CountIf(tasks, test) + if test(r) then 1 else 0
  {
    assert (tasks + [r])[..|tasks|] == tasks;
  }

  /** Reads under way, and those among them that have passed their check and not made their call. */
  const ACTIVE: Reading -> bool := (r: Reading) => !r.Over?
  const PASSED: Reading -> bool := (r: Reading) => r.Checked?

  lemma {:induction false} PassedAreActive(tasks: seq<Reading>)
    ensures CountIf(tasks, PASSED) <= CountIf(tasks, ACTIVE)
  {
    if tasks != [] { PassedAreActive(tasks[..|tasks| - 1]); }
  }

  /** Discovery under way: no more reads at once than allowed, and each that has passed its check has
      one left to use. */
  ghost predicate Overlapping(s: Stage, tasks: seq<Reading>, limit: nat) {
    s.Before? && CountIf(tasks, PASSED) <= s.unspent && CountIf(tasks, ACTIVE) <= limit
  }

  lemma Polled(s: Stage, tasks: seq<Reading>, limit: nat, id: nat, next: Reading, after: Stage)
    requires Overlapping(s, tasks, limit) && id < |tasks| && after.Before?
    requires tasks[id].Over? ==> next.Over?
    requires after.unspent + (if tasks[id].Checked? then 1 else 0) >= s.unspent + if next.Checked? then 1 else 0
    ensures Overlapping(after, tasks[id := next], limit)
  {
    CountChanges(tasks, PASSED, id, next);
    CountChanges(tasks, ACTIVE, id, next);
    hide CountIf;
  }

  lemma PassedHasCheck(s: Stage, tasks: seq<Reading>, limit: nat, id: nat)
    requires Overlapping(s, tasks, limit) && id < |tasks| && tasks[id].Checked?
    ensures s.unspent > 0
  {
    CountChanges(tasks, PASSED, id, Over(None));
    hide CountIf;
  }

  lemma NoneUnderWay(s: Stage, tasks: seq<Reading>, limit: nat, after: Stage)
    requires Overlapping(s, tasks, limit) && CountIf(tasks, ACTIVE) == 0 && after.Before?
    ensures Overlapping(after, tasks, limit)
  {
    PassedAreActive(tasks);
    hide CountIf;
  }

  lemma TakenUp(s: Stage, tasks: seq<Reading>, limit: nat, uri: Uri)
    requires Overlapping(s, tasks, limit) && CountIf(tasks, ACTIVE) < limit
    ensures Overlapping(s, tasks + [Waiting(uri)], limit)
  {
    CountMore(tasks, PASSED, Waiting(uri));
    CountMore(tasks, ACTIVE, Waiting(uri));
    hide CountIf;
  }

  /** Discovery so far: the calls made, what counts as followed, the reads, and the error that ended it. */
  datatype Talk = Talk(trace: seq<Event>, followed: set<Uri>, tasks: seq<Reading>, stopped: Option<Error>)

  function Failure(w: World, trace: seq<Event>): Option<Error> {
    var code := w.fails(|trace|);
    if code.Some? then Some(HostFailure(code.value)) else None
  }

  /** A call that goes out, and where the read is then. */
  function Sent(w: World, trace: seq<Event>, e: Event, next: Reading): (Reading, seq<Event>) {
    var failure := Failure(w, trace + [e]);
    (if failure.Some? then Over(failure) else next, trace + [e])
  }

  /** One read polled on: its next state, the calls so far, and what counts as followed. */
  function PolledOn(w: World, o: Settings, id: nat, r: Reading, trace: seq<Event>, followed: set<Uri>)
    : (Reading, seq<Event>, set<Uri>)
  {
    match r
    case Waiting(uri) => var (next, more) := Sent(w, trace, Checkpoint, Checked(uri)); (next, more, followed)
    case Checked(uri) => var (next, more) := Sent(w, trace, Fetch(uri), Fetching(uri)); (next, more, followed)
    case Fetching(uri) =>
      var answer := w.responses(|trace|, id);
      (Over(if !answer.isBody || 0 < answer.length <= o.maxBytes then None
            else if answer.length == 0 then Some(EmptyResource) else Some(ResourceLimit)),
       trace,
       if answer.isBody && answer.finalUri.Some? && uri in followed then followed + {answer.finalUri.value}
       else followed)
    case Over(_) => (r, trace, followed)
  }

  /** The error of a read that ends discovery as a whole: a terminal failure, or a body too large. Any
      other error leaves the catalog to the other reads. */
  function StopOf(w: World, r: Reading): Option<Error> {
    if r.Over? && r.failure.Some?
       && (r.failure.value.ResourceLimit? || (r.failure.value.HostFailure? && w.ends(r.failure.value.code)))
    then r.failure else None
  }

  function ReadLimit(o: Settings): nat {
    if o.maxConcurrent > 1 then o.maxConcurrent else 1
  }

  /** One step of the executor. What cannot happen is passed over. */
  function Stepped(w: World, o: Settings, t: Talk, step: Interaction): Talk {
    if t.stopped.Some? then t
    else match step
      case Begin(uri) =>
        if CountIf(t.tasks, ACTIVE) < ReadLimit(o) then t.(tasks := t.tasks + [Waiting(uri)]) else t
      case Poll(id) =>
        if id >= |t.tasks| || t.tasks[id].Over? then t
        else
          var (next, trace, followed) := PolledOn(w, o, id, t.tasks[id], t.trace, t.followed);
          Talk(trace, followed, t.tasks[id := next], StopOf(w, next))
      case Look =>
        if CountIf(t.tasks, ACTIVE) > 0 then t
        else
          var failure := Failure(w, t.trace + [Checkpoint]);
          var trace := t.trace + [Checkpoint] + if failure.Some? then [] else [Observe];
          t.(trace := trace, stopped := if failure.Some? then failure else Failure(w, trace))
  }

  function Discussed(w: World, o: Settings, t: Talk, steps: seq<Interaction>): Talk {
    if steps == [] then t else Stepped(w, o, Discussed(w, o, t, steps[..|steps| - 1]), steps[|steps| - 1])
  }

  function Warned(n: nat): seq<Event> {
    seq(n, _ => Warn)
  }

  lemma NothingDiscussed(w: World, o: Settings, t: Talk)
    ensures Discussed(w, o, t, []) == t
  {
  }

  /** What a step does, case by case. */
  lemma StepIs(w: World, o: Settings, t: Talk, step: Interaction)
    requires t.stopped.None?
    ensures var active, limit, next := CountIf(t.tasks, ACTIVE), ReadLimit(o), Stepped(w, o, t, step);
      match step
      case Begin(uri) => next == if active < limit then t.(tasks := t.tasks + [Waiting(uri)]) else t
      case Poll(id) =>
        if id >= |t.tasks| || t.tasks[id].Over? then next == t
        else
          var (reading, trace, followed) := PolledOn(w, o, id, t.tasks[id], t.trace, t.followed);
          next == Talk(trace, followed, t.tasks[id := reading], StopOf(w, reading))
      case Look =>
        var checked := t.trace + [Checkpoint];
        if active > 0 then next == t
        else if Failure(w, checked).Some? then next == t.(trace := checked, stopped := Failure(w, checked))
        else next == t.(trace := checked + [Observe], stopped := Failure(w, checked + [Observe]))
  {
    hide PolledOn, CountIf, StopOf;
    assert t.trace + [Checkpoint] + [] == t.trace + [Checkpoint];
  }

  lemma DiscussedNext(w: World, o: Settings, t: Talk, steps: seq<Interaction>, i: nat)
    requires i < |steps|
    ensures Discussed(w, o, t, steps[..i + 1]) == Stepped(w, o, Discussed(w, o, t, steps[..i]), steps[i])
  {
    assert steps[..i + 1][..i] == steps[..i];
    hide Stepped;
  }

  /** Nothing happens after an error has ended it. */
  lemma {:induction false} DiscussedEnds(w: World, o: Settings, t: Talk, steps: seq<Interaction>, i: nat)
    requires i <= |steps| && Discussed(w, o, t, steps[..i]).stopped.Some?
    ensures Discussed(w, o, t, steps) == Discussed(w, o, t, steps[..i])
  {
    if i < |steps| {
      var n := |steps| - 1;
      assert steps[..n][..i] == steps[..i] && steps[..n + 1] == steps;
      DiscussedEnds(w, o, t, steps[..n], i);
      DiscussedNext(w, o, t, steps, n);
      hide Discussed;
    } else {
      assert steps[..i] == steps;
    }
  }

  // ---- Why a job ends -----------------------------------------------------------------------------------

  /** Calls whose failure the job looks at: a tile's is its pool's, and notes cannot fail. */
  predicate Fallible(e: Event) {
    !e.Report? && !e.Warn? && !e.CallTile? && !e.TileAcquired? && !e.Settle?
  }

  /** The last call failed with this error. */
  ghost predicate FailedLast(w: World, trace: seq<Event>, e: Error) {
    trace != [] && Fallible(trace[|trace| - 1]) && Failure(w, trace) == Some(e)
  }

  /** Some answer at this place is a body over the limit. */
  ghost predicate Oversized(w: World, o: Settings, n: nat) {
    exists id: nat :: w.responses(n, id).isBody && w.responses(n, id).length > o.maxBytes
  }

  /** Discovery that began at `n` made all calls since and ended in this error. */
  ghost predicate DiscoveryEndsFrom(w: World, o: Settings, trace: seq<Event>, n: nat, followed: set<Uri>, e: Error) {
    && n <= |trace|
    && var talk := Discussed(w, o, Talk(trace[..n], followed, [], None), w.interactions(n));
    && talk.trace == trace
    && if talk.stopped.Some? then talk.stopped == Some(e) else e == DiscoveryFailed && w.catalog(n).None?
  }

  /** Discovery that began at `n` made all calls since and found a catalog. */
  ghost predicate CatalogFoundFrom(w: World, o: Settings, trace: seq<Event>, n: nat, followed: set<Uri>) {
    && n <= |trace|
    && var talk := Discussed(w, o, Talk(trace[..n], followed, [], None), w.interactions(n));
    talk.stopped.None? && w.catalog(n).Some? && trace == talk.trace + Warned(w.warnings(|talk.trace|))
  }

  ghost predicate CatalogFound(w: World, o: Settings, trace: seq<Event>) {
    exists followed :: CatalogFoundFrom(w, o, trace, Began(trace), followed)
  }

  ghost predicate DiscoveryEnds(w: World, o: Settings, trace: seq<Event>, e: Error) {
    exists followed :: DiscoveryEndsFrom(w, o, trace, Began(trace), followed, e)
  }

  lemma StopTells(w: World, o: Settings, t: Talk, step: Interaction)
    requires t.stopped.None? && Stepped(w, o, t, step).stopped.Some?
    ensures var next := Stepped(w, o, t, step);
      || FailedLast(w, next.trace, next.stopped.value)
      || (next.stopped == Some(ResourceLimit) && Oversized(w, o, |next.trace|))
  {
    hide CountIf;
    if step.Poll? {
      var r := t.tasks[step.id];
      if r.Fetching? {
        var answer := w.responses(|t.trace|, step.id);
        assert answer.isBody && answer.length > o.maxBytes;
      }
    }
  }

  lemma {:induction false} DiscussionStops(w: World, o: Settings, t: Talk, steps: seq<Interaction>)
    requires t.stopped.None? && Discussed(w, o, t, steps).stopped.Some?
    ensures var talk := Discussed(w, o, t, steps);
      || FailedLast(w, talk.trace, talk.stopped.value)
      || (talk.stopped == Some(ResourceLimit) && Oversized(w, o, |talk.trace|))
  {
    var n := |steps| - 1;
    var before := Discussed(w, o, t, steps[..n]);
    hide Stepped, FailedLast, Oversized;
    if before.stopped.Some? {
      DiscussionStops(w, o, t, steps[..n]);
      StoppedStays(w, o, before, steps[n]);
    } else {
      StopTells(w, o, before, steps[n]);
    }
  }

  lemma StoppedStays(w: World, o: Settings, t: Talk, step: Interaction)
    requires t.stopped.Some?
    ensures Stepped(w, o, t, step) == t
  {
  }

  /** What ends discovery: its last call failed, its last answer was a body over the limit, or no catalog
      was found. */
  lemma WhatEndsDiscovery(w: World, o: Settings, trace: seq<Event>, e: Error)
    requires DiscoveryEnds(w, o, trace, e)
    ensures || FailedLast(w, trace, e)
            || (e == ResourceLimit && Oversized(w, o, |trace|))
            || (e == DiscoveryFailed && w.catalog(Began(trace)).None?)
  {
    hide Discussed, FailedLast, Oversized;
    var n := Began(trace);
    var followed :| DiscoveryEndsFrom(w, o, trace, n, followed, e);
    var start := Talk(trace[..n], followed, [], None);
    if Discussed(w, o, start, w.interactions(n)).stopped.Some? {
      DiscussionStops(w, o, start, w.interactions(n));
    }
  }

  // ---- What was chosen --------------------------------------------------------------------------------

  /** The entry chosen last, from the catalog discovered before that. */
  function ChosenEntry(w: World, trace: seq<Event>): Option<Entry> {
    var p := Began(trace);
    if 0 < p <= |trace| && trace[p - 1].ChooseImage? then
      var entries, k := w.catalog(Began(trace[..p - 1])), w.picks(p - 1);
      if entries.Some? && k < |entries.value| then Some(entries.value[k]) else None
    else None
  }

  function ChosenImage(w: World, trace: seq<Event>): Option<Image> {
    var entry := ChosenEntry(w, trace);
    if entry.Some? && entry.value.Ready? then Some(entry.value.image) else None
  }

  lemma StillChosen(w: World, before: seq<Event>, trace: seq<Event>)
    requires before <= trace && Began(trace) == Began(before) <= |before|
    ensures ChosenEntry(w, trace) == ChosenEntry(w, before) && ChosenImage(w, trace) == ChosenImage(w, before)
  {
    var p := Began(trace);
    hide Began;
    if p > 0 { assert trace[..p - 1] == before[..p - 1] && trace[p - 1] == before[p - 1]; }
  }

  lemma ChoiceIs(w: World, before: seq<Event>, entries: seq<Entry>)
    requires w.catalog(Began(before)) == Some(entries)
    ensures var trace, k := before + [ChooseImage], w.picks(|before|);
      && Began(trace) == |trace|
      && ChosenEntry(w, trace) == if k < |entries| then Some(entries[k]) else None
  {
    BeganMore(before, ChooseImage);
    hide Began;
    assert (before + [ChooseImage])[..|before|] == before;
  }

  /** The first check failed; or after a catalog was found the check or the choice failed, nothing was to
      be chosen, or what was chosen is not there, or leads nowhere. */
  ghost predicate SelectionFails(w: World, o: Settings, trace: seq<Event>, e: Error) {
    && trace != []
    && var before, last := trace[..|trace| - 1], trace[|trace| - 1];
    || (&& e.HostFailure? && FailedLast(w, trace, e)
        && (trace == [Checkpoint] || last.ChooseImage? || (last.Checkpoint? && CatalogFound(w, o, before))))
    || (e.PlanEmpty? && last.Checkpoint? && CatalogFound(w, o, before) && w.catalog(Began(before)) == Some([]))
    || (&& e.InvalidState? && last.ChooseImage? && w.catalog(Began(before)).Some?
        && w.picks(|before|) >= |w.catalog(Began(before)).value|)
    || (e.DeferredLimit? && last.ChooseImage? && ChosenEntry(w, trace).Some? && ChosenEntry(w, trace).value.Deferred?)
  }

  // ---- Plans and what becomes of them ---------------------------------------------------------------

  /** The plan made of a level: its tiles, what probing that began at `n` output, and the levels that
      can be reused. */
  ghost predicate PlanOfLevel(w: World, o: Settings, image: Image, source: Source, n: nat, plan: Plan) {
    if source.Probed? then
      && w.resolved(n).Some? && plan.previous == w.resolved(n).value.previous
      && PlanFrom(o, image, Tiled(w.resolved(n).value.grid), plan)
    else plan.previous == [] && PlanFrom(o, image, source, plan)
  }

  ghost predicate PlanFrom(o: Settings, image: Image, source: Source, plan: Plan)
    requires !source.Probed?
  {
    && plan.destinations == (if source.Tiled? then source.grid.destinations else source.destinations)
    && if CanReuse(o.zif, source) then
         exists depth :: plan.lower == Lower(image.levels, source.grid, depth) && LastHalving(source.grid, depth)
       else plan.lower == []
  }

  /** The level itself, or what probing it from `n` on resolved. */
  function SourceOf(w: World, source: Source, n: nat): Source {
    if source.Probed? && w.resolved(n).Some? then Tiled(w.resolved(n).value.grid) else source
  }

  /** Such a plan takes over the lower levels it is promised to, and without any is the level's own tiles. */
  lemma PlanIsPromised(w: World, o: Settings, image: Image, level: nat, n: nat, plan: Plan)
    requires level < |image.levels| && LevelsValid(image) && WorldValid(w)
    requires PlanOfLevel(w, o, image, image.levels[level], n, plan)
    ensures ReusedAsPromised(o.zif, image.levels, SourceOf(w, image.levels[level], n), plan.lower)
    ensures plan.lower == [] ==> Total(plan) == |plan.destinations|
  {
    hide Lower, LastHalving, ReusedAsPromised;
    var source := SourceOf(w, image.levels[level], n);
    LevelsAsPromised(o.zif, image.levels, source, plan.lower);
  }

  /** The plan of a download that began at `n`, with the choice of a level: three calls later. */
  ghost predicate PlanMade(w: World, o: Settings, image: Image, n: nat, plan: Plan) {
    w.picks(n) < |image.levels| && PlanOfLevel(w, o, image, image.levels[w.picks(n)], n + 3, plan)
  }

  /** Probing that began at `n` made all calls since and failed: in its last call, without a geometry
      after all its probes, or at the tile limit. */
  ghost predicate ResolveFails(w: World, o: Settings, n: nat, trace: seq<Event>, e: Error) {
    && n <= |trace| && ProbesChecked(trace[..n], trace)
    && var probes := ProbeCount(trace) - ProbeCount(trace[..n]);
    match e
    case HostFailure(_) => n < |trace| && FailedLast(w, trace, e)
    case PlanEmpty => w.resolved(n).None? && probes == w.probes(n)
    case ResourceLimit => probes == o.maxTiles < w.probes(n)
    case _ => false
  }

  /** A plan that is empty or too large, or whose output cannot be begun. */
  ghost predicate PlanRefused(w: World, o: Settings, n: nat, plan: Plan, trace: seq<Event>, e: Error) {
    && n <= |trace|
    && match e
       case HostFailure(_) =>
         trace != [] && trace[|trace| - 1] == BeginOutput(Total(plan)) && FailedLast(w, trace, e)
       case PlanEmpty => ProbesChecked(trace[..n], trace) && Total(plan) == 0
       case ResourceLimit => ProbesChecked(trace[..n], trace) && Total(plan) > o.maxTiles
       case _ => false
  }

  ghost predicate PlanFails(w: World, o: Settings, image: Image, level: nat, n: nat, trace: seq<Event>, e: Error) {
    && level < |image.levels|
    && (|| (image.levels[level].Probed? && ResolveFails(w, o, n, trace, e))
        || (exists plan ::
              PlanOfLevel(w, o, image, image.levels[level], n, plan) && PlanRefused(w, o, n, plan, trace, e)))
  }

  // ---- The calls of a plan ------------------------------------------------------------------------------

  function PolicyOf(o: Settings): TA.Policy {
    TA.Policy(o.maxRetries, o.interactive, o.maxConcurrent)
  }

  /** How a list of tiles ended: drained, left by its schedule, or with a tile's error. */
  datatype Ending = Drained | Stopped | Broken(cause: TA.Error)

  function PoolOf(w: World, o: Settings, tiles: TA.Tiles, n: nat): TA.Pool {
    TA.After(PolicyOf(o), tiles, w.schedule(n))
  }

  function EndOf(w: World, o: Settings, tiles: TA.Tiles, n: nat): Ending {
    var pool := PoolOf(w, o, tiles, n);
    if pool.outcome.Some? then Broken(pool.outcome.value) else if TA.Drained(tiles, pool) then Drained else Stopped
  }

  /** The calls of a list acquired from `n` on. */
  function ListCalls(w: World, o: Settings, tiles: TA.Tiles, n: nat): seq<Event> {
    PoolPlaces(w, o, tiles, n);
    Calls(tiles, PoolOf(w, o, tiles, n).events)
  }

  lemma PoolPlaces(w: World, o: Settings, tiles: TA.Tiles, n: nat)
    ensures var events := PoolOf(w, o, tiles, n).events;
      forall i :: 0 <= i < |events| ==> events[i].place < |tiles| && tiles[events[i].place].Some?
  {
    TA.RunInv(PolicyOf(o), tiles, w.schedule(n));
    ProperPlaces(tiles, PoolOf(w, o, tiles, n).events);
    hide TA.After;
  }

  lemma {:induction false} CallsAreTiles(tiles: TA.Tiles, events: seq<TA.Event>)
    requires forall i :: 0 <= i < |events| ==> events[i].place < |tiles| && tiles[events[i].place].Some?
    ensures forall i :: 0 <= i < |Calls(tiles, events)| ==> !Calls(tiles, events)[i].ChooseImage?
  {
    if events != [] { CallsAreTiles(tiles, events[..|events| - 1]); }
  }

  /** The lists a plan is acquired in: the level itself without what was output before, then the lower
      levels, numbered on. */
  function ListOf(plan: Plan, i: nat): TA.Tiles
    requires i <= |plan.lower|
  {
    if i == 0 then Fresh(plan.destinations, plan.previous, |plan.destinations|)
    else Shifted(plan.lower[i - 1].destinations, |plan.destinations| + LowerCount(plan.lower[..i - 1]))
  }

  datatype Gathering = Gathering(trace: seq<Event>, end: Ending)

  /** The first lists of a plan acquired one after the other, up to the first that is not drained. */
  function Gathered(w: World, o: Settings, plan: Plan, trace: seq<Event>, i: nat): Gathering
    requires i <= |plan.lower| + 1
  {
    if i == 0 then Gathering(trace, Drained)
    else
      var g := Gathered(w, o, plan, trace, i - 1);
      if !g.end.Drained? then g
      else
        var tiles := ListOf(plan, i - 1);
        Gathering(g.trace + ListCalls(w, o, tiles, |g.trace|), EndOf(w, o, tiles, |g.trace|))
  }

  lemma GatheredNext(w: World, o: Settings, plan: Plan, start: seq<Event>, i: nat, trace: seq<Event>)
    requires i <= |plan.lower| && Gathered(w, o, plan, start, i) == Gathering(trace, Drained)
    ensures var tiles := ListOf(plan, i);
      Gathered(w, o, plan, start, i + 1) ==
        Gathering(trace + ListCalls(w, o, tiles, |trace|), EndOf(w, o, tiles, |trace|))
  {
    hide ListOf, ListCalls, EndOf;
  }

  lemma {:induction false} GatheredEnds(w: World, o: Settings, plan: Plan, start: seq<Event>, i: nat, j: nat)
    requires i <= j <= |plan.lower| + 1 && !Gathered(w, o, plan, start, i).end.Drained?
    ensures Gathered(w, o, plan, start, j) == Gathered(w, o, plan, start, i)
  {
    if i < j {
      GatheredEnds(w, o, plan, start, i, j - 1);
      hide ListOf, ListCalls, EndOf;
    }
  }

  function EndingOf<T>(r: Option<Result<T, Error>>): Ending
    requires r.Some? && r.value.Err? ==> r.value.error.Acquisition?
  {
    match r
    case None => Stopped
    case Some(Ok(_)) => Drained
    case Some(Err(e)) => Broken(e.cause)
  }

  /** The plan of a download that began at `n` was acquired from `k` on, right after its output was
      begun, and that made all calls since and ended so. */
  ghost predicate GatheredFrom(w: World, o: Settings, image: Image, n: nat, trace: seq<Event>, plan: Plan, k: nat,
                               end: Ending)
  {
    && 2 <= k <= |trace| && n <= k && PlanMade(w, o, image, n, plan)
    && trace[k - 2] == BeginOutput(Total(plan)) && trace[k - 1].Report?
    && Gathered(w, o, plan, trace[..k], |plan.lower| + 1) == Gathering(trace, end)
  }

  ghost predicate GatheringEnds(w: World, o: Settings, image: Image, n: nat, trace: seq<Event>, end: Ending) {
    exists plan, k: nat :: GatheredFrom(w, o, image, n, trace, plan, k, end)
  }

  // ---- Causes -----------------------------------------------------------------------------------------------

  /** Why a download that began at `n` ends in this error after these calls. */
  ghost predicate DownloadFails(w: World, o: Settings, image: Image, n: nat, trace: seq<Event>, e: Error) {
    || (n < |trace| && e.HostFailure? && FailedLast(w, trace, e))
    || (e.InvalidState? && |trace| == n + 1 && w.picks(n) >= |image.levels|)
    || (&& (e.PlanEmpty? || e.ResourceLimit?) && |trace| >= n + 3
        && trace[n..n + 3] == [ChooseLevel, Report, Checkpoint]
        && PlanFails(w, o, image, w.picks(n), n + 3, trace, e))
    || (e.Acquisition? && GatheringEnds(w, o, image, n, trace, Broken(e.cause)))
  }

  /** What an error of the job tells, from its calls before the settlement. */
  ghost predicate Caused(w: World, o: Settings, inputs: seq<Input>, trace: seq<Event>, e: Error) {
    || (trace == [] && Invalid(inputs, o) == Some(e))
    || DiscoveryEnds(w, o, trace, e)
    || SelectionFails(w, o, trace, e)
    || (ChosenImage(w, trace).Some? && DownloadFails(w, o, ChosenImage(w, trace).value, Began(trace), trace, e))
  }

  /** The plan of the chosen image was left by a schedule that stopped. */
  ghost predicate LeftUnfinished(w: World, o: Settings, trace: seq<Event>) {
    ChosenImage(w, trace).Some? && GatheringEnds(w, o, ChosenImage(w, trace).value, Began(trace), trace, Stopped)
  }

  /** What the call after the plan tells: which plan was acquired, and how far progress got. Every tile
      of the plan is counted once, and every corner output before once more. */
  ghost predicate SummaryHolds(w: World, o: Settings, trace: seq<Event>, s: Summary) {
    && ChosenImage(w, trace).Some? && PlanMade(w, o, ChosenImage(w, trace).value, Began(trace), s.plan)
    && Progress(s.plan, s.completed)
  }

  ghost predicate Progress(plan: Plan, completed: nat) {
    && 0 < Total(plan)
    && completed + |Matching(plan.destinations, plan.previous)| == |plan.previous| + Total(plan)
  }

  /** Progress ends at the total exactly if as many planned tiles match earlier corners as there are
      earlier corners: always if nothing was output before, and for distinct corners planned at most
      once exactly if every one of them is planned. */
  lemma ProgressEnds(plan: Plan, completed: nat)
    requires Progress(plan, completed)
    ensures completed == Total(plan) <==> |Matching(plan.destinations, plan.previous)| == |plan.previous|
    ensures plan.previous == [] ==> completed == Total(plan)
    ensures Distinct(plan.previous) && PlannedOnce(plan.destinations, plan.previous) ==>
      && completed >= Total(plan)
      && (completed == Total(plan) <==> forall corner :: corner in plan.previous ==> Some(corner) in plan.destinations)
  {
    if plan.previous == [] { assert Matching(plan.destinations, plan.previous) == {}; }
    if Distinct(plan.previous) && PlannedOnce(plan.destinations, plan.previous) {
      AllMatch(plan.destinations, plan.previous);
    }
    hide Matching, PlannedOnce, Distinct;
  }

  class Job {
    const o: Settings
    var trace: seq<Event>
    var followed: set<Uri>
    var remaining: nat
    var follows: seq<Uri>
    var completed: nat

    /** The resources followed so far: none twice, and no more than allowed. */
    ghost predicate Following()
      reads this
    {
      && |follows| + remaining <= o.maxFollows && Distinct(follows)
      && forall i :: 0 <= i < |follows| ==> follows[i] in followed
    }

    constructor (o: Settings)
      ensures this.o == o && trace == [] && follows == [] && Following()
    {
      this.o := o;
      trace, followed, remaining, follows, completed := [], {}, 0, [], 0;
    }

    method Call(w: World, e: Event) returns (failure: Option<Error>)
      modifies this`trace
      ensures trace == old(trace) + [e] && Monitor(trace) == Next(Monitor(old(trace)), e)
      ensures failure == Failure(w, trace) && (failure.Some? ==> failure.value.HostFailure?)
      ensures Began(trace) == if e.ChooseImage? then |trace| else Began(old(trace))
    {
      MonitorMore(trace, e);
      BeganMore(trace, e);
      hide Monitor, Next, Began;
      trace := trace + [e];
      var code := w.fails(|trace|);
      failure := if code.Some? then Some(HostFailure(code.value)) else None;
    }

    /** One poll of a metadata read. It passes its own check, then makes its call, then takes the
        answer: where a followed address leads counts as followed from then on. */
    method FetchMetadata(w: World, id: nat, reading: Reading) returns (next: Reading)
      requires Monitor(trace).Before? && (reading.Checked? ==> Monitor(trace).unspent > 0)
      modifies this`trace, this`followed
      ensures (next, trace, followed) == PolledOn(w, o, id, reading, old(trace), old(followed))
      ensures Monitor(trace).Before? && old(followed) <= followed && Began(trace) == Began(old(trace))
      ensures reading.Waiting? ==>
        && trace == old(trace) + [Checkpoint] && Monitor(trace).unspent == Monitor(old(trace)).unspent + 1
        && (next == Checked(reading.uri) || (next.Over? && next.failure.Some?))
      ensures reading.Checked? ==>
        && trace == old(trace) + [Fetch(reading.uri)] && Monitor(trace).unspent == Monitor(old(trace)).unspent - 1
        && (next == Fetching(reading.uri) || (next.Over? && next.failure.Some?))
      ensures reading.Waiting? || reading.Checked? ==>
        && followed == old(followed) && (next.Over? <==> w.fails(|trace|).Some?)
        && (next.Over? ==> next.failure == Some(HostFailure(w.fails(|trace|).value)))
      ensures reading.Fetching? || reading.Over? ==> trace == old(trace) && next.Over?
      ensures reading.Fetching? ==>
        var response := w.responses(|trace|, id);
        && (next.failure.None? <==> !response.isBody || 0 < response.length <= o.maxBytes)
        && (next.failure == Some(EmptyResource) <==> response.isBody && response.length == 0)
        && (next.failure == Some(ResourceLimit) <==> response.isBody && response.length > o.maxBytes)
        && (response.isBody && response.finalUri.Some? && reading.uri in old(followed) ==>
              response.finalUri.value in followed)
        && forall uri :: uri in followed ==>
             uri in old(followed) || (reading.uri in old(followed) && response.isBody && response.finalUri == Some(uri))
      ensures reading.Over? ==> next == reading && followed == old(followed)
    {
      hide Monitor, Began;
      match reading
      case Waiting(uri) =>
        var failure := Call(w, Checkpoint);
        next := if failure.Some? then Over(failure) else Checked(uri);
      case Checked(uri) =>
        var failure := Call(w, Fetch(uri));
        next := if failure.Some? then Over(failure) else Fetching(uri);
      case Fetching(uri) =>
        var response := w.responses(|trace|, id);
        next := Over(None);
        if response.isBody {
          if response.finalUri.Some? && uri in followed { followed := followed + {response.finalUri.value}; }
          if response.length == 0 { return Over(Some(EmptyResource)); }
          if response.length > o.maxBytes { return Over(Some(ResourceLimit)); }
        }
      case Over(_) => next := reading;
    }

    /** Asks the host for observations, after a check. */
    method LookAround(w: World) returns (failure: Option<Error>)
      requires Monitor(trace).Before?
      modifies this`trace
      ensures Monitor(trace).Before? && Began(trace) == Began(old(trace))
      ensures var checked := old(trace) + [Checkpoint];
        && trace == checked + (if Failure(w, checked).Some? then [] else [Observe])
        && failure == if Failure(w, checked).Some? then Failure(w, checked) else Failure(w, trace)
      ensures failure.Some? ==> failure.value.HostFailure?
    {
      hide Monitor, Began;
      failure := Call(w, Checkpoint);
      if failure.None? { failure := Call(w, Observe); }
    }

    /** Discovers a catalog. The executor interleaves the reads as it likes, up to the limit at once,
        and asks for observations only while none is under way. A terminal failure or an oversized body
        ends it at once, whatever is still under way. */
    method Discover(w: World) returns (r: Result<seq<Entry>, Error>)
      requires Monitor(trace).Before? && Following() && WorldValid(w)
      modifies this`trace, this`followed
      ensures Monitor(trace).Before? && Following() && old(followed) <= followed && Began(trace) == Began(old(trace))
      ensures r.Err? ==> r.error.DiscoveryFailed? || r.error.HostFailure? || r.error.ResourceLimit?
      ensures r.Err? && Began(old(trace)) == |old(trace)| ==> DiscoveryEnds(w, o, trace, r.error)
      ensures r.Ok? ==> EntriesValid(r.value) && w.catalog(|old(trace)|) == Some(r.value)
      ensures r.Ok? && Began(old(trace)) == |old(trace)| ==> CatalogFound(w, o, trace)
      ensures var talk := Discussed(w, o, Talk(old(trace), old(followed), [], None), w.interactions(|old(trace)|));
        var catalog := w.catalog(|old(trace)|);
        && followed == talk.followed
        && r == (if talk.stopped.Some? then Err(talk.stopped.value)
                 else if catalog.None? then Err(DiscoveryFailed) else Ok(catalog.value))
        && trace == talk.trace + if r.Ok? then Warned(w.warnings(|talk.trace|)) else []
    {
      hide Monitor, Next, Began, Overlapping, CountIf, EntriesValid, PolledOn, Discussed, Stepped, StopOf;
      hide DiscoveryEnds, CatalogFound;
      var steps, catalog := w.interactions(|trace|), w.catalog(|trace|);
      var limit := ReadLimit(o);
      ghost var start := Talk(trace, followed, [], None);
      assert steps[..0] == [];
      NothingDiscussed(w, o, start);
      var tasks: seq<Reading> := [];
      NothingUnderWay(Monitor(trace), limit);
      for i := 0 to |steps|
        invariant Monitor(trace).Before? && Following() && old(followed) <= followed
        invariant Began(trace) == Began(old(trace)) && old(trace) <= trace
        invariant Overlapping(Monitor(trace), tasks, limit)
        invariant Discussed(w, o, start, steps[..i]) == Talk(trace, followed, tasks, None)
      {
        ghost var s := Monitor(trace);
        DiscussedNext(w, o, start, steps, i);
        StepIs(w, o, Talk(trace, followed, tasks, None), steps[i]);
        match steps[i]
        case Begin(uri) =>
          if CountIf(tasks, ACTIVE) < limit {
            TakenUp(s, tasks, limit, uri);
            tasks := tasks + [Waiting(uri)];
          }
        case Poll(id) =>
          if id < |tasks| && !tasks[id].Over? {
            if tasks[id].Checked? { PassedHasCheck(s, tasks, limit, id); }
            var next := FetchMetadata(w, id, tasks[id]);
            var stop := StopOf(w, next);
            StopIs(w, next);
            if stop.Some? {
              DiscussedEnds(w, o, start, steps, i + 1);
              DiscoveryEndedSo(w, o, old(trace), trace, start, stop.value);
              return Err(stop.value);
            }
            Polled(s, tasks, limit, id, next, Monitor(trace));
            tasks := tasks[id := next];
          }
        case Look =>
          if CountIf(tasks, ACTIVE) == 0 {
            var failure := LookAround(w);
            if failure.Some? {
              DiscussedEnds(w, o, start, steps, i + 1);
              DiscoveryEndedSo(w, o, old(trace), trace, start, failure.value);
              return Err(failure.value);
            }
            NoneUnderWay(s, tasks, limit, Monitor(trace));
          }
      }
      assert steps[..|steps|] == steps;
      if catalog.None? {
        DiscoveryEndedSo(w, o, old(trace), trace, start, DiscoveryFailed);
        return Err(DiscoveryFailed);
      }
      Warnings(w);
      CatalogFoundSo(w, o, old(trace), trace, start);
      r := Ok(catalog.value);
    }

    method Warnings(w: World)
      requires Monitor(trace).Before?
      modifies this`trace
      ensures Monitor(trace).Before? && trace == old(trace) + Warned(w.warnings(|old(trace)|))
      ensures Began(trace) == Began(old(trace))
    {
      hide Monitor, Began;
      var warnings := w.warnings(|trace|);
      for i := 0 to warnings
        invariant Monitor(trace).Before? && trace == old(trace) + Warned(i) && Began(trace) == Began(old(trace))
      {
        var ignored := Call(w, Warn);
      }
    }

    method Start(w: World, inputs: seq<Input>) returns (r: Result<seq<Entry>, Error>)
      requires trace == [] && follows == [] && WorldValid(w)
      modifies this`trace, this`followed, this`remaining
      ensures Monitor(trace).Before? && Following()
      ensures Invalid(inputs, o).Some? ==> r == Err(Invalid(inputs, o).value) && trace == []
      ensures r.Err? ==> Caused(w, o, inputs, trace, r.error) && !r.error.DeferredLimit?
      ensures r.Ok? ==> EntriesValid(r.value) && w.catalog(Began(trace)) == Some(r.value) && CatalogFound(w, o, trace)
      ensures r.Ok? ==> forall i :: 0 <= i < |inputs| && inputs[i].source ==> inputs[i].url in followed
      ensures r.Ok? ==> remaining == o.maxFollows
    {
      hide Invalid, EntriesValid, WorldValid, DiscoveryEnds, CatalogFound, Caused, Monitor, Next, Began;
      remaining := 0;
      var invalid := Invalid(inputs, o);
      OpeningCalls();
      OpeningCauses(w, o, inputs);
      if invalid.Some? { return Err(invalid.value); }
      var failure := Call(w, Checkpoint);
      assert trace == [Checkpoint];
      if failure.Some? { return Err(failure.value); }
      failure := Call(w, Report);
      assert trace == [Checkpoint, Report];
      followed := set i | 0 <= i < |inputs| && inputs[i].source :: inputs[i].url;
      remaining := o.maxFollows;
      r := Discover(w);
      if r.Err? { CauseOfDiscovery(w, o, inputs, trace, r.error); }
    }

    /** Follows a deferred entry, unless that was done before or too often. */
    method Follow(w: World, uri: Uri) returns (r: Result<seq<Entry>, Error>)
      requires Monitor(trace).Before? && Following() && WorldValid(w)
      modifies this`trace, this`followed, this`remaining, this`follows
      ensures Monitor(trace).Before? && Following()
      ensures r.Ok? ==> EntriesValid(r.value) && w.catalog(|old(trace)|) == Some(r.value)
      ensures r.Ok? && Began(old(trace)) == |old(trace)| ==> CatalogFound(w, o, trace)
      ensures old(followed) <= followed && Began(trace) == Began(old(trace))
      ensures r.Ok? ==> remaining + 1 == old(remaining) && follows == old(follows) + [uri] && uri !in old(followed)
      ensures follows == old(follows) || (follows == old(follows) + [uri] && uri !in old(followed))
      ensures r == Err(DeferredLimit) <==> old(remaining) == 0 || uri in old(followed)
      ensures r == Err(DeferredLimit) ==>
        trace == old(trace) && followed == old(followed) && remaining == old(remaining)
      ensures old(remaining) > 0 && uri !in old(followed) ==>
        r.Ok? || r.error.DiscoveryFailed? || r.error.HostFailure? || r.error.ResourceLimit?
      ensures r.Err? && !r.error.DeferredLimit? && Began(old(trace)) == |old(trace)| ==>
        DiscoveryEnds(w, o, trace, r.error)
    {
      hide EntriesValid, WorldValid, Monitor, Began, DiscoveryEnds, CatalogFound;
      if remaining == 0 || uri in followed { return Err(DeferredLimit); }
      followed, follows := followed + {uri}, follows + [uri];
      remaining := remaining - 1;
      r := Discover(w);
    }

    /** One measured tile of a source whose geometry is probed for. */
    method MeasureTile(w: World, generic: bool, left: nat) returns (failure: Option<Error>)
      requires Monitor(trace).Before?
      modifies this`trace
      ensures Monitor(trace).Before? && old(trace) <= trace && Began(trace) == Began(old(trace))
      ensures trace <= old(trace) + OneMeasure(generic)
      ensures failure.None? ==> trace == old(trace) + OneMeasure(generic)
      ensures ProbesChecked(old(trace), trace)
      ensures ProbeCount(trace) <= ProbeCount(old(trace)) + if left > 0 then 1 else 0
      ensures failure.None? ==> left > 0 && ProbeCount(trace) == ProbeCount(old(trace)) + 1
      ensures failure.Some? ==>
        || (failure.value == ResourceLimit && left == 0 && ProbeCount(trace) == ProbeCount(old(trace)))
        || (failure.value.HostFailure? && FailedLast(w, trace, failure.value) && |old(trace)| < |trace|)
    {
      hide Monitor, Began, ProbeCount;
      ProbesMore(trace, trace, Checkpoint);
      if generic {
        failure := Call(w, Checkpoint);
        ProbesMore(old(trace), trace, Checkpoint);
        if failure.Some? { return; }
      }
      if left == 0 { return Some(ResourceLimit); }
      failure := Call(w, Checkpoint);
      ProbesMore(old(trace), trace, Probe);
      if failure.Some? { return; }
      failure := Call(w, Probe);
    }

    /** Resolves a source whose geometry is found by probing: nothing but checks and probes, each probe
        directly after a check, and no more of them than the tile limit. */
    method Resolve(w: World, generic: bool) returns (r: Result<Resolved, Error>)
      requires Monitor(trace).Before? && WorldValid(w)
      modifies this`trace
      ensures Monitor(trace).Before? && old(trace) <= trace && Began(trace) == Began(old(trace))
      ensures ProbesChecked(old(trace), trace) && ProbeCount(trace) <= ProbeCount(old(trace)) + o.maxTiles
      ensures trace <= old(trace) + Measures(generic, w.probes(|old(trace)|))
      ensures r.Ok? || r.error.PlanEmpty? ==> trace == old(trace) + Measures(generic, w.probes(|old(trace)|))
      ensures r.Ok? ==> r.value.grid.Valid() && w.resolved(|old(trace)|) == Some(r.value)
      ensures r.Err? ==> ResolveFails(w, o, |old(trace)|, trace, r.error)
    {
      hide *;
      ghost var n, start := |trace|, trace;
      var count, resolved, left: nat := w.probes(|trace|), w.resolved(|trace|), o.maxTiles;
      NothingMeasured(start, generic, count);
      for i := 0 to count
        invariant Monitor(trace).Before? && left + i == o.maxTiles && Began(trace) == Began(old(trace))
        invariant old(trace) <= trace && ProbesChecked(old(trace), trace)
        invariant ProbeCount(trace) == ProbeCount(old(trace)) + i
        invariant trace == start + Measures(generic, i)
      {
        ghost var before := trace;
        var failure := MeasureTile(w, generic, left);
        ProbesOn(start, before, trace);
        MeasuredMore(start, before, trace, generic, i, count);
        if failure.Some? {
          ResolveFailed(w, o, start, trace, failure.value, left);
          return Err(failure.value);
        }
        left := left - 1;
      }
      if resolved.None? {
        NothingResolved(w, o, start, trace);
        return Err(PlanEmpty);
      }
      ResolvedIsValid(w, n);
      r := Ok(resolved.value);
    }

    /** The plan, and the output begun for it. */
    method PreparePlan(w: World, image: Image, level: nat) returns (r: Result<Plan, Error>)
      requires Monitor(trace).Before? && level < |image.levels| && LevelsValid(image) && WorldValid(w)
      modifies this`trace
      ensures Began(trace) == Began(old(trace)) && old(trace) <= trace
      ensures r.Err? ==> Monitor(trace).Before? || Monitor(trace).Output?
      ensures r.Err? ==> PlanFails(w, o, image, level, |old(trace)|, trace, r.error)
      ensures r.Ok? ==> Monitor(trace) == Output(Total(r.value), {}, false) && 0 < Total(r.value) <= o.maxTiles
      ensures r.Ok? ==> PlanOfLevel(w, o, image, image.levels[level], |old(trace)|, r.value)
      ensures r.Ok? ==>
        && ReusedAsPromised(o.zif, image.levels, SourceOf(w, image.levels[level], |old(trace)|), r.value.lower)
        && (r.value.lower == [] ==> Total(r.value) == |r.value.destinations|)
      ensures r.Ok? ==> |old(trace)| < |trace| && trace[|trace| - 1] == BeginOutput(Total(r.value))
    {
      hide Monitor, Began, LowerCount, ResolveFails, ProbeCount, Lower, LastHalving, ReusedAsPromised;
      ghost var n := |trace|;
      assert trace[..n] == trace;
      var source, previous: seq<nat> := image.levels[level], [];
      if source.Probed? {
        var resolved := Resolve(w, source.generic);
        if resolved.Err? { return Err(resolved.error); }
        source, previous := Tiled(resolved.value.grid), resolved.value.previous;
        assert trace[..n] == old(trace);
      }
      var destinations := if source.Tiled? then source.grid.destinations else source.destinations;
      var lower: seq<Grid> := [];
      if CanReuse(o.zif, source) {
        lower := ReusableLevels(image.levels, source.grid);
      }
      var plan := Plan(destinations, previous, lower);
      assert PlanOfLevel(w, o, image, image.levels[level], n, plan);
      PlanIsPromised(w, o, image, level, n, plan);
      assert ProbesChecked(trace[..n], trace);
      hide PlanOfLevel;
      if Total(plan) == 0 {
        RefusedSo(w, o, image, level, n, plan, trace, PlanEmpty);
        return Err(PlanEmpty);
      }
      if Total(plan) > o.maxTiles {
        RefusedSo(w, o, image, level, n, plan, trace, ResourceLimit);
        return Err(ResourceLimit);
      }
      var failure := Call(w, BeginOutput(Total(plan)));
      if failure.Some? {
        RefusedSo(w, o, image, level, n, plan, trace, failure.value);
        return Err(failure.value);
      }
      r := Ok(plan);
    }

    /** Acquires one list of tiles, as far as its schedule goes. */
    method AcquireList(w: World, tiles: TA.Tiles, low: nat, high: nat) returns (r: Option<Result<(), Error>>)
      requires Monitor(trace).Output? && Within(tiles, low, high) && high <= Monitor(trace).total
      requires forall i :: i in Monitor(trace).done ==> !(low <= i < high)
      modifies this`trace, this`completed
      ensures Monitor(trace).Output? && Monitor(trace).total == Monitor(old(trace)).total
      ensures trace == old(trace) + ListCalls(w, o, tiles, |old(trace)|) && Began(trace) == Began(old(trace))
      ensures r.Some? && r.value.Err? ==> r.value.error.Acquisition?
      ensures EndingOf(r) == EndOf(w, o, tiles, |old(trace)|)
      ensures r.Some? && r.value.Ok? ==>
        && None !in tiles && completed == old(completed) + |tiles|
        && forall i: nat :: i in Monitor(trace).done <==> i in Monitor(old(trace)).done || Some(i) in tiles
    {
      ghost var n := |trace|;
      var pool := PoolOf(w, o, tiles, |trace|);
      TA.RunInv(PolicyOf(o), tiles, w.schedule(n));
      CallsKeepProtocol(trace, tiles, pool.events, low, high);
      PoolPlaces(w, o, tiles, n);
      CallsAreTiles(tiles, pool.events);
      BeganOn(trace, Calls(tiles, pool.events));
      if TA.Drained(tiles, pool) { DrainedIndices(PolicyOf(o), tiles, w.schedule(n)); }
      hide Monitor, Began, TA.After, TA.Inv, Within, Indices, Calls;
      trace := trace + Calls(tiles, pool.events);
      completed := completed + |pool.yielded|;
      if pool.outcome.Some? { return Some(Err(Acquisition(pool.outcome.value))); }
      if TA.Drained(tiles, pool) { return Some(Ok(())); }
      r := None;
    }

    /** Acquires the level itself, except what was output before. */
    method AcquireBase(w: World, plan: Plan) returns (r: Option<Result<(), Error>>)
      requires Monitor(trace).Output? && Monitor(trace).done == {} && |plan.destinations| <= Monitor(trace).total
      modifies this`trace, this`completed
      ensures Monitor(trace).Output? && Monitor(trace).total == Monitor(old(trace)).total
      ensures Began(trace) == Began(old(trace)) && old(trace) + [Report] <= trace
      ensures r.Some? && r.value.Err? ==> r.value.error.Acquisition?
      ensures Gathered(w, o, plan, old(trace) + [Report], 1) == Gathering(trace, EndingOf(r))
      ensures r.Some? && r.value.Ok? ==>
        var base := |plan.destinations|; var reused := Reused(plan.destinations, plan.previous, base);
        Covers(Monitor(trace).done, reused, base, base) && completed + |reused| == |plan.previous| + base
    {
      var base := |plan.destinations|;
      var todo := Fresh(plan.destinations, plan.previous, base);
      FreshAndReused(plan.destinations, plan.previous, base);
      assert todo == ListOf(plan, 0);
      ghost var start := trace + [Report];
      assert Gathered(w, o, plan, start, 0) == Gathering(start, Drained);
      GatheredNext(w, o, plan, start, 0, start);
      hide Monitor, Began, Fresh, Reused, Covers, Within, ListOf, ListCalls, EndOf, Gathered;
      completed := |plan.previous|;
      ReportKeeps(Monitor(trace));
      var ignored := Call(w, Report);
      hide Next;
      r := AcquireList(w, todo, 0, base);
      if r.Some? && r.value.Ok? { BaseCovers(plan.destinations, plan.previous, Monitor(trace).done); }
    }

    /** Acquires the whole plan: the level itself, then each lower level, numbered on. The calls made and
        how it ends are exactly what the schedules of its lists give. */
    method AcquirePlan(w: World, plan: Plan) returns (r: Option<Result<seq<nat>, Error>>)
      requires Monitor(trace) == Output(Total(plan), {}, false) && Total(plan) > 0
      modifies this`trace, this`completed
      ensures Monitor(trace).Output? && Monitor(trace).total == Total(plan)
      ensures Began(trace) == Began(old(trace)) && old(trace) + [Report] <= trace
      ensures r.Some? && r.value.Err? ==> r.value.error.Acquisition?
      ensures Gathered(w, o, plan, old(trace) + [Report], |plan.lower| + 1) == Gathering(trace, EndingOf(r))
      ensures r.Some? && r.value.Ok? ==>
        && EveryTile(Total(plan), Monitor(trace).done, r.value.value)
        && (forall i: nat :: i in r.value.value <==> i in Matching(plan.destinations, plan.previous))
        && Progress(plan, completed)
    {
      hide *;
      ghost var start := trace + [Report];
      var base := |plan.destinations|;
      TotalIs(plan);
      var reused := Reused(plan.destinations, plan.previous, base);
      ReusedAreMatching(plan.destinations, plan.previous, base);
      forall i: nat
        ensures i in reused <==> i in Matching(plan.destinations, plan.previous)
      {
        ReusedMatch(plan.destinations, plan.previous, base, i);
      }
      assert plan.destinations[..base] == plan.destinations;
      var listed := AcquireBase(w, plan);
      EndingTells(listed);
      EndingTells<seq<nat>>(None);
      if listed.None? {
        GatheredEnds(w, o, plan, start, 1, |plan.lower| + 1);
        return None;
      }
      if listed.value.Err? {
        GatheredEnds(w, o, plan, start, 1, |plan.lower| + 1);
        EndingTells<seq<nat>>(Some(Err(listed.value.error)));
        return Some(Err(listed.value.error));
      }
      var lower := AcquireLower(w, plan, reused, start);
      EndingTells(lower);
      if lower.None? { return None; }
      if lower.value.Err? {
        EndingTells<seq<nat>>(Some(Err(lower.value.error)));
        return Some(Err(lower.value.error));
      }
      CoversAll(Monitor(trace).done, reused, base, base + LowerCount(plan.lower));
      EndingTells(Some(Ok(reused)));
      ProgressIs(plan, completed, |reused|);
      r := Some(Ok(reused));
    }

    /** Acquires the lower levels, each numbered on from the one before. */
    method AcquireLower(w: World, plan: Plan, ghost reused: seq<nat>, ghost start: seq<Event>)
      returns (r: Option<Result<(), Error>>)
      requires Monitor(trace).Output? && Monitor(trace).total == |plan.destinations| + LowerCount(plan.lower)
      requires Covers(Monitor(trace).done, reused, |plan.destinations|, |plan.destinations|)
      requires Gathered(w, o, plan, start, 1) == Gathering(trace, Drained)
      modifies this`trace, this`completed
      ensures Monitor(trace).Output? && Monitor(trace).total == |plan.destinations| + LowerCount(plan.lower)
      ensures Began(trace) == Began(old(trace)) && old(trace) <= trace
      ensures r.Some? && r.value.Err? ==> r.value.error.Acquisition?
      ensures Gathered(w, o, plan, start, |plan.lower| + 1) == Gathering(trace, EndingOf(r))
      ensures r.Some? && r.value.Ok? ==>
        && Covers(Monitor(trace).done, reused, |plan.destinations|, |plan.destinations| + LowerCount(plan.lower))
        && completed == old(completed) + LowerCount(plan.lower)
    {
      hide Monitor, Began, Covers, Shifted, ListOf, ListCalls, EndOf, Gathered;
      var lower, base := plan.lower, |plan.destinations|;
      var offset: nat := base;
      for i := 0 to |lower|
        invariant Monitor(trace).Output? && Monitor(trace).total == base + LowerCount(lower)
        invariant Covers(Monitor(trace).done, reused, base, offset)
        invariant Began(trace) == Began(old(trace)) && old(trace) <= trace
        invariant Gathered(w, o, plan, start, i + 1) == Gathering(trace, Drained)
        invariant offset == base + LowerCount(lower[..i]) && completed == old(completed) + LowerCount(lower[..i])
      {
        var count := |lower[i].destinations|;
        LowerStep(lower, i);
        hide LowerCount;
        var tiles := Shifted(lower[i].destinations, offset);
        LowerList(plan, i, offset);
        LaterDone(Monitor(trace).done, reused, base, offset, count);
        GatheredNext(w, o, plan, start, i + 1, trace);
        ghost var done := Monitor(trace).done;
        var listed := AcquireList(w, tiles, offset, offset + count);
        if listed.None? || listed.value.Err? {
          GatheredEnds(w, o, plan, start, i + 2, |lower| + 1);
          return listed;
        }
        LowerCovers(lower[i].destinations, done, Monitor(trace).done, reused, base, offset);
        offset := offset + count;
      }
      assert lower[..|lower|] == lower;
      r := Some(Ok(()));
    }

    /** Chooses a level and begins the output of its plan. */
    method ChoosePlan(w: World, image: Image) returns (r: Result<Plan, Error>)
      requires Monitor(trace).Before? && LevelsValid(image) && WorldValid(w)
      modifies this`trace
      ensures Began(trace) == Began(old(trace)) && old(trace) <= trace
      ensures r.Err? ==> Monitor(trace).Before? || Monitor(trace).Output?
      ensures r.Err? ==> DownloadFails(w, o, image, |old(trace)|, trace, r.error)
      ensures r.Ok? ==> Monitor(trace) == Output(Total(r.value), {}, false) && 0 < Total(r.value) <= o.maxTiles
      ensures r.Ok? ==> PlanMade(w, o, image, |old(trace)|, r.value)
      ensures r.Ok? ==> |old(trace)| + 3 < |trace| && trace[|trace| - 1] == BeginOutput(Total(r.value))
    {
      hide *;
      ghost var n := |trace|;
      PlanningCalls(Monitor(trace));
      var level := w.picks(|trace|);
      var failure := Call(w, ChooseLevel);
      if failure.Some? {
        FailedDownload(w, o, image, n, trace, failure.value);
        return Err(failure.value);
      }
      if level >= |image.levels| {
        NoSuchLevel(w, o, image, n, trace);
        return Err(InvalidState);
      }
      PlanningCalls(Monitor(trace));
      failure := Call(w, Report);
      PlanningCalls(Monitor(trace));
      failure := Call(w, Checkpoint);
      if failure.Some? {
        FailedDownload(w, o, image, n, trace, failure.value);
        return Err(failure.value);
      }
      ThreeCalls(old(trace), trace);
      ghost var checked := trace;
      r := PreparePlan(w, image, level);
      assert trace[n..n + 3] == checked[n..n + 3];
      if r.Err? {
        UnplannedDownload(w, o, image, n, trace, r.error);
      } else {
        PlanMadeSo(w, o, image, n, r.value);
      }
    }

    /** Chooses a level and saves the image. */
    method Download(w: World, image: Image) returns (r: Option<Result<Summary, Error>>)
      requires Monitor(trace).Before? && LevelsValid(image) && WorldValid(w)
      modifies this`trace, this`completed
      ensures !Monitor(trace).Violated? && !Monitor(trace).Settled?
      ensures Began(trace) == Began(old(trace)) && old(trace) <= trace
      ensures r.None? ==> GatheringEnds(w, o, image, |old(trace)|, trace, Stopped)
      ensures r.Some? && r.value.Err? ==> DownloadFails(w, o, image, |old(trace)|, trace, r.value.error)
      ensures r.Some? && r.value.Ok? ==> Monitor(trace) == Finished && |trace| > 0 && trace[|trace| - 1].Finish?
      ensures r.Some? && r.value.Ok? ==>
        PlanMade(w, o, image, |old(trace)|, r.value.value.plan) && Progress(r.value.value.plan, r.value.value.completed)
    {
      hide *;
      ghost var n := |trace|;
      var prepared := ChoosePlan(w, image);
      if prepared.Err? { return Some(Err(prepared.error)); }
      var plan := prepared.value;
      ghost var begun := trace;
      var acquired := AcquirePlan(w, plan);
      EndingTells(acquired);
      GatheredSo(w, o, image, n, begun, trace, plan, EndingOf(acquired));
      if acquired.None? { return None; }
      if acquired.value.Err? {
        BrokenDownload(w, o, image, n, trace, acquired.value.error);
        return Some(Err(acquired.value.error));
      }
      var reused := acquired.value.value;
      FinishingCalls(Monitor(trace), reused);
      var failure := Call(w, Checkpoint);
      if failure.Some? {
        FailedDownload(w, o, image, n, trace, failure.value);
        return Some(Err(failure.value));
      }
      failure := Call(w, Report);
      failure := Call(w, Finish(reused));
      if failure.Some? {
        FailedDownload(w, o, image, n, trace, failure.value);
        return Some(Err(failure.value));
      }
      r := Some(Ok(Summary(plan, completed)));
    }

    method Run(w: World, inputs: seq<Input>) returns (r: Option<Result<Summary, Error>>)
      requires trace == [] && follows == [] && WorldValid(w)
      modifies this
      ensures !Monitor(trace).Violated? && !Monitor(trace).Settled? && Following()
      ensures Invalid(inputs, o).Some? ==> r == Some(Err(Invalid(inputs, o).value)) && trace == []
      ensures r.None? ==> LeftUnfinished(w, o, trace)
      ensures r.Some? && r.value.Err? ==> Caused(w, o, inputs, trace, r.value.error)
      ensures r == Some(Err(DeferredLimit)) ==>
        && ChosenEntry(w, trace).Some? && ChosenEntry(w, trace).value.Deferred?
        && (|follows| == o.maxFollows || ChosenEntry(w, trace).value.uri in followed)
      ensures r.Some? && r.value.Ok? ==> Monitor(trace) == Finished && |trace| > 0 && trace[|trace| - 1].Finish?
      ensures r.Some? && r.value.Ok? ==> SummaryHolds(w, o, trace, r.value.value)
    {
      hide Monitor, Began, Next, Invalid, EveryTile, WorldValid, ChosenEntry, DiscoveryEnds, GatheringEnds;
      hide DownloadFails, PlanMade, Progress, Caused, CatalogFound;
      var started := Start(w, inputs);
      if started.Err? { return Some(Err(started.error)); }
      var catalog := started.value;
      while true
        invariant Monitor(trace).Before? && Following() && Invalid(inputs, o).None? && EntriesValid(catalog)
        invariant |follows| + remaining == o.maxFollows
        invariant w.catalog(Began(trace)) == Some(catalog) && CatalogFound(w, o, trace)
        decreases remaining
      {
        ChoosingCalls(Monitor(trace));
        CauseOfCatalog(w, o, inputs, trace, catalog);
        var failure := Call(w, Checkpoint);
        if failure.Some? { return Some(Err(failure.value)); }
        if catalog == [] { return Some(Err(PlanEmpty)); }
        ChoiceIs(w, trace, catalog);
        CauseOfChoice(w, o, inputs, trace, catalog);
        var index := w.picks(|trace|);
        failure := Call(w, ChooseImage);
        if failure.Some? { return Some(Err(failure.value)); }
        if index >= |catalog| { return Some(Err(InvalidState)); }
        ghost var chosen := trace;
        match catalog[index]
        case Deferred(uri) =>
          var found := Follow(w, uri);
          if found.Err? {
            if !found.error.DeferredLimit? { CauseOfDiscovery(w, o, inputs, trace, found.error); }
            return Some(Err(found.error));
          }
          catalog := found.value;
        case Ready(image) =>
          r := Download(w, image);
          StillChosen(w, chosen, trace);
          ChosenIs(w, trace, image);
          if r.None? { UnfinishedSo(w, o, trace, image); }
          else if r.value.Err? { CauseOfDownload(w, o, inputs, trace, image, r.value.error); }
          else { SummaryOf(w, o, trace, image, r.value.value); }
          return;
      }
    }

    /** The whole job. Whatever the host answers and however reads and tiles interleave, its calls keep
        the protocol and every read has a check of its own; every result comes after exactly one
        settlement, the last call. */
    method Dezoomify(w: World, inputs: seq<Input>) returns (r: Option<Result<Summary, Error>>)
      requires trace == [] && follows == [] && WorldValid(w)
      modifies this
      ensures !Monitor(trace).Violated? && (r.Some? <==> Monitor(trace).Settled?) && Following() && OwnChecks(trace)
      ensures Invalid(inputs, o).Some? ==> r == Some(Err(Invalid(inputs, o).value)) && trace == [Settle]
      ensures r.None? ==> LeftUnfinished(w, o, trace)
      ensures r.Some? ==> |trace| > 0 && trace[|trace| - 1] == Settle
      ensures r.Some? && r.value.Err? ==> Caused(w, o, inputs, trace[..|trace| - 1], r.value.error)
      ensures r.Some? && r.value.Ok? ==>
        var before := trace[..|trace| - 1];
        && before != [] && before[|before| - 1].Finish? && Monitor(before) == Finished
        && SummaryHolds(w, o, before, r.value.value)
    {
      r := Run(w, inputs);
      hide Monitor, Next, Began, Invalid, Caused, SummaryHolds, LeftUnfinished, ChosenEntry, OwnChecks, WorldValid;
      ghost var before := trace;
      if r.Some? {
        Settles(before);
        var ignored := Call(w, Settle);
        assert trace[..|trace| - 1] == before;
      }
      HasOwnChecks(trace);
    }
  }

  lemma StopIs(w: World, r: Reading)
    ensures StopOf(w, r).Some? ==> StopOf(w, r).value.ResourceLimit? || StopOf(w, r).value.HostFailure?
  {
  }

  lemma ThreeCalls(before: seq<Event>, trace: seq<Event>)
    requires trace == before + [ChooseLevel] + [Report] + [Checkpoint]
    ensures |trace| == |before| + 3 && trace[|before|..|before| + 3] == [ChooseLevel, Report, Checkpoint]
  {
  }

  lemma DiscoveryEndedSo(w: World, o: Settings, before: seq<Event>, trace: seq<Event>, start: Talk, e: Error)
    requires start == Talk(before, start.followed, [], None) && before <= trace
    requires var talk := Discussed(w, o, start, w.interactions(|before|));
      && talk.trace == trace
      && if talk.stopped.Some? then talk.stopped == Some(e) else e == DiscoveryFailed && w.catalog(|before|).None?
    ensures Began(trace) == |before| ==> DiscoveryEnds(w, o, trace, e)
  {
    hide Discussed, Began;
    assert trace[..|before|] == before;
    assert Began(trace) == |before| ==> DiscoveryEndsFrom(w, o, trace, Began(trace), start.followed, e);
  }

  lemma CatalogFoundSo(w: World, o: Settings, before: seq<Event>, trace: seq<Event>, start: Talk)
    requires start == Talk(before, start.followed, [], None) && before <= trace
    requires var talk := Discussed(w, o, start, w.interactions(|before|));
      && talk.stopped.None? && w.catalog(|before|).Some?
      && trace == talk.trace + Warned(w.warnings(|talk.trace|))
    ensures Began(trace) == |before| ==> CatalogFound(w, o, trace)
  {
    hide Discussed, Began, Warned;
    assert trace[..|before|] == before;
    assert Began(trace) == |before| ==> CatalogFoundFrom(w, o, trace, Began(trace), start.followed);
  }

  lemma RefusedSo(w: World, o: Settings, image: Image, level: nat, n: nat, plan: Plan, trace: seq<Event>, e: Error)
    requires level < |image.levels| && PlanOfLevel(w, o, image, image.levels[level], n, plan)
    requires PlanRefused(w, o, n, plan, trace, e)
    ensures PlanFails(w, o, image, level, n, trace, e)
  {
    hide PlanOfLevel, PlanRefused;
  }

  lemma PlanFailsSo(w: World, o: Settings, image: Image, level: nat, n: nat, trace: seq<Event>, e: Error)
    requires PlanFails(w, o, image, level, n, trace, e)
    ensures e.HostFailure? || e.PlanEmpty? || e.ResourceLimit?
    ensures e.HostFailure? ==> FailedLast(w, trace, e)
  {
    hide PlanOfLevel, ProbesChecked, ProbeCount;
  }

  lemma FailedDownload(w: World, o: Settings, image: Image, n: nat, trace: seq<Event>, e: Error)
    requires n < |trace| && e.HostFailure? && Failure(w, trace) == Some(e)
    requires trace[|trace| - 1].ChooseLevel? || trace[|trace| - 1].Checkpoint? || trace[|trace| - 1].Finish?
    ensures DownloadFails(w, o, image, n, trace, e)
  {
    hide Failure;
    assert FailedLast(w, trace, e);
  }

  lemma NoSuchLevel(w: World, o: Settings, image: Image, n: nat, trace: seq<Event>)
    requires |trace| == n + 1 && w.picks(n) >= |image.levels|
    ensures DownloadFails(w, o, image, n, trace, InvalidState)
  {
  }

  lemma UnplannedDownload(w: World, o: Settings, image: Image, n: nat, trace: seq<Event>, e: Error)
    requires |trace| >= n + 3 && trace[n..n + 3] == [ChooseLevel, Report, Checkpoint]
    requires PlanFails(w, o, image, w.picks(n), n + 3, trace, e)
    ensures DownloadFails(w, o, image, n, trace, e)
  {
    PlanFailsSo(w, o, image, w.picks(n), n + 3, trace, e);
    hide PlanFails, FailedLast;
  }

  lemma PlanMadeSo(w: World, o: Settings, image: Image, n: nat, plan: Plan)
    requires w.picks(n) < |image.levels| && PlanOfLevel(w, o, image, image.levels[w.picks(n)], n + 3, plan)
    ensures PlanMade(w, o, image, n, plan)
  {
    hide PlanOfLevel;
  }

  lemma BrokenDownload(w: World, o: Settings, image: Image, n: nat, trace: seq<Event>, e: Error)
    requires e.Acquisition? && GatheringEnds(w, o, image, n, trace, Broken(e.cause))
    ensures DownloadFails(w, o, image, n, trace, e)
  {
    hide GatheringEnds;
  }

  /** An acquisition that began right after the output was begun. */
  lemma GatheredSo(w: World, o: Settings, image: Image, n: nat, begun: seq<Event>, trace: seq<Event>, plan: Plan,
                   end: Ending)
    requires n + 3 <= |begun| && PlanMade(w, o, image, n, plan) && begun[|begun| - 1] == BeginOutput(Total(plan))
    requires begun + [Report] <= trace
    requires Gathered(w, o, plan, begun + [Report], |plan.lower| + 1) == Gathering(trace, end)
    ensures GatheringEnds(w, o, image, n, trace, end)
  {
    hide PlanMade, Total, Gathered;
    var k := |begun| + 1;
    assert trace[..k] == begun + [Report];
    assert trace[k - 2] == begun[|begun| - 1];
    assert GatheredFrom(w, o, image, n, trace, plan, k, end);
  }

  lemma EndingTells<T>(r: Option<Result<T, Error>>)
    requires r.Some? && r.value.Err? ==> r.value.error.Acquisition?
    ensures r.None? <==> EndingOf(r) == Stopped
    ensures (r.Some? && r.value.Ok?) <==> EndingOf(r) == Drained
    ensures r.Some? && r.value.Err? ==> EndingOf(r) == Broken(r.value.error.cause)
  {
  }

  lemma OpeningCalls()
    ensures Monitor([]).Before? && Monitor([Checkpoint]).Before? && Monitor([Checkpoint, Report]).Before?
    ensures Began([]) == Began([Checkpoint]) == Began([Checkpoint, Report]) == 2
  {
    assert [] + [Checkpoint] == [Checkpoint] && [Checkpoint] + [Report] == [Checkpoint, Report];
    MonitorMore([], Checkpoint);
    MonitorMore([Checkpoint], Report);
    BeganMore([], Checkpoint);
    BeganMore([Checkpoint], Report);
  }

  lemma OpeningCauses(w: World, o: Settings, inputs: seq<Input>)
    ensures var e := Invalid(inputs, o); e.Some? ==> Caused(w, o, inputs, [], e.value) && !e.value.DeferredLimit?
    ensures var e := Failure(w, [Checkpoint]); e.Some? ==> Caused(w, o, inputs, [Checkpoint], e.value)
  {
    hide DiscoveryEnds, DownloadFails, Began, CatalogFound, ChosenImage;
    assert Invalid(inputs, o).Some? ==> !Invalid(inputs, o).value.DeferredLimit?;
    hide Invalid;
    assert [Checkpoint][|[Checkpoint]| - 1] == Checkpoint;
  }

  lemma CauseOfCatalog(w: World, o: Settings, inputs: seq<Input>, before: seq<Event>, catalog: seq<Entry>)
    requires CatalogFound(w, o, before) && w.catalog(Began(before)) == Some(catalog)
    ensures var trace := before + [Checkpoint];
      && (Failure(w, trace).Some? ==> Caused(w, o, inputs, trace, Failure(w, trace).value))
      && (catalog == [] ==> Caused(w, o, inputs, trace, PlanEmpty))
  {
    hide DiscoveryEnds, DownloadFails, Began, CatalogFound, Invalid;
    assert (before + [Checkpoint])[..|before|] == before;
  }

  lemma CauseOfChoice(w: World, o: Settings, inputs: seq<Input>, before: seq<Event>, catalog: seq<Entry>)
    requires w.catalog(Began(before)) == Some(catalog)
    ensures var trace, k := before + [ChooseImage], w.picks(|before|);
      && (Failure(w, trace).Some? ==> Caused(w, o, inputs, trace, Failure(w, trace).value))
      && (k >= |catalog| ==> Caused(w, o, inputs, trace, InvalidState))
      && (k < |catalog| && catalog[k].Deferred? ==> Caused(w, o, inputs, trace, DeferredLimit))
  {
    ChoiceIs(w, before, catalog);
    hide DiscoveryEnds, DownloadFails, Began, ChosenEntry, CatalogFound, Invalid;
    assert (before + [ChooseImage])[..|before|] == before;
  }

  lemma CauseOfDiscovery(w: World, o: Settings, inputs: seq<Input>, trace: seq<Event>, e: Error)
    requires DiscoveryEnds(w, o, trace, e)
    ensures Caused(w, o, inputs, trace, e)
  {
    hide DiscoveryEnds, DownloadFails, SelectionFails;
  }

  lemma CauseOfDownload(w: World, o: Settings, inputs: seq<Input>, trace: seq<Event>, image: Image, e: Error)
    requires ChosenImage(w, trace) == Some(image) && DownloadFails(w, o, image, Began(trace), trace, e)
    ensures Caused(w, o, inputs, trace, e) && e != DeferredLimit
  {
    hide DiscoveryEnds, SelectionFails, ChosenImage, PlanFails, GatheringEnds;
  }

  lemma ChosenIs(w: World, trace: seq<Event>, image: Image)
    requires ChosenEntry(w, trace) == Some(Ready(image))
    ensures ChosenImage(w, trace) == Some(image)
  {
    hide ChosenEntry;
  }

  lemma UnfinishedSo(w: World, o: Settings, trace: seq<Event>, image: Image)
    requires ChosenImage(w, trace) == Some(image) && GatheringEnds(w, o, image, Began(trace), trace, Stopped)
    ensures LeftUnfinished(w, o, trace)
  {
    hide ChosenImage, GatheringEnds;
  }

  lemma SummaryOf(w: World, o: Settings, trace: seq<Event>, image: Image, s: Summary)
    requires ChosenImage(w, trace) == Some(image) && PlanMade(w, o, image, Began(trace), s.plan)
    requires Progress(s.plan, s.completed)
    ensures SummaryHolds(w, o, trace, s)
  {
    hide ChosenImage, PlanMade, Progress;
  }

  lemma PlanningCalls(s: Stage)
    requires s.Before?
    ensures Next(s, ChooseLevel).Before? && Next(s, Report).Before? && Next(s, Checkpoint).Before?
  {
  }

  lemma ChoosingCalls(s: Stage)
    requires s.Before?
    ensures Next(s, Checkpoint).Before? && Next(Next(s, Checkpoint), ChooseImage).Before?
  {
  }

  lemma FinishingCalls(s: Stage, reused: seq<nat>)
    requires s.Output? && EveryTile(s.total, s.done, reused)
    ensures Next(s, Checkpoint).Output? && Next(Next(s, Checkpoint), Report).Output?
    ensures Next(Next(Next(s, Checkpoint), Report), Finish(reused)) == Finished
  {
  }

  lemma Settles(before: seq<Event>)
    requires !Monitor(before).Violated? && !Monitor(before).Settled?
    ensures Next(Monitor(before), Settle) == Settled
  {
    hide Monitor;
  }

  lemma HasOwnChecks(trace: seq<Event>)
    requires !Monitor(trace).Violated?
    ensures OwnChecks(trace)
  {
    var own, free := ProtocolPairs(trace);
    hide Monitor, Paired, Unused, Counted;
  }

  lemma TotalIs(plan: Plan)
    ensures Total(plan) == |plan.destinations| + LowerCount(plan.lower)
  {
  }

  lemma ProgressIs(plan: Plan, completed: nat, reused: nat)
    requires Total(plan) > 0 && reused == |Matching(plan.destinations, plan.previous)|
    requires completed + reused == |plan.previous| + Total(plan)
    ensures Progress(plan, completed)
  {
  }

  lemma NothingUnderWay(s: Stage, limit: nat)
    requires s.Before?
    ensures Overlapping(s, [], limit)
  {
  }

  // ---- Probing --------------------------------------------------------------------------------------------

  /** The calls for one measured tile: a generic source checks once more. */
  function OneMeasure(generic: bool): seq<Event> {
    if generic then [Checkpoint, Checkpoint, Probe] else [Checkpoint, Probe]
  }

  function Measures(generic: bool, n: nat): seq<Event> {
    if n == 0 then [] else Measures(generic, n - 1) + OneMeasure(generic)
  }

  lemma NothingMeasured(start: seq<Event>, generic: bool, count: nat)
    ensures start == start + Measures(generic, 0) && start <= start + Measures(generic, count)
    ensures ProbesChecked(start, start)
  {
  }

  lemma MeasuredMore(start: seq<Event>, before: seq<Event>, trace: seq<Event>, generic: bool, i: nat, count: nat)
    requires before == start + Measures(generic, i) && before <= trace <= before + OneMeasure(generic) && i < count
    ensures trace <= start + Measures(generic, count)
    ensures trace == before + OneMeasure(generic) ==> trace == start + Measures(generic, i + 1)
  {
    MeasuresWithin(generic, i + 1, count);
    hide Measures, OneMeasure;
    var next := Measures(generic, i + 1);
    assert start + next == before + OneMeasure(generic);
    assert start + next <= start + Measures(generic, count);
  }

  lemma ResolveFailed(w: World, o: Settings, start: seq<Event>, trace: seq<Event>, e: Error, left: nat)
    requires start <= trace && ProbesChecked(start, trace) && left <= o.maxTiles
    requires ProbeCount(trace) - ProbeCount(start) <= o.maxTiles
    requires || (&& e == ResourceLimit && left == 0
                 && ProbeCount(trace) - ProbeCount(start) == o.maxTiles < w.probes(|start|))
             || (e.HostFailure? && FailedLast(w, trace, e) && |start| < |trace|)
    ensures ResolveFails(w, o, |start|, trace, e)
  {
    hide FailedLast, ProbesChecked, ProbeCount;
    assert trace[..|start|] == start;
  }

  lemma NothingResolved(w: World, o: Settings, start: seq<Event>, trace: seq<Event>)
    requires start <= trace && ProbesChecked(start, trace) && w.resolved(|start|).None?
    requires ProbeCount(trace) == ProbeCount(start) + w.probes(|start|)
    ensures ResolveFails(w, o, |start|, trace, PlanEmpty)
  {
    hide ProbesChecked, ProbeCount;
    assert trace[..|start|] == start;
  }

  lemma ResolvedIsValid(w: World, n: nat)
    requires WorldValid(w) && w.resolved(n).Some?
    ensures w.resolved(n).value.grid.Valid()
  {
  }

  lemma {:induction false} MeasuresWithin(generic: bool, i: nat, n: nat)
    ensures i <= n ==> Measures(generic, i) <= Measures(generic, n)
    ensures i > 0 ==> Measures(generic, i) == Measures(generic, i - 1) + OneMeasure(generic)
    decreases n
  {
    hide OneMeasure;
    if i < n { MeasuresWithin(generic, i, n - 1); }
  }

  /** What was added is checks and probes, each probe directly after a check that was added too. */
  ghost predicate ProbesChecked(before: seq<Event>, trace: seq<Event>) {
    && before <= trace
    && forall i :: |before| <= i < |trace| ==> CheckOrProbe(trace, |before|, i)
  }

  predicate CheckOrProbe(trace: seq<Event>, start: nat, i: nat)
    requires i < |trace|
  {
    trace[i].Checkpoint? || (trace[i].Probe? && i > start && trace[i - 1].Checkpoint?)
  }

  function ProbeCount(trace: seq<Event>): nat {
    if trace == [] then 0 else ProbeCount(trace[..|trace| - 1]) + if trace[|trace| - 1].Probe? then 1 else 0
  }

  lemma ProbesMore(before: seq<Event>, trace: seq<Event>, e: Event)
    ensures ProbeCount(trace + [e]) == ProbeCount(trace) + if e.Probe? then 1 else 0
    ensures ProbeCount(trace + [Checkpoint]) == ProbeCount(trace)
  {
    assert (trace + [e])[..|trace|] == trace;
    assert (trace + [Checkpoint])[..|trace|] == trace;
  }

  lemma ProbesOn(start: seq<Event>, between: seq<Event>, trace: seq<Event>)
    requires ProbesChecked(start, between) && ProbesChecked(between, trace)
    ensures ProbesChecked(start, trace)
  {
    forall i | |start| <= i < |trace|
      ensures CheckOrProbe(trace, |start|, i)
    {
      if i < |between| {
        assert CheckOrProbe(between, |start|, i);
      } else {
        assert CheckOrProbe(trace, |between|, i);
      }
    }
  }

  ghost predicate LevelsValid(image: Image) {
    forall i :: 0 <= i < |image.levels| && image.levels[i].Tiled? ==> image.levels[i].grid.Valid()
  }

  ghost predicate EntriesValid(entries: seq<Entry>) {
    forall i :: 0 <= i < |entries| && entries[i].Ready? ==> LevelsValid(entries[i].image)
  }

  ghost predicate WorldValid(w: World) {
    && (forall n: nat :: w.catalog(n).Some? ==> EntriesValid(w.catalog(n).value))
    && (forall n: nat :: w.resolved(n).Some? ==> w.resolved(n).value.grid.Valid())
  }

  // ---- Which tiles are done ----------------------------------------------------------------------------

  /** Done are the tiles of the level itself that were not reused, and those of lower levels up to
      `offset`. */
  ghost predicate Covers(done: set<nat>, reused: seq<nat>, base: nat, offset: nat) {
    && base <= offset
    && (forall i: nat :: i in done <==> (i < base && i !in reused) || base <= i < offset)
    && (forall i :: 0 <= i < |reused| ==> reused[i] < base)
    && (forall i, j :: 0 <= i < j < |reused| ==> reused[i] != reused[j])
  }

  lemma ReportKeeps(s: Stage)
    requires s.Output?
    ensures Next(s, Report) == s
  {
  }

  lemma BaseCovers(destinations: seq<Option<nat>>, previous: seq<nat>, done: set<nat>)
    requires var todo := Fresh(destinations, previous, |destinations|);
      None !in todo && forall i: nat :: i in done <==> Some(i) in todo
    ensures Covers(done, Reused(destinations, previous, |destinations|), |destinations|, |destinations|)
  {
    var n := |destinations|;
    var todo, reused := Fresh(destinations, previous, n), Reused(destinations, previous, n);
    FreshAndReused(destinations, previous, n);
    hide Fresh, Reused;
    forall i: nat
      ensures i in done <==> i < n && i !in reused
    {
      if i < n { FreshOrReused(destinations, previous, n, i); }
    }
  }

  lemma LowerStep(lower: seq<Grid>, i: nat)
    requires i < |lower|
    ensures LowerCount(lower[..i + 1]) == LowerCount(lower[..i]) + |lower[i].destinations| <= LowerCount(lower)
    decreases |lower| - i
  {
    assert lower[..i + 1][..i] == lower[..i];
    if i + 1 < |lower| { LowerStep(lower, i + 1); } else { assert lower[..i + 1] == lower; }
  }

  lemma LowerList(plan: Plan, i: nat, offset: nat)
    requires i < |plan.lower| && offset == |plan.destinations| + LowerCount(plan.lower[..i])
    ensures ListOf(plan, i + 1) == Shifted(plan.lower[i].destinations, offset)
  {
  }

  lemma LaterDone(done: set<nat>, reused: seq<nat>, base: nat, offset: nat, count: nat)
    requires Covers(done, reused, base, offset)
    ensures forall i :: i in done ==> !(offset <= i < offset + count)
  {
    forall i | i in done
      ensures !(offset <= i < offset + count)
    {
      if i >= 0 { assert i in done <==> (i < base && i !in reused) || base <= i < offset; }
    }
  }

  lemma LowerCovers(destinations: seq<Option<nat>>, before: set<nat>, done: set<nat>, reused: seq<nat>, base: nat,
                    offset: nat)
    requires Covers(before, reused, base, offset)
    requires var tiles := Shifted(destinations, offset);
      None !in tiles && forall i: nat :: i in done <==> i in before || Some(i) in tiles
    ensures Covers(done, reused, base, offset + |destinations|)
  {
    var tiles := Shifted(destinations, offset);
    hide Shifted;
    forall i: nat
      ensures Some(i) in tiles <==> offset <= i < offset + |tiles|
    {
      if offset <= i < offset + |tiles| { assert tiles[i - offset] == Some(i); }
    }
  }

  lemma CoversAll(done: set<nat>, reused: seq<nat>, base: nat, total: nat)
    requires Covers(done, reused, base, total)
    ensures EveryTile(total, done, reused)
  {
  }
}
