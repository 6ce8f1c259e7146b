/** Acquiring tiles: the retry loop of one tile, and the pool that runs several at once in every
    interleaving of their awaits. */
module TileAcquisition {
  import opened Arithmetic
  import opened Options

  const U32_MAX: nat := 0xFFFF_FFFF

  datatype Policy = Policy(maxRetries: nat, interactive: bool, maxConcurrent: nat)
  datatype Error = HostError(code: nat) | TileFailed(tile: nat, attempts: nat) | InvalidTile

  /** What an awaited call answers; each call reads what concerns it. */
  datatype Answer = Answer(ok: bool, code: nat, terminal: bool, retryable: bool, shared: bool)

  /** Where a tile's loop awaits: its admission, the tile, the scheduler's note of success or
      failure, the gate, or its pause; or how it ended. */
  datatype Phase =
    | Admitting
    | Acquiring
    | Succeeding
    | Consulting(retryable: bool)
    | Checking(shared: bool)
    | Sleeping
    | Done(error: Option<Error>)
    | Yielded

  datatype Task = Task(attempt: nat, phase: Phase)

  predicate Awaiting(t: Task) {
    !t.phase.Done? && !t.phase.Yielded?
  }

  function Failed(tile: nat, attempt: nat): Phase {
    Done(Some(TileFailed(tile, Min(attempt + 1, U32_MAX))))
  }

  predicate Allowed(p: Policy, attempt: nat, retryable: bool) {
    attempt < U32_MAX && (attempt < p.maxRetries || (p.interactive && retryable))
  }

  /** From one await to the next. */
  function Step(p: Policy, tile: nat, t: Task, a: Answer): Task
    requires Awaiting(t)
  {
    match t.phase
    case Admitting => t.(phase := if a.ok then Acquiring else Done(Some(HostError(a.code))))
    case Acquiring =>
      t.(phase :=
        if a.ok then Succeeding
        else if a.terminal then Done(Some(HostError(a.code)))
        else if Allowed(p, t.attempt, a.retryable) then Consulting(a.retryable)
        else Failed(tile, t.attempt))
    case Succeeding => t.(phase := Done(if a.ok then None else Some(HostError(a.code))))
    case Consulting(retryable) =>
      if !a.ok then t.(phase := Done(Some(HostError(a.code))))
      else if a.shared || retryable then Task(t.attempt + 1, Checking(a.shared))
      else t.(phase := Failed(tile, t.attempt))
    case Checking(shared) =>
      t.(phase := if !a.ok then Done(Some(HostError(a.code))) else if shared then Admitting else Sleeping)
    case Sleeping => t.(phase := if a.ok then Admitting else Done(Some(HostError(a.code))))
  }

  // ---- One tile's loop --------------------------------------------------------------------------

  /** The task after some answers. */
  function Steps(p: Policy, tile: nat, answers: nat -> Answer, n: nat): Task {
    if n == 0 then Task(0, Admitting)
    else
      var t := Steps(p, tile, answers, n - 1);
      if Awaiting(t) then Step(p, tile, t, answers(n - 1)) else t
  }

  /** One step on from a known point. */
  lemma StepsOn(p: Policy, tile: nat, answers: nat -> Answer, n: nat, t: Task)
    requires Steps(p, tile, answers, n) == t && Awaiting(t)
    ensures Steps(p, tile, answers, n + 1) == Step(p, tile, t, answers(n))
  {
  }

  /** The step after an attempt. */
  lemma AfterAttempt(p: Policy, tile: nat, attempt: nat, a: Answer)
    ensures var next, allowed := Step(p, tile, Task(attempt, Acquiring), a), Allowed(p, attempt, a.retryable);
      && (a.ok ==> next == Task(attempt, Succeeding))
      && (!a.ok && a.terminal ==> next.phase == Done(Some(HostError(a.code))))
      && (!a.ok && !a.terminal && !allowed ==> next.phase == Failed(tile, attempt))
      && (!a.ok && !a.terminal && allowed ==> next == Task(attempt, Consulting(a.retryable)))
  {
  }

  /** The steps at the scheduler and the gate. */
  lemma AfterConsulting(p: Policy, tile: nat, attempt: nat, retryable: bool, a: Answer)
    ensures var next := Step(p, tile, Task(attempt, Consulting(retryable)), a);
      && (!a.ok ==> next.phase == Done(Some(HostError(a.code))))
      && (a.ok && !a.shared && !retryable ==> next.phase == Failed(tile, attempt))
      && (a.ok && (a.shared || retryable) ==> next == Task(attempt + 1, Checking(a.shared)))
  {
  }

  lemma AfterGate(p: Policy, tile: nat, attempt: nat, shared: bool, a: Answer)
    ensures var next := Step(p, tile, Task(attempt, Checking(shared)), a);
      && (!a.ok ==> next.phase == Done(Some(HostError(a.code))))
      && (a.ok ==> next == Task(attempt, if shared then Admitting else Sleeping))
    ensures var next := Step(p, tile, Task(attempt, Sleeping), a);
      && (!a.ok ==> next.phase == Done(Some(HostError(a.code))))
      && (a.ok ==> next == Task(attempt, Admitting))
    ensures var next := Step(p, tile, Task(attempt, Admitting), a);
      && (!a.ok ==> next.phase == Done(Some(HostError(a.code))))
      && (a.ok ==> next == Task(attempt, Acquiring))
    ensures Step(p, tile, Task(attempt, Succeeding), a).phase == Done(if a.ok then None else Some(HostError(a.code)))
  {
  }

  /** The calls for the tile so far: the next attempt's number is their count. */
  ghost predicate Numbered(calls: seq<nat>) {
    forall i :: 0 <= i < |calls| ==> calls[i] == i
  }

  /** How many calls a task has made, where its phase tells. */
  ghost predicate Made(t: Task, calls: nat) {
    match t.phase
    case Admitting => calls == t.attempt
    case Acquiring => calls == t.attempt + 1
    case Succeeding => calls == t.attempt + 1
    case Consulting(_) => calls == t.attempt + 1
    case Checking(_) => calls == t.attempt
    case Sleeping => calls == t.attempt
    case Done(None) => calls == t.attempt + 1
    case Done(Some(TileFailed(_, n))) => calls == t.attempt + 1 && n == Min(calls, U32_MAX)
    case Done(Some(_)) => calls == t.attempt || calls == t.attempt + 1
    case Yielded => calls == t.attempt + 1
  }

  ghost predicate Bounded(p: Policy, t: Task) {
    !p.interactive ==> t.attempt <= p.maxRetries && (t.phase.Consulting? ==> t.attempt < p.maxRetries)
  }

  lemma StepKeeps(p: Policy, tile: nat, t: Task, a: Answer, calls: nat)
    requires Awaiting(t) && Made(t, calls) && Bounded(p, t)
    ensures var next := Step(p, tile, t, a);
      Made(next, if next.phase.Acquiring? then calls + 1 else calls) && Bounded(p, next)
  {
  }

  // ---- When there is another attempt ---------------------------------------------------------------

  /** The answer an attempt begins with, if all before it go on: an attempt takes its admission, its call,
      the verdict, the gate, and the pause unless the delay is shared. */
  function AttemptAt(answers: nat -> Answer, i: nat): nat {
    if i == 0 then 0
    else var k := AttemptAt(answers, i - 1); if answers(k + 2).shared then k + 4 else k + 5
  }

  /** Attempt number `i` that begins with answer `k` leads to another: it is admitted and fails, but not for
      good; retries are left, or the user may be asked; the scheduler shares the delay or the failure can be
      retried; and nothing else fails. */
  predicate GoesOnAt(p: Policy, answers: nat -> Answer, i: nat, k: nat) {
    && answers(k).ok && !answers(k + 1).ok && !answers(k + 1).terminal
    && i < 0xFFFF_FFFF && (i < p.maxRetries || (p.interactive && answers(k + 1).retryable))
    && answers(k + 2).ok && (answers(k + 2).shared || answers(k + 1).retryable)
    && answers(k + 3).ok && (answers(k + 2).shared || answers(k + 4).ok)
  }

  predicate GoesOn(p: Policy, answers: nat -> Answer, i: nat) {
    GoesOnAt(p, answers, i, AttemptAt(answers, i))
  }

  /** All attempts before lead on. */
  ghost predicate LedTo(p: Policy, answers: nat -> Answer, i: nat) {
    forall j: nat :: j < i ==> GoesOn(p, answers, j)
  }

  /** The tile is called for the `i`-th time: all attempts before lead on, and it is admitted. */
  ghost predicate IsCalled(p: Policy, answers: nat -> Answer, i: nat) {
    answers(AttemptAt(answers, i)).ok && LedTo(p, answers, i)
  }

  /** As many calls as there are attempts that lead on, and the one after, if it is admitted. */
  ghost predicate CallsExactly(p: Policy, answers: nat -> Answer, calls: nat) {
    forall i: nat :: i < calls <==> IsCalled(p, answers, i)
  }

  /** What the loop ends with, from the answers to its last attempt, which begins with answer `k`. */
  ghost predicate EndsAt(p: Policy, tile: nat, answers: nat -> Answer, i: nat, k: nat, result: Option<Error>, n: nat) {
    && (result.None? <==> answers(k).ok && answers(k + 1).ok && answers(k + 2).ok)
    && (result.Some? && result.value.TileFailed? <==>
          && answers(k).ok && !answers(k + 1).ok && !answers(k + 1).terminal
          && (|| i >= 0xFFFF_FFFF || (i >= p.maxRetries && !(p.interactive && answers(k + 1).retryable))
              || (answers(k + 2).ok && !answers(k + 2).shared && !answers(k + 1).retryable)))
    && (result.Some? && !result.value.TileFailed? ==>
          n > 0 && !answers(n - 1).ok && result.value == HostError(answers(n - 1).code))
    && (result.Some? && result.value.TileFailed? ==>
          result.value == TileFailed(tile, if i < 0xFFFF_FFFF then i + 1 else 0xFFFF_FFFF))
  }

  /** Where the tile's task is once so many attempts have led on. */
  lemma {:induction false} StepsGoOn(p: Policy, tile: nat, answers: nat -> Answer, i: nat)
    requires LedTo(p, answers, i)
    ensures Steps(p, tile, answers, AttemptAt(answers, i)) == Task(i, Admitting)
  {
    if i > 0 {
      var k := AttemptAt(answers, i - 1);
      StepsGoOn(p, tile, answers, i - 1);
      assert GoesOn(p, answers, i - 1);
      OneMoreAttempt(p, tile, answers, i - 1, k);
    }
  }

  lemma OneMoreAttempt(p: Policy, tile: nat, answers: nat -> Answer, i: nat, k: nat)
    requires Steps(p, tile, answers, k) == Task(i, Admitting) && GoesOnAt(p, answers, i, k)
    ensures Steps(p, tile, answers, if answers(k + 2).shared then k + 4 else k + 5) == Task(i + 1, Admitting)
  {
    hide Steps, Step;
    var shared, retryable := answers(k + 2).shared, answers(k + 1).retryable;
    StepsOn(p, tile, answers, k, Task(i, Admitting));
    AfterGate(p, tile, i, shared, answers(k));
    StepsOn(p, tile, answers, k + 1, Task(i, Acquiring));
    AfterAttempt(p, tile, i, answers(k + 1));
    StepsOn(p, tile, answers, k + 2, Task(i, Consulting(retryable)));
    AfterConsulting(p, tile, i, retryable, answers(k + 2));
    StepsOn(p, tile, answers, k + 3, Task(i + 1, Checking(shared)));
    AfterGate(p, tile, i + 1, shared, answers(k + 3));
    if !shared {
      StepsOn(p, tile, answers, k + 4, Task(i + 1, Sleeping));
      AfterGate(p, tile, i + 1, shared, answers(k + 4));
    }
  }

  /** One turn of the loop, from admission to the next or to the end: at most one call, and another
      turn only while retries are allowed. */
  method Attempt(p: Policy, tile: nat, answers: nat -> Answer, attempt: nat, k: nat)
    returns (ended: Option<Option<Error>>, called: bool, n: nat)
    requires Steps(p, tile, answers, k) == Task(attempt, Admitting)
    ensures ended.Some? ==> Steps(p, tile, answers, n).phase == Done(ended.value)
    ensures ended.None? ==> Steps(p, tile, answers, n) == Task(attempt + 1, Admitting)
    ensures ended.None? <==> GoesOnAt(p, answers, attempt, k)
    ensures called == answers(k).ok
    ensures ended.None? ==> n == if answers(k + 2).shared then k + 4 else k + 5
    ensures ended.Some? ==> EndsAt(p, tile, answers, attempt, k, ended.value, n)
  {
    hide Steps, Step;
    n, called := k, false;
    var admitted := answers(n);
    StepsOn(p, tile, answers, n, Task(attempt, Admitting));
    AfterGate(p, tile, attempt, false, admitted);
    n := n + 1;
    if !admitted.ok { return Some(Some(HostError(admitted.code))), called, n; }
    called := true;
    var answer := answers(n);
    StepsOn(p, tile, answers, n, Task(attempt, Acquiring));
    AfterAttempt(p, tile, attempt, answer);
    n := n + 1;
    if answer.ok {
      var noted := answers(n);
      StepsOn(p, tile, answers, n, Task(attempt, Succeeding));
      AfterGate(p, tile, attempt, false, noted);
      return Some(if noted.ok then None else Some(HostError(noted.code))), called, n + 1;
    }
    if answer.terminal { return Some(Some(HostError(answer.code))), called, n; }
    var allowed := attempt < U32_MAX && (attempt < p.maxRetries || (p.interactive && answer.retryable));
    if !allowed { return Some(Some(TileFailed(tile, Min(attempt + 1, U32_MAX)))), called, n; }
    ended, n := NextAttempt(p, tile, answers, attempt, answer.retryable, n);
  }

  /** After a failed call: the scheduler is asked, the gate passed, and the pause slept. */
  method NextAttempt(p: Policy, tile: nat, answers: nat -> Answer, attempt: nat, retryable: bool, k: nat)
    returns (ended: Option<Option<Error>>, n: nat)
    requires Steps(p, tile, answers, k) == Task(attempt, Consulting(retryable))
    ensures ended.Some? ==> Steps(p, tile, answers, n).phase == Done(ended.value)
    ensures ended.None? ==> Steps(p, tile, answers, n) == Task(attempt + 1, Admitting)
    ensures ended.None? <==>
      && answers(k).ok && (answers(k).shared || retryable) && answers(k + 1).ok
      && (answers(k).shared || answers(k + 2).ok)
    ensures ended.None? ==> n == if answers(k).shared then k + 2 else k + 3
    ensures ended.Some? ==>
      ended.value == Some(if answers(k).ok && !answers(k).shared && !retryable
                          then TileFailed(tile, Min(attempt + 1, U32_MAX)) else HostError(answers(n - 1).code))
    ensures ended.Some? && !ended.value.value.TileFailed? ==> n > 0 && !answers(n - 1).ok
  {
    hide Steps, Step;
    n := k;
    var verdict := answers(n);
    StepsOn(p, tile, answers, n, Task(attempt, Consulting(retryable)));
    AfterConsulting(p, tile, attempt, retryable, verdict);
    n := n + 1;
    if !verdict.ok { return Some(Some(HostError(verdict.code))), n; }
    if !verdict.shared && !retryable { return Some(Some(TileFailed(tile, Min(attempt + 1, U32_MAX)))), n; }
    var gate := answers(n);
    StepsOn(p, tile, answers, n, Task(attempt + 1, Checking(verdict.shared)));
    AfterGate(p, tile, attempt + 1, verdict.shared, gate);
    n := n + 1;
    if !gate.ok { return Some(Some(HostError(gate.code))), n; }
    if !verdict.shared {
      var slept := answers(n);
      StepsOn(p, tile, answers, n, Task(attempt + 1, Sleeping));
      AfterGate(p, tile, attempt + 1, verdict.shared, slept);
      n := n + 1;
      if !slept.ok { return Some(Some(HostError(slept.code))), n; }
    }
    ended := None;
  }

  /** The loop itself. Attempts are numbered from nought; there are exactly as many as the answers lead to;
      and how it ends is told by the answers to the last. */
  method Acquire(p: Policy, tile: nat, answers: nat -> Answer) returns (result: Option<Error>, calls: seq<nat>, n: nat)
    ensures Steps(p, tile, answers, n).phase == Done(result)
    ensures Numbered(calls) && Outcome(p, tile, answers, result, |calls|)
    ensures !p.interactive ==> |calls| <= p.maxRetries + 1
    ensures result.Some? && result.value.TileFailed? ==>
      result.value == TileFailed(tile, Min(|calls|, U32_MAX)) && |calls| > 0
    ensures result.None? ==> |calls| > 0
  {
    hide *;
    var attempt := 0;
    calls, n := [], 0;
    Begins(p, tile, answers);
    while true
      invariant Steps(p, tile, answers, n) == Task(attempt, Admitting) && n == AttemptAt(answers, attempt)
      invariant Numbered(calls) && |calls| == attempt && attempt <= U32_MAX
      invariant LedTo(p, answers, attempt)
      invariant !p.interactive ==> attempt <= p.maxRetries
      decreases U32_MAX - attempt
    {
      ghost var k := n;
      var ended, called;
      ended, called, n := Attempt(p, tile, answers, attempt, n);
      if called {
        CalledNext(calls);
        calls := calls + [attempt];
      }
      if ended.Some? {
        GoesOnWithin(p, answers, attempt);
        EndTells(p, tile, answers, attempt, k, ended.value, n);
        EndsSo(p, tile, answers, attempt, ended.value, n);
        return ended.value, calls, n;
      }
      GoesOnWithin(p, answers, attempt);
      NextAttemptAt(answers, attempt);
      attempt := attempt + 1;
    }
  }

  lemma Begins(p: Policy, tile: nat, answers: nat -> Answer)
    ensures Steps(p, tile, answers, 0) == Task(0, Admitting) && AttemptAt(answers, 0) == 0
    ensures LedTo(p, answers, 0) && Numbered([])
  {
  }

  lemma CalledNext(calls: seq<nat>)
    requires Numbered(calls)
    ensures Numbered(calls + [|calls|])
  {
  }

  lemma GoesOnWithin(p: Policy, answers: nat -> Answer, i: nat)
    ensures GoesOn(p, answers, i) <==> GoesOnAt(p, answers, i, AttemptAt(answers, i))
    ensures GoesOn(p, answers, i) ==>
      answers(AttemptAt(answers, i)).ok && i < U32_MAX && (!p.interactive ==> i < p.maxRetries)
    ensures GoesOn(p, answers, i) && LedTo(p, answers, i) ==> LedTo(p, answers, i + 1)
  {
  }

  lemma NextAttemptAt(answers: nat -> Answer, i: nat)
    ensures var k := AttemptAt(answers, i); AttemptAt(answers, i + 1) == if answers(k + 2).shared then k + 4 else k + 5
  {
  }

  lemma EndsSo(p: Policy, tile: nat, answers: nat -> Answer, last: nat, result: Option<Error>, n: nat)
    requires LedTo(p, answers, last) && !GoesOn(p, answers, last)
    requires EndsAt(p, tile, answers, last, AttemptAt(answers, last), result, n)
    ensures Outcome(p, tile, answers, result, if answers(AttemptAt(answers, last)).ok then last + 1 else last)
  {
    CountsCalls(p, answers, last);
    hide GoesOn, EndsAt, AttemptAt, CallsExactly;
    assert EndsExactly(p, tile, answers, last, result, n);
  }

  /** The last attempt is the first that does not lead on. */
  ghost predicate EndsExactly(p: Policy, tile: nat, answers: nat -> Answer, last: nat, result: Option<Error>, n: nat) {
    && LedTo(p, answers, last) && !GoesOn(p, answers, last)
    && EndsAt(p, tile, answers, last, AttemptAt(answers, last), result, n)
  }

  lemma CountsCalls(p: Policy, answers: nat -> Answer, last: nat)
    requires LedTo(p, answers, last) && !GoesOn(p, answers, last)
    ensures CallsExactly(p, answers, if answers(AttemptAt(answers, last)).ok then last + 1 else last)
  {
    forall i: nat
      ensures IsCalled(p, answers, i) <==> i < if answers(AttemptAt(answers, last)).ok then last + 1 else last
    {
      if i < last { assert GoesOn(p, answers, i); }
    }
  }

  lemma EndTells(p: Policy, tile: nat, answers: nat -> Answer, i: nat, k: nat, result: Option<Error>, n: nat)
    requires EndsAt(p, tile, answers, i, k, result, n) && i <= U32_MAX
    ensures result.None? ==> answers(k).ok
    ensures result.Some? && result.value.TileFailed? ==>
      answers(k).ok && result.value == TileFailed(tile, Min(i + 1, U32_MAX))
  {
  }

  /** Attempt number `i` succeeds, or fails so that it can be retried, and nothing else goes wrong. */
  predicate Smooth(answers: nat -> Answer, i: nat) {
    var k := AttemptAt(answers, i);
    && answers(k).ok && answers(k + 2).ok
    && (!answers(k + 1).ok ==>
          && !answers(k + 1).terminal && answers(k + 1).retryable
          && answers(k + 3).ok && (answers(k + 2).shared || answers(k + 4).ok))
  }

  predicate Succeeds(answers: nat -> Answer, i: nat) {
    answers(AttemptAt(answers, i) + 1).ok
  }

  /** How a loop ends, and after how many calls. */
  ghost predicate Outcome(p: Policy, tile: nat, answers: nat -> Answer, result: Option<Error>, calls: nat) {
    && CallsExactly(p, answers, calls)
    && exists last: nat, n: nat :: EndsExactly(p, tile, answers, last, result, n)
  }

  /** The last attempt there may be. */
  function Limit(p: Policy): nat {
    if p.interactive || p.maxRetries > 0xFFFF_FFFF then 0xFFFF_FFFF else p.maxRetries
  }

  lemma SmoothGoesOn(p: Policy, answers: nat -> Answer, i: nat)
    requires Smooth(answers, i)
    ensures GoesOn(p, answers, i) <==> i < Limit(p) && !Succeeds(answers, i)
  {
    hide AttemptAt;
  }

  /** If only calls fail and all their failures can be retried, the tile is called until the first success,
      or once more than there are retries; with interactive retries, in effect until it succeeds. It is
      acquired exactly if one of these calls succeeds. */
  lemma UntilSuccess(p: Policy, tile: nat, answers: nat -> Answer, result: Option<Error>, calls: nat)
    requires Outcome(p, tile, answers, result, calls) && forall i: nat :: i <= Limit(p) ==> Smooth(answers, i)
    ensures 0 < calls <= Limit(p) + 1 && forall i: nat :: i < calls - 1 ==> !Succeeds(answers, i)
    ensures result.None? <==> exists i: nat :: i <= Limit(p) && Succeeds(answers, i)
    ensures if Succeeds(answers, calls - 1) then result.None?
            else calls == Limit(p) + 1 && result == Some(TileFailed(tile, Min(calls, U32_MAX)))
  {
    hide AttemptAt, GoesOn, EndsAt, Succeeds, Limit, CallsExactly, Min, Smooth;
    var last: nat, n: nat :| EndsExactly(p, tile, answers, last, result, n);
    SmoothGoesOn(p, answers, Limit(p));
    assert last > Limit(p) ==> GoesOn(p, answers, Limit(p));
    CountsCalls(p, answers, last);
    SmoothEnds(p, tile, answers, last, result, n);
    SameCount(p, answers, calls, last + 1);
    forall i: nat | i < last
      ensures !Succeeds(answers, i)
    {
      assert GoesOn(p, answers, i);
      SmoothGoesOn(p, answers, i);
    }
  }

  lemma SmoothEnds(p: Policy, tile: nat, answers: nat -> Answer, i: nat, result: Option<Error>, n: nat)
    requires Smooth(answers, i) && !GoesOn(p, answers, i) && i <= Limit(p)
    requires EndsAt(p, tile, answers, i, AttemptAt(answers, i), result, n)
    ensures result.None? <==> Succeeds(answers, i)
    ensures !Succeeds(answers, i) ==> i == Limit(p) && result == Some(TileFailed(tile, Min(i + 1, U32_MAX)))
    ensures answers(AttemptAt(answers, i)).ok
  {
    hide AttemptAt;
  }

  lemma SameCount(p: Policy, answers: nat -> Answer, a: nat, b: nat)
    requires CallsExactly(p, answers, a) && CallsExactly(p, answers, b)
    ensures a == b
  {
    hide IsCalled;
    assert IsCalled(p, answers, a) <==> a < b;
    assert IsCalled(p, answers, b) <==> b < a;
  }

  // ---- The pool -------------------------------------------------------------------------------

  /** A host call for a tile, numbered by its place in the list, or its success. */
  datatype Event = Called(place: nat, attempt: nat, requiresApproval: bool) | Acquired(place: nat)

  datatype Pool = Pool(tasks: seq<Task>, yielded: set<nat>, events: seq<Event>, outcome: Option<Error>)

  datatype Action = Spawn | Advance(place: nat, answer: Answer) | Yield(place: nat)

  const EMPTY := Pool([], {}, [], None)

  /** A tile the plan failed to make has no index. */
  type Tiles = seq<Option<nat>>

  predicate Enabled(p: Policy, tiles: Tiles, w: Pool, a: Action) {
    && w.outcome.None?
    && match a
       case Spawn => |w.tasks| < |tiles| && |w.tasks| - |w.yielded| < p.maxConcurrent
       case Advance(k, _) => k < |w.tasks| <= |tiles| && tiles[k].Some? && Awaiting(w.tasks[k])
       case Yield(k) => k < |w.tasks| && w.tasks[k].phase.Done?
  }

  /** The event one step causes, if any. */
  function EventOf(p: Policy, k: nat, before: Task, after: Task, a: Answer): Option<Event> {
    if after.phase.Acquiring? then Some(Called(k, after.attempt, after.attempt > p.maxRetries))
    else if before.phase.Acquiring? && a.ok then Some(Acquired(k))
    else None
  }

  function Apply(p: Policy, tiles: Tiles, w: Pool, a: Action): Pool
    requires Enabled(p, tiles, w, a)
  {
    match a
    case Spawn =>
      var tile := tiles[|w.tasks|];
      w.(tasks := w.tasks + [Task(0, if tile.Some? then Admitting else Done(Some(InvalidTile)))])
    case Advance(k, answer) =>
      var after := Step(p, tiles[k].value, w.tasks[k], answer);
      var e := EventOf(p, k, w.tasks[k], after, answer);
      w.(tasks := w.tasks[k := after], events := if e.Some? then w.events + [e.value] else w.events)
    case Yield(k) =>
      if w.tasks[k].phase.error.Some? then w.(outcome := w.tasks[k].phase.error)
      else w.(tasks := w.tasks[k := w.tasks[k].(phase := Yielded)], yielded := w.yielded + {k})
  }

  /** The pool after a schedule; what cannot happen is passed over. */
  function After(p: Policy, tiles: Tiles, actions: seq<Action>): Pool {
    if actions == [] then EMPTY
    else
      var w, a := After(p, tiles, actions[..|actions| - 1]), actions[|actions| - 1];
      if Enabled(p, tiles, w, a) then Apply(p, tiles, w, a) else w
  }

  /** The stream has ended: every tile was taken up and yielded. */
  predicate Drained(tiles: Tiles, w: Pool) {
    w.outcome.None? && |w.tasks| == |tiles| && forall k :: 0 <= k < |w.tasks| ==> w.tasks[k].phase == Yielded
  }

  /** The attempts made for a tile, in order. */
  function CallsOf(events: seq<Event>, k: nat): seq<nat> {
    if events == [] then []
    else
      var last := events[|events| - 1];
      CallsOf(events[..|events| - 1], k) + if last.Called? && last.place == k then [last.attempt] else []
  }

  /** The tiles whose acquisition the host confirmed. */
  function Confirmed(events: seq<Event>): set<nat> {
    if events == [] then {}
    else
      var last := events[|events| - 1];
      Confirmed(events[..|events| - 1]) + if last.Acquired? then {last.place} else {}
  }

  /** Calls are made only for tiles of the list that were not confirmed before. */
  ghost predicate Proper(tiles: Tiles, events: seq<Event>) {
    events == [] ||
    (var before, last := events[..|events| - 1], events[|events| - 1];
     && Proper(tiles, before) && last.place < |tiles| && tiles[last.place].Some?
     && last.place !in Confirmed(before))
  }

  /** A tile is confirmed from its success on, and not before. */
  ghost predicate Confirms(t: Task, confirmed: bool) {
    match t.phase
    case Succeeding => confirmed
    case Yielded => confirmed
    case Done(None) => confirmed
    case Done(Some(HostError(_))) => true
    case _ => !confirmed
  }

  ghost predicate TaskInv(p: Policy, w: Pool, k: nat)
    requires k < |w.tasks|
  {
    var calls, t := CallsOf(w.events, k), w.tasks[k];
    && Numbered(calls) && Made(t, |calls|) && Bounded(p, t)
    && Confirms(t, k in Confirmed(w.events)) && (k in w.yielded <==> t.phase.Yielded?)
  }

  /** Whatever concerns a tile is unchanged. */
  lemma SameTask(p: Policy, w: Pool, next: Pool, k: nat)
    requires k < |w.tasks| && k < |next.tasks| && TaskInv(p, w, k) && next.tasks[k] == w.tasks[k]
    requires CallsOf(next.events, k) == CallsOf(w.events, k)
    requires (k in Confirmed(next.events) <==> k in Confirmed(w.events)) && (k in next.yielded <==> k in w.yielded)
    ensures TaskInv(p, next, k)
  {
  }

  ghost predicate Untouched(w: Pool, k: nat) {
    CallsOf(w.events, k) == [] && k !in Confirmed(w.events) && k !in w.yielded
  }

  ghost predicate Inv(p: Policy, tiles: Tiles, w: Pool) {
    && |w.tasks| <= |tiles| && Proper(tiles, w.events)
    && (forall k :: 0 <= k < |w.tasks| ==> TaskInv(p, w, k))
    && (forall k: nat :: k >= |w.tasks| ==> Untouched(w, k))
    && |w.tasks| - |w.yielded| <= p.maxConcurrent
  }

  lemma OneMore(events: seq<Event>, e: Event, k: nat)
    ensures CallsOf(events + [e], k) == CallsOf(events, k) + if e.Called? && e.place == k then [e.attempt] else []
    ensures k in Confirmed(events + [e]) <==> k in Confirmed(events) || (e.Acquired? && e.place == k)
  {
    assert (events + [e])[..|events|] == events;
  }

  lemma ProperMore(tiles: Tiles, events: seq<Event>, e: Event)
    requires Proper(tiles, events) && e.place < |tiles| && tiles[e.place].Some? && e.place !in Confirmed(events)
    ensures Proper(tiles, events + [e])
  {
    assert (events + [e])[..|events|] == events;
  }

  lemma SpawnKeeps(p: Policy, tiles: Tiles, w: Pool)
    requires Inv(p, tiles, w) && Enabled(p, tiles, w, Spawn)
    ensures Inv(p, tiles, Apply(p, tiles, w, Spawn))
  {
    var next, n := Apply(p, tiles, w, Spawn), |w.tasks|;
    assert Untouched(w, n);
    assert TaskInv(p, next, n);
    hide CallsOf, Confirmed, Proper, TaskInv;
    forall k | 0 <= k < n
      ensures TaskInv(p, next, k)
    {
      SameTask(p, w, next, k);
    }
    forall k: nat | k >= n
      ensures Untouched(next, k)
    {
      assert Untouched(w, k);
    }
  }

  lemma YieldTask(p: Policy, tiles: Tiles, w: Pool, k: nat)
    requires k < |w.tasks| && TaskInv(p, w, k) && Enabled(p, tiles, w, Yield(k))
    ensures TaskInv(p, Apply(p, tiles, w, Yield(k)), k) && k !in w.yielded
  {
    hide CallsOf, Confirmed;
  }

  lemma YieldKeeps(p: Policy, tiles: Tiles, w: Pool, k: nat)
    requires Inv(p, tiles, w) && Enabled(p, tiles, w, Yield(k))
    ensures Inv(p, tiles, Apply(p, tiles, w, Yield(k)))
  {
    var next := Apply(p, tiles, w, Yield(k));
    YieldTask(p, tiles, w, k);
    hide CallsOf, Confirmed, Proper, TaskInv;
    forall l | 0 <= l < |w.tasks|
      ensures TaskInv(p, next, l)
    {
      if l != k { SameTask(p, w, next, l); }
    }
    forall l: nat | l >= |w.tasks|
      ensures Untouched(next, l)
    {
      assert Untouched(w, l);
    }
  }

  /** One step of a tile: its own invariant, and what the others see of it. */
  lemma StepEvents(p: Policy, tiles: Tiles, w: Pool, k: nat, a: Answer)
    requires k < |w.tasks| <= |tiles| && tiles[k].Some? && Awaiting(w.tasks[k])
    requires TaskInv(p, w, k) && Proper(tiles, w.events)
    requires w.outcome.None?
    ensures var next := Apply(p, tiles, w, Advance(k, a));
      && TaskInv(p, next, k) && Proper(tiles, next.events)
      && forall l: nat :: l != k ==>
           && CallsOf(next.events, l) == CallsOf(w.events, l)
           && (l in Confirmed(next.events) <==> l in Confirmed(w.events))
  {
    var before, after := w.tasks[k], Step(p, tiles[k].value, w.tasks[k], a);
    var next, e := Apply(p, tiles, w, Advance(k, a)), EventOf(p, k, before, after, a);
    StepTask(p, tiles[k].value, k, before, a, CallsOf(w.events, k), k in Confirmed(w.events));
    EventFacts(p, k, before, after, a, k in Confirmed(w.events));
    hide CallsOf, Confirmed, Proper, Step, EventOf, Made, Confirms, Bounded, Numbered, Awaiting;
    if e.Some? {
      forall l: nat
        ensures CallsOf(next.events, l) ==
          CallsOf(w.events, l) + if e.value.Called? && e.value.place == l then [e.value.attempt] else []
        ensures l in Confirmed(next.events) <==> l in Confirmed(w.events) || (e.value.Acquired? && e.value.place == l)
      {
        OneMore(w.events, e.value, l);
      }
      ProperMore(tiles, w.events, e.value);
    }
  }

  lemma EventFacts(p: Policy, k: nat, before: Task, after: Task, a: Answer, confirmed: bool)
    requires Confirms(before, confirmed) && Awaiting(before)
    ensures var e := EventOf(p, k, before, after, a);
      e.Some? ==> e.value.place == k && (before.phase.Acquiring? || after.phase.Acquiring?)
  {
  }

  /** One step of a tile by itself. */
  lemma StepTask(p: Policy, tile: nat, k: nat, t: Task, a: Answer, calls: seq<nat>, confirmed: bool)
    requires Awaiting(t) && Numbered(calls) && Made(t, |calls|) && Bounded(p, t) && Confirms(t, confirmed)
    ensures var next := Step(p, tile, t, a);
      var e := EventOf(p, k, t, next, a);
      var more := if e.Some? && e.value.Called? then calls + [e.value.attempt] else calls;
      && Numbered(more) && Made(next, |more|) && Bounded(p, next) && !next.phase.Yielded?
      && Confirms(next, confirmed || (e.Some? && e.value.Acquired?))
      && (e.Some? ==> !confirmed && e.value.place == k)
  {
    StepKeeps(p, tile, t, a, |calls|);
  }

  lemma AdvanceKeeps(p: Policy, tiles: Tiles, w: Pool, k: nat, a: Answer)
    requires Inv(p, tiles, w) && Enabled(p, tiles, w, Advance(k, a))
    ensures Inv(p, tiles, Apply(p, tiles, w, Advance(k, a)))
  {
    var next := Apply(p, tiles, w, Advance(k, a));
    assert TaskInv(p, w, k);
    StepEvents(p, tiles, w, k, a);
    assert forall l :: 0 <= l < |w.tasks| && l != k ==> next.tasks[l] == w.tasks[l];
    hide CallsOf, Confirmed, Proper, TaskInv, Step;
    forall l | 0 <= l < |w.tasks|
      ensures TaskInv(p, next, l)
    {
      if l != k { SameTask(p, w, next, l); }
    }
    forall l: nat | l >= |w.tasks|
      ensures Untouched(next, l)
    {
      assert Untouched(w, l);
    }
  }

  lemma {:induction false} RunInv(p: Policy, tiles: Tiles, actions: seq<Action>)
    ensures Inv(p, tiles, After(p, tiles, actions))
  {
    if actions != [] {
      var before, last := actions[..|actions| - 1], actions[|actions| - 1];
      RunInv(p, tiles, before);
      hide Inv, Apply, Enabled;
      var w := After(p, tiles, before);
      if Enabled(p, tiles, w, last) {
        match last
        case Spawn => SpawnKeeps(p, tiles, w);
        case Advance(k, a) => AdvanceKeeps(p, tiles, w, k, a);
        case Yield(k) => YieldKeeps(p, tiles, w, k);
      }
    }
  }

  /** Over every interleaving: no more tiles are under way than allowed, the attempts of each tile
      are numbered from nought without a gap, and without interactive retries there is at most one
      more than the retries. */
  lemma AttemptsAreNumbered(p: Policy, tiles: Tiles, actions: seq<Action>, k: nat)
    ensures var w := After(p, tiles, actions);
      && |w.tasks| - |w.yielded| <= p.maxConcurrent && Numbered(CallsOf(w.events, k))
      && (!p.interactive ==> |CallsOf(w.events, k)| <= p.maxRetries + 1)
  {
    RunInv(p, tiles, actions);
    var w := After(p, tiles, actions);
    hide After;
    if k < |w.tasks| { assert TaskInv(p, w, k); } else { assert Untouched(w, k); }
  }

  /** A tile reported as failed reports the attempts made for it. */
  lemma FailureCountsAttempts(p: Policy, tiles: Tiles, actions: seq<Action>, k: nat)
    requires var w := After(p, tiles, actions);
      && k < |w.tasks| && w.tasks[k].phase.Done?
      && w.tasks[k].phase.error.Some? && w.tasks[k].phase.error.value.TileFailed?
    ensures var w := After(p, tiles, actions);
      w.tasks[k].phase.error.value.attempts == Min(|CallsOf(w.events, k)|, U32_MAX)
  {
    RunInv(p, tiles, actions);
    hide After, CallsOf;
    assert TaskInv(p, After(p, tiles, actions), k);
  }

  /** The numbers below `n`. */
  function UpTo(n: nat): (r: set<nat>)
    ensures |r| == n && forall k: nat :: k in r <==> k < n
  {
    if n == 0 then {} else UpTo(n - 1) + {n - 1}
  }

  /** A drained pool has every tile of the list confirmed, each once, and has counted them all. */
  lemma DrainedIsComplete(p: Policy, tiles: Tiles, actions: seq<Action>)
    requires Drained(tiles, After(p, tiles, actions))
    ensures var w := After(p, tiles, actions);
      && Proper(tiles, w.events) && Confirmed(w.events) == UpTo(|tiles|)
      && |w.yielded| == |tiles|
  {
    RunInv(p, tiles, actions);
    var w := After(p, tiles, actions);
    hide After, CallsOf, Proper;
    forall k: nat
      ensures (k in Confirmed(w.events) <==> k < |tiles|) && (k in w.yielded <==> k < |tiles|)
    {
      if k < |tiles| { assert TaskInv(p, w, k); } else { assert Untouched(w, k); }
    }
    assert w.yielded == UpTo(|tiles|);
  }

  // ---- Each tile of the pool runs the loop -------------------------------------------------------------

  /** The answers a tile's task was given. */
  function Given(p: Policy, tiles: Tiles, actions: seq<Action>, k: nat): seq<Answer> {
    if actions == [] then []
    else
      var before, a := actions[..|actions| - 1], actions[|actions| - 1];
      Given(p, tiles, before, k)
      + if a.Advance? && a.place == k && Enabled(p, tiles, After(p, tiles, before), a) then [a.answer] else []
  }

  function Stream(given: seq<Answer>): nat -> Answer {
    (n: nat) => if n < |given| then given[n] else Answer(false, 0, true, false, false)
  }

  lemma {:induction false} LaterAnswers(p: Policy, tile: nat, given: seq<Answer>, a: Answer, n: nat)
    requires n <= |given|
    ensures Steps(p, tile, Stream(given + [a]), n) == Steps(p, tile, Stream(given), n)
  {
    if n > 0 {
      LaterAnswers(p, tile, given, a, n - 1);
      hide Step;
      assert Stream(given + [a])(n - 1) == Stream(given)(n - 1);
    }
  }

  lemma {:induction false} NothingGiven(p: Policy, tiles: Tiles, actions: seq<Action>, k: nat)
    requires k >= |After(p, tiles, actions).tasks|
    ensures Given(p, tiles, actions, k) == []
  {
    if actions != [] {
      var before, a := actions[..|actions| - 1], actions[|actions| - 1];
      var w := After(p, tiles, before);
      if Enabled(p, tiles, w, a) { assert |Apply(p, tiles, w, a).tasks| >= |w.tasks|; }
      hide Step;
      NothingGiven(p, tiles, before, k);
    }
  }

  /** In every interleaving each tile's task is where the loop is after the answers it was given. */
  lemma {:induction false} RunsTheLoop(p: Policy, tiles: Tiles, actions: seq<Action>, k: nat)
    requires k < |After(p, tiles, actions).tasks| && k < |tiles| && tiles[k].Some?
    ensures var given := Given(p, tiles, actions, k);
      InLoop(After(p, tiles, actions).tasks[k], Steps(p, tiles[k].value, Stream(given), |given|))
  {
    var before, a := actions[..|actions| - 1], actions[|actions| - 1];
    var w, given, tile := After(p, tiles, before), Given(p, tiles, before, k), tiles[k].value;
    assert before + [a] == actions;
    AfterNext(p, tiles, before, a);
    GivenNext(p, tiles, before, a, k);
    if k >= |w.tasks| {
      NothingGiven(p, tiles, before, k);
      hide Step, After, Given;
    } else {
      RunsTheLoop(p, tiles, before, k);
      hide Step, Steps, After, Given, Enabled, Apply, InLoop;
      if Enabled(p, tiles, w, a) {
        StaysInLoop(p, tiles, w, a, k, Steps(p, tile, Stream(given), |given|));
        if a.Advance? && a.place == k { LoopNext(p, tile, given, a.answer); }
      }
      assert given + [] == given;
    }
  }

  lemma LoopNext(p: Policy, tile: nat, given: seq<Answer>, a: Answer)
    requires Awaiting(Steps(p, tile, Stream(given), |given|))
    ensures Steps(p, tile, Stream(given + [a]), |given| + 1) == Step(p, tile, Steps(p, tile, Stream(given), |given|), a)
  {
    LaterAnswers(p, tile, given, a, |given|);
    hide Step;
  }

  lemma StaysInLoop(p: Policy, tiles: Tiles, w: Pool, a: Action, k: nat, loop: Task)
    requires k < |w.tasks| && k < |tiles| && tiles[k].Some? && Enabled(p, tiles, w, a) && InLoop(w.tasks[k], loop)
    ensures a.Advance? && a.place == k ==>
      Awaiting(loop) && InLoop(Apply(p, tiles, w, a).tasks[k], Step(p, tiles[k].value, loop, a.answer))
    ensures !(a.Advance? && a.place == k) ==> InLoop(Apply(p, tiles, w, a).tasks[k], loop)
    ensures |Apply(p, tiles, w, a).tasks| >= |w.tasks|
  {
    hide Step;
  }

  /** The same, or yielded after a success. */
  predicate InLoop(t: Task, loop: Task) {
    t == loop || (loop.phase == Done(None) && t == loop.(phase := Yielded))
  }

  lemma AfterNext(p: Policy, tiles: Tiles, before: seq<Action>, a: Action)
    ensures var w := After(p, tiles, before);
      After(p, tiles, before + [a]) == if Enabled(p, tiles, w, a) then Apply(p, tiles, w, a) else w
  {
    assert (before + [a])[..|before|] == before;
    hide Apply, Enabled;
  }

  lemma GivenNext(p: Policy, tiles: Tiles, before: seq<Action>, a: Action, k: nat)
    ensures Given(p, tiles, before + [a], k) == Given(p, tiles, before, k)
      + if a.Advance? && a.place == k && Enabled(p, tiles, After(p, tiles, before), a) then [a.answer] else []
  {
    assert (before + [a])[..|before|] == before;
    hide Enabled, After;
  }

  /** A call asks for approval exactly if the retries allowed without one are used up. */
  lemma {:induction false} ApprovalIsAsked(p: Policy, tiles: Tiles, actions: seq<Action>, i: nat)
    requires i < |After(p, tiles, actions).events| && After(p, tiles, actions).events[i].Called?
    ensures var e := After(p, tiles, actions).events[i]; e.requiresApproval <==> e.attempt > p.maxRetries
  {
    var before := actions[..|actions| - 1];
    hide Step, Enabled;
    if i < |After(p, tiles, before).events| { ApprovalIsAsked(p, tiles, before, i); }
  }

  // ---- How far the pool gets -----------------------------------------------------------------------------

  /** Tiles taken up and not yet yielded. */
  function Running(tasks: seq<Task>): nat {
    if tasks == [] then 0
    else Running(tasks[..|tasks| - 1]) + if tasks[|tasks| - 1].phase.Yielded? then 0 else 1
  }

  lemma {:induction false} RunningIs(tasks: seq<Task>, yielded: set<nat>)
    requires forall k: nat :: k in yielded <==> k < |tasks| && tasks[k].phase.Yielded?
    ensures Running(tasks) == |tasks| - |yielded|
  {
    if tasks == [] {
      assert yielded == {};
    } else {
      var n := |tasks| - 1;
      RunningIs(tasks[..n], yielded - {n});
      assert n !in yielded ==> yielded - {n} == yielded;
    }
  }

  lemma YieldedAre(p: Policy, tiles: Tiles, actions: seq<Action>)
    ensures var w := After(p, tiles, actions);
      |w.tasks| <= |tiles| && forall k: nat :: k in w.yielded <==> k < |w.tasks| && w.tasks[k].phase.Yielded?
  {
    RunInv(p, tiles, actions);
    var w := After(p, tiles, actions);
    hide After, CallsOf, Confirmed, Proper;
    forall k: nat
      ensures k in w.yielded <==> k < |w.tasks| && w.tasks[k].phase.Yielded?
    {
      if k < |w.tasks| { assert TaskInv(p, w, k); } else { assert Untouched(w, k); }
    }
  }

  /** A tile is taken up exactly while one is left and fewer are under way than allowed. */
  lemma TakesUpExactly(p: Policy, tiles: Tiles, actions: seq<Action>)
    ensures var w := After(p, tiles, actions);
      Enabled(p, tiles, w, Spawn) <==>
        w.outcome.None? && |w.tasks| < |tiles| && Running(w.tasks) < p.maxConcurrent
  {
    YieldedAre(p, tiles, actions);
    hide After;
    RunningIs(After(p, tiles, actions).tasks, After(p, tiles, actions).yielded);
  }

  /** A tile the plan failed to make is never waited for. */
  lemma {:induction false} MissingNeverWait(p: Policy, tiles: Tiles, actions: seq<Action>, k: nat)
    requires k < |After(p, tiles, actions).tasks| && k < |tiles| && tiles[k].None?
    ensures !Awaiting(After(p, tiles, actions).tasks[k])
  {
    var before, a := actions[..|actions| - 1], actions[|actions| - 1];
    var w := After(p, tiles, before);
    assert before + [a] == actions;
    AfterNext(p, tiles, before, a);
    if k < |w.tasks| { MissingNeverWait(p, tiles, before, k); }
    hide After, Enabled, Apply;
    if Enabled(p, tiles, w, a) { StillMissing(p, tiles, w, a, k); }
  }

  lemma StillMissing(p: Policy, tiles: Tiles, w: Pool, a: Action, k: nat)
    requires Enabled(p, tiles, w, a) && k < |tiles| && tiles[k].None?
    requires k < |w.tasks| ==> !Awaiting(w.tasks[k])
    ensures k < |Apply(p, tiles, w, a).tasks| ==> !Awaiting(Apply(p, tiles, w, a).tasks[k])
  {
    hide Step;
  }

  /** The pool never gets stuck: until it has failed or every tile was yielded, something can happen. */
  lemma NeverStuck(p: Policy, tiles: Tiles, actions: seq<Action>, answer: Answer)
    requires p.maxConcurrent > 0
    ensures var w := After(p, tiles, actions);
      || w.outcome.Some? || Drained(tiles, w) || Enabled(p, tiles, w, Spawn)
      || exists k: nat :: Enabled(p, tiles, w, Advance(k, answer)) || Enabled(p, tiles, w, Yield(k))
  {
    YieldedAre(p, tiles, actions);
    TakesUpExactly(p, tiles, actions);
    var w := After(p, tiles, actions);
    if k :| 0 <= k < |w.tasks| && w.tasks[k].phase != Yielded {
      if Awaiting(w.tasks[k]) && tiles[k].None? { MissingNeverWait(p, tiles, actions, k); }
      hide After;
      assert Enabled(p, tiles, w, Advance(k, answer)) || Enabled(p, tiles, w, Yield(k)) || w.outcome.Some?;
    } else {
      hide After;
      NoneRunning(w.tasks);
    }
  }

  lemma {:induction false} NoneRunning(tasks: seq<Task>)
    requires forall k :: 0 <= k < |tasks| ==> tasks[k].phase == Yielded
    ensures Running(tasks) == 0
  {
    if tasks != [] { NoneRunning(tasks[..|tasks| - 1]); }
  }
}
