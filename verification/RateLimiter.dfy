/** The browser's admission gate: at most four requests in flight, at most four starts in any
    second, under every interleaving of acquirers. */
module RateLimiters {
  import opened Options

  const MAX_INFLIGHT: int := 4
  const MAX_STARTS: nat := 4
  const WINDOW: real := 1000.0

  datatype Gate = Gate(inflight: int, starts: seq<real>)
  datatype Step = Admit | Abort | WaitRate(ms: real) | WaitInflight

  /** Starts that left the window are dropped from the front. */
  function Purged(starts: seq<real>, now: real): seq<real> {
    if starts != [] && starts[0] <= now - WINDOW then Purged(starts[1..], now) else starts
  }

  /** What is left is the end of the list, and everything before it has left the window. */
  lemma {:induction false} PurgedIsSuffix(starts: seq<real>, now: real)
    ensures var r := Purged(starts, now); var gone := |starts| - |r|;
      && 0 <= gone && r == starts[gone..] && (forall i :: 0 <= i < gone ==> starts[i] <= now - WINDOW)
      && (r != [] ==> r[0] > now - WINDOW)
  {
    if starts != [] && starts[0] <= now - WINDOW {
      PurgedIsSuffix(starts[1..], now);
      assert forall i :: 1 <= i < |starts| ==> starts[i] == starts[1..][i - 1];
    }
  }

  /** One admission: the clock is read once, and again for a start or a wait. */
  function Admission(g: Gate, aborted: bool, now: real, again: real): (Step, Gate) {
    if aborted then (Abort, g)
    else
      var starts := Purged(g.starts, now);
      if g.inflight >= MAX_INFLIGHT then (WaitInflight, g.(starts := starts))
      else if |starts| >= MAX_STARTS then
        var ms := starts[0] + WINDOW - again;
        (WaitRate(if ms > 0.0 then ms else 0.0), g.(starts := starts))
      else (Admit, Gate(g.inflight + 1, starts + [again]))
  }

  function Released(g: Gate): Gate {
    g.(inflight := if g.inflight - 1 > 0 then g.inflight - 1 else 0)
  }

  class Limiter {
    var inflight: int
    var starts: seq<real>

    function State(): Gate
      reads this
    {
      Gate(inflight, starts)
    }

    constructor ()
      ensures State() == Gate(0, [])
    {
      inflight, starts := 0, [];
    }

    method Admit(aborted: bool, now: real, again: real) returns (step: Step)
      modifies this
      ensures (step, State()) == Admission(old(State()), aborted, now, again)
      ensures step.Admit? <==>
        && !aborted && old(inflight) < 4
        && forall i :: 0 <= i && i + 4 <= |old(starts)| ==> old(starts)[i] <= now - 1000.0
      ensures step.Abort? <==> aborted
      ensures step.WaitInflight? <==> !aborted && old(inflight) >= 4
      ensures step.Admit? ==> inflight == old(inflight) + 1 && |starts| > 0 && starts[|starts| - 1] == again
      ensures !step.Admit? ==> inflight == old(inflight)
    {
      if aborted { return Abort; }
      ghost var before := starts;
      while |starts| > 0 && starts[0] <= now - WINDOW
        invariant inflight == old(inflight) && Purged(starts, now) == Purged(before, now)
        decreases |starts|
      {
        starts := starts[1..];
      }
      if inflight >= MAX_INFLIGHT { return WaitInflight; }
      PurgedIsSuffix(before, now);
      if |starts| >= MAX_STARTS {
        assert before[|before| - |starts|] == starts[0];
        var ms := starts[0] + WINDOW - again;
        return WaitRate(if ms > 0.0 then ms else 0.0);
      }
      starts := starts + [again];
      inflight := inflight + 1;
      step := Step.Admit;
    }

    /** The handle a caller releases its slot with; a second call does nothing. */
    method Release(released: bool) returns (done: bool)
      modifies this
      ensures done && State() == if released then old(State()) else Released(old(State()))
      ensures starts == old(starts) && (released ==> inflight == old(inflight))
      ensures !released && old(inflight) >= 1 ==> inflight == old(inflight) - 1
    {
      if released { return true; }
      done := true;
      inflight := if inflight - 1 > 0 then inflight - 1 else 0;
    }

    /** Takes an admission back: while any is outstanding, exactly one slot, and no start is forgotten. */
    method Rollback()
      modifies this
      ensures State() == Released(old(State()))
      ensures starts == old(starts) && (old(inflight) >= 1 ==> inflight == old(inflight) - 1)
    {
      inflight := if inflight - 1 > 0 then inflight - 1 else 0;
    }
  }

  // ---- All interleavings ------------------------------------------------------------------------

  /** Who asks; whose admission is outstanding, and of those who holds the slot and who is giving it
      back unused (the others were admitted but have not resumed yet); who is done; every start so
      far, and the last clock reading. */
  datatype World = World(gate: Gate, waiting: set<nat>, outstanding: set<nat>, holding: set<nat>, rollingBack: set<nat>,
                         finished: set<nat>, history: seq<real>, now: real)

  datatype Action =
    | Arrive(task: nat, aborted: bool)
    | Try(task: nat, aborted: bool, now: real, again: real)
    | Resume(task: nat, aborted: bool)
    | GiveUp(task: nat)
    | Release(task: nat)
    | Rollback(task: nat)

  /** Nobody has asked yet; the clock starts anywhere. */
  function Idle(first: real): World {
    World(Gate(0, []), {}, {}, {}, {}, {}, [], first)
  }

  /** An action may happen: its task is in the right phase, and the clock never runs backwards. */
  predicate Enabled(w: World, a: Action) {
    Ready(w, a) && (a.Try? && !a.aborted ==> w.now <= a.now && (ReadsAgain(w, a) ==> a.now <= a.again))
  }

  /** The clock is read a second time unless the attempt is aborted or every slot is in use. */
  predicate ReadsAgain(w: World, a: Action)
    requires a.Try?
  {
    !a.aborted && w.gate.inflight < MAX_INFLIGHT
  }

  predicate Ready(w: World, a: Action) {
    match a
    case Arrive(t, _) => t !in w.waiting && t !in w.outstanding && t !in w.finished
    case Try(t, _, _, _) => t in w.waiting
    case Resume(t, _) => t in w.outstanding && t !in w.holding && t !in w.rollingBack
    case GiveUp(t) => t in w.waiting
    case Release(t) => t in w.holding || t in w.finished
    case Rollback(t) => t in w.rollingBack
  }

  function Tried(w: World, t: nat, aborted: bool, now: real, again: real): World {
    var (step, gate) := Admission(w.gate, aborted, now, again);
    match step
    case Admit =>
      w.(gate := gate, now := again, waiting := w.waiting - {t}, outstanding := w.outstanding + {t},
         history := w.history + [again])
    case Abort => w.(waiting := w.waiting - {t}, finished := w.finished + {t})
    case WaitRate(_) => w.(gate := gate, now := again)
    case WaitInflight => w.(gate := gate, now := now)
  }

  function Apply(w: World, a: Action): World {
    match a
    case Arrive(t, aborted) =>
      if aborted then w.(finished := w.finished + {t}) else w.(waiting := w.waiting + {t})
    case Try(t, aborted, now, again) => Tried(w, t, aborted, now, again)
    case Resume(t, aborted) =>
      if aborted then w.(rollingBack := w.rollingBack + {t}) else w.(holding := w.holding + {t})
    case GiveUp(t) => w.(waiting := w.waiting - {t}, finished := w.finished + {t})
    case Release(t) =>
      if t !in w.holding then w
      else w.(gate := Released(w.gate), outstanding := w.outstanding - {t}, holding := w.holding - {t},
              finished := w.finished + {t})
    case Rollback(t) =>
      w.(gate := Released(w.gate), outstanding := w.outstanding - {t}, rollingBack := w.rollingBack - {t},
         finished := w.finished + {t})
  }

  /** The world after a schedule; what cannot happen is passed over. */
  function After(first: real, actions: seq<Action>): World {
    if actions == [] then Idle(first)
    else
      var w, a := After(first, actions[..|actions| - 1]), actions[|actions| - 1];
      if Enabled(w, a) then Apply(w, a) else w
  }

  /** What the gate counts is what is outstanding. */
  ghost predicate Counted(w: World) {
    && w.gate.inflight == |w.outstanding| && w.gate.inflight <= MAX_INFLIGHT
    && w.waiting !! w.outstanding && w.waiting !! w.finished && w.finished !! w.outstanding
    && w.holding <= w.outstanding && w.rollingBack <= w.outstanding && w.holding !! w.rollingBack
  }

  /** The remembered starts are the last ones; those forgotten have left the window. */
  ghost predicate Remembered(history: seq<real>, starts: seq<real>, now: real) {
    var gone := |history| - |starts|;
    && 0 <= gone && |starts| <= MAX_STARTS && starts == history[gone..]
    && (forall i :: 0 <= i < gone ==> history[i] <= now - WINDOW)
    && (forall i :: 0 <= i < |history| ==> history[i] <= now)
  }

  /** Every start is a whole window after the fourth before it, and none is before its
      predecessor. */
  ghost predicate Spaced(history: seq<real>) {
    && (forall i, j :: 0 <= i < j < |history| ==> history[i] <= history[j])
    && (forall i, j :: 0 <= i && i + MAX_STARTS <= j < |history| ==> history[i] <= history[j] - WINDOW)
  }

  /** A slot is given back. */
  predicate GivesBack(w: World, a: Action) {
    a.Rollback? || (a.Release? && a.task in w.holding)
  }

  lemma CountedAdmit(w: World, t: nat, gate: Gate)
    requires Counted(w) && t in w.waiting && gate.inflight == w.gate.inflight + 1 <= MAX_INFLIGHT
    ensures Counted(w.(gate := gate, waiting := w.waiting - {t}, outstanding := w.outstanding + {t}))
  {
    assert t !in w.outstanding;
  }

  lemma CountedLeave(w: World, t: nat)
    requires Counted(w) && (t in w.holding || t in w.rollingBack)
    ensures w.gate.inflight >= 1
    ensures Counted(w.(gate := Released(w.gate), outstanding := w.outstanding - {t}, holding := w.holding - {t},
                       rollingBack := w.rollingBack - {t}, finished := w.finished + {t}))
  {
    assert t in w.outstanding;
  }

  /** Neither the history nor the clock is counted, nor which starts are remembered. */
  lemma CountedTime(w: World, v: World)
    requires Counted(w) && v == w.(gate := v.gate, history := v.history, now := v.now)
    requires v.gate.inflight == w.gate.inflight
    ensures Counted(v)
  {
  }

  lemma CountedArrive(w: World, t: nat)
    requires Counted(w) && t !in w.waiting && t !in w.outstanding && t !in w.finished
    ensures Counted(w.(waiting := w.waiting + {t})) && Counted(w.(finished := w.finished + {t}))
  {
  }

  lemma CountedGiveUp(w: World, t: nat)
    requires Counted(w) && t in w.waiting
    ensures Counted(w.(waiting := w.waiting - {t}, finished := w.finished + {t}))
  {
  }

  lemma CountedResume(w: World, t: nat)
    requires Counted(w) && t in w.outstanding && t !in w.holding && t !in w.rollingBack
    ensures Counted(w.(holding := w.holding + {t})) && Counted(w.(rollingBack := w.rollingBack + {t}))
  {
  }

  lemma Absent(s: set<nat>, t: nat)
    requires t !in s
    ensures s - {t} == s
  {
  }

  lemma InOneList(w: World, t: nat)
    requires Counted(w)
    ensures t in w.holding ==> t !in w.rollingBack
  {
  }

  lemma CountedKept(w: World, a: Action)
    requires Counted(w) && Enabled(w, a)
    ensures Counted(Apply(w, a))
    ensures GivesBack(w, a) ==> w.gate.inflight >= 1
  {
    CountLimit(w);
    hide Purged, Released, Counted;
    match a
    case Arrive(t, aborted) => CountedArrive(w, t);
    case Try(t, aborted, now, again) =>
      var (step, gate) := Admission(w.gate, aborted, now, again);
      if step.Admit? {
        CountedAdmit(w, t, gate);
        CountedTime(w.(gate := gate, waiting := w.waiting - {t}, outstanding := w.outstanding + {t}), Apply(w, a));
      } else if step.Abort? {
        CountedGiveUp(w, t);
      } else {
        CountedTime(w, Apply(w, a));
      }
    case Resume(t, aborted) => CountedResume(w, t);
    case GiveUp(t) => CountedGiveUp(w, t);
    case Release(t) =>
      if t in w.holding {
        CountedLeave(w, t);
        InOneList(w, t);
        Absent(w.rollingBack, t);
      }
    case Rollback(t) =>
      CountedLeave(w, t);
      InOneList(w, t);
      Absent(w.holding, t);
  }

  /** Whoever asked stays known: nobody is lost, and nobody asks twice. */
  lemma NobodyIsLost(w: World, a: Action)
    requires Counted(w) && Enabled(w, a)
    ensures var next := Apply(w, a);
      && w.waiting + w.outstanding + w.finished <= next.waiting + next.outstanding + next.finished
      && (a.Arrive? ==>
            && a.task !in w.waiting + w.outstanding + w.finished
            && (a.task in next.finished <==> a.aborted) && (a.task in next.waiting <==> !a.aborted))
      && w.finished <= next.finished
  {
    hide Purged, Released;
  }

  lemma CountLimit(w: World)
    requires Counted(w)
    ensures w.gate.inflight <= MAX_INFLIGHT
  {
  }

  lemma RememberedKept(w: World, a: Action)
    requires Remembered(w.history, w.gate.starts, w.now) && Enabled(w, a) && Spaced(w.history)
    ensures var next := Apply(w, a); Remembered(next.history, next.gate.starts, next.now) && Spaced(next.history)
  {
    hide Remembered, Spaced, Purged;
    if a.Try? && !a.aborted { PurgeRemembers(w.history, w.gate.starts, a.now); }
    if a.Try? && ReadsAgain(w, a) {
      LaterRemembers(w.history, Purged(w.gate.starts, a.now), a.now, a.again);
      StartRemembers(w.history, Purged(w.gate.starts, a.now), a.now, a.again);
    }
  }

  /** Purging forgets only what has left the window. */
  lemma PurgeRemembers(h: seq<real>, kept: seq<real>, now: real)
    requires exists before :: before <= now && Remembered(h, kept, before)
    ensures Remembered(h, Purged(kept, now), now)
  {
    var left := Purged(kept, now);
    PurgedIsSuffix(kept, now);
    hide Purged;
    assert left == h[|h| - |left|..];
    forall i | 0 <= i < |h| - |left|
      ensures h[i] <= now - WINDOW
    {
      var gone := |h| - |kept|;
      if i >= gone { assert h[i] == kept[i - gone]; }
    }
  }

  lemma LaterRemembers(h: seq<real>, starts: seq<real>, now: real, later: real)
    requires Remembered(h, starts, now) && now <= later
    ensures Remembered(h, starts, later)
  {
  }

  /** A start within the limit: the fourth before it was forgotten. */
  lemma StartRemembers(h: seq<real>, starts: seq<real>, now: real, again: real)
    requires Spaced(h) && Remembered(h, starts, now) && now <= again
    ensures |starts| < MAX_STARTS ==> Remembered(h + [again], starts + [again], again) && Spaced(h + [again])
  {
  }

  ghost predicate Inv(w: World) {
    Counted(w) && Remembered(w.history, w.gate.starts, w.now) && Spaced(w.history)
  }

  lemma {:induction false} RunInv(first: real, actions: seq<Action>)
    ensures Inv(After(first, actions))
  {
    if actions != [] {
      var before, last := actions[..|actions| - 1], actions[|actions| - 1];
      RunInv(first, before);
      hide Counted, Remembered, Spaced, Apply, Enabled;
      if Enabled(After(first, before), last) {
        CountedKept(After(first, before), last);
        RememberedKept(After(first, before), last);
      }
    }
  }

  /** Over every run: the slots in use are what the gate counts, at most four, and a slot is given
      back only while the count is positive. */
  lemma InflightIsOutstanding(first: real, actions: seq<Action>, a: Action)
    ensures var w := After(first, actions);
      && w.gate.inflight == |w.outstanding| <= 4 && w.holding <= w.outstanding
      && (Enabled(w, a) && GivesBack(w, a) ==> Released(w.gate).inflight == w.gate.inflight - 1)
  {
    RunInv(first, actions);
    if Enabled(After(first, actions), a) { CountedKept(After(first, actions), a); }
  }

  /** The starts that fall into `[from, from + 1000)`. */
  function StartsIn(history: seq<real>, from: real): set<nat> {
    set i: nat | i < |history| && from <= history[i] < from + WINDOW
  }

  lemma SpacedWindow(h: seq<real>, from: real)
    requires Spaced(h)
    ensures |StartsIn(h, from)| <= MAX_STARTS
  {
    var inside := StartsIn(h, from);
    if inside != {} {
      var first := Least(inside);
      var four := {first, first + 1, first + 2, first + 3};
      assert inside <= four by {
        forall i | i in inside
          ensures i in four
        {
          if i >= first + MAX_STARTS { assert false; }
        }
      }
      SubsetSize(inside, four);
    }
  }

  /** No half-open second of any run has more than four starts. */
  lemma WindowHoldsFour(first: real, actions: seq<Action>, from: real)
    ensures |StartsIn(After(first, actions).history, from)| <= 4
    ensures forall i :: i in StartsIn(After(first, actions).history, from) <==>
      0 <= i < |After(first, actions).history| && from <= After(first, actions).history[i] < from + 1000.0
  {
    RunInv(first, actions);
    assert forall i :: i in StartsIn(After(first, actions).history, from) <==>
        0 <= i < |After(first, actions).history| && from <= After(first, actions).history[i] < from + WINDOW;
    hide *;
    assert Spaced(After(first, actions).history) by { InvSpaced(After(first, actions)); }
    SpacedWindow(After(first, actions).history, from);
  }

  lemma InvSpaced(w: World)
    requires Inv(w)
    ensures Spaced(w.history)
  {
  }

  lemma Least(s: set<nat>) returns (m: nat)
    requires s != {}
    ensures m in s && forall k :: k in s ==> m <= k
    decreases |s|
  {
    m :| m in s;
    var rest := s - {m};
    assert s == rest + {m};
    if rest != {} {
      var n := Least(rest);
      m := if n < m then n else m;
    }
  }

  lemma {:induction false} SubsetSize(a: set<nat>, b: set<nat>)
    requires a <= b
    ensures |a| <= |b|
    decreases |a|
  {
    if x: nat :| x in a {
      SubsetSize(a - {x}, b - {x});
    }
  }

  /** A caller told to wait has waited long enough: by then the oldest start has left the window,
      and not a moment sooner. */
  lemma WaitIsExact(g: Gate, now: real, again: real, later: real)
    requires Admission(g, false, now, again).0.WaitRate? && again <= later
    ensures var (step, next) := Admission(g, false, now, again);
      |Purged(next.starts, later)| < |next.starts| <==> later >= again + step.ms
  {
    var (step, next) := Admission(g, false, now, again);
    if next.starts[0] <= later - WINDOW { PurgedIsSuffix(next.starts[1..], later); }
  }

  // ---- What the clock reads -----------------------------------------------------------------------

  /** One reading of the clock; the second of an attempt, or its first. */
  datatype Reading = Reading(time: real, second: bool)

  function ReadingsOf(w: World, a: Action): seq<Reading> {
    if !a.Try? || a.aborted then []
    else [Reading(a.now, false)] + if ReadsAgain(w, a) then [Reading(a.again, true)] else []
  }

  /** A run whose clock may read anything. */
  function AnyClock(actions: seq<Action>): World {
    if actions == [] then Idle(0.0)
    else
      var w, a := AnyClock(actions[..|actions| - 1]), actions[|actions| - 1];
      if Ready(w, a) then Apply(w, a) else w
  }

  /** What its clock read, in order. */
  function Readings(actions: seq<Action>): seq<Reading> {
    if actions == [] then []
    else
      var before, a := actions[..|actions| - 1], actions[|actions| - 1];
      Readings(before) + if Ready(AnyClock(before), a) then ReadingsOf(AnyClock(before), a) else []
  }

  ghost predicate InOrder(readings: seq<Reading>) {
    forall i, j :: 0 <= i < j < |readings| ==> readings[i].time <= readings[j].time
  }

  /** Readings in order, but for one step from `u` to the next reading `v`: within an attempt, or from
      the last reading of one attempt to the first of another. */
  ghost predicate OneStep(readings: seq<Reading>, u: real, v: real, within: bool, i: nat) {
    && i + 1 < |readings| && readings[i].time == u && readings[i + 1] == Reading(v, within)
    && InOrder(readings[..i + 1]) && InOrder(readings[i + 1..])
  }

  ghost predicate Bounded(history: seq<real>) {
    forall from :: |StartsIn(history, from)| <= MAX_STARTS
  }

  /** Every run whose clock makes this step and is in order otherwise keeps to four starts a second. */
  ghost predicate Survives(u: real, v: real, within: bool) {
    forall actions, i :: OneStep(Readings(actions), u, v, within, i) ==> Bounded(AnyClock(actions).history)
  }

  lemma AnyClockMore(actions: seq<Action>, a: Action)
    ensures var w := AnyClock(actions);
      && AnyClock(actions + [a]) == (if Ready(w, a) then Apply(w, a) else w)
      && Readings(actions + [a]) == Readings(actions) + if Ready(w, a) then ReadingsOf(w, a) else []
  {
    assert (actions + [a])[..|actions|] == actions;
  }

  // ---- Readings in order ------------------------------------------------------------------------

  /** What the clock read last, or where it started. */
  function Latest(first: real, readings: seq<Reading>): real {
    if readings == [] then first else readings[|readings| - 1].time
  }

  ghost predicate NotBefore(first: real, readings: seq<Reading>) {
    forall i :: 0 <= i < |readings| ==> first <= readings[i].time
  }

  lemma OrderOfMore(first: real, before: seq<Reading>, more: seq<Reading>)
    requires InOrder(before + more) && NotBefore(first, before + more)
    ensures InOrder(before) && NotBefore(first, before)
    ensures |more| > 0 ==> Latest(first, before) <= more[0].time
    ensures |more| > 1 ==> more[0].time <= more[1].time
  {
    var all := before + more;
    assert forall i :: 0 <= i < |before| ==> before[i] == all[i];
    assert forall i :: 0 <= i < |more| ==> more[i] == all[|before| + i];
  }

  /** Two worlds that differ only in their clock. */
  lemma ApplyNow(w: World, now: real, a: Action)
    ensures Ready(w.(now := now), a) <==> Ready(w, a)
    ensures ReadingsOf(w.(now := now), a) == ReadingsOf(w, a)
    ensures Apply(w.(now := now), a) == Apply(w, a).(now := Latest(now, ReadingsOf(w, a)))
    ensures Apply(w, a).now == Latest(w.now, ReadingsOf(w, a))
    ensures var readings := ReadingsOf(w, a);
      var inOrder := (|readings| > 0 ==> w.now <= readings[0].time)
                     && (|readings| > 1 ==> readings[0].time <= readings[1].time);
      Ready(w, a) && inOrder ==> Enabled(w, a)
  {
    hide Purged;
  }

  /** A run whose readings are in order is one of the runs whose clock never steps back. */
  lemma {:induction false} InOrderRuns(first: real, actions: seq<Action>)
    requires InOrder(Readings(actions)) && NotBefore(first, Readings(actions))
    ensures var w := After(first, actions);
      w.now == Latest(first, Readings(actions)) && AnyClock(actions) == w.(now := AnyClock(actions).now)
  {
    if actions != [] {
      var before, a := actions[..|actions| - 1], actions[|actions| - 1];
      assert before + [a] == actions;
      AnyClockMore(before, a);
      AfterMore(first, before, a);
      var w, v := After(first, before), AnyClock(before);
      OrderOfMore(first, Readings(before), if Ready(v, a) then ReadingsOf(v, a) else []);
      InOrderRuns(first, before);
      hide After, AnyClock, Readings, Apply, Ready, Enabled, ReadingsOf, InOrder, NotBefore;
      ApplyNow(w, v.now, a);
      NotReady(w, a);
    }
  }

  lemma NotReady(w: World, a: Action)
    ensures !Ready(w, a) ==> !Enabled(w, a)
  {
  }

  lemma InOrderIsBounded(actions: seq<Action>)
    requires InOrder(Readings(actions))
    ensures Bounded(AnyClock(actions).history)
  {
    var first := if Readings(actions) == [] then 0.0 else Readings(actions)[0].time;
    InOrderRuns(first, actions);
    forall from: real
      ensures |StartsIn(AnyClock(actions).history, from)| <= MAX_STARTS
    {
      WindowHoldsFour(first, actions, from);
      hide After, AnyClock, StartsIn;
    }
  }

  lemma StepForward(readings: seq<Reading>, u: real, v: real, within: bool, i: nat)
    requires OneStep(readings, u, v, within, i) && u <= v
    ensures InOrder(readings)
  {
    var front, back := readings[..i + 1], readings[i + 1..];
    forall j, k | 0 <= j < k < |readings|
      ensures readings[j].time <= readings[k].time
    {
      assert j <= i ==> front[j] == readings[j] && (j < i ==> front[j].time <= front[i].time);
      assert k > i ==> back[k - i - 1] == readings[k] && (k > i + 1 ==> back[0].time <= back[k - i - 1].time);
      if k <= i { assert front[j].time <= front[k].time; }
      if j > i { assert back[j - i - 1].time <= back[k - i - 1].time; }
    }
  }

  // ---- A clock that steps back ------------------------------------------------------------------

  /** Tasks that ask one after the other, all at one reading. */
  function Asks(at: real, n: nat): seq<Action> {
    if n == 0 then [] else Asks(at, n - 1) + [Arrive(n - 1, false), Try(n - 1, false, at, at)]
  }

  /** Four tasks are admitted at one reading, one gives its slot back, and a fifth comes. */
  function Crowd(at: real): seq<Action> {
    Asks(at, 4) + [Resume(0, false)] + [Action.Release(0)] + [Arrive(4, false)]
  }

  /** The fifth asks once, with these two readings. */
  function StepWithin(at: real, u: real, v: real): seq<Action> {
    Crowd(at) + [Try(4, false, u, v)]
  }

  /** The fifth asks at `u`; another slot is given back; and a sixth asks at `v`. */
  function StepBetween(at: real, u: real, v: real): seq<Action> {
    StepWithin(at, u, u) + [Resume(1, false)] + [Action.Release(1)] + [Arrive(5, false)] + [Try(5, false, v, v)]
  }

  function StepBack(u: real, v: real, within: bool): seq<Action> {
    var at := EarlyStarts(u, v);
    if within then StepWithin(at, u, v) else StepBetween(at, u, v)
  }

  /** Where the four starts have to be. */
  function EarlyStarts(u: real, v: real): real {
    if v < u - WINDOW then v else u - WINDOW
  }

  /** The numbers below `n`. */
  function UpTo(n: nat): (r: set<nat>)
    ensures |r| == n && forall k: nat :: k in r <==> k < n
  {
    if n == 0 then {} else UpTo(n - 1) + {n - 1}
  }

  function Repeated(at: real, n: nat): seq<real> {
    seq(n, _ => at)
  }

  ghost predicate AllAt(readings: seq<Reading>, at: real) {
    forall i :: 0 <= i < |readings| ==> readings[i].time == at
  }

  lemma AllAtMore(before: seq<Reading>, more: seq<Reading>, at: real)
    requires AllAt(before, at) && AllAt(more, at)
    ensures AllAt(before + more, at)
  {
  }

  /** The gate after `n` starts at one reading, all outstanding. */
  function Started(at: real, n: nat): World {
    World(Gate(n, Repeated(at, n)), {}, UpTo(n), {}, {}, {}, Repeated(at, n), if n == 0 then 0.0 else at)
  }

  /** Every one of up to four is admitted. */
  lemma {:induction false} AsksAdmitted(at: real, n: nat)
    requires n <= 4
    ensures AnyClock(Asks(at, n)) == Started(at, n) && AllAt(Readings(Asks(at, n)), at)
  {
    if n == 0 {
      assert Repeated(at, 0) == [];
    } else {
      AsksAdmitted(at, n - 1);
      var before, arrive, ask := Asks(at, n - 1), Arrive(n - 1, false), Try(n - 1, false, at, at);
      assert Asks(at, n) == before + [arrive] + [ask];
      hide AnyClock, Readings, Asks, Started, Apply, Ready, ReadingsOf;
      AnyClockMore(before, arrive);
      AnyClockMore(before + [arrive], ask);
      OneAsks(at, n - 1);
      var asked := Apply(Started(at, n - 1), arrive);
      assert Readings(before + [arrive]) == Readings(before) + [] == Readings(before);
      AllAtMore(Readings(before), ReadingsOf(asked, ask), at);
      hide AllAt;
    }
  }

  lemma OneAsks(at: real, n: nat)
    requires n < 4
    ensures var w, arrive, ask := Started(at, n), Arrive(n, false), Try(n, false, at, at);
      && Ready(w, arrive) && Ready(Apply(w, arrive), ask) && Apply(Apply(w, arrive), ask) == Started(at, n + 1)
      && ReadingsOf(w, arrive) == [] && AllAt(ReadingsOf(Apply(w, arrive), ask), at)
  {
    NothingPurged(at, n);
    hide Purged;
    assert {} + {n} == {n} && {n} - {n} == {};
    assert Repeated(at, n) + [at] == Repeated(at, n + 1);
  }

  lemma NothingPurged(at: real, n: nat)
    ensures Purged(Repeated(at, n), at) == Repeated(at, n)
  {
  }

  lemma Crowded(at: real)
    ensures var w := AnyClock(Crowd(at));
      && w.gate == Gate(3, Repeated(at, 4)) && w.waiting == {4} && w.outstanding == {1, 2, 3} && w.holding == {}
      && w.rollingBack == {} && w.finished == {0} && w.history == Repeated(at, 4)
    ensures AllAt(Readings(Crowd(at)), at)
  {
    AsksAdmitted(at, 4);
    assert UpTo(4) - {0} == {1, 2, 3};
    SlotFreed(Asks(at, 4), 0, 4);
    hide AnyClock, Readings, Asks;
  }

  /** One task gives its slot back and another comes; no clock is read. */
  lemma SlotFreed(actions: seq<Action>, t: nat, arriving: nat)
    requires var w := AnyClock(actions);
      && t in w.outstanding && t !in w.holding && t !in w.rollingBack && w.gate.inflight > 0
      && arriving !in w.waiting && arriving !in w.outstanding && arriving !in w.finished && arriving != t
    ensures var w := AnyClock(actions);
      var more := actions + [Resume(t, false)] + [Action.Release(t)] + [Arrive(arriving, false)];
      && Readings(more) == Readings(actions)
      && AnyClock(more) == w.(gate := w.gate.(inflight := w.gate.inflight - 1), outstanding := w.outstanding - {t},
                              holding := w.holding + {t} - {t}, finished := w.finished + {t},
                              waiting := w.waiting + {arriving})
  {
    var resume, release := Resume(t, false), Action.Release(t);
    AnyClockMore(actions, resume);
    AnyClockMore(actions + [resume], release);
    AnyClockMore(actions + [resume] + [release], Arrive(arriving, false));
    hide AnyClock, Readings;
  }

  lemma {:induction false} PurgesAll(starts: seq<real>, now: real)
    requires forall i :: 0 <= i < |starts| ==> starts[i] <= now - WINDOW
    ensures Purged(starts, now) == []
  {
    if starts != [] { PurgesAll(starts[1..], now); }
  }

  /** Once its first reading is a window later, the fifth starts at the second, whatever that is. */
  lemma FifthStarts(at: real, u: real, v: real)
    requires at + WINDOW <= u
    ensures var w := AnyClock(StepWithin(at, u, v));
      && w.gate == Gate(4, [v]) && w.waiting == {} && w.outstanding == {1, 2, 3, 4} && w.holding == {}
      && w.rollingBack == {} && w.finished == {0} && w.history == Repeated(at, 4) + [v]
    ensures Readings(StepWithin(at, u, v)) == Readings(Crowd(at)) + [Reading(u, false), Reading(v, true)]
  {
    Crowded(at);
    AnyClockMore(Crowd(at), Try(4, false, u, v));
    PurgesAll(Repeated(at, 4), u);
    hide AnyClock, Readings, Crowd, Purged;
  }

  /** The sixth starts too: only the fifth's start is remembered. */
  lemma SixthStarts(at: real, u: real, v: real)
    requires at + WINDOW <= u && v < u
    ensures AnyClock(StepBetween(at, u, v)).history == Repeated(at, 4) + [u] + [v]
    ensures Readings(StepBetween(at, u, v)) ==
      Readings(Crowd(at)) + [Reading(u, false), Reading(u, true)] + [Reading(v, false), Reading(v, true)]
  {
    var fifth := StepWithin(at, u, u);
    var come := fifth + [Resume(1, false)] + [Action.Release(1)] + [Arrive(5, false)];
    assert StepBetween(at, u, v) == come + [Try(5, false, v, v)];
    FifthStarts(at, u, u);
    hide StepWithin, StepBetween, Crowd, AnyClock, Readings, Apply, Ready, ReadingsOf;
    SlotFreed(fifth, 1, 5);
    AnyClockMore(come, Try(5, false, v, v));
    StartsBehind(AnyClock(come), 5, u, v);
  }

  /** A start that lies ahead is not forgotten, but leaves room for three more. */
  lemma StartsBehind(w: World, t: nat, u: real, v: real)
    requires t in w.waiting && w.gate == Gate(3, [u]) && v < u
    ensures var ask := Try(t, false, v, v);
      && Ready(w, ask) && Apply(w, ask).history == w.history + [v]
      && ReadingsOf(w, ask) == [Reading(v, false), Reading(v, true)]
  {
  }

  /** Five starts at most a window apart. */
  lemma FiveInOneWindow(history: seq<real>, at: real, v: real)
    requires at <= v < at + WINDOW && |history| > 4 && history[..4] == Repeated(at, 4) && history[|history| - 1] == v
    ensures |StartsIn(history, at)| >= 5
  {
    var five := {0, 1, 2, 3, |history| - 1};
    assert forall i :: 0 <= i < 4 ==> history[i] == history[..4][i];
    assert five <= StartsIn(history, at);
    SubsetSize(five, StartsIn(history, at));
  }

  /** With a clock that steps back, however little, within an attempt or between two, there is a run
      with five starts in one window of a second. */
  lemma BackwardClock(u: real, v: real, within: bool)
    requires v < u
    ensures |StartsIn(AnyClock(StepBack(u, v, within)).history, EarlyStarts(u, v))| >= 5
  {
    var at := EarlyStarts(u, v);
    FifthStarts(at, u, v);
    SixthStarts(at, u, v);
    var history := AnyClock(StepBack(u, v, within)).history;
    hide AnyClock, StartsIn, StepWithin, StepBetween;
    assert history[..4] == Repeated(at, 4);
    FiveInOneWindow(history, at, v);
  }

  /** That run's clock makes the one step and is in order otherwise. */
  lemma StepsOnce(u: real, v: real, within: bool) returns (i: nat)
    requires v < u
    ensures OneStep(Readings(StepBack(u, v, within)), u, v, within, i)
  {
    var at := EarlyStarts(u, v);
    Crowded(at);
    FifthStarts(at, u, v);
    SixthStarts(at, u, v);
    var before := Readings(Crowd(at));
    assert StepBack(u, v, within) == if within then StepWithin(at, u, v) else StepBetween(at, u, v);
    assert at <= u;
    hide *;
    if within {
      i := |before|;
      assert [Reading(u, false)] + [Reading(v, true)] == [Reading(u, false), Reading(v, true)];
      Joined(before, [Reading(u, false)], [Reading(v, true)], at, u, v, within);
    } else {
      i := |before| + 1;
      Joined(before, [Reading(u, false), Reading(u, true)], [Reading(v, false), Reading(v, true)], at, u, v, within);
    }
  }

  lemma Joined(before: seq<Reading>, front: seq<Reading>, back: seq<Reading>, at: real, u: real, v: real, within: bool)
    requires AllAt(before, at) && AllAt(front, u) && AllAt(back, v) && at <= u && |front| > 0
    requires |back| > 0 && back[0] == Reading(v, within)
    ensures OneStep(before + front + back, u, v, within, |before| + |front| - 1)
    ensures before + front + back == before + (front + back)
  {
    var readings, i := before + front + back, |before| + |front| - 1;
    assert readings[..i + 1] == before + front && readings[i + 1..] == back;
  }

  /** Every run keeps to four starts a second through a step of its clock between two consecutive
      readings, within an attempt or between two, exactly if that is not a step back. */
  lemma ClockExactly(u: real, v: real, within: bool)
    ensures Survives(u, v, within) <==> u <= v
  {
    if u <= v {
      forall actions, i | OneStep(Readings(actions), u, v, within, i)
        ensures Bounded(AnyClock(actions).history)
      {
        StepForward(Readings(actions), u, v, within, i);
        InOrderIsBounded(actions);
      }
    } else {
      BackwardClock(u, v, within);
      var i := StepsOnce(u, v, within);
      hide AnyClock, StartsIn, StepBack, OneStep, Readings;
      assert !Bounded(AnyClock(StepBack(u, v, within)).history);
    }
  }

  lemma AfterMore(first: real, actions: seq<Action>, a: Action)
    ensures var w := After(first, actions); After(first, actions + [a]) == if Enabled(w, a) then Apply(w, a) else w
  {
    assert (actions + [a])[..|actions|] == actions;
  }
}
