/** One retry question shared by all tile tasks, and the gate they pass; every interleaving of the
    tasks, which give way to each other only where they await. */
module RetryApprovals {

  datatype Choice = Retry | Cancel | Failed

  /** Where a task awaits, or how it ended. */
  datatype Phase = AwaitingOther | AwaitingAnswer | AtGate | Proceeded | Stopped

  datatype Task = Task(attempt: nat, requiresApproval: bool, phase: Phase)

  datatype Shared = Shared(approved: nat, pending: bool, waiting: bool, paused: bool, cancelled: bool)

  /** The gate behind the approval: cancellation first, then a pause or an open question. */
  function Checkpoint(s: Shared): Phase {
    if s.cancelled then Stopped else if s.paused || s.waiting then AtGate else Proceeded
  }

  /** A task's turn at the approval, up to where it awaits. */
  function Approve(s: Shared, attempt: nat, requiresApproval: bool): (Phase, Shared) {
    if !requiresApproval || attempt <= s.approved then (Checkpoint(s), s)
    else if s.pending then (if s.cancelled then Stopped else AwaitingOther, s)
    else (AwaitingAnswer, s.(pending := true, waiting := true))
  }

  /** A task waiting for another's question looks again. */
  function LookAgain(s: Shared, attempt: nat): (Phase, Shared) {
    if s.cancelled then (Stopped, s)
    else if s.paused || s.waiting then (AwaitingOther, s)
    else Approve(s, attempt, true)
  }

  /** The answer arrives; a cancellation is always noticed before it. */
  function Answered(s: Shared, attempt: nat, choice: Choice): (Phase, Shared) {
    var closed := s.(pending := false, waiting := false);
    if s.cancelled then (Stopped, closed)
    else match choice
      case Failed => (Stopped, closed)
      case Cancel => (Stopped, closed.(cancelled := true))
      case Retry => Approve(closed.(approved := attempt), attempt, true)
  }

  /** The host's cells, and one method for every stretch of code between two awaits. */
  class Gate {
    var approved: nat
    var pending: bool
    var waiting: bool
    var paused: bool
    var cancelled: bool

    function State(): Shared
      reads this
    {
      Shared(approved, pending, waiting, paused, cancelled)
    }

    constructor ()
      ensures State() == Shared(0, false, false, false, false)
    {
      approved, pending, waiting, paused, cancelled := 0, false, false, false, false;
    }

    /** Asks for approval if it is needed. A question opens exactly if none is open and the attempt is
        beyond those approved; nothing else changes, and only what needs no approval, or has it, passes. */
    method Enter(attempt: nat, requiresApproval: bool) returns (phase: Phase)
      modifies this
      ensures (phase, State()) == Approve(old(State()), attempt, requiresApproval)
      ensures phase.AwaitingAnswer? <==> requiresApproval && attempt > old(approved) && !old(pending)
      ensures State() == if phase.AwaitingAnswer? then old(State()).(pending := true, waiting := true) else old(State())
      ensures phase.AwaitingOther? <==> old(pending) && !cancelled && requiresApproval && attempt > approved
      ensures !requiresApproval || attempt <= approved ==>
        phase == if cancelled then Stopped else if paused || waiting then AtGate else Proceeded
      ensures phase.Proceeded? ==> !cancelled && !paused && !waiting && (!requiresApproval || attempt <= approved)
      ensures cancelled ==> phase.Stopped? || (phase.AwaitingAnswer? && !old(pending))
    {
      if requiresApproval && attempt > approved {
        if pending {
          phase := if cancelled then Stopped else AwaitingOther;
          return;
        }
        pending := true;
        waiting := true;
        return AwaitingAnswer;
      }
      phase := Pass();
    }

    method Pass() returns (phase: Phase)
      ensures phase == Checkpoint(State())
      ensures phase == if cancelled then Stopped else if paused || waiting then AtGate else Proceeded
    {
      if cancelled { return Stopped; }
      if !(paused || waiting) { return Proceeded; }
      phase := AtGate;
    }

    /** Looks again after another's question. It passes only if by now its attempt is approved; while
        the gate is closed it keeps waiting, and it asks itself only once no question is open. */
    method Wake(attempt: nat) returns (phase: Phase)
      modifies this
      ensures (phase, State()) == LookAgain(old(State()), attempt)
      ensures cancelled <==> phase.Stopped?
      ensures !cancelled && (old(paused) || old(waiting)) ==> phase.AwaitingOther?
      ensures phase.Proceeded? <==> !cancelled && !old(paused) && !old(waiting) && attempt <= approved
      ensures phase.AwaitingOther? <==>
        !cancelled && (old(paused) || old(waiting) || (old(pending) && attempt > approved))
      ensures phase.AwaitingAnswer? ==> !old(pending) && !old(waiting) && pending && waiting && attempt > approved
      ensures !phase.AwaitingAnswer? ==> State() == old(State())
    {
      if cancelled { return Stopped; }
      if paused || waiting { return AwaitingOther; }
      phase := Enter(attempt, true);
    }

    /** Takes the answer. The question is closed whatever it is; the attempt goes on only if the answer
        is to retry and nothing was cancelled, and then it is approved. */
    method Answer(attempt: nat, choice: Choice) returns (phase: Phase)
      modifies this
      ensures (phase, State()) == Answered(old(State()), attempt, choice)
      ensures !pending && !waiting && paused == old(paused)
      ensures cancelled <==> old(cancelled) || choice.Cancel?
      ensures approved == if choice.Retry? && !old(cancelled) then attempt else old(approved)
      ensures phase.Proceeded? <==> choice.Retry? && !old(cancelled) && !paused
      ensures phase.AtGate? <==> choice.Retry? && !old(cancelled) && paused
      ensures phase.Proceeded? || phase.AtGate? || phase.Stopped?
    {
      var interrupted := cancelled;
      pending := false;
      waiting := false;
      if interrupted || choice.Failed? { return Stopped; }
      match choice
      case Retry =>
        approved := attempt;
        phase := Enter(attempt, true);
      case Cancel =>
        cancelled := true;
        phase := Stopped;
    }
  }

  // ---- Every interleaving ------------------------------------------------------------------------

  datatype World = World(shared: Shared, tasks: map<nat, Task>, approvals: seq<nat>)

  datatype Action =
    | Begin(id: nat, attempt: nat, requiresApproval: bool)
    | Look(id: nat)
    | Reply(id: nat, choice: Choice)
    | Knock(id: nat)
    | CancelAll
    | Pause
    | Resume

  const START := World(Shared(0, false, false, false, false), map[], [])

  predicate Enabled(w: World, a: Action) {
    match a
    case Begin(id, _, _) => id !in w.tasks
    case Look(id) => id in w.tasks && w.tasks[id].phase == AwaitingOther
    case Reply(id, _) => id in w.tasks && w.tasks[id].phase == AwaitingAnswer
    case Knock(id) => id in w.tasks && w.tasks[id].phase == AtGate
    case CancelAll => true
    case Pause => true
    case Resume => true
  }

  function Moved(w: World, id: nat, task: Task, turn: (Phase, Shared)): World {
    World(turn.1, w.tasks[id := task.(phase := turn.0)],
          if turn.1.approved != w.shared.approved then w.approvals + [turn.1.approved] else w.approvals)
  }

  function Apply(w: World, a: Action): World
    requires Enabled(w, a)
  {
    match a
    case Begin(id, attempt, required) =>
      Moved(w, id, Task(attempt, required, Stopped), Approve(w.shared, attempt, required))
    case Look(id) => Moved(w, id, w.tasks[id], LookAgain(w.shared, w.tasks[id].attempt))
    case Reply(id, choice) => Moved(w, id, w.tasks[id], Answered(w.shared, w.tasks[id].attempt, choice))
    case Knock(id) => Moved(w, id, w.tasks[id], (Checkpoint(w.shared), w.shared))
    case CancelAll => w.(shared := w.shared.(cancelled := true))
    case Pause => w.(shared := w.shared.(paused := true))
    case Resume => w.(shared := w.shared.(paused := false))
  }

  function After(actions: seq<Action>): World {
    if actions == [] then START
    else
      var w, a := After(actions[..|actions| - 1]), actions[|actions| - 1];
      if Enabled(w, a) then Apply(w, a) else w
  }

  predicate Asks(w: World, id: nat) {
    id in w.tasks && w.tasks[id].phase == AwaitingAnswer
  }

  /** The question is open exactly while one task asks it; what it asks for is not approved yet. */
  ghost predicate OneQuestion(w: World) {
    && w.shared.pending == w.shared.waiting
    && (w.shared.pending <==> exists id :: Asks(w, id))
    && (forall id, other :: Asks(w, id) && Asks(w, other) ==> id == other)
    && (forall id :: Asks(w, id) ==> w.tasks[id].attempt > w.shared.approved && w.tasks[id].requiresApproval)
    && (forall id :: id in w.tasks && w.tasks[id].phase == AwaitingOther ==> w.tasks[id].requiresApproval)
  }

  /** Only approved attempts are past the approval. */
  ghost predicate Approved(w: World) {
    forall id :: id in w.tasks && (w.tasks[id].phase == AtGate || w.tasks[id].phase == Proceeded) ==>
      !w.tasks[id].requiresApproval || w.tasks[id].attempt <= w.shared.approved
  }

  /** Each approval is for a later attempt than the one before. */
  ghost predicate Increasing(w: World) {
    && (forall i, j :: 0 <= i < j < |w.approvals| ==> w.approvals[i] < w.approvals[j])
    && (w.approvals == [] ==> w.shared.approved == 0)
    && (w.approvals != [] ==> w.shared.approved == w.approvals[|w.approvals| - 1])
  }

  ghost predicate Inv(w: World) {
    OneQuestion(w) && Approved(w) && Increasing(w)
  }

  /** A task moves while no question of another task is open: afterwards the question is its own,
      or closed. */
  lemma MovedAlone(w: World, id: nat, task: Task, turn: (Phase, Shared))
    requires OneQuestion(w) && (forall other :: Asks(w, other) ==> other == id)
    requires turn.1.pending == turn.1.waiting == (turn.0 == AwaitingAnswer)
    requires turn.0 == AwaitingAnswer ==> task.attempt > turn.1.approved && task.requiresApproval
    requires turn.0 == AwaitingOther ==> task.requiresApproval
    ensures OneQuestion(Moved(w, id, task, turn))
  {
    var next := Moved(w, id, task, turn);
    assert forall other :: other != id ==> (Asks(next, other) <==> Asks(w, other));
    assert Asks(next, id) <==> turn.0 == AwaitingAnswer;
  }

  /** A task moves past an open question of another, leaving what is shared alone. */
  lemma MovedBeside(w: World, id: nat, task: Task, turn: (Phase, Shared))
    requires OneQuestion(w) && !Asks(w, id) && turn.0 != AwaitingAnswer && turn.1 == w.shared
    requires turn.0 == AwaitingOther ==> task.requiresApproval
    ensures OneQuestion(Moved(w, id, task, turn))
  {
    var next := Moved(w, id, task, turn);
    assert forall other :: Asks(next, other) <==> Asks(w, other);
  }

  lemma QuestionKept(w: World, a: Action)
    requires OneQuestion(w) && Enabled(w, a)
    ensures OneQuestion(Apply(w, a))
  {
    match a
    case Begin(id, attempt, required) =>
      var turn := Approve(w.shared, attempt, required);
      hide OneQuestion;
      QuestionOpen(w, id);
      if w.shared.pending { MovedBeside(w, id, Task(attempt, required, Stopped), turn); }
      else { MovedAlone(w, id, Task(attempt, required, Stopped), turn); }
    case Look(id) =>
      var turn := LookAgain(w.shared, w.tasks[id].attempt);
      QuestionOpen(w, id);
      assert w.tasks[id].requiresApproval;
      hide OneQuestion;
      if w.shared.pending { MovedBeside(w, id, w.tasks[id], turn); } else { MovedAlone(w, id, w.tasks[id], turn); }
    case Reply(id, choice) =>
      assert Asks(w, id) && w.tasks[id].requiresApproval;
      MovedAlone(w, id, w.tasks[id], Answered(w.shared, w.tasks[id].attempt, choice));
    case Knock(id) =>
      assert !Asks(w, id);
      MovedBeside(w, id, w.tasks[id], (Checkpoint(w.shared), w.shared));
    case CancelAll => SameTasks(w, Apply(w, a));
    case Pause => SameTasks(w, Apply(w, a));
    case Resume => SameTasks(w, Apply(w, a));
  }

  lemma QuestionOpen(w: World, id: nat)
    requires OneQuestion(w)
    ensures w.shared.pending == w.shared.waiting
    ensures !w.shared.pending ==> forall other :: !Asks(w, other)
  {
  }

  lemma SameTasks(w: World, next: World)
    requires OneQuestion(w) && next.tasks == w.tasks && next.shared.approved == w.shared.approved
    requires next.shared.pending == w.shared.pending && next.shared.waiting == w.shared.waiting
    ensures OneQuestion(next)
  {
    assert forall id :: Asks(next, id) <==> Asks(w, id);
  }

  lemma ApprovedKept(w: World, a: Action)
    requires OneQuestion(w) && Approved(w) && Increasing(w) && Enabled(w, a)
    ensures Approved(Apply(w, a)) && Increasing(Apply(w, a))
    ensures Apply(w, a).shared.approved >= w.shared.approved
  {
    if a.Reply? { assert Asks(w, a.id); }
    hide OneQuestion;
  }

  lemma InvKept(w: World, a: Action)
    requires Inv(w) && Enabled(w, a)
    ensures Inv(Apply(w, a))
  {
    hide OneQuestion, Approved, Increasing, Apply, Enabled;
    QuestionKept(w, a);
    ApprovedKept(w, a);
  }

  lemma {:induction false} RunInv(actions: seq<Action>)
    ensures Inv(After(actions))
  {
    if actions != [] {
      var before, last := actions[..|actions| - 1], actions[|actions| - 1];
      RunInv(before);
      hide Inv, Apply, Enabled;
      if Enabled(After(before), last) { InvKept(After(before), last); }
    }
  }

  /** At most one question is open, and while one is, no attempt passes the gate. */
  lemma AtMostOneQuestion(actions: seq<Action>, id: nat, other: nat)
    ensures Asks(After(actions), id) && Asks(After(actions), other) ==> id == other
    ensures Asks(After(actions), id) ==> Checkpoint(After(actions).shared) != Proceeded
  {
    RunInv(actions);
    hide After;
  }

  /** Approvals strictly increase: no attempt number is approved twice. */
  lemma ApprovalsIncrease(actions: seq<Action>, i: nat, j: nat)
    requires i < j < |After(actions).approvals|
    ensures After(actions).approvals[i] < After(actions).approvals[j] <= After(actions).shared.approved
  {
    RunInv(actions);
    hide After;
  }

  /** An attempt that needs approval goes on only if that attempt, or a later one, was approved. */
  lemma OnlyApprovedProceed(actions: seq<Action>, id: nat)
    requires var w := After(actions);
      id in w.tasks && w.tasks[id].phase == Proceeded && w.tasks[id].requiresApproval && w.tasks[id].attempt > 0
    ensures var w := After(actions);
      exists k :: 0 <= k < |w.approvals| && w.approvals[k] >= w.tasks[id].attempt
  {
    RunInv(actions);
    hide After;
    var w := After(actions);
    assert w.approvals[|w.approvals| - 1] >= w.tasks[id].attempt;
  }

  function Past(w: World): set<nat> {
    set id | id in w.tasks && w.tasks[id].phase == Proceeded
  }

  lemma CancelKept(w: World, a: Action)
    requires Enabled(w, a) && w.shared.cancelled
    ensures Apply(w, a).shared.cancelled && Past(Apply(w, a)) == Past(w)
  {
    if a.Begin? || a.Look? || a.Reply? || a.Knock? {
      assert forall id :: id != a.id ==> (id in Past(Apply(w, a)) <==> id in Past(w));
      assert a.id !in Past(w) && a.id !in Past(Apply(w, a));
    }
  }

  /** From a cancellation on, by a Cancel answer or otherwise, no run lets another attempt pass the
      gate. */
  lemma {:induction false} NothingPassesAfterCancel(actions: seq<Action>, n: nat)
    requires n <= |actions| && After(actions[..n]).shared.cancelled
    ensures After(actions).shared.cancelled && Past(After(actions)) == Past(After(actions[..n]))
    decreases |actions|
  {
    if n < |actions| {
      var before, last := actions[..|actions| - 1], actions[|actions| - 1];
      assert before[..n] == actions[..n];
      NothingPassesAfterCancel(before, n);
      hide Apply, Enabled, Past;
      if Enabled(After(before), last) { CancelKept(After(before), last); }
    } else {
      assert actions[..n] == actions;
    }
  }

  lemma PauseKept(w: World, a: Action)
    requires Enabled(w, a) && w.shared.paused && !a.Resume?
    ensures Apply(w, a).shared.paused && Past(Apply(w, a)) == Past(w)
  {
    if a.Begin? || a.Look? || a.Reply? || a.Knock? {
      assert forall id :: id != a.id ==> (id in Past(Apply(w, a)) <==> id in Past(w));
      assert a.id !in Past(w) && a.id !in Past(Apply(w, a));
    }
  }

  /** From a pause until it is lifted nobody passes the gate. */
  lemma {:induction false} NothingPassesWhilePaused(actions: seq<Action>, n: nat)
    requires n < |actions| && actions[n].Pause? && forall i :: n < i < |actions| ==> !actions[i].Resume?
    ensures After(actions).shared.paused && Past(After(actions)) == Past(After(actions[..n]))
    decreases |actions|
  {
    var before, last := actions[..|actions| - 1], actions[|actions| - 1];
    if n < |before| {
      assert before[..n] == actions[..n];
      NothingPassesWhilePaused(before, n);
      hide Apply, Enabled, Past;
      if Enabled(After(before), last) { PauseKept(After(before), last); }
    } else {
      assert before == actions[..n];
    }
  }

  /** Once it is lifted, a task at the gate passes when it looks again, unless a question is open or all was
      cancelled. */
  lemma PassesAfterResume(w: World, id: nat)
    requires id in w.tasks && w.tasks[id].phase == AtGate
    ensures var next := Apply(w, Resume);
      && next.tasks == w.tasks && next.shared == w.shared.(paused := false)
      && (Apply(next, Knock(id)).tasks[id].phase == Proceeded <==> !w.shared.cancelled && !w.shared.waiting)
  {
  }

  /** An answer to cancel is final for all: whatever happens after it in any run, nobody passes who had
      not passed before it. */
  lemma CancelAnswerIsFinal(actions: seq<Action>, n: nat, id: nat)
    requires n < |actions| && actions[n] == Reply(id, Cancel) && Asks(After(actions[..n]), id)
    ensures After(actions).shared.cancelled && Past(After(actions)) == Past(After(actions[..n]))
  {
    var before, answer := actions[..n], actions[n];
    assert actions[..n + 1][..n] == before && actions[..n + 1][n] == answer;
    AnswerCancels(After(before), id);
    NothingPassesAfterCancel(actions, n + 1);
  }

  lemma AnswerCancels(w: World, id: nat)
    requires Asks(w, id)
    ensures Apply(w, Reply(id, Cancel)).shared.cancelled && Past(Apply(w, Reply(id, Cancel))) == Past(w)
  {
    var next := Apply(w, Reply(id, Cancel));
    assert forall other :: other != id ==> (other in Past(next) <==> other in Past(w));
  }
}
