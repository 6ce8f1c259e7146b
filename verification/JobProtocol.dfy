/** The order of a job's calls to its host, as an automaton over the trace of calls, and what that
    order promises. */
module JobProtocol {
  import opened Options

  type Uri = nat

  // ---- What the host sees -----------------------------------------------------------------------

  datatype Event =
    | Checkpoint | Report | Warn
    | Fetch(uri: Uri) | Observe | ChooseImage | ChooseLevel | Probe
    | BeginOutput(total: nat)
    | CallTile(index: nat, attempt: nat)
    | TileAcquired(index: nat)
    | Finish(reused: seq<nat>)
    | Settle

  /** Every tile of the plan was acquired or reused, none twice. */
  ghost predicate EveryTile(total: nat, done: set<nat>, reused: seq<nat>) {
    && (forall i, j :: 0 <= i < j < |reused| ==> reused[i] != reused[j])
    && (forall i :: 0 <= i < |reused| ==> reused[i] < total && reused[i] !in done)
    && (forall i: nat :: i < total <==> i in done || i in reused)
  }

  /** How far a job is: before the output is begun, acquiring, finished, or settled. Before the
      output, how many checks for cancellation no read has used; and whether the last call was one. */
  datatype Stage =
    | Before(unspent: nat, checked: bool)
    | Output(total: nat, done: set<nat>, checked: bool)
    | Finished
    | Settled
    | Violated

  /** The protocol: what a call may follow. Every metadata read uses up a check for cancellation of
      its own, made since discovery began, whatever other reads do in between. An observation, a probe
      or the choice of an image directly follows one, and the output is finished only after passing
      the gate. */
  ghost function Next(s: Stage, e: Event): Stage {
    match e
    case Settle => if s.Settled? || s.Violated? then Violated else Settled
    case Checkpoint =>
      if s.Before? then Before(s.unspent + 1, true) else if s.Output? then Output(s.total, s.done, true) else Violated
    case Report => if s.Before? then Before(0, false) else if s.Output? then s else Violated
    case Warn => if s.Before? then Before(0, false) else Violated
    case ChooseLevel => if s.Before? then Before(0, false) else Violated
    case Fetch(_) => if s.Before? && s.unspent > 0 then Before(s.unspent - 1, false) else Violated
    case ChooseImage => if s.Before? && s.checked && s.unspent > 0 then Before(0, false) else Violated
    case BeginOutput(total) => if s.Before? && total > 0 then Output(total, {}, false) else Violated
    case CallTile(i, _) => if s.Output? && i < s.total && i !in s.done then Output(s.total, s.done, false) else Violated
    case TileAcquired(i) =>
      if s.Output? && i < s.total && i !in s.done then Output(s.total, s.done + {i}, false) else Violated
    case Finish(reused) => if s.Output? && s.checked && EveryTile(s.total, s.done, reused) then Finished else Violated
    case _ => if s.Before? && s.checked && s.unspent > 0 then Before(s.unspent - 1, false) else Violated
  }

  ghost function Monitor(trace: seq<Event>): Stage {
    if trace == [] then Before(0, false) else Next(Monitor(trace[..|trace| - 1]), trace[|trace| - 1])
  }

  lemma MonitorMore(trace: seq<Event>, e: Event)
    ensures Monitor(trace + [e]) == Next(Monitor(trace), e)
  {
    assert (trace + [e])[..|trace|] == trace;
  }

  // ---- Where discovery began --------------------------------------------------------------------------

  /** Where the last discovery began: after the last choice of an image, or after the first check and
      report. */
  function Began(trace: seq<Event>): nat {
    if trace == [] then 2
    else if trace[|trace| - 1].ChooseImage? then |trace|
    else Began(trace[..|trace| - 1])
  }

  lemma BeganMore(trace: seq<Event>, e: Event)
    ensures Began(trace + [e]) == if e.ChooseImage? then |trace| + 1 else Began(trace)
  {
    assert (trace + [e])[..|trace|] == trace;
  }

  lemma {:induction false} BeganOn(trace: seq<Event>, more: seq<Event>)
    requires forall i :: 0 <= i < |more| ==> !more[i].ChooseImage?
    ensures Began(trace + more) == Began(trace)
    decreases |more|
  {
    if more == [] {
      assert trace + more == trace;
    } else {
      var n := |more| - 1;
      BeganOn(trace, more[..n]);
      BeganMore(trace + more[..n], more[n]);
      assert trace + more == trace + more[..n] + [more[n]];
    }
  }

  // ---- Every read has its own check -----------------------------------------------------------------

  predicate DirectlyChecked(e: Event) {
    e.Observe? || e.Probe? || e.ChooseImage?
  }

  /** The check that belongs to call `i`, if it needs one: an earlier one, and for all but reads the
      one directly before. */
  predicate Owned(trace: seq<Event>, own: seq<Option<nat>>, i: nat)
    requires i < |trace| == |own|
  {
    if trace[i].Fetch? || DirectlyChecked(trace[i]) then
      && own[i].Some? && own[i].value < i && trace[own[i].value].Checkpoint?
      && (DirectlyChecked(trace[i]) ==> own[i].value == i - 1)
    else own[i].None?
  }

  /** Each read, observation, probe and choice of an image has a check of its own. */
  ghost predicate Paired(trace: seq<Event>, own: seq<Option<nat>>) {
    && |own| == |trace|
    && (forall i :: 0 <= i < |trace| ==> Owned(trace, own, i))
    && (forall i, j :: 0 <= i < j < |own| && own[i].Some? ==> own[i] != own[j])
  }

  ghost predicate OwnChecks(trace: seq<Event>) {
    exists own :: Paired(trace, own)
  }

  /** Checks that belong to nothing yet. */
  ghost predicate Unused(trace: seq<Event>, own: seq<Option<nat>>, free: set<nat>) {
    forall c :: c in free ==> c < |trace| && trace[c].Checkpoint? && Some(c) !in own
  }

  /** As many are left as the protocol counts; the last call's, if it was one, is among them. */
  ghost predicate Counted(s: Stage, length: nat, free: set<nat>) {
    s.Before? ==> |free| == s.unspent && (s.checked ==> length > 0 && length - 1 in free)
  }

  /** What the protocol promises: no read borrows another's check. */
  lemma {:induction false} ProtocolPairs(trace: seq<Event>) returns (own: seq<Option<nat>>, free: set<nat>)
    requires !Monitor(trace).Violated?
    ensures Paired(trace, own) && Unused(trace, own, free) && Counted(Monitor(trace), |trace|, free)
  {
    if trace == [] {
      own, free := [], {};
    } else {
      var n := |trace| - 1;
      var before, e := trace[..n], trace[n];
      assert before + [e] == trace;
      MonitorMore(before, e);
      hide EveryTile, Paired, Unused, Counted;
      own, free := ProtocolPairs(before);
      hide Monitor;
      own, free := PairsStep(before, e, own, free);
    }
  }

  lemma PairsStep(before: seq<Event>, e: Event, own: seq<Option<nat>>, free: set<nat>)
    returns (more: seq<Option<nat>>, left: set<nat>)
    requires Paired(before, own) && Unused(before, own, free)
    requires Counted(Monitor(before), |before|, free) && !Next(Monitor(before), e).Violated?
    ensures Paired(before + [e], more) && Unused(before + [e], more, left)
    ensures Counted(Next(Monitor(before), e), |before| + 1, left)
  {
    hide Monitor, EveryTile, Paired, Unused;
    var s, n := Monitor(before), |before|;
    more, left := own + [None], {};
    if e.Checkpoint? {
      left := free + {n};
      StillPaired(before, e, own, None);
      StillUnused(before, e, own, None, free);
      NewUnused(before, own, free);
    } else if e.Fetch? || DirectlyChecked(e) {
      var c :| c in free && (DirectlyChecked(e) ==> c == n - 1);
      more := own + [Some(c)];
      left := if e.ChooseImage? then {} else free - {c};
      IsUnused(before, own, free, c);
      StillPaired(before, e, own, Some(c));
      StillUnused(before, e, own, Some(c), left);
    } else {
      StillPaired(before, e, own, None);
      StillUnused(before, e, own, None, left);
    }
  }

  lemma StillPaired(before: seq<Event>, e: Event, own: seq<Option<nat>>, check: Option<nat>)
    requires Paired(before, own)
    requires if e.Fetch? || DirectlyChecked(e) then
      && check.Some? && check.value < |before| && before[check.value].Checkpoint? && check !in own
      && (DirectlyChecked(e) ==> check.value == |before| - 1) else check.None?
    ensures Paired(before + [e], own + [check])
  {
    var trace, more := before + [e], own + [check];
    forall i | 0 <= i < |trace|
      ensures Owned(trace, more, i)
    {
      if i < |before| { assert Owned(before, own, i); }
    }
  }

  lemma IsUnused(before: seq<Event>, own: seq<Option<nat>>, free: set<nat>, c: nat)
    requires Unused(before, own, free) && c in free
    ensures c < |before| && before[c].Checkpoint? && Some(c) !in own
    ensures Unused(before, own, free - {c}) && Unused(before, own, {})
  {
  }

  lemma StillUnused(before: seq<Event>, e: Event, own: seq<Option<nat>>, check: Option<nat>, left: set<nat>)
    requires Paired(before, own) && Unused(before, own, left) && (check.Some? ==> check.value !in left)
    ensures Unused(before + [e], own + [check], left)
  {
  }

  lemma NewUnused(before: seq<Event>, own: seq<Option<nat>>, free: set<nat>)
    requires Paired(before, own) && Unused(before, own, free)
    ensures Unused(before + [Checkpoint], own + [None], free + {|before|}) && |before| !in free
    ensures |free + {|before|}| == |free| + 1
  {
    forall i | 0 <= i < |own|
      ensures own[i] != Some(|before|)
    {
      assert Owned(before, own, i);
    }
  }
}
