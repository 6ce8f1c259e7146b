/** The diagnostic log: a bounded tail of what was recorded, failures grouped, and a report shrunk
    to a bound. */
module DiagnosticLogs {
  import opened Arithmetic
  import opened Options

  const U32_MAX: nat := 0xFFFF_FFFF
  const MAX_RECORDS: nat := 1000
  const MAX_LOG_BYTES: nat := 262_144
  const MAX_GROUPS: nat := 16

  datatype Level = Trace | Debug | Info | Warn | Error

  /** `key` stands for the event and its typed facts; `size` is the record's serialized length. */
  datatype Record = Record(sequence: nat, level: Level, key: nat, size: nat)
  datatype Group = Group(key: nat, count: nat, first: Record, last: Record)

  datatype State = State(sequence: nat, bytes: nat, records: seq<Record>, failures: seq<Group>, omitted: nat)

  const EMPTY := State(0, 0, [], [], 0)

  predicate IsFailure(level: Level) {
    level.Warn? || level.Error?
  }

  /** The place of the group with this key. */
  function Find(groups: seq<Group>, key: nat): (r: Option<nat>)
    ensures r.Some? ==> r.value < |groups| && groups[r.value].key == key
    ensures r.None? ==> forall i :: 0 <= i < |groups| ==> groups[i].key != key
  {
    if groups == [] then None
    else if groups[0].key == key then Some(0)
    else
      var later := Find(groups[1..], key);
      if later.Some? then Some(later.value + 1) else None
  }

  /** A failure joins its group, or starts one while there is room. */
  function Grouped(groups: seq<Group>, r: Record): seq<Group> {
    var i := Find(groups, r.key);
    if i.Some? then
      var g := groups[i.value];
      groups[i.value := g.(count := Min(g.count + 1, U32_MAX), last := r)]
    else if |groups| < MAX_GROUPS then groups + [Group(r.key, 1, r, r)]
    else groups
  }

  predicate TooFull(records: seq<Record>, bytes: nat, size: nat) {
    records != [] && (|records| >= MAX_RECORDS || bytes + size > MAX_LOG_BYTES)
  }

  function WithoutFirst(s: State): State
    requires s.records != []
  {
    s.(records := s.records[1..], bytes := SaturatingSub(s.bytes, s.records[0].size), omitted := s.omitted + 1)
  }

  /** Oldest records leave until the new one fits, or none is left. */
  function Evicted(s: State, size: nat): State
    decreases |s.records|
  {
    if TooFull(s.records, s.bytes, size) then
      Evicted(WithoutFirst(s), size)
    else s
  }

  function Stored(s: State, r: Record): State {
    var room := Evicted(s, r.size);
    room.(bytes := room.bytes + r.size, records := room.records + [r])
  }

  predicate Repeated(s: State, level: Level, key: nat) {
    IsFailure(level) && Find(s.failures, key).Some?
  }

  /** One call: the record gets the next number; a failure is grouped; all but traces and repeats
      are stored. */
  function Recorded(s: State, level: Level, key: nat, size: nat): State {
    var r := Record(Min(s.sequence + 1, U32_MAX), level, key, size);
    var failures := if IsFailure(level) then Grouped(s.failures, r) else s.failures;
    var grouped := s.(sequence := r.sequence, failures := failures);
    if level.Trace? || Repeated(s, level, key) then grouped else Stored(grouped, r)
  }

  class Diagnostics {
    var sequence: nat
    var bytes: nat
    var records: seq<Record>
    var failures: seq<Group>
    var omitted: nat

    constructor ()
      ensures Current() == EMPTY
    {
      sequence, bytes, records, failures, omitted := 0, 0, [], [], 0;
    }

    function Current(): State
      reads this
    {
      State(sequence, bytes, records, failures, omitted)
    }

    method Push(r: Record)
      modifies this
      ensures Current() == Stored(old(Current()), r)
      ensures sequence == old(sequence) && failures == old(failures) && omitted >= old(omitted)
    {
      ghost var target := Evicted(Current(), r.size);
      while records != [] && (|records| >= MAX_RECORDS || bytes + r.size > MAX_LOG_BYTES)
        invariant Evicted(Current(), r.size) == target && sequence == old(sequence) && failures == old(failures)
        invariant omitted >= old(omitted)
        decreases |records|
      {
        var first := records[0];
        records := records[1..];
        bytes := SaturatingSub(bytes, first.size);
        omitted := omitted + 1;
      }
      bytes := bytes + r.size;
      records := records + [r];
    }

    method Log(level: Level, key: nat, size: nat) returns (notify: bool)
      modifies this
      ensures Current() == Recorded(old(Current()), level, key, size)
      ensures notify <==> !Repeated(old(Current()), level, key)
      ensures !notify <==>
        (level.Warn? || level.Error?) && exists i :: 0 <= i < |old(failures)| && old(failures)[i].key == key
      ensures sequence == if old(sequence) < 0xFFFF_FFFF then old(sequence) + 1 else 0xFFFF_FFFF
      ensures level.Trace? || !notify ==> records == old(records) && bytes == old(bytes) && omitted == old(omitted)
      ensures !level.Trace? && notify ==>
        records != [] && records[|records| - 1] == Record(sequence, level, key, size) && omitted >= old(omitted)
    {
      sequence := Min(sequence + 1, U32_MAX);
      var r := Record(sequence, level, key, size);
      var repeated := false;
      if IsFailure(level) {
        var i := Find(failures, key);
        if i.Some? {
          var g := failures[i.value];
          failures := failures[i.value := g.(count := Min(g.count + 1, U32_MAX), last := r)];
          repeated := true;
        } else if |failures| < MAX_GROUPS {
          failures := failures + [Group(key, 1, r, r)];
        }
      }
      if !level.Trace? && !repeated { Push(r); }
      notify := !repeated;
    }
  }

  // ---- Whole histories ----------------------------------------------------------------------------

  datatype Entry = Entry(level: Level, key: nat, size: nat)

  function After(entries: seq<Entry>): State {
    if entries == [] then EMPTY
    else
      var e := entries[|entries| - 1];
      Recorded(After(entries[..|entries| - 1]), e.level, e.key, e.size)
  }

  /** The record an entry makes: numbered by its place, up to the largest number. */
  function Made(entries: seq<Entry>, i: nat): Record
    requires i < |entries|
  {
    Record(Min(i + 1, U32_MAX), entries[i].level, entries[i].key, entries[i].size)
  }

  /** Every record ever stored, in order: what the log would be without its bounds. */
  function Unbounded(entries: seq<Entry>): seq<Record> {
    if entries == [] then []
    else
      var before, e := entries[..|entries| - 1], entries[|entries| - 1];
      Unbounded(before)
      + if e.level.Trace? || Repeated(After(before), e.level, e.key) then [] else [Made(entries, |entries| - 1)]
  }

  function Sizes(records: seq<Record>): nat {
    if records == [] then 0 else records[0].size + Sizes(records[1..])
  }

  lemma {:induction false} SizesMore(records: seq<Record>, r: Record)
    ensures Sizes(records + [r]) == Sizes(records) + r.size
  {
    if records != [] {
      SizesMore(records[1..], r);
      assert (records + [r])[1..] == records[1..] + [r];
    }
  }

  /** The log is the end of everything stored, its bytes are the sum of its records', and it keeps
      within its bounds unless a single record is too large. */
  ghost predicate LogInv(s: State, all: seq<Record>) {
    && s.omitted <= |all| && s.records == all[s.omitted..] && s.bytes == Sizes(s.records)
    && |s.records| <= MAX_RECORDS && (s.bytes <= MAX_LOG_BYTES || |s.records| == 1)
  }

  lemma {:induction false} EvictionKeeps(s: State, all: seq<Record>, size: nat)
    requires s.omitted <= |all| && s.records == all[s.omitted..]
    requires s.bytes == Sizes(s.records) && |s.records| <= MAX_RECORDS
    ensures var t := Evicted(s, size);
      && t.omitted <= |all| && t.records == all[t.omitted..]
      && t.bytes == Sizes(t.records) && |t.records| <= MAX_RECORDS
      && !TooFull(t.records, t.bytes, size) && t.sequence == s.sequence && t.failures == s.failures
    decreases |s.records|
  {
    if TooFull(s.records, s.bytes, size) {
      var next := WithoutFirst(s);
      assert next.records == all[next.omitted..];
      EvictionKeeps(next, all, size);
    }
  }

  lemma StoringKeeps(s: State, all: seq<Record>, r: Record)
    requires LogInv(s, all)
    ensures LogInv(Stored(s, r), all + [r]) && Stored(s, r).sequence == s.sequence
    ensures Stored(s, r).failures == s.failures
  {
    EvictionKeeps(s, all, r.size);
    var room := Evicted(s, r.size);
    SizesMore(room.records, r);
    hide Evicted;
    assert (all + [r])[room.omitted..] == all[room.omitted..] + [r];
  }

  /** There is no room beside these records. */
  ghost predicate Crowded(records: seq<Record>, size: nat) {
    records != [] && (|records| >= 1000 || Sizes(records) + size > 262_144)
  }

  /** Records leave only as needed: beside each that left, and those after it, the new one had no room. */
  lemma LeavesAsNeeded(s: State, all: seq<Record>, r: Record)
    requires LogInv(s, all)
    ensures var next := Stored(s, r);
      && s.omitted <= next.omitted <= |all| && next.records == all[next.omitted..] + [r]
      && !Crowded(all[next.omitted..], r.size)
      && forall m :: s.omitted <= m < next.omitted ==> Crowded(all[m..], r.size)
  {
    EvictsAsNeeded(s, all, r.size);
    EvictionKeeps(s, all, r.size);
  }

  lemma {:induction false} EvictsAsNeeded(s: State, all: seq<Record>, size: nat)
    requires s.omitted <= |all| && s.records == all[s.omitted..]
    requires s.bytes == Sizes(s.records) && |s.records| <= MAX_RECORDS
    ensures var t := Evicted(s, size);
      s.omitted <= t.omitted <= |all| && forall m :: s.omitted <= m < t.omitted ==> Crowded(all[m..], size)
    decreases |s.records|
  {
    if TooFull(s.records, s.bytes, size) {
      var next := WithoutFirst(s);
      assert next.records == all[next.omitted..];
      EvictsAsNeeded(next, all, size);
    }
  }

  /** How often a failure key occurred, and where first and last. */
  function Occurrences(entries: seq<Entry>, key: nat): seq<Record> {
    if entries == [] then []
    else
      var e := entries[|entries| - 1];
      Occurrences(entries[..|entries| - 1], key)
      + if IsFailure(e.level) && e.key == key then [Made(entries, |entries| - 1)] else []
  }

  /** Each group tells how often its failure occurred, first and last; keys are not repeated. A
      failure without a group is one the full table had no room for. */
  ghost predicate GroupInv(s: State, entries: seq<Entry>) {
    && |s.failures| <= MAX_GROUPS
    && (forall i, j :: 0 <= i < j < |s.failures| ==> s.failures[i].key != s.failures[j].key)
    && (forall i :: 0 <= i < |s.failures| ==> Describes(s.failures[i], Occurrences(entries, s.failures[i].key)))
    && (|s.failures| < MAX_GROUPS ==>
          forall key: nat :: Occurrences(entries, key) != [] ==> Find(s.failures, key).Some?)
  }

  ghost predicate Describes(g: Group, found: seq<Record>) {
    && found != [] && g.count == Min(|found|, U32_MAX) && g.first == found[0] && g.last == found[|found| - 1]
  }

  ghost predicate Inv(s: State, entries: seq<Entry>) {
    LogInv(s, Unbounded(entries)) && GroupInv(s, entries) && s.sequence == Min(|entries|, U32_MAX)
  }

  lemma GroupingKeeps(s: State, entries: seq<Entry>, e: Entry)
    requires GroupInv(s, entries)
    ensures var all := entries + [e];
      var failures := if IsFailure(e.level) then Grouped(s.failures, Made(all, |entries|)) else s.failures;
      GroupInv(s.(failures := failures), all)
  {
    var all := entries + [e];
    var r := Made(all, |entries|);
    assert all[..|all| - 1] == entries;
    assert forall key ::
      Occurrences(all, key) == Occurrences(entries, key) + if IsFailure(e.level) && e.key == key then [r] else [];
    hide Occurrences, Find, GroupInv;
    GroupsAre(s, entries);
    var failures := if IsFailure(e.level) then Grouped(s.failures, r) else s.failures;
    GroupsAre(s.(failures := failures), all);
    if IsFailure(e.level) {
      var place := Find(s.failures, e.key);
      if place.Some? {
        JoinKeeps(s.failures, entries, all, r, place.value);
      } else if |s.failures| < MAX_GROUPS {
        StartKeeps(s.failures, entries, all, r);
      } else {
        FullKeeps(s.failures, entries, all, r);
      }
    } else {
      SameOccurrences(s.failures, entries, all);
    }
  }

  lemma GroupsAre(s: State, entries: seq<Entry>)
    ensures GroupInv(s, entries) <==> Groups(s.failures, entries)
  {
    hide Occurrences, Find, Describes;
  }

  lemma SameOccurrences(groups: seq<Group>, entries: seq<Entry>, all: seq<Entry>)
    requires Groups(groups, entries) && forall key :: Occurrences(all, key) == Occurrences(entries, key)
    ensures Groups(groups, all)
  {
    hide Occurrences, Find, Describes;
  }

  /** A failure that finds no group and no place for one changes no group. */
  lemma FullKeeps(groups: seq<Group>, entries: seq<Entry>, all: seq<Entry>, r: Record)
    requires |groups| >= MAX_GROUPS && Find(groups, r.key).None? && Groups(groups, entries)
    requires forall key :: Occurrences(all, key) == Occurrences(entries, key) + if key == r.key then [r] else []
    ensures Groups(groups, all)
  {
    hide Occurrences, Describes, Find;
    forall i | 0 <= i < |groups|
      ensures Occurrences(all, groups[i].key) == Occurrences(entries, groups[i].key)
    {
      assert Occurrences(all, groups[i].key) == Occurrences(entries, groups[i].key) + [];
    }
  }

  /** Groups keep their keys: what was found is found. */
  lemma StillFound(groups: seq<Group>, next: seq<Group>, key: nat)
    requires |groups| <= |next| && forall i :: 0 <= i < |groups| ==> next[i].key == groups[i].key
    ensures Find(groups, key).Some? ==> Find(next, key).Some?
  {
    var i := Find(groups, key);
    hide Find;
    if i.Some? { assert next[i.value].key == key; }
  }

  ghost predicate Groups(groups: seq<Group>, entries: seq<Entry>) {
    GroupInv(State(0, 0, [], groups, 0), entries)
  }

  /** A failure that joins its group. */
  lemma JoinKeeps(groups: seq<Group>, entries: seq<Entry>, all: seq<Entry>, r: Record, i: nat)
    requires i < |groups| && groups[i].key == r.key && Find(groups, r.key) == Some(i) && Groups(groups, entries)
    requires forall key :: Occurrences(all, key) == Occurrences(entries, key) + if key == r.key then [r] else []
    ensures Groups(Grouped(groups, r), all)
  {
    var next := Grouped(groups, r);
    hide Occurrences, Find;
    assert forall j :: 0 <= j < |groups| ==> next[j].key == groups[j].key && (j != i ==> next[j] == groups[j]);
    forall j | 0 <= j < |next|
      ensures Describes(next[j], Occurrences(all, next[j].key))
    {
      assert Describes(groups[j], Occurrences(entries, groups[j].key));
    }
    forall key: nat
      ensures Find(groups, key).Some? ==> Find(next, key).Some?
      ensures Occurrences(all, key) != [] ==> Occurrences(entries, key) != [] || key == r.key
    {
      StillFound(groups, next, key);
    }
  }

  /** A failure that starts a group. */
  lemma StartKeeps(groups: seq<Group>, entries: seq<Entry>, all: seq<Entry>, r: Record)
    requires |groups| < MAX_GROUPS && Find(groups, r.key).None? && Groups(groups, entries)
    requires forall key :: Occurrences(all, key) == Occurrences(entries, key) + if key == r.key then [r] else []
    ensures Groups(Grouped(groups, r), all)
  {
    var next := Grouped(groups, r);
    hide Occurrences, Find;
    assert Occurrences(entries, r.key) == [] && next[|groups|].key == r.key;
    assert forall j :: 0 <= j < |groups| ==> next[j] == groups[j];
    forall j | 0 <= j < |groups|
      ensures Describes(next[j], Occurrences(all, next[j].key))
    {
      assert Describes(groups[j], Occurrences(entries, groups[j].key));
    }
    forall key: nat
      ensures Find(groups, key).Some? || key == r.key ==> Find(next, key).Some?
    {
      StillFound(groups, next, key);
    }
  }

  lemma {:induction false} RunInv(entries: seq<Entry>)
    ensures Inv(After(entries), entries)
  {
    if entries == [] {
    } else {
      var before, e := entries[..|entries| - 1], entries[|entries| - 1];
      RunInv(before);
      assert before + [e] == entries;
      hide Inv;
      RecordKeeps(After(before), before, e);
    }
  }

  lemma RecordKeeps(s: State, before: seq<Entry>, e: Entry)
    requires Inv(s, before) && s == After(before)
    ensures Inv(Recorded(s, e.level, e.key, e.size), before + [e])
  {
    hide After, Unbounded, Repeated, Grouped, Stored, LogInv, GroupInv;
    var entries := before + [e];
    var r, all := Made(entries, |before|), Unbounded(before);
    UnboundedMore(before, e);
    GroupingKeeps(s, before, e);
    var failures := if IsFailure(e.level) then Grouped(s.failures, r) else s.failures;
    var grouped := s.(sequence := r.sequence, failures := failures);
    SameLog(s, grouped, all);
    if !(e.level.Trace? || Repeated(s, e.level, e.key)) { StoringKeeps(grouped, all, r); }
    SameGroups(s.(failures := grouped.failures), Recorded(s, e.level, e.key, e.size), entries);
  }

  lemma UnboundedMore(before: seq<Entry>, e: Entry)
    ensures Unbounded(before + [e]) ==
      if e.level.Trace? || Repeated(After(before), e.level, e.key) then Unbounded(before)
      else Unbounded(before) + [Made(before + [e], |before|)]
  {
    hide After, Repeated;
    assert (before + [e])[..|before|] == before;
    assert Unbounded(before) + [] == Unbounded(before);
  }

  lemma SameLog(s: State, t: State, all: seq<Record>)
    requires LogInv(s, all) && t == s.(sequence := t.sequence, failures := t.failures)
    ensures LogInv(t, all)
  {
  }

  lemma SameGroups(s: State, t: State, entries: seq<Entry>)
    requires GroupInv(s, entries) && t.failures == s.failures
    ensures GroupInv(t, entries)
  {
    hide Occurrences, Find, Describes;
  }

  // ---- What a history leaves ---------------------------------------------------------------------

  /** The log is exactly the end of what was stored: stored and omitted together are all of it; its
      bytes are the sum of its records'; it keeps both bounds unless its one record is too large. */
  lemma LogIsBoundedTail(entries: seq<Entry>)
    ensures var s, all := After(entries), Unbounded(entries);
      && |s.records| + s.omitted == |all| && s.records == all[s.omitted..] && s.bytes == Sizes(s.records)
      && |s.records| <= 1000 && (s.bytes <= 262_144 || |s.records| == 1)
  {
    RunInv(entries);
    hide After, Unbounded, GroupInv;
  }

  /** Numbers increase strictly along the log, until they reach the largest. */
  lemma {:induction false} SequencesIncrease(entries: seq<Entry>, i: nat, j: nat)
    requires i < j < |Unbounded(entries)|
    ensures var all := Unbounded(entries);
      && 0 < all[i].sequence <= all[j].sequence <= Min(|entries|, U32_MAX)
      && (all[i].sequence < all[j].sequence || all[j].sequence == U32_MAX)
    decreases |entries|
  {
    var before := entries[..|entries| - 1];
    if j < |Unbounded(before)| {
      SequencesIncrease(before, i, j);
    } else {
      NumberedBelow(before, i);
    }
  }

  lemma {:induction false} NumberedBelow(entries: seq<Entry>, i: nat)
    requires i < |Unbounded(entries)|
    ensures 0 < Unbounded(entries)[i].sequence <= Min(|entries|, U32_MAX)
    decreases |entries|
  {
    var before := entries[..|entries| - 1];
    if i < |Unbounded(before)| { NumberedBelow(before, i); }
  }

  /** At most sixteen groups, one a key, each with its count, first and last occurrence; a failure is
      without one only if the table is full. */
  lemma GroupsSummarize(entries: seq<Entry>, key: nat)
    ensures var s, found := After(entries), Occurrences(entries, key);
      && |s.failures| <= 16
      && (forall i :: 0 <= i < |s.failures| && s.failures[i].key == key ==> Describes(s.failures[i], found))
      && (found != [] && |s.failures| < 16 ==> exists i :: 0 <= i < |s.failures| && s.failures[i].key == key)
  {
    RunInv(entries);
    hide After, Occurrences, LogInv;
  }

  // ---- The report ------------------------------------------------------------------------------------

  datatype Report = Report(records: seq<Record>, failures: seq<Group>, context: seq<nat>, omitted: nat, truncated: nat)

  const MAX_REPORT_BYTES: nat := 1_048_576

  /** The report with some oldest records, last groups and last facts left out, and counted. */
  function Cut(r: Report, records: nat, groups: nat, facts: nat): Report
    requires records <= |r.records| && groups <= |r.failures| && facts <= |r.context|
  {
    Report(r.records[records..], r.failures[..|r.failures| - groups], r.context[..|r.context| - facts],
           r.omitted + records + groups, r.truncated + facts)
  }

  /** Shrinks a report to the bound. Records go first, then groups but one, then facts, and each only
      while the report is still too large: what is left either fits or cannot be cut further. */
  method Shrink(full: Report, size: Report -> nat) returns (r: Report, records: nat, groups: nat, facts: nat)
    ensures records <= |full.records| && groups <= |full.failures| && facts <= |full.context|
    ensures r == Cut(full, records, groups, facts)
    ensures groups > 0 ==> records == |full.records| && |full.failures| - groups >= 1
    ensures facts > 0 ==> records == |full.records| && |full.failures| - groups <= 1
    ensures size(r) <= 1_048_576 || (r.records == [] && |r.failures| <= 1 && r.context == [])
    ensures forall k: nat :: k < records ==> size(Cut(full, k, 0, 0)) > 1_048_576
    ensures forall k: nat :: k < groups ==> size(Cut(full, records, k, 0)) > 1_048_576
    ensures forall k: nat :: k < facts ==> size(Cut(full, records, groups, k)) > 1_048_576
  {
    r, records, groups, facts := full, 0, 0, 0;
    assert r == Cut(full, 0, 0, 0);
    while size(r) > MAX_REPORT_BYTES && r.records != []
      invariant records <= |full.records| && r == Cut(full, records, 0, 0)
      invariant forall k: nat :: k < records ==> size(Cut(full, k, 0, 0)) > MAX_REPORT_BYTES
      decreases |full.records| - records
    {
      r := r.(records := r.records[1..], omitted := r.omitted + 1);
      records := records + 1;
    }
    while size(r) > MAX_REPORT_BYTES && |r.failures| > 1
      invariant groups <= |full.failures| && r == Cut(full, records, groups, 0)
      invariant groups > 0 ==> records == |full.records| && |full.failures| - groups >= 1
      invariant size(r) > MAX_REPORT_BYTES ==> r.records == []
      invariant forall k: nat :: k < groups ==> size(Cut(full, records, k, 0)) > MAX_REPORT_BYTES
      decreases |full.failures| - groups
    {
      r := r.(failures := r.failures[..|r.failures| - 1], omitted := r.omitted + 1);
      groups := groups + 1;
    }
    while size(r) > MAX_REPORT_BYTES && r.context != []
      invariant facts <= |full.context| && r == Cut(full, records, groups, facts)
      invariant facts > 0 ==> records == |full.records| && |full.failures| - groups <= 1
      invariant size(r) > MAX_REPORT_BYTES ==> r.records == [] && |r.failures| <= 1
      invariant forall k: nat :: k < facts ==> size(Cut(full, records, groups, k)) > MAX_REPORT_BYTES
      decreases |full.context| - facts
    {
      r := r.(context := r.context[..|r.context| - 1], truncated := r.truncated + 1);
      facts := facts + 1;
    }
  }
}
