/** Which colour profile and which EXIF block a raster output gets: those of the first tile in plan
    order that has one, whatever was fetched while probing and in whatever order tiles were placed. */
module FinalMetadata {
  import opened Options
  import ZM = ZifMetadata
  import JR = JobRuns

  type Meta = ZM.Meta
  type Part = ZM.Part

  datatype Entry = Entry(position: nat, meta: Meta)
  datatype Placing = Placing(id: nat, position: nat, meta: Meta)
  datatype ReusedTile = ReusedTile(index: nat, position: nat)
  type Store = map<nat, Entry>

  /** What a tile's placing leaves of its metadata; a later placing under the same number replaces it. */
  function Stored(placings: seq<Placing>): Store {
    if placings == [] then map[]
    else
      var p := placings[|placings| - 1];
      var before := Stored(placings[..|placings| - 1]);
      if ZM.BytesOf(p.meta) > 0 then before[p.id := Entry(p.position, p.meta)] else before
  }

  /** The plan index of each reused position. */
  function MappingOf(reused: seq<ReusedTile>): map<nat, nat> {
    if reused == [] then map[]
    else var r := reused[|reused| - 1]; MappingOf(reused[..|reused| - 1])[r.position := r.index]
  }

  function Rank(store: Store, mapping: map<nat, nat>, id: nat): nat {
    if id in store && store[id].position in mapping then mapping[store[id].position] else id
  }

  /** By rank, and by number among equals. */
  predicate Sooner(store: Store, mapping: map<nat, nat>, a: nat, b: nat) {
    Rank(store, mapping, a) < Rank(store, mapping, b)
    || (Rank(store, mapping, a) == Rank(store, mapping, b) && a < b)
  }

  predicate Has(store: Store, part: Part, id: nat) {
    id in store && ZM.Get(store[id].meta, part).Some?
  }

  /** The value of the soonest entry that has this part. */
  ghost predicate Final(store: Store, mapping: map<nat, nat>, part: Part, value: Option<ZM.Bytes>) {
    if value.None? then forall id :: !Has(store, part, id)
    else exists id :: FirstWith(store, mapping, part, id) && ZM.Get(store[id].meta, part) == value
  }

  ghost predicate FirstWith(store: Store, mapping: map<nat, nat>, part: Part, id: nat) {
    && Has(store, part, id)
    && forall other :: Has(store, part, other) && other != id ==> Sooner(store, mapping, id, other)
  }

  lemma FinalIsUnique(store: Store, mapping: map<nat, nat>, part: Part, a: Option<ZM.Bytes>, b: Option<ZM.Bytes>)
    requires Final(store, mapping, part, a) && Final(store, mapping, part, b)
    ensures a == b
  {
    if a.Some? && b.Some? {
      var i :| FirstWith(store, mapping, part, i) && ZM.Get(store[i].meta, part) == a;
      var j :| FirstWith(store, mapping, part, j) && ZM.Get(store[j].meta, part) == b;
      assert i == j || Sooner(store, mapping, i, j);
    }
  }

  // ---- Choosing ----------------------------------------------------------------------------------------

  ghost predicate Before(store: Store, mapping: map<nat, nat>, ordered: seq<nat>, left: set<nat>) {
    && (forall id :: id in left || id in ordered <==> id in store)
    && (forall i, j :: 0 <= i < j < |ordered| ==> Sooner(store, mapping, ordered[i], ordered[j]))
    && (forall i, id :: 0 <= i < |ordered| && id in left ==> Sooner(store, mapping, ordered[i], id))
  }

  ghost predicate Soonest(store: Store, mapping: map<nat, nat>, left: set<nat>, id: nat) {
    id in left && forall other :: other in left && other != id ==> Sooner(store, mapping, id, other)
  }

  lemma OneOrder(store: Store, mapping: map<nat, nat>, a: nat, b: nat, c: nat)
    ensures a != b ==> Sooner(store, mapping, a, b) || Sooner(store, mapping, b, a)
    ensures Sooner(store, mapping, a, b) && Sooner(store, mapping, b, c) ==> Sooner(store, mapping, a, c)
    ensures !Sooner(store, mapping, a, a)
  {
    hide Rank;
  }

  lemma {:induction false} SoonestExists(store: Store, mapping: map<nat, nat>, left: set<nat>)
    requires left != {}
    ensures exists id :: Soonest(store, mapping, left, id)
    decreases |left|
  {
    hide Sooner;
    var one :| one in left;
    var rest := left - {one};
    if rest == {} {
      assert left == {one};
      assert Soonest(store, mapping, left, one);
    } else {
      SoonestExists(store, mapping, rest);
      var id :| Soonest(store, mapping, rest, id);
      OneOrder(store, mapping, id, one, one);
      if Sooner(store, mapping, id, one) {
        assert Soonest(store, mapping, left, id);
      } else {
        forall other | other in left && other != one
          ensures Sooner(store, mapping, one, other)
        {
          assert other in rest;
          OneOrder(store, mapping, one, id, other);
        }
        assert one in left;
        assert forall other :: other in left && other != one ==> Sooner(store, mapping, one, other);
        assert Soonest(store, mapping, left, one);
      }
    }
  }

  /** The entries' numbers, sorted. */
  method Sorted(store: Store, mapping: map<nat, nat>) returns (ordered: seq<nat>)
    ensures Before(store, mapping, ordered, {})
  {
    ordered := [];
    var left := store.Keys;
    while left != {}
      invariant Before(store, mapping, ordered, left)
      decreases |left|
    {
      hide Sooner;
      SoonestExists(store, mapping, left);
      var id :| id in left && forall other :: other in left && other != id ==> Sooner(store, mapping, id, other);
      ordered := ordered + [id];
      left := left - {id};
    }
  }

  ghost predicate FoundSoFar(store: Store, part: Part, ordered: seq<nat>, n: nat, value: Option<ZM.Bytes>)
    requires n <= |ordered| && forall i :: 0 <= i < |ordered| ==> ordered[i] in store
  {
    if value.None? then forall i :: 0 <= i < n ==> !Has(store, part, ordered[i])
    else exists i: nat :: FoundAt(store, part, ordered, n, i) && ZM.Get(store[ordered[i]].meta, part) == value
  }

  ghost predicate FoundAt(store: Store, part: Part, ordered: seq<nat>, n: nat, i: nat) {
    i < n <= |ordered| && Has(store, part, ordered[i]) && forall j :: 0 <= j < i ==> !Has(store, part, ordered[j])
  }

  lemma FoundIsFinal(store: Store, mapping: map<nat, nat>, part: Part, ordered: seq<nat>, value: Option<ZM.Bytes>)
    requires Before(store, mapping, ordered, {}) && FoundSoFar(store, part, ordered, |ordered|, value)
    ensures Final(store, mapping, part, value)
  {
    hide Sooner;
    if value.Some? {
      var i: nat :| FoundAt(store, part, ordered, |ordered|, i) && ZM.Get(store[ordered[i]].meta, part) == value;
      forall other | Has(store, part, other) && other != ordered[i]
        ensures Sooner(store, mapping, ordered[i], other)
      {
        assert other in ordered;
      }
      assert FirstWith(store, mapping, part, ordered[i]);
    }
  }

  /** What finishing makes of the metadata of all tiles. */
  method Choose(store: Store, reused: seq<ReusedTile>) returns (final: Meta)
    ensures Final(store, MappingOf(reused), ZM.Icc, final.icc) && Final(store, MappingOf(reused), ZM.Exif, final.exif)
  {
    var mapping: map<nat, nat> := map[];
    for i := 0 to |reused|
      invariant mapping == MappingOf(reused[..i])
    {
      assert reused[..i + 1][..i] == reused[..i];
      mapping := mapping[reused[i].position := reused[i].index];
    }
    assert reused[..|reused|] == reused;
    var ordered := Sorted(store, mapping);
    var icc: Option<ZM.Bytes>, exif: Option<ZM.Bytes> := None, None;
    for i := 0 to |ordered|
      invariant FoundSoFar(store, ZM.Icc, ordered, i, icc)
      invariant FoundSoFar(store, ZM.Exif, ordered, i, exif)
    {
      var meta := store[ordered[i]].meta;
      FoundNext(store, ZM.Icc, ordered, i, icc);
      FoundNext(store, ZM.Exif, ordered, i, exif);
      if icc.None? { icc := meta.icc; }
      if exif.None? { exif := meta.exif; }
    }
    FoundIsFinal(store, mapping, ZM.Icc, ordered, icc);
    FoundIsFinal(store, mapping, ZM.Exif, ordered, exif);
    final := ZM.Meta(icc, exif);
  }

  lemma FoundNext(store: Store, part: Part, ordered: seq<nat>, n: nat, value: Option<ZM.Bytes>)
    requires n < |ordered| && forall i :: 0 <= i < |ordered| ==> ordered[i] in store
    requires FoundSoFar(store, part, ordered, n, value)
    ensures FoundSoFar(store, part, ordered, n + 1,
                       if value.None? then ZM.Get(store[ordered[n]].meta, part) else value)
  {
    if value.Some? {
      var i: nat :| FoundAt(store, part, ordered, n, i) && ZM.Get(store[ordered[i]].meta, part) == value;
      assert FoundAt(store, part, ordered, n + 1, i);
    } else if Has(store, part, ordered[n]) {
      assert FoundAt(store, part, ordered, n + 1, n);
    }
  }

  // ---- What is stored ------------------------------------------------------------------------------------

  ghost predicate DistinctIds(placings: seq<Placing>) {
    forall i, j :: 0 <= i < j < |placings| ==> placings[i].id != placings[j].id
  }

  ghost predicate StoredFrom(placings: seq<Placing>, i: nat, id: nat, entry: Entry) {
    && i < |placings| && placings[i].id == id && ZM.BytesOf(placings[i].meta) > 0
    && entry == Entry(placings[i].position, placings[i].meta)
  }

  lemma {:induction false} StoredHas(placings: seq<Placing>, id: nat)
    ensures id in Stored(placings) ==> exists i: nat :: StoredFrom(placings, i, id, Stored(placings)[id])
    ensures DistinctIds(placings) ==>
      forall i: nat :: i < |placings| && placings[i].id == id && ZM.BytesOf(placings[i].meta) > 0 ==>
        id in Stored(placings) && Stored(placings)[id] == Entry(placings[i].position, placings[i].meta)
  {
    if placings != [] {
      hide ZM.BytesOf;
      var n := |placings| - 1;
      var before := placings[..n];
      StoredHas(before, id);
      if id in Stored(placings) {
        if placings[n].id == id && ZM.BytesOf(placings[n].meta) > 0 {
          assert StoredFrom(placings, n, id, Stored(placings)[id]);
        } else {
          var i: nat :| StoredFrom(before, i, id, Stored(before)[id]);
          assert StoredFrom(placings, i, id, Stored(placings)[id]);
        }
      }
    }
  }

  /** In whatever order tiles with numbers of their own are placed, the same is stored. */
  lemma OrderIsNotStored(a: seq<Placing>, b: seq<Placing>)
    requires DistinctIds(a) && DistinctIds(b) && multiset(a) == multiset(b)
    ensures Stored(a) == Stored(b)
  {
    forall id
      ensures id in Stored(a) <==> id in Stored(b)
      ensures id in Stored(a) ==> Stored(a)[id] == Stored(b)[id]
    {
      StoredInBoth(a, b, id);
      StoredInBoth(b, a, id);
    }
  }

  lemma StoredInBoth(a: seq<Placing>, b: seq<Placing>, id: nat)
    requires DistinctIds(b) && multiset(a) == multiset(b)
    ensures id in Stored(a) ==> id in Stored(b) && Stored(a)[id] == Stored(b)[id]
  {
    StoredHas(a, id);
    StoredHas(b, id);
    hide Stored, ZM.BytesOf;
    if id in Stored(a) {
      var i: nat :| StoredFrom(a, i, id, Stored(a)[id]);
      assert a[i] in multiset(b);
      assert a[i] in b;
    }
  }

  // ---- The tiles of a plan -------------------------------------------------------------------------------

  /** A plan's positions; those output while probing, none planned twice; and the limit on tiles. */
  datatype Plan = Plan(destinations: seq<nat>, previous: seq<nat>, maxTiles: nat) {
    ghost predicate Valid() {
      && |destinations| <= maxTiles <= 16_777_216
      && forall i, j :: 0 <= i < j < |destinations| && destinations[i] in previous ==>
                          destinations[i] != destinations[j]
    }

    function Destinations(): (r: seq<Option<nat>>)
      ensures |r| == |destinations| && forall i :: 0 <= i < |r| ==> r[i] == Some(destinations[i])
    {
      seq(|destinations|, i requires 0 <= i < |destinations| => Some(destinations[i]))
    }

    /** The tiles the plan's filter takes out, with their positions. */
    function Reused(): seq<ReusedTile> {
      var indices := JR.Reused(Destinations(), previous, |destinations|);
      JR.FreshAndReused(Destinations(), previous, |destinations|);
      seq(|indices|, i requires 0 <= i < |indices| => ReusedTile(indices[i], destinations[indices[i]]))
    }
  }

  /** A tile whose metadata arrives: acquired for the plan, or fetched and output while probing. */
  datatype Shot = Acquired(index: nat, meta: Meta) | Probed(number: nat, position: nat, meta: Meta)

  /** Probes are stored behind all plan indices. */
  function Slot(maxTiles: nat, number: nat): nat {
    if maxTiles + number < ZM.KEYS then maxTiles + number else ZM.KEYS - 1
  }

  predicate Legal(plan: Plan, shot: Shot) {
    match shot
    case Acquired(i, _) => i < |plan.destinations| && plan.destinations[i] !in plan.previous
    case Probed(number, position, _) => number < plan.maxTiles && position in plan.previous
  }

  function PlacingOf(plan: Plan, shot: Shot): Placing
    requires Legal(plan, shot)
  {
    match shot
    case Acquired(i, meta) => Placing(i, plan.destinations[i], meta)
    case Probed(number, position, meta) => Placing(Slot(plan.maxTiles, number), position, meta)
  }

  function PlacingsOf(plan: Plan, shots: seq<Shot>): (r: seq<Placing>)
    requires forall i :: 0 <= i < |shots| ==> Legal(plan, shots[i])
    ensures |r| == |shots| && forall i :: 0 <= i < |r| ==> r[i] == PlacingOf(plan, shots[i])
  {
    seq(|shots|, i requires 0 <= i < |shots| => PlacingOf(plan, shots[i]))
  }

  /** No tile is acquired twice, and probes have their own numbers and positions. */
  predicate Apart(a: Shot, b: Shot) {
    match (a, b)
    case (Acquired(i, _), Acquired(j, _)) => i != j
    case (Probed(i, p, _), Probed(j, q, _)) => i != j && p != q
    case _ => true
  }

  ghost predicate LegalShots(plan: Plan, shots: seq<Shot>) {
    && plan.Valid()
    && (forall i :: 0 <= i < |shots| ==> Legal(plan, shots[i]))
    && (forall i, j :: 0 <= i < j < |shots| ==> Apart(shots[i], shots[j]))
  }

  /** A tile's turn: its place in the plan however it was fetched, and behind them all if it has none. */
  ghost function Turn(plan: Plan, shot: Shot): nat {
    match shot
    case Acquired(i, _) => i
    case Probed(number, position, _) =>
      if position in plan.destinations then
        var k: nat :| k < |plan.destinations| && plan.destinations[k] == position;
        k
      else plan.maxTiles + number
  }

  /** Metadata of no bytes is not stored. */
  predicate Gives(m: Meta, part: Part) {
    ZM.BytesOf(m) > 0 && ZM.Get(m, part).Some?
  }

  lemma {:induction false} MappingHas(reused: seq<ReusedTile>, position: nat)
    ensures position in MappingOf(reused) ==> ReusedTile(MappingOf(reused)[position], position) in reused
    ensures position !in MappingOf(reused) ==> forall r :: r in reused ==> r.position != position
  {
    if reused != [] {
      var n := |reused| - 1;
      assert reused == reused[..n] + [reused[n]];
      MappingHas(reused[..n], position);
    }
  }

  lemma PlanReuses(plan: Plan, position: nat)
    requires plan.Valid() && position in plan.previous && position in plan.destinations
    ensures exists r :: r in plan.Reused() && r.position == position
  {
    var reused, n := plan.Reused(), |plan.destinations|;
    var indices := JR.Reused(plan.Destinations(), plan.previous, n);
    hide JR.Reused;
    var k :| 0 <= k < n && plan.destinations[k] == position;
    JR.ReusedMatch(plan.Destinations(), plan.previous, n, k);
    var i :| 0 <= i < |indices| && indices[i] == k;
    assert reused[i] in reused;
  }

  /** What the mapping of a plan's reused tiles is: the indices of the planned positions that were output
      before. */
  lemma PlanMapping(plan: Plan, position: nat)
    requires plan.Valid()
    ensures var mapping := MappingOf(plan.Reused());
      if position in plan.previous && position in plan.destinations then
        && position in mapping && mapping[position] < |plan.destinations|
        && plan.destinations[mapping[position]] == position
      else position !in mapping
  {
    var reused, n := plan.Reused(), |plan.destinations|;
    MappingHas(reused, position);
    JR.FreshAndReused(plan.Destinations(), plan.previous, n);
    if position in plan.previous && position in plan.destinations { PlanReuses(plan, position); }
    var indices := JR.Reused(plan.Destinations(), plan.previous, n);
    hide JR.Reused, JR.Fresh, MappingOf;
    if position in MappingOf(reused) {
      var i :| 0 <= i < |reused| && reused[i] == ReusedTile(MappingOf(reused)[position], position);
      assert indices[i] in indices;
      JR.ReusedMatch(plan.Destinations(), plan.previous, n, indices[i]);
    }
  }

  lemma IdsAreApart(plan: Plan, shots: seq<Shot>)
    requires LegalShots(plan, shots)
    ensures DistinctIds(PlacingsOf(plan, shots))
  {
    forall i, j | 0 <= i < j < |shots|
      ensures PlacingOf(plan, shots[i]).id != PlacingOf(plan, shots[j]).id
    {
      assert Apart(shots[i], shots[j]);
    }
  }

  /** What finishing sorts by is the turn, once the probes' numbers are mapped. */
  lemma RankIsTurn(plan: Plan, shots: seq<Shot>, i: nat)
    requires LegalShots(plan, shots) && i < |shots| && ZM.BytesOf(shots[i].meta) > 0
    ensures var store, p := Stored(PlacingsOf(plan, shots)), PlacingOf(plan, shots[i]);
      && p.id in store && store[p.id] == Entry(p.position, p.meta)
      && Rank(store, MappingOf(plan.Reused()), p.id) == Turn(plan, shots[i])
  {
    var placings := PlacingsOf(plan, shots);
    var p := placings[i];
    IdsAreApart(plan, shots);
    StoredHas(placings, p.id);
    PlanMapping(plan, p.position);
    hide Stored, MappingOf, plan.Reused, ZM.BytesOf;
  }

  /** Two tiles never have the same turn. */
  lemma TurnsAreApart(plan: Plan, shots: seq<Shot>, i: nat, j: nat)
    requires LegalShots(plan, shots) && i < j < |shots|
    ensures Turn(plan, shots[i]) != Turn(plan, shots[j])
  {
    assert Apart(shots[i], shots[j]);
  }

  /** The tile whose turn is first among those that give this part. */
  ghost predicate FirstTurn(plan: Plan, shots: seq<Shot>, part: Part, i: nat) {
    && i < |shots| && Gives(shots[i].meta, part)
    && forall j :: 0 <= j < |shots| && Gives(shots[j].meta, part) ==> Turn(plan, shots[i]) <= Turn(plan, shots[j])
  }

  /** Every stored entry comes from a tile, and is sorted by its turn. */
  lemma ComesFrom(plan: Plan, shots: seq<Shot>, id: nat) returns (j: nat)
    requires LegalShots(plan, shots) && id in Stored(PlacingsOf(plan, shots))
    ensures var store := Stored(PlacingsOf(plan, shots));
      && j < |shots| && PlacingOf(plan, shots[j]).id == id && store[id].meta == shots[j].meta
      && ZM.BytesOf(shots[j].meta) > 0
      && Rank(store, MappingOf(plan.Reused()), id) == Turn(plan, shots[j])
  {
    var placings := PlacingsOf(plan, shots);
    StoredHas(placings, id);
    j :| StoredFrom(placings, j, id, Stored(placings)[id]);
    RankIsTurn(plan, shots, j);
    hide Stored, MappingOf, Rank, plan.Reused, ZM.BytesOf, LegalShots, Turn;
  }

  lemma FirstTurnDecides(plan: Plan, shots: seq<Shot>, part: Part, i: nat)
    requires LegalShots(plan, shots) && FirstTurn(plan, shots, part, i)
    ensures Final(Stored(PlacingsOf(plan, shots)), MappingOf(plan.Reused()), part, ZM.Get(shots[i].meta, part))
  {
    var placings, mapping := PlacingsOf(plan, shots), MappingOf(plan.Reused());
    var store, id := Stored(placings), PlacingOf(plan, shots[i]).id;
    RankIsTurn(plan, shots, i);
    hide Stored, MappingOf, Rank, plan.Reused, ZM.BytesOf, LegalShots, Turn;
    forall other | Has(store, part, other) && other != id
      ensures Sooner(store, mapping, id, other)
    {
      var j := ComesFrom(plan, shots, other);
      if i < j { TurnsAreApart(plan, shots, i, j); }
      if j < i { TurnsAreApart(plan, shots, j, i); }
    }
    hide Sooner;
    assert FirstWith(store, mapping, part, id);
  }

  lemma NothingToDecide(plan: Plan, shots: seq<Shot>, part: Part)
    requires LegalShots(plan, shots) && forall i :: 0 <= i < |shots| ==> !Gives(shots[i].meta, part)
    ensures Final(Stored(PlacingsOf(plan, shots)), MappingOf(plan.Reused()), part, None)
  {
    var placings := PlacingsOf(plan, shots);
    forall id
      ensures !Has(Stored(placings), part, id)
    {
      if id in Stored(placings) {
        var j := ComesFrom(plan, shots, id);
        hide Stored, ZM.BytesOf, LegalShots;
      }
    }
  }

  // ---- Plan order ------------------------------------------------------------------------------------------

  /** The part of the first tile in plan order that has it. */
  function InPlanOrder(metas: seq<Meta>, part: Part): Option<ZM.Bytes> {
    if metas == [] then None
    else if Gives(metas[0], part) then ZM.Get(metas[0], part) else InPlanOrder(metas[1..], part)
  }

  lemma {:induction false} InPlanOrderIs(metas: seq<Meta>, part: Part)
    ensures if exists k :: 0 <= k < |metas| && Gives(metas[k], part) then
              exists k: nat :: FirstGiving(metas, part, k) && InPlanOrder(metas, part) == ZM.Get(metas[k], part)
            else InPlanOrder(metas, part) == None
  {
    if metas != [] && !Gives(metas[0], part) {
      hide Gives;
      InPlanOrderIs(metas[1..], part);
      assert forall k: nat :: FirstGiving(metas[1..], part, k) ==> FirstGiving(metas, part, k + 1);
      assert forall k :: 0 < k < |metas| ==> metas[k] == metas[1..][k - 1];
    } else if metas != [] {
      assert FirstGiving(metas, part, 0);
    }
  }

  ghost predicate FirstGiving(metas: seq<Meta>, part: Part, k: nat) {
    k < |metas| && Gives(metas[k], part) && forall j :: 0 <= j < k ==> !Gives(metas[j], part)
  }

  ghost predicate HasTurn(plan: Plan, shots: seq<Shot>, turn: nat) {
    exists i :: 0 <= i < |shots| && Turn(plan, shots[i]) == turn
  }

  /** Each tile of the plan was placed, fetched one way or the other, with its own metadata. */
  ghost predicate Complete(plan: Plan, shots: seq<Shot>, metas: seq<Meta>) {
    && |metas| == |plan.destinations|
    && (forall i :: 0 <= i < |shots| ==>
          var turn := Turn(plan, shots[i]); turn < |metas| && shots[i].meta == metas[turn])
    && (forall k: nat :: k < |metas| ==> HasTurn(plan, shots, k))
  }

  /** The final profile and EXIF block are those of the first tile in plan order that has one, whichever
      tiles were fetched while probing, under whatever numbers, and however placing went. */
  lemma FirstInPlanOrder(plan: Plan, shots: seq<Shot>, metas: seq<Meta>, part: Part, value: Option<ZM.Bytes>)
    requires LegalShots(plan, shots) && Complete(plan, shots, metas)
    ensures Final(Stored(PlacingsOf(plan, shots)), MappingOf(plan.Reused()), part, value)
            <==> value == InPlanOrder(metas, part)
  {
    var store, mapping := Stored(PlacingsOf(plan, shots)), MappingOf(plan.Reused());
    InPlanOrderIs(metas, part);
    hide Stored, MappingOf, plan.Reused, Gives, Final, LegalShots, Turn, InPlanOrder;
    if exists k :: 0 <= k < |metas| && Gives(metas[k], part) {
      var k: nat :| FirstGiving(metas, part, k) && InPlanOrder(metas, part) == ZM.Get(metas[k], part);
      assert HasTurn(plan, shots, k);
      var i: nat :| i < |shots| && Turn(plan, shots[i]) == k;
      assert FirstTurn(plan, shots, part, i);
      FirstTurnDecides(plan, shots, part, i);
    } else {
      NothingToDecide(plan, shots, part);
    }
    if Final(store, mapping, part, value) { FinalIsUnique(store, mapping, part, value, InPlanOrder(metas, part)); }
  }
}
