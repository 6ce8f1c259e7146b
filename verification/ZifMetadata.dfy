/** Colour profiles and EXIF blocks of arriving tiles: a regular grid keeps only the ones the
    encoder will use, whatever the order of arrival. */
module ZifMetadata {
  import opened Options
  import opened Pixels

  type Bytes = seq<Byte>
  datatype Meta = Meta(icc: Option<Bytes>, exif: Option<Bytes>)
  type Entries = map<nat, Meta>

  /** Tile indices have 32 bits. */
  const KEYS: nat := 0x1_0000_0000

  datatype Part = Icc | Exif

  function Get(m: Meta, part: Part): Option<Bytes> {
    if part.Icc? then m.icc else m.exif
  }

  predicate Has(entries: Entries, part: Part, k: nat) {
    k in entries && Get(entries[k], part).Some?
  }

  /** The lowest index below `n` with this part, as iterating in key order finds it. */
  function First(entries: Entries, part: Part, n: nat): (r: Option<nat>)
    ensures r.Some? ==>
      r.value < n && Has(entries, part, r.value) && forall k: nat :: k < r.value ==> !Has(entries, part, k)
    ensures r.None? ==> forall k: nat :: k < n ==> !Has(entries, part, k)
  {
    if n == 0 then None
    else
      var before := First(entries, part, n - 1);
      if before.Some? then before else if Has(entries, part, n - 1) then Some(n - 1) else None
  }

  function Chosen(entries: Entries, part: Part): Option<Bytes> {
    var k := First(entries, part, KEYS);
    if k.Some? then Get(entries[k.value], part) else None
  }

  /** Only the first profile and the first EXIF block stay. */
  function Pruned(entries: Entries): Entries {
    var icc, exif := First(entries, Icc, KEYS), First(entries, Exif, KEYS);
    map k | k in entries && (Some(k) == icc || Some(k) == exif)
      :: Meta(if Some(k) == icc then entries[k].icc else None, if Some(k) == exif then entries[k].exif else None)
  }

  function Accepted(entries: Entries, regular: bool, index: nat, meta: Option<Meta>): Entries {
    if meta.None? then entries
    else
      var inserted := entries[index := meta.value];
      if regular then Pruned(inserted) else inserted
  }

  function BytesOf(m: Meta): nat {
    (if m.icc.Some? then |m.icc.value| else 0) + (if m.exif.Some? then |m.exif.value| else 0)
  }

  /** What the kept metadata takes, below an index. */
  function Kept(entries: Entries, n: nat): nat {
    if n == 0 then 0 else Kept(entries, n - 1) + if n - 1 in entries then BytesOf(entries[n - 1]) else 0
  }

  class ZifWriter {
    const regular: bool
    var metadata: Entries
    var retained: nat
    var peakRetained: nat

    constructor (regular: bool)
      ensures this.regular == regular && metadata == map[] && retained == 0 && peakRetained == 0
    {
      this.regular := regular;
      metadata, retained, peakRetained := map[], 0, 0;
    }

    function RetainedBytes(): nat
      reads this
    {
      retained + Kept(metadata, KEYS)
    }

    method AcceptMetadata(index: nat, meta: Option<Meta>)
      modifies this`metadata, this`peakRetained
      ensures metadata == Accepted(old(metadata), regular, index, meta)
      ensures meta.Some? ==> peakRetained >= RetainedBytes() && peakRetained >= old(peakRetained)
      ensures peakRetained == old(peakRetained) || (meta.Some? && peakRetained == RetainedBytes())
    {
      if meta.None? { return; }
      metadata := metadata[index := meta.value];
      if regular {
        var icc, exif := First(metadata, Icc, KEYS), First(metadata, Exif, KEYS);
        metadata := map k | k in metadata && (Some(k) == icc || Some(k) == exif)
          :: Meta(if Some(k) == icc then metadata[k].icc else None, if Some(k) == exif then metadata[k].exif else None);
      }
      if RetainedBytes() > peakRetained { peakRetained := RetainedBytes(); }
    }
  }

  // ---- What pruning keeps ---------------------------------------------------------------------------

  /** Two maps agree on a part: the same first index and the same block there. */
  ghost predicate Agree(a: Entries, b: Entries, part: Part) {
    First(a, part, KEYS) == First(b, part, KEYS) && Chosen(a, part) == Chosen(b, part)
  }

  lemma SameFirst(entries: Entries, part: Part, k: nat)
    requires k < KEYS && Has(entries, part, k) && forall l: nat :: l < k ==> !Has(entries, part, l)
    ensures First(entries, part, KEYS) == Some(k)
  {
    var r := First(entries, part, KEYS);
    hide First;
    if r.Some? {
      if r.value < k { assert false; }
    }
  }

  lemma NoFirst(entries: Entries, part: Part)
    requires forall l: nat :: l < KEYS ==> !Has(entries, part, l)
    ensures First(entries, part, KEYS) == None
  {
    hide First;
  }

  lemma PrunedAgrees(entries: Entries, part: Part)
    ensures Agree(Pruned(entries), entries, part)
  {
    var first := First(entries, part, KEYS);
    hide First;
    if first.Some? { SameFirst(Pruned(entries), part, first.value); } else { NoFirst(Pruned(entries), part); }
  }

  /** A new index changes the first one only if it is lower. */
  lemma InsertAgrees(a: Entries, b: Entries, part: Part, index: nat, m: Meta)
    requires Agree(a, b, part) && index !in a && index !in b && index < KEYS
    ensures Agree(a[index := m], b[index := m], part)
  {
    InsertedFirst(a, part, index, m);
    InsertedFirst(b, part, index, m);
    hide First;
  }

  lemma InsertedFirst(entries: Entries, part: Part, index: nat, m: Meta)
    requires index !in entries && index < KEYS
    ensures var first := First(entries, part, KEYS);
      First(entries[index := m], part, KEYS) ==
        if Get(m, part).Some? && (first.None? || index < first.value) then Some(index) else first
  {
    var first, next := First(entries, part, KEYS), entries[index := m];
    hide First, Get;
    assert forall k: nat :: k != index ==> (Has(next, part, k) <==> Has(entries, part, k));
    if Get(m, part).Some? && (first.None? || index < first.value) {
      SameFirst(next, part, index);
    } else if first.Some? {
      SameFirst(next, part, first.value);
    } else {
      NoFirst(next, part);
    }
  }

  // ---- Whole runs --------------------------------------------------------------------------------------

  datatype Arrival = Arrival(index: nat, meta: Option<Meta>)

  function After(arrivals: seq<Arrival>, regular: bool): Entries {
    if arrivals == [] then map[]
    else
      var last := arrivals[|arrivals| - 1];
      Accepted(After(arrivals[..|arrivals| - 1], regular), regular, last.index, last.meta)
  }

  ghost predicate DistinctIndices(arrivals: seq<Arrival>) {
    && (forall i :: 0 <= i < |arrivals| ==> arrivals[i].index < KEYS)
    && forall i, j :: 0 <= i < j < |arrivals| ==> arrivals[i].index != arrivals[j].index
  }

  lemma {:induction false} OnlyArrived(arrivals: seq<Arrival>, regular: bool, k: nat)
    requires k in After(arrivals, regular)
    ensures exists i :: 0 <= i < |arrivals| && arrivals[i].index == k
  {
    var before, last := arrivals[..|arrivals| - 1], arrivals[|arrivals| - 1];
    if k in After(before, regular) {
      OnlyArrived(before, regular, k);
      var i :| 0 <= i < |before| && before[i].index == k;
      assert arrivals[i].index == k;
    } else {
      assert arrivals[|arrivals| - 1].index == k;
    }
  }

  lemma AgreeThrough(a: Entries, b: Entries, c: Entries, part: Part)
    requires Agree(a, b, part) && Agree(b, c, part)
    ensures Agree(a, c, part)
  {
    hide First, Chosen;
  }

  /** At most one tile's part is kept. */
  lemma OneKept(arrivals: seq<Arrival>, part: Part, k: nat, l: nat)
    requires Has(After(arrivals, true), part, k) && Has(After(arrivals, true), part, l)
    ensures k == l
    decreases |arrivals|
  {
    var before, last := arrivals[..|arrivals| - 1], arrivals[|arrivals| - 1];
    hide First;
    if last.meta.None? { OneKept(before, part, k, l); }
  }

  function Length(part: Option<Bytes>): nat {
    if part.Some? then |part.value| else 0
  }

  lemma {:induction false} KeptBelow(entries: Entries, n: nat)
    requires n <= KEYS
    ensures var icc, exif := First(entries, Icc, KEYS), First(entries, Exif, KEYS);
      Kept(Pruned(entries), n) ==
        (if icc.Some? && icc.value < n then Length(entries[icc.value].icc) else 0)
        + (if exif.Some? && exif.value < n then Length(entries[exif.value].exif) else 0)
  {
    if n > 0 { KeptBelow(entries, n - 1); }
    hide First;
  }

  /** What is retained on a regular grid is one profile and one EXIF block. */
  lemma RetainsOnePair(entries: Entries)
    ensures Kept(Pruned(entries), KEYS) == Length(Chosen(entries, Icc)) + Length(Chosen(entries, Exif))
  {
    KeptBelow(entries, KEYS);
    hide First;
  }

  lemma AfterMore(arrivals: seq<Arrival>, a: Arrival, regular: bool)
    ensures After(arrivals + [a], regular) == Accepted(After(arrivals, regular), regular, a.index, a.meta)
  {
    assert (arrivals + [a])[..|arrivals|] == arrivals;
    hide Accepted;
  }

  /** A map with at most one profile and no EXIF block is pruned to the profile's entry. */
  lemma PrunedTo(entries: Entries, k: Option<nat>)
    requires forall l: nat :: l < KEYS ==> !Has(entries, Exif, l)
    requires if k.Some? then
               && k.value < KEYS && Has(entries, Icc, k.value)
               && forall l: nat :: l < k.value ==> !Has(entries, Icc, l)
             else forall l: nat :: l < KEYS ==> !Has(entries, Icc, l)
    ensures Pruned(entries) == if k.Some? then map[k.value := Meta(entries[k.value].icc, None)] else map[]
  {
    if k.Some? { SameFirst(entries, Icc, k.value); } else { NoFirst(entries, Icc); }
    NoFirst(entries, Exif);
    hide First;
  }

  // ---- Indices that recur ------------------------------------------------------------------------------

  ghost predicate SameChoices(arrivals: seq<Arrival>) {
    forall part :: Chosen(After(arrivals, true), part) == Chosen(After(arrivals, false), part)
  }

  ghost predicate HaveIndices(arrivals: seq<Arrival>, indices: seq<nat>) {
    |arrivals| == |indices| && forall i :: 0 <= i < |indices| ==> arrivals[i].index == indices[i]
  }

  /** Whatever the tiles' metadata, pruning never shows after any arrival. */
  ghost predicate AlwaysAgree(indices: seq<nat>) {
    forall arrivals, n :: HaveIndices(arrivals, indices) && 0 <= n <= |arrivals| ==> SameChoices(arrivals[..n])
  }

  /** No index recurs after a larger one has arrived. */
  ghost predicate NoLateRepeat(indices: seq<nat>) {
    forall i, j, l :: 0 <= i < j < |indices| && 0 <= l < j && indices[i] == indices[j] ==> indices[l] <= indices[j]
  }

  /** A recurring index that is the largest so far decides by its new metadata alone. */
  lemma TopFirst(entries: Entries, part: Part, index: nat, m: Meta)
    requires index < KEYS && forall k: nat :: k in entries ==> k <= index
    ensures var first := First(entries, part, KEYS);
      First(entries[index := m], part, KEYS) ==
        if first.Some? && first.value < index then first else if Get(m, part).Some? then Some(index) else None
  {
    var first, next := First(entries, part, KEYS), entries[index := m];
    hide First, Get;
    assert forall k: nat :: k != index ==> (Has(next, part, k) <==> Has(entries, part, k));
    if first.Some? && first.value < index {
      SameFirst(next, part, first.value);
    } else if Get(m, part).Some? {
      SameFirst(next, part, index);
    } else {
      NoFirst(next, part);
    }
  }

  lemma TopAgrees(a: Entries, b: Entries, part: Part, index: nat, m: Meta)
    requires Agree(a, b, part) && index < KEYS
    requires (forall k: nat :: k in a ==> k <= index) && (forall k: nat :: k in b ==> k <= index)
    ensures Agree(a[index := m], b[index := m], part)
  {
    TopFirst(a, part, index, m);
    TopFirst(b, part, index, m);
    hide First;
  }

  /** One more arrival, of a new index or of the largest so far. */
  lemma ArrivalAgrees(before: seq<Arrival>, a: Arrival, part: Part)
    requires Agree(After(before, true), After(before, false), part) && a.index < KEYS
    requires (forall i :: 0 <= i < |before| ==> before[i].index != a.index)
          || (forall i :: 0 <= i < |before| ==> before[i].index <= a.index)
    ensures Agree(After(before + [a], true), After(before + [a], false), part)
  {
    var pruned, full := After(before, true), After(before, false);
    AfterMore(before, a, true);
    AfterMore(before, a, false);
    if a.meta.Some? {
      var m := a.meta.value;
      hide First, Pruned, Chosen;
      if forall i :: 0 <= i < |before| ==> before[i].index != a.index {
        if a.index in pruned { OnlyArrived(before, true, a.index); assert false; }
        if a.index in full { OnlyArrived(before, false, a.index); assert false; }
        InsertAgrees(pruned, full, part, a.index, m);
      } else {
        forall k: nat | k in pruned || k in full
          ensures k <= a.index
        {
          if k in pruned { OnlyArrived(before, true, k); } else { OnlyArrived(before, false, k); }
        }
        TopAgrees(pruned, full, part, a.index, m);
      }
      PrunedAgrees(pruned[a.index := m], part);
      hide Agree, After;
      AgreeThrough(Pruned(pruned[a.index := m]), pruned[a.index := m], full[a.index := m], part);
    }
  }

  lemma {:induction false} NoLateRepeatAgrees(arrivals: seq<Arrival>, indices: seq<nat>, n: nat, part: Part)
    requires HaveIndices(arrivals, indices) && NoLateRepeat(indices) && n <= |arrivals|
    requires forall i :: 0 <= i < |indices| ==> indices[i] < KEYS
    ensures Agree(After(arrivals[..n], true), After(arrivals[..n], false), part)
  {
    hide First, Chosen, Pruned;
    if n > 0 {
      NoLateRepeatAgrees(arrivals, indices, n - 1, part);
      var before, a := arrivals[..n - 1], arrivals[n - 1];
      assert arrivals[..n] == before + [a];
      if i :| 0 <= i < n - 1 && before[i].index == a.index {
        assert indices[i] == indices[n - 1];
        forall l | 0 <= l < |before|
          ensures before[l].index <= a.index
        {
          assert indices[l] <= indices[n - 1];
        }
      }
      hide Agree, After;
      ArrivalAgrees(before, a, part);
    }
  }

  /** Distinct indices never recur: on a regular grid the encoder's choice is the one it would make had
      everything been kept. */
  lemma SameChoice(arrivals: seq<Arrival>, part: Part)
    requires DistinctIndices(arrivals)
    ensures Agree(After(arrivals, true), After(arrivals, false), part)
  {
    var indices := seq(|arrivals|, i requires 0 <= i < |arrivals| => arrivals[i].index);
    NoLateRepeatAgrees(arrivals, indices, |arrivals|, part);
    assert arrivals[..|arrivals|] == arrivals;
  }

  /** Metadata that shows a late repeat: a profile at the index that recurs, another at the larger one,
      nothing elsewhere, and nothing when the index recurs. */
  function Telling(indices: seq<nat>, j: nat, low: nat, high: nat): (arrivals: seq<Arrival>)
    requires j < |indices|
    ensures |arrivals| == |indices|
  {
    seq(|indices|, t requires 0 <= t < |indices| =>
      Arrival(indices[t], Some(if t < j && indices[t] == low then Meta(Some([0]), None)
                               else if t < j && indices[t] == high then Meta(Some([1]), None) else Meta(None, None))))
  }

  function Lone(low: nat, high: nat, lows: bool, highs: bool): Entries {
    if lows then map[low := Meta(Some([0]), None)]
    else if highs then map[high := Meta(Some([1]), None)] else map[]
  }

  /** Only these two indices have a profile, and nothing has an EXIF block. */
  ghost predicate TwoProfiles(entries: Entries, low: nat, high: nat, lows: bool, highs: bool) {
    && (forall k: nat :: !Has(entries, Exif, k))
    && (forall k: nat :: Has(entries, Icc, k) <==> (lows && k == low) || (highs && k == high))
    && (highs ==> high in entries && entries[high].icc == Some([1]))
  }

  /** What is kept, and what there would be had everything been kept, up to the late repeat. */
  lemma {:induction false} TellingRun(indices: seq<nat>, j: nat, low: nat, high: nat, n: nat)
    requires n <= j < |indices| && low < high < KEYS && (forall i :: 0 <= i < |indices| ==> indices[i] < KEYS)
    ensures var before := Telling(indices, j, low, high)[..n];
      && After(before, true) == Lone(low, high, low in indices[..n], high in indices[..n])
      && TwoProfiles(After(before, false), low, high, low in indices[..n], high in indices[..n])
  {
    if n == 0 {
      NothingTold(indices, j, low, high);
    } else {
      TellingRun(indices, j, low, high, n - 1);
      TellingNext(indices, j, low, high, n - 1);
      hide *;
      var before, index := Telling(indices, j, low, high)[..n - 1], indices[n - 1];
      var lows, highs := low in indices[..n - 1], high in indices[..n - 1];
      assert indices[..n] == indices[..n - 1] + [index];
      LoneStep(low, high, lows, highs, index);
      FullStep(After(before, false), low, high, lows, highs, index);
    }
  }

  lemma NothingTold(indices: seq<nat>, j: nat, low: nat, high: nat)
    requires j < |indices|
    ensures var before, lows, highs := Telling(indices, j, low, high)[..0], low in indices[..0], high in indices[..0];
      After(before, true) == Lone(low, high, lows, highs) && TwoProfiles(After(before, false), low, high, lows, highs)
  {
  }

  lemma TellingNext(indices: seq<nat>, j: nat, low: nat, high: nat, n: nat)
    requires n < j < |indices| && low < high
    ensures var arrivals, m := Telling(indices, j, low, high), ProfileOf(indices[n], low, high);
      && After(arrivals[..n + 1], true) == Pruned(After(arrivals[..n], true)[indices[n] := m])
      && After(arrivals[..n + 1], false) == After(arrivals[..n], false)[indices[n] := m]
  {
    var arrivals := Telling(indices, j, low, high);
    assert arrivals[..n + 1] == arrivals[..n] + [arrivals[n]];
    AfterMore(arrivals[..n], arrivals[n], true);
    AfterMore(arrivals[..n], arrivals[n], false);
    hide Pruned, After;
  }

  function ProfileOf(index: nat, low: nat, high: nat): Meta {
    if index == low then Meta(Some([0]), None) else if index == high then Meta(Some([1]), None) else Meta(None, None)
  }

  lemma LoneStep(low: nat, high: nat, lows: bool, highs: bool, index: nat)
    requires low < high < KEYS && index < KEYS
    ensures Pruned(Lone(low, high, lows, highs)[index := ProfileOf(index, low, high)])
         == Lone(low, high, lows || index == low, highs || index == high)
  {
    var next := Lone(low, high, lows, highs)[index := ProfileOf(index, low, high)];
    hide Pruned;
    PrunedTo(next, if lows || index == low then Some(low) else if highs || index == high then Some(high) else None);
  }

  lemma FullStep(entries: Entries, low: nat, high: nat, lows: bool, highs: bool, index: nat)
    requires TwoProfiles(entries, low, high, lows, highs) && low < high
    ensures TwoProfiles(entries[index := ProfileOf(index, low, high)], low, high,
                        lows || index == low, highs || index == high)
  {
    var next := entries[index := ProfileOf(index, low, high)];
    forall k: nat
      ensures !Has(next, Exif, k)
      ensures Has(next, Icc, k) <==>
        (k == index && (index == low || index == high)) || (k != index && Has(entries, Icc, k))
    {
      if k != index { assert Has(next, Icc, k) <==> Has(entries, Icc, k); assert !Has(entries, Exif, k); }
    }
    if highs { assert Has(entries, Icc, high); }
  }

  /** A late repeat can lose a profile: the one at the larger index was dropped for the one at the
      recurring index, which the second arrival then takes away. */
  lemma LateRepeatLosesProfile(indices: seq<nat>, i: nat, j: nat, l: nat)
    requires i < j < |indices| && l < j && indices[i] == indices[j] < indices[l]
    requires forall t :: 0 <= t < |indices| ==> indices[t] < KEYS
    ensures var arrivals := Telling(indices, j, indices[j], indices[l]);
      && HaveIndices(arrivals, indices) && (forall t :: 0 <= t < |arrivals| ==> arrivals[t].meta.Some?)
      && Chosen(After(arrivals[..j + 1], true), Icc) == None
      && Chosen(After(arrivals[..j + 1], false), Icc) == Some([1])
  {
    var low, high := indices[j], indices[l];
    var arrivals := Telling(indices, j, low, high);
    TellingRun(indices, j, low, high, j);
    var before, a := arrivals[..j], arrivals[j];
    assert arrivals[..j + 1] == before + [a] && a == Arrival(low, Some(Meta(None, None)));
    assert indices[i] in indices[..j] && indices[l] in indices[..j];
    AfterMore(before, a, true);
    AfterMore(before, a, false);
    hide After, Telling, Pruned, First;
    var kept, full := Lone(low, high, true, true)[low := Meta(None, None)], After(before, false);
    PrunedTo(kept, None);
    NoFirst(Pruned(kept), Icc);
    LoneLeft(full, low, high);
  }

  lemma LoneLeft(full: Entries, low: nat, high: nat)
    requires TwoProfiles(full, low, high, true, true) && low < high < KEYS
    ensures Chosen(full[low := Meta(None, None)], Icc) == Some([1])
  {
    var next := full[low := Meta(None, None)];
    assert Has(full, Icc, high);
    forall k: nat | k < high
      ensures !Has(next, Icc, k)
    {
      if k != low { assert !Has(full, Icc, k); }
    }
    hide First;
    SameFirst(next, Icc, high);
  }

  /** Pruning never shows, for any metadata and after any arrival, exactly if no index recurs after a
      larger one has arrived. */
  lemma AgreesExactly(indices: seq<nat>)
    requires forall i :: 0 <= i < |indices| ==> indices[i] < KEYS
    ensures AlwaysAgree(indices) <==> NoLateRepeat(indices)
  {
    if NoLateRepeat(indices) {
      forall arrivals, n | HaveIndices(arrivals, indices) && 0 <= n <= |arrivals|
        ensures SameChoices(arrivals[..n])
      {
        forall part
          ensures Chosen(After(arrivals[..n], true), part) == Chosen(After(arrivals[..n], false), part)
        {
          NoLateRepeatAgrees(arrivals, indices, n, part);
        }
      }
    } else {
      var i, j, l :| 0 <= i < j < |indices| && 0 <= l < j && indices[i] == indices[j] && indices[l] > indices[j];
      LateRepeatLosesProfile(indices, i, j, l);
      var arrivals := Telling(indices, j, indices[j], indices[l]);
      assert !SameChoices(arrivals[..j + 1]);
    }
  }
}
