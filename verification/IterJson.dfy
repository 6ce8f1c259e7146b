/** Matching braces, found one pair at a time: the iterator may be left and resumed after any pair. */
module JsonBraces {
  import opened Options
  import opened Pixels

  type Bytes = seq<Byte>
  const OPEN: Byte := 123
  const CLOSE: Byte := 125

  /** Opening braces minus closing braces in `s[lo..hi]`. */
  function Depth(s: Bytes, lo: nat, hi: nat): int
    requires hi <= |s|
  {
    if hi <= lo then 0
    else Depth(s, lo, hi - 1) + (if s[hi - 1] == OPEN then 1 else if s[hi - 1] == CLOSE then -1 else 0)
  }

  /** How many braces opened after the one at `i` are still open at `end`. */
  function Inner(s: Bytes, i: nat, end: nat): int
    requires end <= |s|
  {
    Depth(s, i + 1, end)
  }

  /** The brace at `i` is not closed before `end`. */
  ghost predicate Unclosed(s: Bytes, i: nat, end: nat)
    requires end <= |s|
  {
    i < end && s[i] == OPEN && forall k :: i < k <= end ==> Inner(s, i, k) >= 0
  }

  /** Braces at `i` and `j` with a balanced interior. */
  ghost predicate Pair(s: Bytes, i: nat, j: nat) {
    j < |s| && s[j] == CLOSE && Unclosed(s, i, j) && Inner(s, i, j) == 0
  }

  /** The stack holds exactly the unclosed braces, in order, each enclosing the ones above it. */
  ghost predicate Stacked(s: Bytes, stack: seq<nat>, end: nat)
    requires end <= |s|
  {
    && (forall k :: 0 <= k < |stack| ==> Unclosed(s, stack[k], end) && Inner(s, stack[k], end) == |stack| - 1 - k)
    && (forall i: nat :: Unclosed(s, i, end) ==> i in stack)
    && (forall k, l :: 0 <= k < l < |stack| ==> stack[k] < stack[l])
  }

  lemma UnclosedStep(s: Bytes, i: nat, end: nat)
    requires end < |s|
    ensures i < end ==> (Unclosed(s, i, end + 1) <==> Unclosed(s, i, end) && Inner(s, i, end + 1) >= 0)
    ensures i == end ==> (Unclosed(s, i, end + 1) <==> s[i] == OPEN)
  {
    if i == end { NoDepth(s, end + 1); }
  }

  lemma NoDepth(s: Bytes, end: nat)
    requires end <= |s|
    ensures Depth(s, end, end) == 0
  {
  }

  lemma Pushed(s: Bytes, stack: seq<nat>, end: nat)
    requires end < |s| && s[end] == OPEN && Stacked(s, stack, end)
    ensures Stacked(s, stack + [end], end + 1)
  {
    NoDepth(s, end + 1);
    forall i: nat
      ensures i < end ==> (Unclosed(s, i, end + 1) <==> Unclosed(s, i, end))
      ensures i < end ==> Inner(s, i, end + 1) == Inner(s, i, end) + 1
      ensures Unclosed(s, end, end + 1)
    {
      UnclosedStep(s, i, end);
      UnclosedStep(s, end, end);
    }
    hide Inner, Unclosed;
    var next := stack + [end];
    forall i: nat | Unclosed(s, i, end + 1)
      ensures i in next
    {
      UnclosedBelow(s, i, end + 1);
      if i < end { assert i in stack; } else { assert next[|stack|] == i; }
    }
    forall k | 0 <= k < |stack|
      ensures stack[k] < end
    {
      UnclosedBelow(s, stack[k], end);
    }
  }

  lemma UnclosedBelow(s: Bytes, i: nat, end: nat)
    requires end <= |s| && Unclosed(s, i, end)
    ensures i < end
  {
  }

  lemma Passed(s: Bytes, stack: seq<nat>, end: nat)
    requires end < |s| && s[end] != OPEN && s[end] != CLOSE && Stacked(s, stack, end)
    ensures Stacked(s, stack, end + 1)
  {
    forall i: nat
      ensures Unclosed(s, i, end + 1) <==> Unclosed(s, i, end)
      ensures i < end ==> Inner(s, i, end + 1) == Inner(s, i, end)
    {
      UnclosedStep(s, i, end);
    }
    forall k | 0 <= k < |stack|
      ensures stack[k] < end
    {
      UnclosedBelow(s, stack[k], end);
    }
    hide Inner, Unclosed;
  }

  /** A closing brace closes the top of the stack, and nothing else. */
  lemma Popped(s: Bytes, stack: seq<nat>, end: nat)
    requires end < |s| && s[end] == CLOSE && Stacked(s, stack, end)
    ensures Stacked(s, if stack == [] then [] else stack[..|stack| - 1], end + 1)
    ensures forall i: nat :: Pair(s, i, end) <==> stack != [] && i == stack[|stack| - 1]
  {
    forall i: nat
      ensures Unclosed(s, i, end + 1) <==> Unclosed(s, i, end) && Inner(s, i, end) > 0
      ensures i < end ==> Inner(s, i, end + 1) == Inner(s, i, end) - 1
    {
      UnclosedStep(s, i, end);
    }
    forall k | 0 <= k < |stack|
      ensures stack[k] < end
    {
      UnclosedBelow(s, stack[k], end);
    }
    hide Inner, Unclosed;
    if stack != [] {
      var rest := stack[..|stack| - 1];
      forall i: nat | Unclosed(s, i, end + 1)
        ensures i in rest
      {
        UnclosedBelow(s, i, end + 1);
        assert i in stack;
        var k :| 0 <= k < |stack| && stack[k] == i;
        assert k < |rest| && rest[k] == i;
      }
    }
  }

  class IterJson {
    const s: Bytes
    var startPos: seq<nat>
    var currentPos: nat

    ghost predicate Valid()
      reads this
    {
      currentPos <= |s| && Stacked(s, startPos, currentPos)
    }

    constructor (s: Bytes)
      ensures Valid() && this.s == s && currentPos == 0
    {
      this.s := s;
      startPos, currentPos := [], 0;
    }

    /** The next pair to close: none that closes earlier is passed over. */
    method Next() returns (item: Option<(nat, nat)>)
      requires Valid()
      modifies this
      ensures Valid() && old(currentPos) <= currentPos
      ensures item.Some? ==> item.value.1 == currentPos && 0 < currentPos && Pair(s, item.value.0, currentPos - 1)
      ensures item.Some? ==> old(currentPos) < currentPos
      ensures forall i: nat, j: nat :: Pair(s, i, j) && old(currentPos) <= j < currentPos ==>
        item.Some? && i == item.value.0 && j == currentPos - 1
      ensures item.None? ==> currentPos == |s|
    {
      hide Stacked, Unclosed, Inner;
      while currentPos < |s|
        invariant Valid() && old(currentPos) <= currentPos
        invariant forall i: nat, j: nat :: Pair(s, i, j) ==> !(old(currentPos) <= j < currentPos)
      {
        if s[currentPos] == OPEN {
          Pushed(s, startPos, currentPos);
          startPos := startPos + [currentPos];
        } else if s[currentPos] == CLOSE {
          Popped(s, startPos, currentPos);
          if startPos != [] {
            var start := startPos[|startPos| - 1];
            startPos := startPos[..|startPos| - 1];
            currentPos := currentPos + 1;
            return Some((start, currentPos));
          }
        } else {
          Passed(s, startPos, currentPos);
        }
        currentPos := currentPos + 1;
      }
      item := None;
    }
  }

  /** All pairs, in the order they close. */
  ghost predicate AllPairs(s: Bytes, pairs: seq<(nat, nat)>) {
    && (forall k :: 0 <= k < |pairs| ==> pairs[k].1 > 0 && Pair(s, pairs[k].0, pairs[k].1 - 1))
    && (forall k, l :: 0 <= k < l < |pairs| ==> pairs[k].1 < pairs[l].1)
    && (forall i: nat, j: nat :: Pair(s, i, j) ==> (i, j + 1) in pairs)
  }

  /** Taking every item gives each matching pair exactly once, in the order they close. */
  method Collect(s: Bytes) returns (pairs: seq<(nat, nat)>)
    ensures AllPairs(s, pairs)
  {
    var iter := new IterJson(s);
    pairs := [];
    hide Pair, Stacked;
    while true
      invariant iter.Valid() && iter.s == s && fresh(iter)
      invariant forall k :: 0 <= k < |pairs| ==>
        0 < pairs[k].1 <= iter.currentPos && Pair(s, pairs[k].0, pairs[k].1 - 1)
      invariant forall k, l :: 0 <= k < l < |pairs| ==> pairs[k].1 < pairs[l].1
      invariant forall i: nat, j: nat :: Pair(s, i, j) && j < iter.currentPos ==> (i, j + 1) in pairs
      decreases |s| - iter.currentPos
    {
      ghost var before := pairs;
      var item := iter.Next();
      if item.None? { break; }
      pairs := pairs + [item.value];
      assert pairs[|before|] == item.value;
    }
    forall i: nat, j: nat | Pair(s, i, j)
      ensures j < |s|
    {
      PairInside(s, i, j);
    }
  }

  lemma PairInside(s: Bytes, i: nat, j: nat)
    requires Pair(s, i, j)
    ensures i < j < |s|
  {
  }

  /** The pairs are determined by the text alone. */
  lemma {:induction false} PairsAreUnique(s: Bytes, a: seq<(nat, nat)>, b: seq<(nat, nat)>)
    requires AllPairs(s, a) && AllPairs(s, b)
    ensures a == b
  {
    SameLength(s, a, b);
    SameLength(s, b, a);
    forall k | 0 <= k < |a|
      ensures a[k] == b[k]
    {
      SameItem(s, a, b, k);
    }
  }

  lemma FindPair(s: Bytes, a: seq<(nat, nat)>, b: seq<(nat, nat)>, k: nat) returns (m: nat)
    requires AllPairs(s, a) && AllPairs(s, b) && k < |a|
    ensures m < |b| && b[m] == a[k]
  {
    hide Pair;
    var (i, j) := a[k];
    assert (i, (j - 1) + 1) in b;
    m :| m < |b| && b[m] == a[k];
  }

  lemma ClosesBefore(s: Bytes, pairs: seq<(nat, nat)>, k: nat, l: nat)
    requires AllPairs(s, pairs) && k < |pairs| && l < |pairs|
    ensures pairs[k].1 < pairs[l].1 <==> k < l
  {
    hide Pair;
    if l < k { assert pairs[l].1 < pairs[k].1; }
  }

  lemma {:induction false} SameItem(s: Bytes, a: seq<(nat, nat)>, b: seq<(nat, nat)>, k: nat)
    requires AllPairs(s, a) && AllPairs(s, b) && k < |a|
    ensures k < |b| && a[k] == b[k]
  {
    forall l | 0 <= l < k
      ensures l < |b| && a[l] == b[l]
    {
      SameItem(s, a, b, l);
    }
    hide AllPairs;
    var m := FindPair(s, a, b, k);
    assert m >= k;
    var n := FindPair(s, b, a, k);
    assert n >= k;
    ClosesBefore(s, a, k, n);
    ClosesBefore(s, b, k, m);
  }

  lemma SameLength(s: Bytes, a: seq<(nat, nat)>, b: seq<(nat, nat)>)
    requires AllPairs(s, a) && AllPairs(s, b)
    ensures |a| <= |b|
  {
    if |a| > 0 { SameItem(s, a, b, |a| - 1); }
  }

  /** No byte closes two pairs, and no brace opens two. */
  lemma PairsAreDisjoint(s: Bytes, i: nat, j: nat, k: nat, l: nat)
    requires Pair(s, i, j) && Pair(s, k, l) && (i == k || j == l)
    ensures i == k && j == l
  {
    if i == k {
      ClosedOnce(s, i, j, l);
      ClosedOnce(s, i, l, j);
    } else if i < k {
      Enclosed(s, i, k, j);
    } else {
      Enclosed(s, k, i, j);
    }
  }

  lemma ClosedOnce(s: Bytes, i: nat, j: nat, l: nat)
    requires Pair(s, i, j) && j < |s| && l <= |s|
    ensures Unclosed(s, i, l) ==> l <= j
  {
    assert Inner(s, i, j + 1) == -1;
  }

  lemma Enclosed(s: Bytes, i: nat, k: nat, j: nat)
    requires Pair(s, i, j) && i < k
    ensures !Pair(s, k, j)
  {
    if k < j && s[k] == OPEN {
      DepthSplit(s, i + 1, k, j);
      DepthSplit(s, k, k + 1, j);
      assert Inner(s, i, j) == Inner(s, i, k) + 1 + Inner(s, k, j);
    }
  }

  lemma {:induction false} DepthSplit(s: Bytes, lo: nat, mid: nat, hi: nat)
    requires lo <= mid <= hi <= |s|
    ensures Depth(s, lo, hi) == Depth(s, lo, mid) + Depth(s, mid, hi)
  {
    if hi > mid { DepthSplit(s, lo, mid, hi - 1); }
  }

  // ---- Nested text ----------------------------------------------------------------------------------------

  /** Text with braces in pairs. */
  datatype Item = Plain(b: Byte) | Braces(inside: seq<Item>)

  predicate Proper(items: seq<Item>) {
    forall i :: 0 <= i < |items| ==>
      if items[i].Plain? then items[i].b != 123 && items[i].b != 125 else Proper(items[i].inside)
  }

  function Code(item: Item): Bytes {
    if item.Plain? then [item.b] else [123] + Text(item.inside) + [125]
  }

  function Text(items: seq<Item>): Bytes {
    if items == [] then [] else Code(items[0]) + Text(items[1..])
  }

  /** The braces at both ends of nested text. */
  ghost predicate Encloses(s: Bytes, i: nat, j: nat) {
    i < j < |s| && s[i] == 123 && s[j] == 125 && exists items :: Proper(items) && s[i + 1..j] == Text(items)
  }

  /** Between these places braces come in pairs. */
  ghost predicate Level(s: Bytes, lo: nat, hi: nat) {
    lo <= hi <= |s| && Depth(s, lo, hi) == 0 && forall k :: lo <= k <= hi ==> Depth(s, lo, k) >= 0
  }

  lemma LevelsJoin(s: Bytes, lo: nat, mid: nat, hi: nat)
    requires Level(s, lo, mid) && Level(s, mid, hi)
    ensures Level(s, lo, hi)
  {
    forall k | lo <= k <= hi
      ensures Depth(s, lo, k) >= 0 && (k == hi ==> Depth(s, lo, k) == 0)
    {
      if k >= mid { DepthSplit(s, lo, mid, k); }
    }
  }

  lemma OneByte(s: Bytes, lo: nat)
    requires lo < |s|
    ensures Depth(s, lo, lo + 1) == if s[lo] == OPEN then 1 else if s[lo] == CLOSE then -1 else 0
  {
    NoDepth(s, lo);
  }

  lemma LevelInBraces(s: Bytes, lo: nat, hi: nat)
    requires lo < hi < |s| && s[lo] == OPEN && s[hi] == CLOSE && Level(s, lo + 1, hi)
    ensures Level(s, lo, hi + 1)
  {
    OneByte(s, lo);
    forall k | lo <= k <= hi + 1
      ensures Depth(s, lo, k) >= 0 && (k == hi + 1 ==> Depth(s, lo, k) == 0)
    {
      if k > lo { DepthSplit(s, lo, lo + 1, k); }
    }
  }

  /** Nested text is level. */
  lemma {:induction false} TextIsLevel(s: Bytes, lo: nat, items: seq<Item>)
    requires Proper(items) && lo + |Text(items)| <= |s| && s[lo..lo + |Text(items)|] == Text(items)
    ensures Level(s, lo, lo + |Text(items)|)
    decreases items
  {
    if items == [] {
      NoDepth(s, lo);
    } else {
      var first, rest := Code(items[0]), Text(items[1..]);
      var mid, hi := lo + |first|, lo + |Text(items)|;
      assert s[lo..mid] == s[lo..hi][..|first|] == first;
      assert s[mid..hi] == s[lo..hi][|first|..] == rest;
      assert Proper(items[1..]);
      ItemIsLevel(s, lo, items[0]);
      TextIsLevel(s, mid, items[1..]);
      LevelsJoin(s, lo, mid, hi);
    }
  }

  lemma {:induction false} ItemIsLevel(s: Bytes, lo: nat, item: Item)
    requires Proper([item]) && lo + |Code(item)| <= |s| && s[lo..lo + |Code(item)|] == Code(item)
    ensures Level(s, lo, lo + |Code(item)|)
    decreases item
  {
    var hi := lo + |Code(item)|;
    assert [item][0] == item;
    assert s[lo] == s[lo..hi][0] && s[hi - 1] == s[lo..hi][|Code(item)| - 1];
    if item.Plain? {
      OneByte(s, lo);
      NoDepth(s, lo);
    } else {
      var code := Code(item);
      assert code[1..|code| - 1] == Text(item.inside);
      assert s[lo + 1..hi - 1] == s[lo..hi][1..|code| - 1];
      TextIsLevel(s, lo + 1, item.inside);
      LevelInBraces(s, lo, hi - 1);
    }
  }

  /** Where the first brace of level text is closed. */
  lemma ClosesAt(s: Bytes, lo: nat, hi: nat) returns (close: nat)
    requires Level(s, lo, hi) && lo < hi && s[lo] == OPEN
    ensures lo < close < hi && s[close] == CLOSE && Level(s, lo + 1, close) && Level(s, close + 1, hi)
  {
    OneByte(s, lo);
    close := lo + 1;
    while Depth(s, lo, close + 1) != 0
      invariant lo < close < hi && forall k :: lo < k <= close ==> Depth(s, lo, k) >= 1
      decreases hi - close
    {
      close := close + 1;
    }
    NextByte(s, lo, close);
    LevelFrom(s, lo, lo + 1, close);
    LevelFrom(s, lo, close + 1, hi);
  }

  lemma NextByte(s: Bytes, lo: nat, k: nat)
    requires lo <= k < |s|
    ensures Depth(s, lo, k + 1) == Depth(s, lo, k) + (if s[k] == OPEN then 1 else if s[k] == CLOSE then -1 else 0)
  {
  }

  /** What never falls below where it begins, and ends there, is level. */
  lemma LevelFrom(s: Bytes, lo: nat, from: nat, to: nat)
    requires lo <= from <= to <= |s| && Depth(s, lo, from) == Depth(s, lo, to)
    requires forall k :: from <= k <= to ==> Depth(s, lo, k) >= Depth(s, lo, from)
    ensures Level(s, from, to)
  {
    forall k | from <= k <= to
      ensures Depth(s, from, k) >= 0 && (k == to ==> Depth(s, from, k) == 0)
    {
      DepthSplit(s, lo, from, k);
      assert Depth(s, lo, k) >= Depth(s, lo, from);
    }
  }

  /** Level text is nested. */
  lemma {:induction false} ReadsLevel(s: Bytes, lo: nat, hi: nat) returns (items: seq<Item>)
    requires Level(s, lo, hi)
    ensures Proper(items) && s[lo..hi] == Text(items)
    decreases hi - lo
  {
    if lo == hi {
      items := [];
    } else {
      OneByte(s, lo);
      var item, end := Plain(s[lo]), lo + 1;
      if s[lo] == OPEN {
        var close := ClosesAt(s, lo, hi);
        var inside := ReadsLevel(s, lo + 1, close);
        item, end := Braces(inside), close + 1;
        assert s[lo..end] == [s[lo]] + s[lo + 1..close] + [s[close]];
      } else {
        assert Depth(s, lo, lo + 1) >= 0;
        LevelFrom(s, lo, lo + 1, hi);
      }
      var rest := ReadsLevel(s, end, hi);
      items := [item] + rest;
      assert items[1..] == rest && s[lo..hi] == s[lo..end] + s[end..hi];
    }
  }

  /** Two braces are a pair exactly if the text between them is nested text. */
  lemma PairsEncloseText(s: Bytes, i: nat, j: nat)
    ensures Pair(s, i, j) <==> Encloses(s, i, j)
  {
    if Pair(s, i, j) {
      PairIsLevel(s, i, j);
      var items := ReadsLevel(s, i + 1, j);
    }
    if Encloses(s, i, j) {
      var items :| Proper(items) && s[i + 1..j] == Text(items);
      assert s[i + 1..i + 1 + |Text(items)|] == s[i + 1..j];
      TextIsLevel(s, i + 1, items);
      LevelIsPair(s, i, j);
    }
  }

  lemma PairIsLevel(s: Bytes, i: nat, j: nat)
    requires Pair(s, i, j)
    ensures i < j < |s| && s[i] == 123 && s[j] == 125 && Level(s, i + 1, j)
  {
    var from := i + 1;
    forall k | from <= k <= j
      ensures Depth(s, from, k) >= 0
    {
      assert Inner(s, i, k) >= 0;
    }
  }

  lemma LevelIsPair(s: Bytes, i: nat, j: nat)
    requires i < j < |s| && s[i] == 123 && s[j] == 125 && Level(s, i + 1, j)
    ensures Pair(s, i, j)
  {
  }
}
