/** The strip coverage map: 64-bit words with one bit per pixel, and the word loop that
    marks a run of pixels while keeping count of what is still uncovered. */
module Coverage {
  import opened Arithmetic

  /** A 64-bit word, least significant bit first. */
  type Word = w: seq<bool> | |w| == 64 witness seq(64, _ => false)

  function AllOnes(): Word {
    seq(64, _ => true)
  }

  function NoOnes(): Word {
    seq(64, _ => false)
  }

  function Shl(w: Word, n: nat): Word {
    seq(64, k requires 0 <= k < 64 => k >= n && w[k - n])
  }

  function Shr(w: Word, n: nat): Word {
    seq(64, k requires 0 <= k < 64 => k + n < 64 && w[k + n])
  }

  function And(v: Word, w: Word): Word {
    seq(64, k requires 0 <= k < 64 => v[k] && w[k])
  }

  function Or(v: Word, w: Word): Word {
    seq(64, k requires 0 <= k < 64 => v[k] || w[k])
  }

  function Not(w: Word): Word {
    seq(64, k requires 0 <= k < 64 => !w[k])
  }

  /** Bits `a` (inclusive) to `b` (exclusive). */
  function RunMask(a: nat, b: nat): Word
    requires a < b <= 64
  {
    And(Shl(AllOnes(), a), Shr(AllOnes(), 64 - b))
  }

  /** Number of set bits below bit `n`. */
  function OnesBelow(w: Word, n: nat): (r: nat)
    requires n <= 64
    ensures r <= n
  {
    if n == 0 then 0 else OnesBelow(w, n - 1) + (if w[n - 1] then 1 else 0)
  }

  function CountOnes(w: Word): nat {
    OnesBelow(w, 64)
  }

  /** Whether pixel `i` is marked. */
  predicate Marked(words: seq<Word>, i: nat)
    requires i < 64 * |words|
  {
    words[i / 64][i % 64]
  }

  /** The first `n` pixels of the map, one boolean each. */
  function Bits(words: seq<Word>, n: nat): (r: seq<bool>)
    requires n <= 64 * |words|
    ensures |r| == n
  {
    seq(n, i requires 0 <= i < n => Marked(words, i))
  }

  /** How many of the pixels in `lo..hi` are not marked. */
  function UnmarkedIn(bits: seq<bool>, lo: nat, hi: nat): (r: nat)
    requires lo <= hi <= |bits|
    ensures r <= hi - lo
  {
    if lo == hi then 0 else UnmarkedIn(bits, lo, hi - 1) + (if bits[hi - 1] then 0 else 1)
  }

  function Unmarked(bits: seq<bool>): nat {
    UnmarkedIn(bits, 0, |bits|)
  }

  /** The map after every pixel in `start..end` has been marked. */
  function Mark(bits: seq<bool>, start: nat, end: nat): (r: seq<bool>)
    ensures |r| == |bits|
  {
    seq(|bits|, i requires 0 <= i < |bits| => bits[i] || start <= i < end)
  }

  lemma {:induction false} UnmarkedSplit(bits: seq<bool>, lo: nat, mid: nat, hi: nat)
    requires lo <= mid <= hi <= |bits|
    ensures UnmarkedIn(bits, lo, hi) == UnmarkedIn(bits, lo, mid) + UnmarkedIn(bits, mid, hi)
  {
    if mid < hi { UnmarkedSplit(bits, lo, mid, hi - 1); }
  }

  lemma {:induction false} NoneUnmarked(bits: seq<bool>, lo: nat, hi: nat)
    requires lo <= hi <= |bits|
    ensures UnmarkedIn(bits, lo, hi) == 0 <==> forall i :: lo <= i < hi ==> bits[i]
  {
    if lo < hi { NoneUnmarked(bits, lo, hi - 1); }
  }

  lemma {:induction false} NoneMarked(bits: seq<bool>, n: nat)
    requires n <= |bits| && forall i :: 0 <= i < n ==> !bits[i]
    ensures UnmarkedIn(bits, 0, n) == n
  {
    if n > 0 { NoneMarked(bits, n - 1); }
  }

  lemma {:induction false} UnmarkedSame(a: seq<bool>, b: seq<bool>, lo: nat, hi: nat)
    requires lo <= hi <= |a| && hi <= |b|
    requires forall i :: lo <= i < hi ==> a[i] == b[i]
    ensures UnmarkedIn(a, lo, hi) == UnmarkedIn(b, lo, hi)
  {
    if lo < hi { UnmarkedSame(a, b, lo, hi - 1); }
  }

  /** Marking a run lowers the count by what the run had unmarked. */
  lemma MarkLowers(bits: seq<bool>, start: nat, end: nat)
    requires start <= end <= |bits|
    ensures Unmarked(Mark(bits, start, end)) == Unmarked(bits) - UnmarkedIn(bits, start, end)
  {
    var marked := Mark(bits, start, end);
    UnmarkedSplit(bits, 0, end, |bits|);
    UnmarkedSplit(bits, 0, start, end);
    UnmarkedSplit(marked, 0, end, |bits|);
    UnmarkedSplit(marked, 0, start, end);
    UnmarkedSame(bits, marked, 0, start);
    UnmarkedSame(bits, marked, end, |bits|);
    NoneUnmarked(marked, start, end);
  }

  lemma MarkMark(bits: seq<bool>, a: nat, b: nat, c: nat)
    requires a <= b <= c
    ensures Mark(Mark(bits, a, b), b, c) == Mark(bits, a, c)
  {
  }

  /** Ones of a masked, inverted word are the unmarked bits under the mask. */
  lemma {:induction false} MaskedOnes(w: Word, bits: seq<bool>, base: nat, a: nat, b: nat, n: nat)
    requires a <= b <= n <= 64 && base + b <= |bits|
    requires forall k :: 0 <= k < n ==> (w[k] <==> a <= k < b && !bits[base + k])
    ensures OnesBelow(w, n) == UnmarkedIn(bits, base + a, base + b)
  {
    if b < n {
      MaskedOnes(w, bits, base, a, b, n - 1);
    } else if a < n {
      MaskedOnes(w, bits, base, a, n - 1, n - 1);
    } else if n > 0 {
      MaskedOnes(w, bits, base, n - 1, n - 1, n - 1);
    }
  }

  /** One round of the word loop: word `word` receives the mask of bits `a` to `b`. */
  function CoverWord(words: seq<Word>, word: nat, a: nat, b: nat): (r: seq<Word>)
    requires word < |words| && a < b <= 64
    ensures |r| == |words|
  {
    words[word := Or(words[word], RunMask(a, b))]
  }

  lemma CoverWordMarks(words: seq<Word>, n: nat, word: nat, a: nat, b: nat)
    requires word < |words| && a < b <= 64 && 64 * word + b <= n <= 64 * |words|
    ensures Bits(CoverWord(words, word, a, b), n) == Mark(Bits(words, n), 64 * word + a, 64 * word + b)
  {
    var after := CoverWord(words, word, a, b);
    forall i | 0 <= i < n
      ensures Marked(after, i) <==> Marked(words, i) || 64 * word + a <= i < 64 * word + b
    {
      assert i == 64 * (i / 64) + i % 64;
    }
  }

  lemma CoverWordCounts(words: seq<Word>, n: nat, word: nat, a: nat, b: nat)
    requires word < |words| && a < b <= 64 && 64 * word + b <= n <= 64 * |words|
    ensures CountOnes(And(RunMask(a, b), Not(words[word])))
         == UnmarkedIn(Bits(words, n), 64 * word + a, 64 * word + b)
  {
    var bits := Bits(words, n);
    forall k | 0 <= k < b
      ensures bits[64 * word + k] == words[word][k]
    {
      assert (64 * word + k) / 64 == word && (64 * word + k) % 64 == k;
    }
    MaskedOnes(And(RunMask(a, b), Not(words[word])), bits, 64 * word, a, b, 64);
  }

  /** Where the marked part of the run ends once the words below `word` are done. */
  ghost function Done(start: nat, end: nat, word: nat): nat {
    if 64 * word <= start then start else Min(64 * word, end)
  }

  /** One round of the loop extends the marked part of the run and lowers the count by
      what it newly marked. */
  lemma CoverStep(words: seq<Word>, bits: seq<bool>, start: nat, end: nat, word: nat)
    requires start < end <= |bits| <= 64 * |words| && start / 64 <= word < DivCeil(end, 64)
    requires Bits(words, |bits|) == Mark(bits, start, Done(start, end, word))
    ensures word < |words|
    ensures SaturatingSub(start, word * 64) < Min(end - word * 64, 64)
    ensures var a, b := SaturatingSub(start, word * 64), Min(end - word * 64, 64);
      var after := CoverWord(words, word, a, b);
      && Bits(after, |bits|) == Mark(bits, start, Done(start, end, word + 1))
      && Unmarked(Bits(after, |bits|))
         == Unmarked(Bits(words, |bits|)) - CountOnes(And(RunMask(a, b), Not(words[word])))
  {
    var a, b := SaturatingSub(start, word * 64), Min(end - word * 64, 64);
    CoverWordMarks(words, |bits|, word, a, b);
    CoverWordCounts(words, |bits|, word, a, b);
    MarkLowers(Bits(words, |bits|), 64 * word + a, 64 * word + b);
    assert Done(start, end, word) == 64 * word + a && Done(start, end, word + 1) == 64 * word + b;
    MarkMark(bits, start, 64 * word + a, 64 * word + b);
  }

  /** Marks `start..end` word by word, and keeps the count of uncovered pixels in step. */
  method Cover(coverage: array<Word>, n: nat, uncovered: nat, start: nat, end: nat)
    returns (left: nat)
    requires n <= 64 * coverage.Length && start < end <= n
    requires uncovered == Unmarked(Bits(coverage[..], n))
    modifies coverage
    ensures Bits(coverage[..], n) == Mark(old(Bits(coverage[..], n)), start, end)
    ensures left == Unmarked(Bits(coverage[..], n))
  {
    left := uncovered;
    ghost var bits := Bits(coverage[..], n);
    var word := start / 64;
    assert Bits(coverage[..], n) == Mark(bits, start, Done(start, end, word));
    while word < DivCeil(end, 64)
      invariant start / 64 <= word <= DivCeil(end, 64)
      invariant Bits(coverage[..], n) == Mark(bits, start, Done(start, end, word))
      invariant left == Unmarked(Bits(coverage[..], n))
    {
      ghost var words := coverage[..];
      CoverStep(words, bits, start, end, word);
      var a, b := SaturatingSub(start, word * 64), Min(end - word * 64, 64);
      var mask := RunMask(a, b);
      left := left - CountOnes(And(mask, Not(coverage[word])));
      coverage[word] := Or(coverage[word], mask);
      assert coverage[..] == CoverWord(words, word, a, b);
      word := word + 1;
    }
    assert Done(start, end, word) == end;
  }
}
