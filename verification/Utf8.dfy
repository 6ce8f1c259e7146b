/** Well-formed UTF-8, and where its characters begin. */
module Utf8 {
  import opened Pixels

  type Bytes = seq<Byte>

  predicate Continuation(b: Byte) {
    0x80 <= b <= 0xbf
  }

  /** Bytes of the character at `pos`, or 0 if none is well formed there (table 3-7 of the Unicode
      standard). */
  function CharLen(b: Bytes, pos: nat): (n: nat)
    requires pos < |b|
    ensures n <= 4 && pos + n <= |b|
    ensures n > 0 ==> !Continuation(b[pos]) && forall i :: pos < i < pos + n ==> Continuation(b[i])
    ensures n == 1 <==> b[pos] < 0x80
  {
    var first := b[pos];
    if first < 0x80 then 1
    else if first < 0xc2 || first > 0xf4 then 0
    else
      var n := if first < 0xe0 then 2 else if first < 0xf0 then 3 else 4;
      if pos + n > |b| then 0
      else
        var second := b[pos + 1];
        var low := if first == 0xe0 then 0xa0 else if first == 0xf0 then 0x90 else 0x80;
        var high := if first == 0xed then 0x9f else if first == 0xf4 then 0x8f else 0xbf;
        if !(low <= second <= high) then 0
        else if n >= 3 && !Continuation(b[pos + 2]) then 0
        else if n == 4 && !Continuation(b[pos + 3]) then 0
        else n
  }

  /** From `pos` on the bytes are whole characters. */
  predicate ValidFrom(b: Bytes, pos: nat)
    decreases |b| - pos
  {
    if pos >= |b| then pos == |b|
    else
      var n := CharLen(b, pos);
      n > 0 && ValidFrom(b, pos + n)
  }

  /** A byte that does not continue a character begins one. */
  lemma {:induction false} BeginsCharacter(b: Bytes, from: nat, pos: nat)
    requires ValidFrom(b, from) && from <= pos <= |b| && (pos < |b| ==> !Continuation(b[pos]))
    ensures ValidFrom(b, pos)
    decreases |b| - from
  {
    if from < pos {
      var n := CharLen(b, from);
      assert pos >= from + n;
      BeginsCharacter(b, from + n, pos);
    }
  }

  /** An ASCII byte is a character of its own. */
  lemma AfterAscii(b: Bytes, from: nat, pos: nat)
    requires ValidFrom(b, from) && from <= pos < |b| && b[pos] < 0x80
    ensures ValidFrom(b, pos) && ValidFrom(b, pos + 1)
  {
    BeginsCharacter(b, from, pos);
    assert CharLen(b, pos) == 1;
  }

  /** Whole characters copied in front of whole characters. */
  lemma {:induction false} CopiedCharacters(b: Bytes, out: Bytes, from: nat, to: nat)
    requires |b| == |out| && from <= to <= |b| && ValidFrom(b, from) && ValidFrom(b, to) && ValidFrom(out, to)
    requires forall i :: from <= i < to ==> out[i] == b[i]
    ensures ValidFrom(out, from)
    decreases |out| - from
  {
    if from < to {
      var n := CharLen(b, from);
      if to < |b| { assert CharLen(b, to) > 0; }
      assert from + n <= to;
      CopiedCharacters(b, out, from + n, to);
      assert CharLen(out, from) == n;
    }
  }

  /** Spaces in front of whole characters. */
  lemma {:induction false} SpacesThen(out: Bytes, from: nat, to: nat)
    requires from <= to <= |out| && ValidFrom(out, to) && forall i :: from <= i < to ==> out[i] == 32
    ensures ValidFrom(out, from)
    decreases |out| - from
  {
    if from < to { SpacesThen(out, from + 1, to); }
  }

  /** The code point of the character at `pos`. */
  function CodePoint(b: Bytes, pos: nat): nat
    requires pos < |b| && CharLen(b, pos) > 0
  {
    var n := CharLen(b, pos);
    if n == 1 then b[pos]
    else if n == 2 then (b[pos] as int % 32) * 64 + b[pos + 1] as int % 64
    else if n == 3 then ((b[pos] as int % 16) * 64 + b[pos + 1] as int % 64) * 64 + b[pos + 2] as int % 64
    else
      (((b[pos] as int % 8) * 64 + b[pos + 1] as int % 64) * 64 + b[pos + 2] as int % 64) * 64
      + b[pos + 3] as int % 64
  }

  // ---- Every character, and only characters ------------------------------------------------------------

  /** A code point that is no surrogate. */
  predicate Scalar(c: nat) {
    c < 0x11_0000 && !(0xd800 <= c <= 0xdfff)
  }

  /** The bytes of a character: six bits in each but the first, which tells how many there are. */
  function Encoded(c: nat): (r: Bytes)
    requires Scalar(c)
    ensures 1 <= |r| <= 4
  {
    var high := c / 64;
    var higher := high / 64;
    if c < 0x80 then [c]
    else if c < 0x800 then [0xc0 + high, 0x80 + c % 64]
    else if c < 0x1_0000 then [0xe0 + higher, 0x80 + high % 64, 0x80 + c % 64]
    else [0xf0 + higher / 64, 0x80 + higher % 64, 0x80 + high % 64, 0x80 + c % 64]
  }

  /** These bytes stand at this position. */
  predicate Spelled(b: Bytes, pos: nat, code: Bytes) {
    && pos + |code| <= |b|
    && (|code| > 0 ==> b[pos] == code[0]) && (|code| > 1 ==> b[pos + 1] == code[1])
    && (|code| > 2 ==> b[pos + 2] == code[2]) && (|code| > 3 ==> b[pos + 3] == code[3])
  }

  /** An encoded character is read back. */
  lemma ReadsEncoded(b: Bytes, pos: nat, c: nat)
    requires Scalar(c) && Spelled(b, pos, Encoded(c))
    ensures CharLen(b, pos) == |Encoded(c)| && CodePoint(b, pos) == c
  {
    var high := c / 64;
    var higher := high / 64;
    if 0x80 <= c < 0x800 { ReadsTwo(b, pos, high, c % 64); }
    if 0x800 <= c < 0x1_0000 { ReadsThree(b, pos, higher, high % 64, c % 64); }
    if c >= 0x1_0000 { ReadsFour(b, pos, higher / 64, higher % 64, high % 64, c % 64); }
    hide CharLen, CodePoint;
  }

  lemma ReadsTwo(b: Bytes, pos: nat, x: nat, y: nat)
    requires 2 <= x < 32 && y < 64 && Spelled(b, pos, [0xc0 + x, 0x80 + y])
    ensures CharLen(b, pos) == 2 && CodePoint(b, pos) == x * 64 + y
  {
  }

  lemma ReadsThree(b: Bytes, pos: nat, x: nat, y: nat, z: nat)
    requires x < 16 && y < 64 && z < 64 && Spelled(b, pos, [0xe0 + x, 0x80 + y, 0x80 + z])
    requires (x == 0 ==> y >= 32) && (x == 13 ==> y < 32)
    ensures CharLen(b, pos) == 3 && CodePoint(b, pos) == (x * 64 + y) * 64 + z
  {
  }

  lemma ReadsFour(b: Bytes, pos: nat, w: nat, x: nat, y: nat, z: nat)
    requires w <= 4 && x < 64 && y < 64 && z < 64 && Spelled(b, pos, [0xf0 + w, 0x80 + x, 0x80 + y, 0x80 + z])
    requires (w == 0 ==> x >= 16) && (w == 4 ==> x < 16)
    ensures CharLen(b, pos) == 4 && CodePoint(b, pos) == ((w * 64 + x) * 64 + y) * 64 + z
  {
  }

  /** What is read as a character is one, encoded. */
  lemma OnlyEncoded(b: Bytes, pos: nat)
    requires pos < |b| && CharLen(b, pos) > 0
    ensures Scalar(CodePoint(b, pos)) && Spelled(b, pos, Encoded(CodePoint(b, pos)))
    ensures |Encoded(CodePoint(b, pos))| == CharLen(b, pos)
  {
    var n := CharLen(b, pos);
    if n == 2 { OnlyTwo(b, pos, b[pos] as int - 0xc0, b[pos + 1] as int - 0x80); }
    if n == 3 { OnlyThree(b, pos, b[pos] as int - 0xe0, b[pos + 1] as int - 0x80, b[pos + 2] as int - 0x80); }
    if n == 4 {
      OnlyFour(b, pos, b[pos] as int - 0xf0, b[pos + 1] as int - 0x80, b[pos + 2] as int - 0x80,
               b[pos + 3] as int - 0x80);
    }
    assert n == 1 ==> CodePoint(b, pos) == b[pos];
    hide CodePoint;
  }

  lemma OnlyTwo(b: Bytes, pos: nat, x: nat, y: nat)
    requires 2 <= x < 32 && y < 64 && Spelled(b, pos, [0xc0 + x, 0x80 + y])
    ensures CharLen(b, pos) == 2 && Scalar(CodePoint(b, pos)) && Encoded(CodePoint(b, pos)) == [0xc0 + x, 0x80 + y]
  {
    ReadsTwo(b, pos, x, y);
    TwoBytes(x, y);
    hide CharLen, CodePoint;
  }

  lemma OnlyThree(b: Bytes, pos: nat, x: nat, y: nat, z: nat)
    requires x < 16 && y < 64 && z < 64 && Spelled(b, pos, [0xe0 + x, 0x80 + y, 0x80 + z])
    requires (x == 0 ==> y >= 32) && (x == 13 ==> y < 32)
    ensures CharLen(b, pos) == 3 && Scalar(CodePoint(b, pos))
    ensures Encoded(CodePoint(b, pos)) == [0xe0 + x, 0x80 + y, 0x80 + z]
  {
    ReadsThree(b, pos, x, y, z);
    ThreeBytes(x, y, z);
    hide CharLen, CodePoint;
  }

  lemma OnlyFour(b: Bytes, pos: nat, w: nat, x: nat, y: nat, z: nat)
    requires w <= 4 && x < 64 && y < 64 && z < 64 && Spelled(b, pos, [0xf0 + w, 0x80 + x, 0x80 + y, 0x80 + z])
    requires (w == 0 ==> x >= 16) && (w == 4 ==> x < 16)
    ensures CharLen(b, pos) == 4 && Scalar(CodePoint(b, pos))
    ensures Encoded(CodePoint(b, pos)) == [0xf0 + w, 0x80 + x, 0x80 + y, 0x80 + z]
  {
    ReadsFour(b, pos, w, x, y, z);
    FourBytes(w, x, y, z);
    hide CharLen, CodePoint;
  }

  lemma TwoBytes(x: nat, y: nat)
    requires x < 32 && y < 64
    ensures (x * 64 + y) / 64 == x && (x * 64 + y) % 64 == y
  {
  }

  lemma ThreeBytes(x: nat, y: nat, z: nat)
    requires x < 16 && y < 64 && z < 64
    ensures var c := (x * 64 + y) * 64 + z; c % 64 == z && c / 64 % 64 == y && c / 64 / 64 == x
  {
  }

  lemma FourBytes(w: nat, x: nat, y: nat, z: nat)
    requires w < 8 && x < 64 && y < 64 && z < 64
    ensures var c := ((w * 64 + x) * 64 + y) * 64 + z;
      c % 64 == z && c / 64 % 64 == y && c / 64 / 64 % 64 == x && c / 64 / 64 / 64 == w
  {
  }
}
