/** PNG chunks as section 5.3 of the PNG specification lays them out: length, type, data, checksum. */
module PngChunks {
  import opened Pixels

  type Bytes = seq<Byte>

  datatype Chunk = Chunk(kind: Bytes, data: Bytes, crc: Bytes) {
    predicate Valid() {
      |kind| == 4 && |data| < 0x1_0000_0000 && |crc| == 4
    }
  }

  const IHDR: Bytes := [73, 72, 68, 82]
  const IDAT: Bytes := [73, 68, 65, 84]
  const IEND: Bytes := [73, 69, 78, 68]
  const ICCP: Bytes := [105, 67, 67, 80]
  const EXIF: Bytes := [101, 88, 73, 102]

  function FromBe32(b: Bytes): (n: nat)
    requires |b| == 4
    ensures n < 0x1_0000_0000
  {
    0x100_0000 * b[0] as int + 0x1_0000 * b[1] as int + 0x100 * b[2] as int + b[3] as int
  }

  function ToBe32(n: nat): (b: Bytes)
    requires n < 0x1_0000_0000
    ensures |b| == 4
  {
    [n / 0x100_0000, n / 0x1_0000 % 256, n / 0x100 % 256, n % 256]
  }

  /** Most significant byte first. */
  lemma BigEndian(b: Bytes)
    requires |b| == 4
    ensures FromBe32(b) == ((b[0] as int * 256 + b[1] as int) * 256 + b[2] as int) * 256 + b[3] as int
  {
  }

  predicate Spells(b: Bytes, s: string) {
    |b| == |s| && forall i :: 0 <= i < |s| ==> b[i] as int == s[i] as int
  }

  lemma ChunkNames()
    ensures Spells(IHDR, "IHDR") && Spells(IDAT, "IDAT") && Spells(IEND, "IEND")
    ensures Spells(ICCP, "iCCP") && Spells(EXIF, "eXIf")
  {
  }

  lemma LengthRead(n: nat)
    requires n < 0x1_0000_0000
    ensures FromBe32(ToBe32(n)) == n
  {
    var a, b, c := n / 0x100_0000, n / 0x1_0000, n / 0x100;
    assert n == 256 * c + n % 256 && c == 256 * b + c % 256 && b == 256 * a + b % 256;
  }

  lemma LengthWritten(b: Bytes)
    requires |b| == 4
    ensures ToBe32(FromBe32(b)) == b
  {
    var n := FromBe32(b);
    assert n / 0x100_0000 == b[0] && n / 0x1_0000 == 256 * b[0] as int + b[1] as int;
    assert n / 0x100 == 0x1_0000 * b[0] as int + 256 * b[1] as int + b[2] as int;
  }

  function Serialized(c: Chunk): (b: Bytes)
    requires c.Valid()
    ensures |b| == |c.data| + 12
  {
    ToBe32(|c.data|) + c.kind + c.data + c.crc
  }

  function SerializedAll(chunks: seq<Chunk>): Bytes
    requires forall c :: c in chunks ==> c.Valid()
  {
    if chunks == [] then [] else Serialized(chunks[0]) + SerializedAll(chunks[1..])
  }

  /** No whole chunk starts here: the header is cut short, or the chunk is. */
  predicate Stuck(b: Bytes) {
    |b| < 8 || FromBe32(b[..4]) + 12 > |b|
  }

  /** The chunk at the front of the bytes. */
  function Head(b: Bytes): (c: Chunk)
    requires !Stuck(b)
    ensures c.Valid()
  {
    var length := FromBe32(b[..4]);
    Chunk(b[4..8], b[8..8 + length], b[8 + length..12 + length])
  }

  /** The whole chunks the bytes start with. */
  function Parsed(b: Bytes): (chunks: seq<Chunk>)
    ensures forall c :: c in chunks ==> c.Valid()
  {
    if Stuck(b) then [] else [Head(b)] + Parsed(b[|Head(b).data| + 12..])
  }

  lemma HeadSerialized(c: Chunk, rest: Bytes)
    requires c.Valid()
    ensures var b := Serialized(c) + rest;
      !Stuck(b) && Head(b) == c && b[|c.data| + 12..] == rest && b[..|c.data| + 12] == Serialized(c)
  {
    var b := Serialized(c) + rest;
    LengthRead(|c.data|);
    assert b[..4] == ToBe32(|c.data|);
    hide FromBe32, ToBe32;
    assert b[4..8] == c.kind && b[8..8 + |c.data|] == c.data && b[8 + |c.data|..12 + |c.data|] == c.crc;
  }

  lemma SerializedHead(b: Bytes)
    requires !Stuck(b)
    ensures Serialized(Head(b)) == b[..|Head(b).data| + 12]
  {
    LengthWritten(b[..4]);
    hide FromBe32, ToBe32;
  }

  /** Chunks in front of any bytes are read first, then what those bytes hold. */
  lemma {:induction false} ParsedConcat(chunks: seq<Chunk>, rest: Bytes)
    requires forall c :: c in chunks ==> c.Valid()
    ensures Parsed(SerializedAll(chunks) + rest) == chunks + Parsed(rest)
  {
    if chunks == [] {
      assert SerializedAll(chunks) + rest == rest;
    } else {
      hide *;
      var tail := SerializedAll(chunks[1..]) + rest;
      ParsedConcat(chunks[1..], rest);
      SerializedFirst(chunks, rest);
      HeadSerialized(chunks[0], tail);
      ParsedFirst(Serialized(chunks[0]) + tail);
      Prepend(chunks, Parsed(rest));
    }
  }

  lemma SerializedFirst(chunks: seq<Chunk>, rest: Bytes)
    requires chunks != [] && forall c :: c in chunks ==> c.Valid()
    ensures SerializedAll(chunks) + rest == Serialized(chunks[0]) + (SerializedAll(chunks[1..]) + rest)
  {
    hide Serialized;
  }

  lemma ParsedFirst(b: Bytes)
    requires !Stuck(b)
    ensures |Head(b).data| + 12 <= |b| && Parsed(b) == [Head(b)] + Parsed(b[|Head(b).data| + 12..])
  {
  }

  lemma Prepend(chunks: seq<Chunk>, rest: seq<Chunk>)
    requires chunks != []
    ensures [chunks[0]] + (chunks[1..] + rest) == chunks + rest
  {
  }

  /** Reading back chunks written in front of something that is not a chunk gives just them. */
  lemma ParsedSerialized(chunks: seq<Chunk>, rest: Bytes)
    requires (forall c :: c in chunks ==> c.Valid()) && Stuck(rest)
    ensures Parsed(SerializedAll(chunks) + rest) == chunks
  {
    ParsedConcat(chunks, rest);
    assert chunks + [] == chunks;
  }

  lemma Associates(a: Bytes, b: Bytes, c: Bytes)
    ensures a + (b + c) == a + b + c
  {
  }

  /** The bytes start with the serialization of the chunks read from them. */
  lemma {:induction false} SerializedParsed(b: Bytes) returns (rest: Bytes)
    ensures b == SerializedAll(Parsed(b)) + rest && Stuck(rest)
    decreases |b|
  {
    if Stuck(b) {
      rest := b;
    } else {
      var n := |Head(b).data| + 12;
      rest := SerializedParsed(b[n..]);
      SerializedHead(b);
      var c, later := Head(b), Parsed(b[n..]);
      assert Parsed(b) == [c] + later && ([c] + later)[1..] == later;
      hide Stuck, Head, Serialized, Parsed;
      assert b == b[..n] + b[n..];
      Associates(Serialized(c), SerializedAll(later), rest);
    }
  }

  lemma {:induction false} SerializedConcat(a: seq<Chunk>, b: seq<Chunk>)
    requires forall c :: c in a + b ==> c.Valid()
    ensures (forall c :: c in a ==> c.Valid()) && (forall c :: c in b ==> c.Valid())
    ensures SerializedAll(a + b) == SerializedAll(a) + SerializedAll(b)
  {
    assert forall c :: c in a ==> c in a + b;
    assert forall c :: c in b ==> c in a + b;
    if a == [] {
      assert a + b == b;
    } else {
      assert forall c :: c in a[1..] + b ==> c in a + b;
      SerializedConcat(a[1..], b);
      assert (a + b)[1..] == a[1..] + b;
      hide Serialized;
      Associates(Serialized(a[0]), SerializedAll(a[1..]), SerializedAll(b));
    }
  }
}
