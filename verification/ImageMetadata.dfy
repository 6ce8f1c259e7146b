/** The colour profile and EXIF metadata, taken from a dummy image the same encoder wrote and put
    into the header of the finished file. */
module ImageMetadata {
  import opened Options
  import opened Pixels
  import opened PngChunks
  import opened StagedFiles

  // ---- PNG ------------------------------------------------------------------------------------

  predicate IsMetadata(c: Chunk) {
    c.kind == ICCP || c.kind == EXIF
  }

  function MetadataOf(chunks: seq<Chunk>): (kept: seq<Chunk>)
    ensures forall c :: c in kept ==> c in chunks
  {
    if chunks == [] then []
    else MetadataOf(chunks[..|chunks| - 1]) + (if IsMetadata(chunks[|chunks| - 1]) then [chunks[|chunks| - 1]] else [])
  }

  lemma MetadataStep(done: seq<Chunk>, c: Chunk)
    ensures MetadataOf(done + [c]) == MetadataOf(done) + (if IsMetadata(c) then [c] else [])
  {
    assert (done + [c])[..|done|] == done;
  }

  ghost predicate AllValid(chunks: seq<Chunk>) {
    forall c :: c in chunks ==> c.Valid()
  }

  /** The state of the scan: the chunks before `pos`, and the metadata among them. */
  ghost predicate Scanned(encoded: Bytes, pos: nat, done: seq<Chunk>, result: Bytes) {
    && 8 <= pos <= |encoded| && AllValid(done)
    && Parsed(encoded[8..]) == done + Parsed(encoded[pos..])
    && result == SerializedAll(MetadataOf(done))
  }

  lemma NextChunk(encoded: Bytes, pos: nat)
    requires pos <= |encoded| && !Stuck(encoded[pos..])
    ensures var c := Head(encoded[pos..]); var end := pos + |c.data| + 12;
      && c.Valid() && end <= |encoded| && Serialized(c) == encoded[pos..end]
      && Parsed(encoded[pos..]) == [c] + Parsed(encoded[end..])
  {
    var rest, c := encoded[pos..], Head(encoded[pos..]);
    SerializedHead(rest);
    assert rest[..|c.data| + 12] == encoded[pos..pos + |c.data| + 12];
    assert rest[|c.data| + 12..] == encoded[pos + |c.data| + 12..];
    hide Serialized, Head, Stuck;
  }

  lemma KeepNext(done: seq<Chunk>, c: Chunk)
    requires AllValid(done) && c.Valid()
    ensures AllValid(done + [c])
    ensures SerializedAll(MetadataOf(done + [c]))
         == SerializedAll(MetadataOf(done)) + (if IsMetadata(c) then Serialized(c) else [])
  {
    hide Serialized, IsMetadata, Chunk.Valid;
    MetadataStep(done, c);
    if IsMetadata(c) {
      SerializedConcat(MetadataOf(done), [c]);
      One(c);
    } else {
      assert MetadataOf(done) + [] == MetadataOf(done);
      assert SerializedAll(MetadataOf(done)) + [] == SerializedAll(MetadataOf(done));
    }
  }

  lemma Shift(done: seq<Chunk>, c: Chunk, rest: seq<Chunk>)
    ensures done + ([c] + rest) == done + [c] + rest
  {
  }

  lemma ScanStep(encoded: Bytes, pos: nat, done: seq<Chunk>, result: Bytes)
    requires Scanned(encoded, pos, done, result) && !Stuck(encoded[pos..])
    ensures var c := Head(encoded[pos..]); var end := pos + |c.data| + 12;
      && end <= |encoded|
      && Scanned(encoded, end, done + [c], if IsMetadata(c) then result + encoded[pos..end] else result)
  {
    NextChunk(encoded, pos);
    var c := Head(encoded[pos..]);
    KeepNext(done, c);
    Shift(done, c, Parsed(encoded[pos + |c.data| + 12..]));
    hide Stuck, Head, Serialized, SerializedAll, Parsed, IsMetadata, MetadataOf, AllValid, Chunk.Valid;
  }

  lemma One(c: Chunk)
    requires c.Valid()
    ensures SerializedAll([c]) == Serialized(c)
  {
    hide Serialized;
    assert [c][1..] == [];
    assert Serialized(c) + [] == Serialized(c);
  }

  /** The metadata chunks among the whole chunks after the signature, as bytes. */
  method PngMetadata(encoded: Bytes) returns (result: Bytes)
    ensures result == if |encoded| < 8 then [] else SerializedAll(MetadataOf(Parsed(encoded[8..])))
  {
    result := [];
    if |encoded| < 8 { return; }
    hide *;
    var pos := 8;
    ghost var done: seq<Chunk> := [];
    ScanBegins(encoded);
    while pos + 8 <= |encoded|
      invariant 8 <= pos <= |encoded| && Scanned(encoded, pos, done, result)
      decreases |encoded| - pos
    {
      var length, kind := FromBe32(encoded[pos..pos + 4]), encoded[pos + 4..pos + 8];
      var end := pos + length + 12;
      ghost var c := ScanOn(encoded, pos, done, result, end);
      if end > |encoded| { return; }
      if kind == ICCP || kind == EXIF { result := result + encoded[pos..end]; }
      done := done + [c];
      pos := end;
    }
    TooShort(encoded, pos);
    ScanEnds(encoded, pos, done, result);
  }

  lemma ScanBegins(encoded: Bytes)
    requires |encoded| >= 8
    ensures Scanned(encoded, 8, [], [])
  {
    assert [] + Parsed(encoded[8..]) == Parsed(encoded[8..]);
    hide Parsed;
  }

  lemma HeadAt(encoded: Bytes, pos: nat)
    requires pos + 8 <= |encoded|
    ensures var length := FromBe32(encoded[pos..pos + 4]);
      && (Stuck(encoded[pos..]) <==> pos + length + 12 > |encoded|)
      && (!Stuck(encoded[pos..]) ==>
            Head(encoded[pos..]).kind == encoded[pos + 4..pos + 8] && |Head(encoded[pos..]).data| == length)
  {
    var rest := encoded[pos..];
    assert rest[..4] == encoded[pos..pos + 4] && rest[4..8] == encoded[pos + 4..pos + 8];
    hide FromBe32;
  }

  lemma TooShort(encoded: Bytes, pos: nat)
    requires pos <= |encoded| < pos + 8
    ensures Stuck(encoded[pos..])
  {
  }

  lemma ScanEnds(encoded: Bytes, pos: nat, done: seq<Chunk>, result: Bytes)
    requires 8 <= pos <= |encoded| && Scanned(encoded, pos, done, result) && Stuck(encoded[pos..])
    ensures AllValid(MetadataOf(Parsed(encoded[8..]))) && result == SerializedAll(MetadataOf(Parsed(encoded[8..])))
  {
    assert Parsed(encoded[pos..]) == [];
    assert done + [] == done;
    hide Stuck, Serialized, SerializedAll, MetadataOf, Parsed;
  }

  /** One turn of the scan: the chunk that ends at `end` is read, or the scan is over. */
  lemma ScanOn(encoded: Bytes, pos: nat, done: seq<Chunk>, result: Bytes, end: nat) returns (c: Chunk)
    requires 8 <= pos && pos + 8 <= |encoded| && Scanned(encoded, pos, done, result)
    requires end == pos + FromBe32(encoded[pos..pos + 4]) + 12
    ensures end > |encoded| ==>
      AllValid(MetadataOf(Parsed(encoded[8..]))) && result == SerializedAll(MetadataOf(Parsed(encoded[8..])))
    ensures end <= |encoded| ==>
      var kind := encoded[pos + 4..pos + 8];
      Scanned(encoded, end, done + [c], if kind == ICCP || kind == EXIF then result + encoded[pos..end] else result)
  {
    hide *;
    HeadAt(encoded, pos);
    c := Chunk([], [], []);
    if end > |encoded| {
      ScanEnds(encoded, pos, done, result);
    } else {
      c := Head(encoded[pos..]);
      MetadataKinds(c);
      ScanStep(encoded, pos, done, result);
    }
  }

  lemma MetadataKinds(c: Chunk)
    ensures IsMetadata(c) <==> c.kind == ICCP || c.kind == EXIF
  {
  }

  /** Inserting the metadata of a dummy image at 33 puts exactly its chunks between the header
      chunk and the rest. */
  lemma InsertedAfterHeader(signature: Bytes, header: Chunk, rest: Bytes, metadata: seq<Chunk>)
    requires |signature| == 8 && header.Valid() && |header.data| == 13 && AllValid(metadata)
    ensures var file := Inserted(signature + Serialized(header) + rest, 33, SerializedAll(metadata));
      && file[..8] == signature
      && Parsed(file[8..]) == [header] + metadata + Parsed(rest)
      && file[8..] == SerializedAll([header] + metadata) + rest
  {
    var bytes := SerializedAll(metadata);
    var front := signature + Serialized(header);
    var file := Inserted(front + rest, 33, bytes);
    assert file == front + bytes + rest by {
      hide Serialized;
      assert (front + rest)[..33] == front && (front + rest)[33..] == rest;
    }
    One(header);
    assert AllValid([header] + metadata);
    SerializedConcat([header], metadata);
    ParsedConcat([header] + metadata, rest);
    hide *;
    Drop8(signature, Serialized(header), bytes, rest);
  }

  /** The metadata found in a dummy image, inserted at 33 into the finished file: the header chunk,
      the dummy's metadata chunks, and the rest. */
  lemma DummyMetadataInserted(signature: Bytes, header: Chunk, rest: Bytes, dummy: Bytes)
    requires |signature| == 8 && header.Valid() && |header.data| == 13 && |dummy| >= 8
    ensures var metadata := MetadataOf(Parsed(dummy[8..]));
      var file := Inserted(signature + Serialized(header) + rest, 33, SerializedAll(metadata));
      file[..8] == signature && Parsed(file[8..]) == [header] + metadata + Parsed(rest)
  {
    InsertedAfterHeader(signature, header, rest, MetadataOf(Parsed(dummy[8..])));
  }

  lemma Drop8(signature: Bytes, a: Bytes, b: Bytes, c: Bytes)
    requires |signature| == 8
    ensures (signature + a + b + c)[..8] == signature && (signature + a + b + c)[8..] == a + b + c
  {
    assert signature + a + b + c == signature + (a + b + c);
  }

  // ---- JPEG -----------------------------------------------------------------------------------

  /** "ICC_PROFILE" and its terminator. */
  const PROFILE_NAME: Bytes := [73, 67, 67, 95, 80, 82, 79, 70, 73, 76, 69, 0]

  lemma ProfileNameIs()
    ensures Spells(PROFILE_NAME, "ICC_PROFILE" + [0 as char])
  {
    var name := "ICC_PROFILE" + [0 as char];
    assert |name| == 12 && forall i :: 0 <= i < 11 ==> name[i] == "ICC_PROFILE"[i];
    assert name[11] == 0 as char;
  }

  datatype Segment = Segment(marker: Byte, payload: Bytes) {
    predicate Valid() {
      marker != 0xda && |payload| <= 0xfffd
    }

    predicate IsProfile() {
      marker == 0xe2 && PROFILE_NAME <= payload
    }
  }

  function ToBe16(n: nat): (b: Bytes)
    requires n < 0x1_0000
    ensures |b| == 2
  {
    [n / 256, n % 256]
  }

  function FromBe16(high: Byte, low: Byte): (n: nat)
    ensures n < 0x1_0000
  {
    256 * high as int + low as int
  }

  function SegmentBytes(s: Segment): (b: Bytes)
    requires s.Valid()
    ensures |b| == |s.payload| + 4
  {
    [0xff, s.marker] + ToBe16(|s.payload| + 2) + s.payload
  }

  function SegmentsBytes(segments: seq<Segment>): Bytes
    requires forall s :: s in segments ==> s.Valid()
  {
    if segments == [] then [] else SegmentBytes(segments[0]) + SegmentsBytes(segments[1..])
  }

  function Profiles(segments: seq<Segment>): (kept: seq<Segment>)
    ensures forall s :: s in kept ==> s in segments
  {
    if segments == [] then []
    else (if segments[0].IsProfile() then [segments[0]] else []) + Profiles(segments[1..])
  }

  /** The profile segments found from a position on; no value if a profile marker's length is too
      small to hold itself. */
  function ProfileBytes(encoded: Bytes, pos: nat): Option<Bytes>
    decreases |encoded| - pos
  {
    if pos + 8 > |encoded| || encoded[pos] != 0xff || encoded[pos + 1] == 0xda then Some([])
    else
      var length := FromBe16(encoded[pos + 2], encoded[pos + 3]);
      var end := pos + length + 2;
      if end > |encoded| then Some([])
      else if encoded[pos + 1] == 0xe2 && end < pos + 4 then None
      else
        var later := ProfileBytes(encoded, end);
        if encoded[pos + 1] == 0xe2 && PROFILE_NAME <= encoded[pos + 4..end] && later.Some? then
          Some(encoded[pos..end] + later.value)
        else later
  }

  method JpegMetadata(encoded: Bytes) returns (result: Option<Bytes>)
    ensures result == ProfileBytes(encoded, 2)
  {
    var bytes, pos := [], 2;
    assert ProfileBytes(encoded, 2).Some? ==> [] + ProfileBytes(encoded, 2).value == ProfileBytes(encoded, 2).value;
    while pos + 8 <= |encoded|
      invariant ProfileBytes(encoded, 2) ==
        (match ProfileBytes(encoded, pos) case None => None case Some(b) => Some(bytes + b))
      decreases |encoded| - pos
    {
      if encoded[pos] != 0xff || encoded[pos + 1] == 0xda { break; }
      var end := pos + FromBe16(encoded[pos + 2], encoded[pos + 3]) + 2;
      if end > |encoded| { break; }
      if encoded[pos + 1] == 0xe2 {
        if end < pos + 4 { return None; }
        if PROFILE_NAME <= encoded[pos + 4..end] {
          ghost var later := ProfileBytes(encoded, end);
          assert later.Some? ==> bytes + (encoded[pos..end] + later.value) == bytes + encoded[pos..end] + later.value;
          bytes := bytes + encoded[pos..end];
        }
      }
      pos := end;
    }
    assert bytes + [] == bytes;
    result := Some(bytes);
  }

  lemma FrontSegment(front: Bytes, s: Segment, rest: Bytes)
    requires s.Valid()
    ensures var encoded, pos := front + SegmentBytes(s) + rest, |front|; var end := pos + |s.payload| + 4;
      && encoded[pos..end] == SegmentBytes(s) && encoded[pos + 4..end] == s.payload
      && encoded[pos] == 0xff && encoded[pos + 1] == s.marker
      && FromBe16(encoded[pos + 2], encoded[pos + 3]) == |s.payload| + 2
  {
    var bytes, encoded, pos := SegmentBytes(s), front + SegmentBytes(s) + rest, |front|;
    assert forall i :: 0 <= i < |bytes| ==> encoded[pos + i] == bytes[i];
    assert encoded[pos + 2] == bytes[2] && encoded[pos + 3] == bytes[3];
  }

  lemma ProfileStep(front: Bytes, s: Segment, rest: Bytes)
    requires s.Valid() && |front| + 8 <= |front + SegmentBytes(s) + rest|
    ensures var encoded := front + SegmentBytes(s) + rest;
      var later := ProfileBytes(encoded, |front + SegmentBytes(s)|);
      ProfileBytes(encoded, |front|) ==
        if s.IsProfile() && later.Some? then Some(SegmentBytes(s) + later.value) else later
  {
    FrontSegment(front, s, rest);
    hide SegmentBytes, FromBe16;
  }

  /** Of a dummy JPEG's segments before the scan, exactly the profile segments are taken. */
  lemma {:induction false} ProfilesAreTaken(front: Bytes, segments: seq<Segment>, scan: Bytes)
    requires (forall s :: s in segments ==> s.Valid()) && |scan| >= 2 && scan[0] == 0xff && scan[1] == 0xda
    ensures ProfileBytes(front + SegmentsBytes(segments) + scan, |front|) == Some(SegmentsBytes(Profiles(segments)))
    decreases |segments|
  {
    var encoded, pos := front + SegmentsBytes(segments) + scan, |front|;
    if segments == [] {
      assert encoded[pos] == scan[0] && (pos + 8 <= |encoded| ==> encoded[pos + 1] == scan[1]);
    } else if pos + 8 > |encoded| {
      // Fewer than eight bytes are left: too few for a profile and the scan.
      ShortTail(segments, scan);
    } else {
      var s, later := segments[0], segments[1..];
      ProfilesAreTaken(front + SegmentBytes(s), later, scan);
      SegmentFirst(front, segments, scan);
      ProfileStep(front, s, SegmentsBytes(later) + scan);
      ProfilesFirst(segments);
      hide SegmentBytes, SegmentsBytes, ProfileBytes, Profiles, Segment.IsProfile;
    }
  }

  lemma SegmentFirst(front: Bytes, segments: seq<Segment>, scan: Bytes)
    requires segments != [] && forall s :: s in segments ==> s.Valid()
    ensures var encoded, s, later := front + SegmentsBytes(segments) + scan, segments[0], segments[1..];
      && encoded == front + SegmentBytes(s) + (SegmentsBytes(later) + scan)
      && encoded == front + SegmentBytes(s) + SegmentsBytes(later) + scan
  {
    var code, tail := SegmentBytes(segments[0]), SegmentsBytes(segments[1..]);
    assert SegmentsBytes(segments) == code + tail;
    hide *;
    Associates(front, code, tail, scan);
  }

  lemma Associates(a: Bytes, b: Bytes, c: Bytes, d: Bytes)
    ensures a + (b + c) + d == a + b + (c + d) == a + b + c + d
  {
  }

  lemma ProfilesFirst(segments: seq<Segment>)
    requires segments != [] && forall s :: s in segments ==> s.Valid()
    ensures SegmentsBytes(Profiles(segments)) ==
      (if segments[0].IsProfile() then SegmentBytes(segments[0]) + SegmentsBytes(Profiles(segments[1..]))
       else SegmentsBytes(Profiles(segments[1..])))
  {
    var kept, later := Profiles(segments), Profiles(segments[1..]);
    hide SegmentBytes, Segment.IsProfile;
    if segments[0].IsProfile() {
      assert kept == [segments[0]] + later && kept[1..] == later;
    } else {
      assert kept == later;
    }
  }

  lemma ShortTail(segments: seq<Segment>, scan: Bytes)
    requires (forall s :: s in segments ==> s.Valid()) && segments != []
    requires |SegmentsBytes(segments)| + |scan| < 8 && |scan| >= 2
    ensures Profiles(segments) == []
  {
  }

  /** Where the header goes: behind an APP0 segment that directly follows the start marker. */
  function JpegOffset(prefix: Bytes): nat
    requires |prefix| >= 6
  {
    if prefix[2..4] == [0xff, 0xe0] then 4 + FromBe16(prefix[4], prefix[5]) else 2
  }

  /** The profile segments go between the start marker, with its APP0 segment if there is one,
      and the rest. */
  lemma InsertedAfterApp0(start: Bytes, app0: Option<Segment>, rest: Bytes, profiles: seq<Segment>)
    requires |start| == 2 && |rest| >= 4 && (forall s :: s in profiles ==> s.Valid())
    requires if app0.Some? then app0.value.marker == 0xe0 && app0.value.Valid() else rest[..2] != [0xff, 0xe0]
    ensures var front := if app0.Some? then start + SegmentBytes(app0.value) else start;
      Inserted(front + rest, JpegOffset(front + rest), SegmentsBytes(profiles)) ==
        front + SegmentsBytes(profiles) + rest
  {
    var front := if app0.Some? then start + SegmentBytes(app0.value) else start;
    var file := front + rest;
    assert JpegOffset(file) == |front| by {
      if app0.Some? {
        assert file[2..4] == [0xff, 0xe0];
        assert [file[4], file[5]] == ToBe16(|app0.value.payload| + 2);
      } else {
        assert file[2..4] == rest[..2];
      }
    }
    hide JpegOffset, SegmentBytes, SegmentsBytes;
    assert file[..|front|] == front && file[|front|..] == rest;
  }
}
