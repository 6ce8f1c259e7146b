/** Structural checks of encoded tiles: a tile cut short is never taken for a whole one. */
module TileStructure {
  import opened Options
  import opened Pixels
  import opened PngChunks
  import opened ImageMetadata

  datatype Format = Png | Jpeg | OtherFormat

  /** Two byte strings that agree up to `end`. */
  ghost predicate Agree(a: Bytes, b: Bytes, end: nat) {
    end <= |a| && end <= |b| && forall i :: 0 <= i < end ==> a[i] == b[i]
  }

  // ---- PNG ----------------------------------------------------------------------------------

  /** Length and type of the chunk at `pos`, if all of it is there. */
  function ChunkHead(b: Bytes, pos: nat): (head: Option<(nat, Bytes)>)
    ensures head.Some? ==> |head.value.1| == 4 && pos + head.value.0 + 12 <= |b|
  {
    if pos + 8 > |b| then None
    else
      var length := FromBe32(b[pos..pos + 4]);
      if pos + length + 12 > |b| then None else Some((length, b[pos + 4..pos + 8]))
  }

  /** Where the closing chunk ends, if the chunks from `pos` on are acceptable; `data` tells
      whether image data has been seen. */
  function PngEnd(b: Bytes, pos: nat, data: bool): (end: Option<nat>)
    ensures end.Some? ==> pos < end.value <= |b|
    decreases |b| - pos
  {
    var head := ChunkHead(b, pos);
    if head.None? then None
    else
      var (length, kind) := head.value;
      var end := pos + length + 12;
      if kind == IHDR && pos == 8 && length != 13 then None
      else if kind == IEND then if length == 0 && data then Some(end) else None
      else PngEnd(b, end, data || kind == IDAT)
  }

  method CheckPng(b: Bytes) returns (ok: bool)
    ensures ok <==> PngEnd(b, 8, false).Some?
  {
    var pos, data := 8, false;
    while pos + 8 <= |b|
      invariant PngEnd(b, 8, false) == PngEnd(b, pos, data)
      decreases |b| - pos
    {
      var length, kind := FromBe32(b[pos..pos + 4]), b[pos + 4..pos + 8];
      var end := pos + length + 12;
      if end > |b| { return false; }
      if kind == IHDR && pos == 8 && length != 13 {
        return false;
      } else if kind == IDAT {
        data := true;
      } else if kind == IEND {
        return length == 0 && data;
      }
      pos := end;
    }
    ok := false;
  }

  lemma PngUnfold(b: Bytes, pos: nat, data: bool)
    ensures PngEnd(b, pos, data) == (match ChunkHead(b, pos)
      case None => None
      case Some((length, kind)) =>
        if kind == IHDR && pos == 8 && length != 13 then None
        else if kind == IEND then if length == 0 && data then Some(pos + length + 12) else None
        else PngEnd(b, pos + length + 12, data || kind == IDAT))
  {
    hide ChunkHead;
  }

  /** Only the bytes up to the end of the closing chunk matter. */
  lemma {:induction false} PngAgrees(a: Bytes, b: Bytes, pos: nat, data: bool, end: nat)
    requires PngEnd(a, pos, data) == Some(end) && Agree(a, b, end)
    ensures PngEnd(b, pos, data) == Some(end)
    decreases |a| - pos
  {
    hide PngEnd, ChunkHead, Agree;
    PngUnfold(a, pos, data);
    var (length, kind) := ChunkHead(a, pos).value;
    HeadAgrees(a, b, pos, end);
    PngUnfold(b, pos, data);
    if kind != IEND { PngAgrees(a, b, pos + length + 12, data || kind == IDAT, end); }
  }

  lemma HeadAgrees(a: Bytes, b: Bytes, pos: nat, end: nat)
    requires Agree(a, b, end) && ChunkHead(a, pos).Some? && pos + ChunkHead(a, pos).value.0 + 12 <= end
    ensures ChunkHead(b, pos) == ChunkHead(a, pos)
  {
    AgreeSlice(a, b, end, pos, pos + 4);
    AgreeSlice(a, b, end, pos + 4, pos + 8);
    hide FromBe32;
  }

  lemma AgreeSlice(a: Bytes, b: Bytes, end: nat, i: nat, j: nat)
    requires Agree(a, b, end) && i <= j <= end
    ensures a[i..j] == b[i..j]
  {
  }

  /** The first closing chunk is empty and comes after image data, and a header chunk in front has
      its thirteen bytes. */
  ghost predicate Closes(chunks: seq<Chunk>, data: bool, i: nat)
    requires i < |chunks|
  {
    && chunks[i].kind == IEND && chunks[i].data == [] && (forall j :: 0 <= j < i ==> chunks[j].kind != IEND)
    && (data || exists j :: 0 <= j < i && chunks[j].kind == IDAT)
  }

  ghost predicate Closed(chunks: seq<Chunk>, data: bool) {
    exists i :: 0 <= i < |chunks| && Closes(chunks, data, i)
  }

  ghost predicate HeaderFits(chunks: seq<Chunk>) {
    |chunks| > 0 && chunks[0].kind == IHDR ==> |chunks[0].data| == 13
  }

  lemma ChunkAt(b: Bytes, pos: nat)
    requires pos <= |b|
    ensures Stuck(b[pos..]) <==> ChunkHead(b, pos).None?
    ensures !Stuck(b[pos..]) ==>
      var c := Head(b[pos..]);
      ChunkHead(b, pos) == Some((|c.data|, c.kind)) && Parsed(b[pos..]) == [c] + Parsed(b[pos + |c.data| + 12..])
  {
    if pos + 8 <= |b| { assert b[pos..][..4] == b[pos..pos + 4]; }
    if !Stuck(b[pos..]) {
      NextChunk(b, pos);
      assert b[pos..][4..8] == b[pos + 4..pos + 8];
      hide FromBe32, Parsed, Serialized;
    }
  }

  lemma ClosesLater(c: Chunk, later: seq<Chunk>, data: bool)
    requires c.kind != IEND
    ensures Closed([c] + later, data) <==> Closed(later, data || c.kind == IDAT)
  {
    var chunks, now := [c] + later, data || c.kind == IDAT;
    forall i | 0 <= i < |later|
      ensures Closes(later, now, i) <==> Closes(chunks, data, i + 1)
    {
      assert chunks[i + 1] == later[i];
      assert forall j :: 0 <= j < i ==> later[j] == chunks[j + 1];
      assert forall j :: 0 < j <= i ==> chunks[j] == later[j - 1];
      assert chunks[0] == c;
    }
    if i :| 0 <= i < |chunks| && Closes(chunks, data, i) {
      assert i > 0 && Closes(later, now, i - 1);
    }
  }

  lemma ClosesAtOnce(c: Chunk, later: seq<Chunk>, data: bool)
    requires c.kind == IEND
    ensures Closed([c] + later, data) <==> c.data == [] && data
  {
    var chunks := [c] + later;
    assert chunks[0] == c;
    if i :| 0 <= i < |chunks| && Closes(chunks, data, i) {
      assert i == 0;
    }
    if c.data == [] && data { assert Closes(chunks, data, 0); }
  }

  /** The scan accepts exactly the chunk lists that close after image data. */
  lemma {:induction false} PngEndIsClosing(b: Bytes, pos: nat, data: bool)
    requires 8 <= pos <= |b|
    ensures PngEnd(b, pos, data).Some? <==>
      (pos == 8 ==> HeaderFits(Parsed(b[pos..]))) && Closed(Parsed(b[pos..]), data)
    decreases |b| - pos
  {
    hide PngEnd, ChunkHead, Stuck, Head, Parsed, Closes, Closed;
    ChunkAt(b, pos);
    PngUnfold(b, pos, data);
    if Stuck(b[pos..]) {
      assert Parsed(b[pos..]) == [] by { NoChunk(b[pos..]); }
      assert !Closed([], data) by { NothingCloses(data); }
    } else {
      var c := Head(b[pos..]);
      var end := pos + |c.data| + 12;
      var later := Parsed(b[end..]);
      assert Parsed(b[pos..])[0] == c;
      if c.kind == IEND {
        ClosesAtOnce(c, later, data);
      } else {
        PngEndIsClosing(b, end, data || c.kind == IDAT);
        ClosesLater(c, later, data);
      }
    }
  }

  lemma NoChunk(b: Bytes)
    requires Stuck(b)
    ensures Parsed(b) == []
  {
    hide Stuck;
  }

  lemma NothingCloses(data: bool)
    ensures !Closed([], data)
  {
  }

  // ---- JPEG ----------------------------------------------------------------------------------

  function SkipFill(b: Bytes, pos: nat): (p: nat)
    ensures pos <= p && (pos <= |b| ==> p <= |b|) && (p < |b| ==> b[p] != 0xff)
    ensures pos < |b| && b[pos] == 0xff ==> pos < p
    decreases |b| - pos
  {
    if pos < |b| && b[pos] == 0xff then SkipFill(b, pos + 1) else pos
  }

  predicate Restart(marker: Byte) {
    0xd0 <= marker <= 0xd7
  }

  /** The end of entropy-coded data: the next marker, or the end of the bytes; no value if they end
      within a marker. */
  function SkipEntropy(b: Bytes, pos: nat): (r: Option<nat>)
    ensures r.Some? ==> pos <= r.value
    decreases |b| - pos
  {
    if pos >= |b| then Some(pos)
    else if b[pos] != 0xff then SkipEntropy(b, pos + 1)
    else
      var p := SkipFill(b, pos);
      if p >= |b| then None
      else if b[p] == 0 || Restart(b[p]) then SkipEntropy(b, p + 1)
      else Some(pos)
  }

  /** Past the segment of the marker at `m`, and past the data of a scan. */
  function AfterSegment(b: Bytes, m: nat): (next: Option<nat>)
    requires m < |b|
    ensures next.Some? ==> m + 2 < next.value
  {
    if m + 3 > |b| then None
    else
      var length := FromBe16(b[m + 1], b[m + 2]);
      if length < 2 || length > |b| - (m + 1) then None
      else if b[m] == 0xda then SkipEntropy(b, m + 1 + length)
      else Some(m + 1 + length)
  }

  /** Where the end marker ends, if the markers from `pos` on are acceptable; `scan` tells whether
      a scan has been seen. */
  function JpegEnd(b: Bytes, pos: nat, scan: bool): (end: Option<nat>)
    ensures end.Some? ==> pos < end.value <= |b|
    decreases |b| - pos
  {
    if pos >= |b| || b[pos] != 0xff then None
    else
      var m := SkipFill(b, pos);
      if m >= |b| then None
      else if b[m] == 0xd9 then if scan then Some(m + 1) else None
      else if b[m] == 0 || b[m] == 0xd8 then None
      else if b[m] == 1 || Restart(b[m]) then JpegEnd(b, m + 1, scan)
      else
        var next := AfterSegment(b, m);
        if next.None? then None else JpegEnd(b, next.value, scan || b[m] == 0xda)
  }

  method SkipFillBytes(b: Bytes, pos: nat) returns (p: nat)
    ensures p == SkipFill(b, pos)
  {
    p := pos;
    while p < |b| && b[p] == 0xff
      invariant SkipFill(b, p) == SkipFill(b, pos)
    {
      p := p + 1;
    }
  }

  method SkipScan(b: Bytes, pos: nat) returns (r: Option<nat>)
    ensures r == SkipEntropy(b, pos)
  {
    var p := pos;
    while p < |b|
      invariant SkipEntropy(b, p) == SkipEntropy(b, pos)
    {
      if b[p] != 0xff {
        p := p + 1;
        continue;
      }
      var start := p;
      p := SkipFillBytes(b, p);
      if p >= |b| { return None; }
      if b[p] == 0 || Restart(b[p]) {
        p := p + 1;
      } else {
        return Some(start);
      }
    }
    r := Some(p);
  }

  method CheckJpeg(b: Bytes) returns (ok: bool)
    ensures ok <==> JpegEnd(b, 2, false).Some?
  {
    var pos, scan := 2, false;
    while pos < |b| && b[pos] == 0xff
      invariant JpegEnd(b, 2, false) == JpegEnd(b, pos, scan)
      decreases |b| - pos
    {
      var m := SkipFillBytes(b, pos);
      if m >= |b| { return false; }
      var marker := b[m];
      pos := m + 1;
      if marker == 0xd9 { return scan; }
      if marker == 0 || marker == 0xd8 { return false; }
      if marker == 1 || Restart(marker) { continue; }
      if pos + 2 > |b| { return false; }
      var length := FromBe16(b[pos], b[pos + 1]);
      if length < 2 || length > |b| - pos { return false; }
      pos := pos + length;
      if marker == 0xda {
        scan := true;
        var r := SkipScan(b, pos);
        if r.None? { return false; }
        pos := r.value;
      }
    }
    ok := false;
  }

  lemma {:induction false} SkipFillAgrees(a: Bytes, b: Bytes, pos: nat, end: nat)
    requires Agree(a, b, end) && SkipFill(a, pos) < end
    ensures SkipFill(b, pos) == SkipFill(a, pos)
    decreases |a| - pos
  {
    assert a[pos] == b[pos];
    if a[pos] == 0xff { SkipFillAgrees(a, b, pos + 1, end); }
  }

  /** Entropy-coded data ends at the same marker in both, if the marker lies in the common part. */
  lemma {:induction false} SkipEntropyAgrees(a: Bytes, b: Bytes, pos: nat, r: nat, end: nat)
    requires Agree(a, b, end) && SkipEntropy(a, pos) == Some(r) && r < |a| && SkipFill(a, r) < end
    ensures SkipEntropy(b, pos) == Some(r)
    decreases |a| - pos
  {
    assert a[pos] == b[pos];
    if a[pos] != 0xff {
      SkipEntropyAgrees(a, b, pos + 1, r, end);
    } else {
      var p := SkipFill(a, pos);
      if a[p] == 0 || Restart(a[p]) {
        SkipEntropyAgrees(a, b, p + 1, r, end);
        SkipFillAgrees(a, b, pos, end);
      } else {
        SkipFillAgrees(a, b, pos, end);
      }
    }
  }

  lemma JpegUnfold(b: Bytes, pos: nat, scan: bool)
    ensures JpegEnd(b, pos, scan) ==
      if pos >= |b| || b[pos] != 0xff then None else AtMarker(b, SkipFill(b, pos), scan)
  {
    hide AfterSegment, SkipFill, Restart;
  }

  /** What happens at the marker at `m`. */
  function AtMarker(b: Bytes, m: nat, scan: bool): Option<nat> {
    if m >= |b| then None
    else if b[m] == 0xd9 then if scan then Some(m + 1) else None
    else if b[m] == 0 || b[m] == 0xd8 then None
    else if b[m] == 1 || Restart(b[m]) then JpegEnd(b, m + 1, scan)
    else
      var next := AfterSegment(b, m);
      if next.None? then None else JpegEnd(b, next.value, scan || b[m] == 0xda)
  }

  lemma MarkerBefore(b: Bytes, pos: nat, scan: bool, end: nat)
    requires JpegEnd(b, pos, scan) == Some(end)
    ensures pos < |b| && b[pos] == 0xff && pos <= SkipFill(b, pos) < end <= |b|
    ensures AtMarker(b, SkipFill(b, pos), scan) == Some(end)
  {
    JpegUnfold(b, pos, scan);
    hide AfterSegment, SkipFill, Restart;
  }

  /** Only the bytes up to the end of the end marker matter. */
  lemma {:induction false} JpegAgrees(a: Bytes, b: Bytes, pos: nat, scan: bool, end: nat)
    requires JpegEnd(a, pos, scan) == Some(end) && Agree(a, b, end)
    ensures JpegEnd(b, pos, scan) == Some(end)
    decreases |a| - pos
  {
    var m := SkipFill(a, pos);
    MarkerBefore(a, pos, scan, end);
    SkipFillAgrees(a, b, pos, end);
    assert a[pos] == b[pos] && a[m] == b[m];
    JpegUnfold(b, pos, scan);
    hide JpegEnd, AfterSegment, SkipFill, Restart, Agree;
    if a[m] == 0xd9 {
    } else if a[m] == 1 || Restart(a[m]) {
      JpegAgrees(a, b, m + 1, scan, end);
    } else {
      var next, saw := AfterSegment(a, m), scan || a[m] == 0xda;
      MarkerBefore(a, next.value, saw, end);
      AfterSegmentAgrees(a, b, m, end);
      JpegAgrees(a, b, next.value, saw, end);
    }
  }

  lemma AfterSegmentAgrees(a: Bytes, b: Bytes, m: nat, end: nat)
    requires Agree(a, b, end) && m < |a| && AfterSegment(a, m).Some?
    requires var next := AfterSegment(a, m).value; next < |a| && SkipFill(a, next) < end
    ensures AfterSegment(b, m) == AfterSegment(a, m)
  {
    assert a[m + 1] == b[m + 1] && a[m + 2] == b[m + 2] && a[m] == b[m];
    var after := m + 1 + FromBe16(a[m + 1], a[m + 2]);
    hide FromBe16;
    if a[m] == 0xda { SkipEntropyAgrees(a, b, after, AfterSegment(a, m).value, end); }
  }

  // ---- What a well-formed JPEG looks like ----------------------------------------------------------

  /** Any marker may be preceded by fill bytes (section B.1.1.2 of ITU-T T.81). */
  function Fill(n: nat): Bytes {
    seq(n, _ => 0xff)
  }

  /** Entropy-coded data: plain bytes, and 0xff, once or more, followed by a stuffed zero or a restart
      marker. */
  datatype Unit = Plain(value: Byte) | Marked(fill: nat, follow: Byte) {
    predicate Valid() {
      if Plain? then value != 0xff else follow == 0 || 0xd0 <= follow <= 0xd7
    }

    function Code(): Bytes {
      if Plain? then [value] else Fill(fill) + [0xff, follow]
    }
  }

  function Codes(units: seq<Unit>): Bytes {
    if units == [] then [] else units[0].Code() + Codes(units[1..])
  }

  /** A marker alone, a segment, or a scan with its data. */
  datatype Piece = Alone(marker: Byte) | Table(segment: Segment) | Scan(header: Bytes, units: seq<Unit>) {
    predicate Valid() {
      match this
      case Alone(marker) => marker == 1 || 0xd0 <= marker <= 0xd7
      case Table(s) => s.Valid() && s.marker !in {0, 1, 0xd8, 0xd9, 0xff} && !(0xd0 <= s.marker <= 0xd7)
      case Scan(h, units) => |h| <= 0xfffd && forall u :: u in units ==> u.Valid()
    }

    predicate Restarts() {
      Alone? && marker != 1
    }

    function Code(): Bytes
      requires Valid()
    {
      match this
      case Alone(marker) => [0xff, marker]
      case Table(s) => SegmentBytes(s)
      case Scan(h, units) => [0xff, 0xda] + ToBe16(|h| + 2) + h + Codes(units)
    }
  }

  datatype Filled = Filled(fill: nat, piece: Piece) {
    function Code(): Bytes
      requires piece.Valid()
    {
      Fill(fill) + piece.Code()
    }
  }

  function Pieces(pieces: seq<Filled>): Bytes
    requires forall p :: p in pieces ==> p.piece.Valid()
  {
    if pieces == [] then [] else pieces[0].Code() + Pieces(pieces[1..])
  }

  /** A marker follows, perhaps after fill bytes: not data. */
  predicate MarkerFirst(rest: Bytes) {
    && |rest| >= 2 && rest[0] == 0xff
    && var m := SkipFill(rest, 0); m < |rest| && rest[m] != 0 && !(0xd0 <= rest[m] <= 0xd7)
  }

  lemma {:induction false} FillSkipped(b: Bytes, pos: nat, n: nat)
    requires pos + n <= |b| && forall i :: pos <= i < pos + n ==> b[i] == 0xff
    ensures SkipFill(b, pos) == SkipFill(b, pos + n)
    decreases n
  {
    if n > 0 { FillSkipped(b, pos + 1, n - 1); }
  }

  lemma {:induction false} FillShifts(front: Bytes, rest: Bytes, i: nat)
    requires i <= |rest|
    ensures SkipFill(front + rest, |front| + i) == |front| + SkipFill(rest, i)
    decreases |rest| - i
  {
    if i < |rest| {
      assert (front + rest)[|front| + i] == rest[i];
      if rest[i] == 0xff { FillShifts(front, rest, i + 1); }
    }
  }

  /** Fill bytes in front of a marker change nothing. */
  lemma FillStep(front: Bytes, n: nat, rest: Bytes, scan: bool)
    requires rest != [] && rest[0] == 0xff
    ensures JpegEnd(front + Fill(n) + rest, |front|, scan) == JpegEnd(front + Fill(n) + rest, |front| + n, scan)
  {
    var b, pos := front + Fill(n) + rest, |front|;
    assert b[pos + n] == rest[0] && forall i :: pos <= i < pos + n ==> b[i] == Fill(n)[i - pos];
    FillSkipped(b, pos, n);
    SameMarker(b, pos, pos + n, scan);
  }

  lemma SameMarker(b: Bytes, pos: nat, other: nat, scan: bool)
    requires pos < |b| && other < |b| && b[pos] == b[other] == 0xff && SkipFill(b, pos) == SkipFill(b, other)
    ensures JpegEnd(b, pos, scan) == JpegEnd(b, other, scan)
  {
    hide AfterSegment, SkipFill;
  }

  lemma UnitStep(front: Bytes, u: Unit, rest: Bytes)
    requires u.Valid()
    ensures SkipEntropy(front + u.Code() + rest, |front|) == SkipEntropy(front + u.Code() + rest, |front + u.Code()|)
  {
    var b, pos, code := front + u.Code() + rest, |front|, u.Code();
    assert b[pos] == code[0];
    if u.Marked? {
      var n := u.fill + 1;
      assert forall i :: pos <= i < pos + n ==> b[i] == code[i - pos];
      assert b[pos + n] == code[n];
      FillSkipped(b, pos, n);
    }
  }

  lemma {:induction false} EntropyEnds(front: Bytes, units: seq<Unit>, rest: Bytes)
    requires (forall u :: u in units ==> u.Valid()) && MarkerFirst(rest)
    ensures SkipEntropy(front + Codes(units) + rest, |front|) == Some(|front| + |Codes(units)|)
    decreases |units|
  {
    if units == [] {
      var b, pos := front + rest, |front|;
      assert front + [] + rest == b && b[pos] == rest[0];
      FillShifts(front, rest, 0);
      var m := SkipFill(rest, 0);
      hide SkipFill;
      assert b[pos + m] == rest[m];
    } else {
      var code, later := units[0].Code(), Codes(units[1..]);
      UnitStep(front, units[0], later + rest);
      EntropyEnds(front + code, units[1..], rest);
      assert Codes(units) == code + later;
      hide *;
      Regroup(front, code, later, rest);
    }
  }

  lemma Regroup(a: Bytes, b: Bytes, c: Bytes, d: Bytes)
    ensures a + (b + c) + d == a + b + (c + d) == a + b + c + d
  {
  }

  lemma ReadBack(front: Bytes, code: Bytes, rest: Bytes, i: nat)
    requires i < |code|
    ensures (front + code + rest)[|front| + i] == code[i]
  {
  }

  /** A marker with a segment is stepped over. */
  lemma SegmentStep(b: Bytes, pos: nat, next: nat, scan: bool)
    requires pos + 1 < |b| && b[pos] == 0xff && b[pos + 1] !in {0, 1, 0xd8, 0xd9, 0xff}
    requires !(0xd0 <= b[pos + 1] <= 0xd7) && AfterSegment(b, pos + 1) == Some(next)
    ensures JpegEnd(b, pos, scan) == JpegEnd(b, next, scan || b[pos + 1] == 0xda)
  {
    hide AfterSegment;
    assert SkipFill(b, pos + 1) == pos + 1;
  }

  lemma TableStep(front: Bytes, s: Segment, rest: Bytes)
    requires Table(s).Valid()
    ensures var b, pos := front + SegmentBytes(s) + rest, |front|;
      && b[pos] == 0xff && b[pos + 1] == s.marker && AfterSegment(b, pos + 1) == Some(pos + |SegmentBytes(s)|)
  {
    FrontSegment(front, s, rest);
    hide FromBe16, SegmentBytes, SkipEntropy;
  }

  lemma ScanStep(front: Bytes, header: Bytes, units: seq<Unit>, rest: Bytes)
    requires Scan(header, units).Valid() && MarkerFirst(rest)
    ensures var b, pos := front + Scan(header, units).Code() + rest, |front|;
      && b[pos] == 0xff && b[pos + 1] == 0xda && AfterSegment(b, pos + 1) == Some(pos + |Scan(header, units).Code()|)
  {
    hide Codes, MarkerFirst, SkipEntropy;
    var fixed := [0xff, 0xda] + ToBe16(|header| + 2) + header;
    var b, pos, data := front + Scan(header, units).Code() + rest, |front|, Codes(units);
    Regroup(front, fixed, data, rest);
    EntropyEnds(front + fixed, units, rest);
    assert b == front + fixed + (data + rest);
    ReadBack(front, fixed, data + rest, 0);
    ReadBack(front, fixed, data + rest, 1);
    ReadBack(front, fixed, data + rest, 2);
    ReadBack(front, fixed, data + rest, 3);
    assert FromBe16(b[pos + 2], b[pos + 3]) == |header| + 2;
    hide FromBe16, ToBe16;
  }

  lemma PieceFirst(p: Filled, rest: Bytes)
    requires p.piece.Valid() && !p.piece.Restarts()
    ensures MarkerFirst(p.Code() + rest)
  {
    var code := p.piece.Code();
    if p.piece.Table? { assert code[1] == p.piece.segment.marker; }
    assert code[0] == 0xff && code[1] !in {0, 0xff} && !(0xd0 <= code[1] <= 0xd7);
    hide Piece.Code;
    FilledMarker(p.fill, code, rest);
  }

  lemma FilledMarker(n: nat, code: Bytes, rest: Bytes)
    requires |code| >= 2 && code[0] == 0xff && code[1] !in {0, 0xff} && !(0xd0 <= code[1] <= 0xd7)
    ensures MarkerFirst(Fill(n) + code + rest)
  {
    var b := Fill(n) + code + rest;
    assert b[n] == code[0] && b[n + 1] == code[1];
    assert forall i :: 0 <= i < n ==> b[i] == Fill(n)[i];
    FillSkipped(b, 0, n + 1);
  }

  /** One piece is stepped over; a scan needs a marker behind its data. */
  lemma PieceStep(front: Bytes, p: Piece, rest: Bytes, scan: bool)
    requires p.Valid() && (p.Scan? ==> MarkerFirst(rest))
    ensures JpegEnd(front + p.Code() + rest, |front|, scan) ==
      JpegEnd(front + p.Code() + rest, |front + p.Code()|, scan || p.Scan?)
  {
    hide JpegEnd, AfterSegment, MarkerFirst, SegmentBytes, Codes;
    var b, pos := front + p.Code() + rest, |front|;
    match p
    case Alone(marker) => AloneStep(front, marker, rest, scan);
    case Table(s) =>
      TableStep(front, s, rest);
      SegmentStep(b, pos, pos + |p.Code()|, scan);
    case Scan(header, units) =>
      ScanStep(front, header, units, rest);
      SegmentStep(b, pos, pos + |p.Code()|, scan);
  }

  lemma AloneStep(front: Bytes, marker: Byte, rest: Bytes, scan: bool)
    requires Alone(marker).Valid()
    ensures JpegEnd(front + [0xff, marker] + rest, |front|, scan)
         == JpegEnd(front + [0xff, marker] + rest, |front| + 2, scan)
  {
    var b, pos := front + [0xff, marker] + rest, |front|;
    assert b[pos] == 0xff && b[pos + 1] == marker && SkipFill(b, pos + 1) == pos + 1;
    hide AfterSegment;
  }

  /** The end marker with its fill bytes, and whatever follows. */
  function Close(fill: nat, more: Bytes): Bytes {
    Fill(fill) + [0xff, 0xd9] + more
  }

  lemma CloseStep(front: Bytes, fill: nat, more: Bytes, scan: bool)
    ensures JpegEnd(front + Close(fill, more), |front|, scan) == if scan then Some(|front| + fill + 2) else None
  {
    var end: Bytes := [0xff, 0xd9] + more;
    var b, pos := front + Fill(fill) + end, |front| + fill;
    assert front + Close(fill, more) == b;
    FillStep(front, fill, end, scan);
    assert b[pos] == end[0] && b[pos + 1] == end[1];
    assert SkipFill(b, pos + 1) == pos + 1;
    hide AfterSegment;
  }

  lemma FilledCode(p: Filled)
    requires p.piece.Valid()
    ensures p.Code() == Fill(p.fill) + p.piece.Code() && |Fill(p.fill)| == p.fill
    ensures |p.piece.Code()| > 0 && p.piece.Code()[0] == 0xff
  {
  }

  /** A piece with its fill bytes is stepped over. */
  lemma FilledStep(front: Bytes, p: Filled, rest: Bytes, scan: bool)
    requires p.piece.Valid() && (p.piece.Scan? ==> MarkerFirst(rest))
    ensures JpegEnd(front + p.Code() + rest, |front|, scan) ==
      JpegEnd(front + p.Code() + rest, |front + p.Code()|, scan || p.piece.Scan?)
  {
    hide *;
    var fill, code := Fill(p.fill), p.piece.Code();
    FilledCode(p);
    FillStep(front, p.fill, code + rest, scan);
    PieceStep(front + fill, p.piece, rest, scan);
    Regroup(front, fill, code, rest);
  }

  /** Pieces of a JPEG: restart markers right behind a scan belong to its data. */
  ghost predicate WellFormed(pieces: seq<Filled>) {
    && (forall p :: p in pieces ==> p.piece.Valid())
    && (forall i :: 0 <= i < |pieces| - 1 && pieces[i].piece.Scan? ==> !pieces[i + 1].piece.Restarts())
  }

  /** A well-formed JPEG, with fill bytes before any of its markers, is accepted exactly if it has a
      scan, and its end is found. */
  lemma {:induction false} WellFormedIsAccepted(front: Bytes, pieces: seq<Filled>, fill: nat, more: Bytes, scan: bool)
    requires WellFormed(pieces)
    ensures JpegEnd(front + Pieces(pieces) + Close(fill, more), |front|, scan) ==
      if scan || exists p :: p in pieces && p.piece.Scan? then Some(|front| + |Pieces(pieces)| + fill + 2) else None
    decreases |pieces|
  {
    hide JpegEnd;
    var close := Close(fill, more);
    if pieces == [] {
      CloseStep(front, fill, more, scan);
      assert front + [] == front;
    } else {
      var code, later := pieces[0].Code(), Pieces(pieces[1..]);
      FilledMarker(fill, [0xff, 0xd9], more);
      if pieces[0].piece.Scan? { MarkerNext(pieces[1..], close); }
      FilledStep(front, pieces[0], later + close, scan);
      WellFormedIsAccepted(front + code, pieces[1..], fill, more, scan || pieces[0].piece.Scan?);
      assert Pieces(pieces) == code + later;
      assert forall q :: q in pieces <==> q == pieces[0] || q in pieces[1..];
      hide *;
      Regroup(front, code, later, close);
    }
  }

  lemma MarkerNext(pieces: seq<Filled>, close: Bytes)
    requires (forall p :: p in pieces ==> p.piece.Valid()) && MarkerFirst(close)
    requires pieces != [] ==> !pieces[0].piece.Restarts()
    ensures MarkerFirst(Pieces(pieces) + close)
  {
    if pieces == [] {
      assert [] + close == close;
    } else {
      PieceFirst(pieces[0], Pieces(pieces[1..]) + close);
      var code, later := pieces[0].Code(), Pieces(pieces[1..]);
      hide MarkerFirst, Filled.Code, Piece.Valid;
      assert code + later + close == code + (later + close);
    }
  }

  // ---- Both -----------------------------------------------------------------------------------

  /** Where the terminator of an accepted tile ends; other formats are not looked into. */
  function End(b: Bytes, format: Format): Option<nat> {
    match format
    case Png => PngEnd(b, 8, false)
    case Jpeg => JpegEnd(b, 2, false)
    case OtherFormat => Some(0)
  }

  method CheckStructure(b: Bytes, format: Format) returns (ok: bool)
    ensures ok <==> End(b, format).Some?
  {
    match format
    case Png => ok := CheckPng(b);
    case Jpeg => ok := CheckJpeg(b);
    case OtherFormat => ok := true;
  }

  lemma EndAgrees(a: Bytes, b: Bytes, format: Format, end: nat)
    requires End(a, format) == Some(end) && Agree(a, b, end)
    ensures End(b, format) == Some(end)
  {
    match format
    case Png => PngAgrees(a, b, 8, false, end);
    case Jpeg => JpegAgrees(a, b, 2, false, end);
    case OtherFormat =>
  }

  /** An accepted tile is rejected when cut anywhere before its terminator ends, and accepted with
      any bytes missing from, or added, behind it. */
  lemma TruncationIsNoticed(b: Bytes, format: Format, end: nat, more: Bytes, n: nat)
    requires End(b, format) == Some(end) && n <= |b|
    ensures End(b[..n], format).Some? <==> n >= end
    ensures End(b + more, format) == Some(end)
  {
    assert Agree(b, b + more, end);
    EndAgrees(b, b + more, format, end);
    if n >= end {
      assert Agree(b, b[..n], end);
      EndAgrees(b, b[..n], format, end);
    } else if End(b[..n], format).Some? {
      var short := End(b[..n], format).value;
      assert Agree(b[..n], b, short);
      EndAgrees(b[..n], b, format, short);
      assert false;
    }
  }
}
