/** What the JPEG check accepts is a well-formed stream: its bytes read back into their pieces. */
module JpegForms {
  import opened Options
  import opened Pixels
  import opened ImageMetadata
  import opened TileStructure

  /** Fill bytes up to the marker they lead to. */
  lemma {:induction false} SkipFillIs(b: seq<Byte>, pos: nat)
    requires pos <= |b|
    ensures var p := SkipFill(b, pos); pos <= p <= |b| && b[pos..p] == Fill(p - pos)
    decreases |b| - pos
  {
    if pos < |b| && b[pos] == 0xff {
      SkipFillIs(b, pos + 1);
      var p := SkipFill(b, pos);
      assert b[pos..p] == [b[pos]] + b[pos + 1..p];
      assert Fill(p - pos) == [0xff] + Fill(p - pos - 1);
    }
  }

  lemma Joined(b: seq<Byte>, i: nat, j: nat, k: nat)
    requires i <= j <= k <= |b|
    ensures b[i..j] + b[j..k] == b[i..k]
  {
  }

  lemma FillMore(n: nat, follow: seq<Byte>)
    ensures Fill(n + 1) + follow == Fill(n) + ([0xff] + follow)
  {
    assert Fill(n + 1) == Fill(n) + [0xff];
  }

  /** A marker with its fill bytes. */
  lemma AloneCode(b: seq<Byte>, pos: nat)
    requires pos < SkipFill(b, pos) < |b|
    ensures var m := SkipFill(b, pos); b[pos..m + 1] == Fill(m - pos - 1) + [0xff, b[m]]
  {
    var m := SkipFill(b, pos);
    SkipFillIs(b, pos);
    hide SkipFill, Fill;
    Joined(b, pos, m, m + 1);
    assert b[m..m + 1] == [b[m]];
    FillMore(m - pos - 1, [b[m]]);
    assert [0xff] + [b[m]] == [0xff, b[m]];
  }

  // ---- Data of a scan ---------------------------------------------------------------------------------------

  lemma UnitsNext(u: Unit, later: seq<Unit>)
    requires u.Valid() && forall v :: v in later ==> v.Valid()
    ensures Codes([u] + later) == u.Code() + Codes(later)
    ensures forall v :: v in [u] + later ==> v.Valid()
  {
    assert ([u] + later)[1..] == later;
    hide Unit.Code, Unit.Valid;
  }

  lemma ReadsUnit(b: seq<Byte>, pos: nat) returns (u: Unit, next: nat)
    requires pos < |b| && SkipEntropy(b, pos).Some? && SkipEntropy(b, pos) != Some(pos)
    ensures pos < next <= |b| && u.Valid() && b[pos..next] == u.Code()
    ensures SkipEntropy(b, next) == SkipEntropy(b, pos)
  {
    if b[pos] != 0xff {
      u, next := Unit.Plain(b[pos]), pos + 1;
    } else {
      var p := SkipFill(b, pos);
      MarkedUnit(b, pos);
      AloneCode(b, pos);
      hide *;
      u, next := Unit.Marked(p - pos - 1, b[p]), p + 1;
      MarkedCode(p - pos - 1, b[p]);
    }
  }

  lemma MarkedUnit(b: seq<Byte>, pos: nat)
    requires pos < |b| && b[pos] == 0xff && SkipEntropy(b, pos).Some? && SkipEntropy(b, pos) != Some(pos)
    ensures var p := SkipFill(b, pos);
      && pos < p < |b| && (b[p] == 0 || 0xd0 <= b[p] <= 0xd7) && SkipEntropy(b, pos) == SkipEntropy(b, p + 1)
  {
  }

  lemma MarkedCode(fill: nat, follow: Byte)
    requires follow == 0 || 0xd0 <= follow <= 0xd7
    ensures Unit.Marked(fill, follow).Valid() && Unit.Marked(fill, follow).Code() == Fill(fill) + [0xff, follow]
  {
  }

  lemma EntropyStops(b: seq<Byte>, pos: nat)
    requires pos <= |b| && SkipEntropy(b, pos) == Some(pos)
    ensures pos < |b| ==> b[pos] == 0xff && SkipFill(b, pos) < |b| && !(0xd0 <= b[SkipFill(b, pos)] <= 0xd7)
  {
  }

  lemma EntropyEndsAt(b: seq<Byte>, pos: nat)
    requires pos <= |b| && SkipEntropy(b, pos).Some?
    ensures pos == |b| ==> SkipEntropy(b, pos) == Some(pos)
  {
  }

  /** The data of a scan, up to the marker that ends it. */
  lemma {:induction false} ReadsUnits(b: seq<Byte>, pos: nat) returns (units: seq<Unit>)
    requires pos <= |b| && SkipEntropy(b, pos).Some?
    ensures var next := SkipEntropy(b, pos).value;
      && pos <= next <= |b| && (forall u :: u in units ==> u.Valid()) && b[pos..next] == Codes(units)
      && (next < |b| ==> b[next] == 0xff && SkipFill(b, next) < |b| && !(0xd0 <= b[SkipFill(b, next)] <= 0xd7))
    decreases |b| - pos
  {
    EntropyEndsAt(b, pos);
    if SkipEntropy(b, pos) == Some(pos) {
      EntropyStops(b, pos);
      hide SkipEntropy, SkipFill;
      units := [];
    } else {
      hide SkipEntropy, SkipFill, Unit.Code, Unit.Valid, Codes;
      var u, mid := ReadsUnit(b, pos);
      var later := ReadsUnits(b, mid);
      UnitsNext(u, later);
      units := [u] + later;
      Joined(b, pos, mid, SkipEntropy(b, pos).value);
    }
  }

  // ---- Pieces -----------------------------------------------------------------------------------------------

  lemma PiecesNext(p: Filled, later: seq<Filled>)
    requires p.piece.Valid() && WellFormed(later)
    requires p.piece.Scan? && later != [] ==> !later[0].piece.Restarts()
    ensures WellFormed([p] + later) && Pieces([p] + later) == p.Code() + Pieces(later)
  {
    var pieces := [p] + later;
    assert pieces[1..] == later;
    forall i | 0 <= i < |pieces| - 1 && pieces[i].piece.Scan?
      ensures !pieces[i + 1].piece.Restarts()
    {
      if i > 0 { assert pieces[i] == later[i - 1] && pieces[i + 1] == later[i]; }
    }
  }

  /** The piece at a marker, where it is no end marker. */
  lemma ReadsPiece(b: seq<Byte>, pos: nat, scan: bool) returns (p: Filled, next: nat)
    requires JpegEnd(b, pos, scan).Some? && b[SkipFill(b, pos)] != 0xd9
    ensures pos < next <= |b| && p.piece.Valid() && b[pos..next] == p.Code()
    ensures JpegEnd(b, pos, scan) == JpegEnd(b, next, scan || p.piece.Scan?)
    ensures p.piece.Restarts() ==> 0xd0 <= b[SkipFill(b, pos)] <= 0xd7
    ensures p.piece.Scan? ==> next < |b| && SkipFill(b, next) < |b| && !(0xd0 <= b[SkipFill(b, next)] <= 0xd7)
  {
    MarkerInside(b, pos, scan);
    var m := SkipFill(b, pos);
    MarkerKinds(b, pos, scan);
    if b[m] == 1 || 0xd0 <= b[m] <= 0xd7 {
      p, next := Filled(m - pos - 1, Alone(b[m])), m + 1;
      AloneCode(b, pos);
    } else {
      next := AfterSegment(b, m).value;
      p := ReadsSegment(b, pos, scan);
    }
  }

  /** How the check goes on at a marker. */
  lemma MarkerKinds(b: seq<Byte>, pos: nat, scan: bool)
    requires JpegEnd(b, pos, scan).Some? && pos < SkipFill(b, pos) < |b| && b[SkipFill(b, pos)] != 0xd9
    ensures var m := SkipFill(b, pos);
      && b[m] !in {0, 0xd8, 0xff}
      && (b[m] == 1 || 0xd0 <= b[m] <= 0xd7 ==> JpegEnd(b, pos, scan) == JpegEnd(b, m + 1, scan))
      && (!(b[m] == 1 || 0xd0 <= b[m] <= 0xd7) ==>
            && AfterSegment(b, m).Some?
            && JpegEnd(b, pos, scan) == JpegEnd(b, AfterSegment(b, m).value, scan || b[m] == 0xda))
  {
    JpegUnfold(b, pos, scan);
    hide JpegEnd, AfterSegment;
  }

  /** Where the header of a segment ends, and where what belongs to it does. */
  lemma SegmentParts(b: seq<Byte>, m: nat)
    requires m < |b| && AfterSegment(b, m).Some?
    ensures m + 2 < |b|
    ensures var after := m + 1 + FromBe16(b[m + 1], b[m + 2]);
      && m + 3 <= after <= |b|
      && (b[m] == 0xda ==> SkipEntropy(b, after) == AfterSegment(b, m))
      && (b[m] != 0xda ==> AfterSegment(b, m) == Some(after))
  {
    hide SkipEntropy;
  }

  lemma ReadsSegment(b: seq<Byte>, pos: nat, scan: bool) returns (p: Filled)
    requires pos < SkipFill(b, pos) < |b| && b[SkipFill(b, pos)] !in {0, 1, 0xd8, 0xd9, 0xff}
    requires !(0xd0 <= b[SkipFill(b, pos)] <= 0xd7) && AfterSegment(b, SkipFill(b, pos)).Some?
    requires JpegEnd(b, AfterSegment(b, SkipFill(b, pos)).value, scan || b[SkipFill(b, pos)] == 0xda).Some?
    ensures var m := SkipFill(b, pos); var next := AfterSegment(b, m).value;
      && pos < next <= |b| && p.piece.Valid() && b[pos..next] == p.Code() && !p.piece.Alone?
      && (p.piece.Scan? <==> b[m] == 0xda)
      && (p.piece.Scan? ==> next < |b| && SkipFill(b, next) < |b| && !(0xd0 <= b[SkipFill(b, next)] <= 0xd7))
  {
    hide *;
    var m := SkipFill(b, pos);
    SegmentParts(b, m);
    SkipFillIs(b, pos);
    InsideScan(b, AfterSegment(b, m).value, scan || b[m] == 0xda);
    var after := m + 1 + FromBe16(b[m + 1], b[m + 2]);
    HeaderBytes(b, m, after);
    if b[m] == 0xda {
      var units := ReadsUnits(b, after);
      p := Filled(m - pos - 1, Scan(b[m + 3..after], units));
      ValidScan(b[m + 3..after], units);
      ScanCode(b, pos, m, after, AfterSegment(b, m).value, m - pos - 1, b[m + 3..after], units);
    } else {
      p := Filled(m - pos - 1, Table(Segment(b[m], b[m + 3..after])));
      ValidTable(b[m], b[m + 3..after]);
      TableCode(b, pos, m, after, m - pos - 1, b[m + 3..after]);
    }
  }

  lemma ValidScan(header: seq<Byte>, units: seq<Unit>)
    requires |header| <= 0xfffd && forall u :: u in units ==> u.Valid()
    ensures Scan(header, units).Valid()
  {
  }

  lemma ValidTable(marker: Byte, payload: seq<Byte>)
    requires marker !in {0, 1, 0xd8, 0xd9, 0xda, 0xff} && !(0xd0 <= marker <= 0xd7) && |payload| <= 0xfffd
    ensures Table(Segment(marker, payload)).Valid()
  {
  }

  lemma InsideScan(b: seq<Byte>, next: nat, scan: bool)
    requires JpegEnd(b, next, scan).Some?
    ensures next < |b|
  {
  }

  lemma HeaderBytes(b: seq<Byte>, m: nat, after: nat)
    requires m + 3 <= after <= |b| && after == m + 1 + FromBe16(b[m + 1], b[m + 2])
    ensures var header := b[m + 3..after];
      && |header| + 2 == FromBe16(b[m + 1], b[m + 2]) && |header| <= 0xfffd
      && b[m..after] == [b[m]] + ToBe16(|header| + 2) + header
  {
    Be16Back(b[m + 1], b[m + 2]);
    hide ToBe16, FromBe16;
    assert b[m..m + 1] == [b[m]] && b[m + 1..m + 3] == [b[m + 1], b[m + 2]];
    Joined(b, m, m + 1, m + 3);
    Joined(b, m, m + 3, after);
  }

  lemma Be16Back(high: Byte, low: Byte)
    ensures ToBe16(FromBe16(high, low)) == [high, low]
  {
  }

  lemma TableCode(b: seq<Byte>, pos: nat, m: nat, after: nat, fill: nat, header: seq<Byte>)
    requires pos < m < after <= |b| && fill == m - pos - 1 && b[pos..m] == Fill(fill + 1)
    requires Table(Segment(b[m], header)).Valid() && b[m..after] == [b[m]] + ToBe16(|header| + 2) + header
    ensures b[pos..after] == Filled(fill, Table(Segment(b[m], header))).Code()
  {
    var size := ToBe16(|header| + 2);
    hide ToBe16;
    Joined(b, pos, m, after);
    FillMore(fill, [b[m]] + size + header);
    assert [0xff] + ([b[m]] + size + header) == [0xff, b[m]] + size + header;
  }

  lemma ScanCode(b: seq<Byte>, pos: nat, m: nat, after: nat, next: nat, fill: nat, header: seq<Byte>, units: seq<Unit>)
    requires pos < m < after <= next <= |b| && fill == m - pos - 1 && b[pos..m] == Fill(fill + 1) && b[m] == 0xda
    requires Scan(header, units).Valid() && b[m..after] == [b[m]] + ToBe16(|header| + 2) + header
    requires b[after..next] == Codes(units)
    ensures b[pos..next] == Filled(fill, Scan(header, units)).Code()
  {
    var size, data := ToBe16(|header| + 2), Codes(units);
    var fixed := [0xff, 0xda] + size + header;
    assert Filled(fill, Scan(header, units)).Code() == Fill(fill) + (fixed + data);
    hide *;
    Joined(b, pos, m, after);
    Joined(b, pos, after, next);
    FillMore(fill, [b[m]] + size + header);
    assert [0xff] + ([b[m]] + size + header) == fixed;
    Grouped(Fill(fill), fixed, data);
  }

  /** What is accepted up to an end are well-formed pieces and the end marker, a scan among them unless one
      came before. */
  lemma {:induction false} ReadsJpeg(b: seq<Byte>, pos: nat, scan: bool) returns (pieces: seq<Filled>, fill: nat)
    requires pos <= |b| && JpegEnd(b, pos, scan).Some?
    ensures WellFormed(pieces) && b[pos..JpegEnd(b, pos, scan).value] == Pieces(pieces) + Close(fill, [])
    ensures scan || exists p :: p in pieces && p.piece.Scan?
    ensures SkipFill(b, pos) < |b|
    ensures pieces != [] && pieces[0].piece.Restarts() ==> 0xd0 <= b[SkipFill(b, pos)] <= 0xd7
    decreases |b| - pos
  {
    var m, end := SkipFill(b, pos), JpegEnd(b, pos, scan).value;
    MarkerInside(b, pos, scan);
    if b[m] == 0xd9 {
      pieces, fill := [], m - pos - 1;
      ReadsClose(b, pos, scan);
    } else {
      hide *;
      var p, next := ReadsPiece(b, pos, scan);
      var later, last := ReadsJpeg(b, next, scan || p.piece.Scan?);
      PiecesNext(p, later);
      fill := last;
      pieces := [p] + later;
      assert pieces[0] == p;
      Joined(b, pos, next, end);
      Grouped(p.Code(), Pieces(later), Close(fill, []));
      ScanAmong(p, later, scan);
    }
  }

  lemma Grouped(a: seq<Byte>, b: seq<Byte>, c: seq<Byte>)
    ensures a + (b + c) == a + b + c
  {
  }

  lemma ScanAmong(p: Filled, later: seq<Filled>, scan: bool)
    requires scan || p.piece.Scan? || exists q :: q in later && q.piece.Scan?
    ensures scan || exists q :: q in [p] + later && q.piece.Scan?
  {
    if !scan && !p.piece.Scan? {
      var q :| q in later && q.piece.Scan?;
      assert q in [p] + later;
    } else {
      assert p in [p] + later;
    }
  }

  lemma MarkerInside(b: seq<Byte>, pos: nat, scan: bool)
    requires pos <= |b| && JpegEnd(b, pos, scan).Some?
    ensures pos < SkipFill(b, pos) < |b|
  {
    hide AfterSegment;
  }

  lemma ReadsClose(b: seq<Byte>, pos: nat, scan: bool)
    requires pos <= |b| && JpegEnd(b, pos, scan).Some? && SkipFill(b, pos) < |b| && b[SkipFill(b, pos)] == 0xd9
    ensures var m := SkipFill(b, pos);
      && scan && pos < m && JpegEnd(b, pos, scan) == Some(m + 1) && b[pos..m + 1] == Pieces([]) + Close(m - pos - 1, [])
  {
    var m := SkipFill(b, pos);
    SkipFillIs(b, pos);
    JpegUnfold(b, pos, scan);
    assert scan && pos < m && JpegEnd(b, pos, scan) == Some(m + 1);
    hide JpegEnd, SkipFill, Fill;
    Joined(b, pos, m, m + 1);
    assert b[m..m + 1] == [0xd9];
    FillMore(m - pos - 1, [0xd9]);
    assert [0xff] + [0xd9] == [0xff, 0xd9];
    assert Close(m - pos - 1, []) == Fill(m - pos - 1) + [0xff, 0xd9];
  }

  /** The bytes from `pos` to `end` are well-formed pieces, with a scan among them, and the end marker. */
  ghost predicate Stream(b: seq<Byte>, pos: nat, end: nat) {
    exists pieces, fill :: StreamOf(b, pos, end, pieces, fill)
  }

  ghost predicate StreamOf(b: seq<Byte>, pos: nat, end: nat, pieces: seq<Filled>, fill: nat) {
    && pos <= end <= |b| && WellFormed(pieces) && (exists p :: p in pieces && p.piece.Scan?)
    && b[pos..end] == Pieces(pieces) + Close(fill, [])
  }

  /** A JPEG is accepted exactly if well-formed pieces with a scan among them and the end marker follow the
      start marker; and its end is where they end. */
  lemma AcceptedExactly(b: seq<Byte>, end: nat)
    requires |b| >= 2
    ensures JpegEnd(b, 2, false) == Some(end) <==> Stream(b, 2, end)
  {
    hide JpegEnd, StreamOf;
    if JpegEnd(b, 2, false) == Some(end) { AcceptedIsStream(b, end); }
    if Stream(b, 2, end) {
      var pieces, fill :| StreamOf(b, 2, end, pieces, fill);
      StreamIsAccepted(b, end, pieces, fill);
    }
  }

  lemma AcceptedIsStream(b: seq<Byte>, end: nat)
    requires |b| >= 2 && JpegEnd(b, 2, false) == Some(end)
    ensures Stream(b, 2, end)
  {
    var pieces, fill := ReadsJpeg(b, 2, false);
    hide JpegEnd, WellFormed, Pieces, Close;
    assert StreamOf(b, 2, end, pieces, fill);
  }

  lemma StreamIsAccepted(b: seq<Byte>, end: nat, pieces: seq<Filled>, fill: nat)
    requires |b| >= 2 && StreamOf(b, 2, end, pieces, fill)
    ensures JpegEnd(b, 2, false) == Some(end)
  {
    hide *;
    StreamParts(b, end, pieces, fill);
    var front, more := b[..2], b[end..];
    WellFormedIsAccepted(front, pieces, fill, more, false);
    CloseMore(fill, more);
    Regrouped(front, Pieces(pieces), Close(fill, []), more);
  }

  lemma StreamParts(b: seq<Byte>, end: nat, pieces: seq<Filled>, fill: nat)
    requires |b| >= 2 && StreamOf(b, 2, end, pieces, fill)
    ensures 2 <= end <= |b| && WellFormed(pieces) && exists p :: p in pieces && p.piece.Scan?
    ensures forall p :: p in pieces ==> p.piece.Valid()
    ensures b == b[..2] + (Pieces(pieces) + Close(fill, [])) + b[end..]
    ensures |Pieces(pieces)| + |Close(fill, [])| == end - 2
  {
    assert WellFormed(pieces);
    hide Pieces, Close, Piece.Valid, Piece.Restarts;
    assert b == b[..2] + b[2..end] + b[end..];
  }

  lemma CloseMore(fill: nat, more: seq<Byte>)
    ensures Close(fill, more) == Close(fill, []) + more && |Close(fill, [])| == fill + 2
  {
    Grouped(Fill(fill), [0xff, 0xd9], more);
    assert Fill(fill) + [0xff, 0xd9] + [] == Fill(fill) + [0xff, 0xd9];
  }

  lemma Regrouped(a: seq<Byte>, b: seq<Byte>, c: seq<Byte>, d: seq<Byte>)
    ensures a + (b + c) + d == a + b + (c + d)
  {
  }
}
