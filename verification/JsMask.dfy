/** Comments and regular expressions blanked out of JavaScript, byte offsets and strings kept. */
module JavaScriptMask {
  import opened Options
  import opened Pixels
  import opened Utf8

  const SPACE: Byte := 32
  const NEWLINE: Byte := 10
  const RETURN: Byte := 13
  const SLASH: Byte := 47
  const BACKSLASH: Byte := 92

  predicate IsQuote(b: Byte) {
    b == 39 || b == 34 || b == 96
  }

  /** The Unicode classes beyond ASCII. */
  datatype Classes = Classes(alphanumeric: nat -> bool, whitespace: nat -> bool)

  predicate IsSpace(classes: Classes, c: nat) {
    if c < 128 then 9 <= c <= 13 || c == 32 else classes.whitespace(c)
  }

  predicate IsWord(classes: Classes, c: nat) {
    if c < 128 then 48 <= c <= 57 || 65 <= c <= 90 || 97 <= c <= 122 || c == 95 || c == 36
    else classes.alphanumeric(c)
  }

  /** A text slice begins and ends between characters. */
  ghost predicate Sliceable(b: Bytes, from: nat, to: nat) {
    from <= to <= |b| && ValidFrom(b, from) && ValidFrom(b, to)
  }

  // ---- The context of a slash -------------------------------------------------------------------

  /** Whether the next slash begins a regular expression, whether the word before is a control
      keyword, and which open parentheses belong to one. */
  datatype Context = Context(allowed: bool, control: bool, parentheses: seq<bool>)

  const START := Context(true, false, [])

  function Valued(c: Context): Context {
    c.(allowed := false, control := false)
  }

  predicate Spells(b: Bytes, s: string) {
    |b| == |s| && forall i :: 0 <= i < |b| ==> b[i] as int == s[i] as int
  }

  const OPERATORS := "=[{,:;!?&|+-*%~^<>"

  predicate BeforeExpression(word: Bytes) {
    Spells(word, "return") || Spells(word, "throw") || Spells(word, "case") || Spells(word, "yield")
    || Spells(word, "typeof") || Spells(word, "void") || Spells(word, "delete")
  }

  predicate ControlWord(word: Bytes) {
    Spells(word, "if") || Spells(word, "while") || Spells(word, "for") || Spells(word, "with")
    || Spells(word, "switch") || Spells(word, "catch")
  }

  predicate Operator(c: nat) {
    exists i :: 0 <= i < |OPERATORS| && OPERATORS[i] as int == c
  }

  function WordEnd(classes: Classes, b: Bytes, pos: nat): (end: nat)
    requires ValidFrom(b, pos)
    ensures pos <= end <= |b| && ValidFrom(b, end)
    decreases |b| - pos
  {
    if pos == |b| || !IsWord(classes, CodePoint(b, pos)) then pos else WordEnd(classes, b, pos + CharLen(b, pos))
  }

  function AfterWord(c: Context, word: Bytes): Context {
    c.(allowed := BeforeExpression(word), control := ControlWord(word))
  }

  function AfterSign(c: Context, point: nat): Context {
    if point == '(' as int then Context(true, false, c.parentheses + [c.control])
    else if point == ')' as int then
      if c.parentheses == [] then Context(false, false, [])
      else Context(c.parentheses[|c.parentheses| - 1], false, c.parentheses[..|c.parentheses| - 1])
    else c.(allowed := Operator(point), control := false)
  }

  /** One character or word of ordinary source: its end, and the context after it. */
  function Token(classes: Classes, c: Context, b: Bytes, pos: nat): (r: (nat, Context))
    requires pos < |b| && ValidFrom(b, pos)
    ensures pos < r.0 <= |b| && ValidFrom(b, r.0)
  {
    var point, next := CodePoint(b, pos), pos + CharLen(b, pos);
    if IsSpace(classes, point) then (next, c)
    else if IsWord(classes, point) then
      var end := WordEnd(classes, b, next);
      (end, AfterWord(c, b[pos..end]))
    else (next, AfterSign(c, point))
  }

  // ---- Comments, regular expressions and strings -----------------------------------------------

  predicate StartsWith(b: Bytes, pos: nat, s: string) {
    pos + |s| <= |b| && Spells(b[pos..pos + |s|], s)
  }

  /** Where the line of a position begins. */
  function LineStart(b: Bytes, pos: nat): (start: nat)
    requires pos <= |b|
    ensures start <= pos && (start > 0 ==> b[start - 1] == NEWLINE || b[start - 1] == RETURN)
    ensures forall i :: start <= i < pos ==> b[i] != NEWLINE && b[i] != RETURN
  {
    if pos == 0 || b[pos - 1] == NEWLINE || b[pos - 1] == RETURN then pos else LineStart(b, pos - 1)
  }

  predicate Blank(classes: Classes, b: Bytes, pos: nat, end: nat)
    requires ValidFrom(b, pos) && end <= |b|
    decreases |b| - pos
  {
    pos >= end || (IsSpace(classes, CodePoint(b, pos)) && Blank(classes, b, pos + CharLen(b, pos), end))
  }

  lemma LineStartIsCharacter(b: Bytes, pos: nat)
    requires ValidFrom(b, 0) && pos <= |b| && ValidFrom(b, pos)
    ensures ValidFrom(b, LineStart(b, pos))
  {
    var start := LineStart(b, pos);
    if start > 0 { AfterAscii(b, 0, start - 1); }
  }

  function LineEnd(b: Bytes, pos: nat): (end: nat)
    requires pos <= |b|
    ensures pos <= end <= |b| && (end < |b| ==> b[end] == NEWLINE) && forall i :: pos <= i < end ==> b[i] != NEWLINE
    decreases |b| - pos
  {
    if pos == |b| || b[pos] == NEWLINE then pos else LineEnd(b, pos + 1)
  }

  /** Past the first closing mark of a block comment, or the end of the text. */
  function BlockEnd(b: Bytes, pos: nat): (end: nat)
    requires pos <= |b|
    ensures pos <= end <= |b|
    ensures end < |b| ==> pos + 2 <= end && b[end - 2] == 42 && b[end - 1] == SLASH
    ensures forall i :: pos <= i < end - 2 ==> !(b[i] == 42 && b[i + 1] == SLASH)
    decreases |b| - pos
  {
    if pos + 2 > |b| then |b|
    else if b[pos] == 42 && b[pos + 1] == SLASH then pos + 2
    else BlockEnd(b, pos + 1)
  }

  /** A comment to the end of the line: two slashes, an HTML comment's start, or its end where
      only blanks precede it on the line. */
  predicate LineComment(classes: Classes, b: Bytes, pos: nat)
    requires ValidFrom(b, 0) && ValidFrom(b, pos) && pos < |b|
  {
    LineStartIsCharacter(b, pos);
    StartsWith(b, pos, "//") || StartsWith(b, pos, "<!--")
    || (StartsWith(b, pos, "-->") && Blank(classes, b, LineStart(b, pos), pos))
  }

  function CommentEnd(classes: Classes, b: Bytes, pos: nat): (end: Option<nat>)
    requires ValidFrom(b, 0) && ValidFrom(b, pos) && pos < |b|
    ensures end.Some? ==> pos < end.value <= |b|
  {
    if LineComment(classes, b, pos) then Some(LineEnd(b, pos + 1))
    else if StartsWith(b, pos, "/*") then Some(BlockEnd(b, pos + 2))
    else None
  }

  lemma CommentEndIsCharacter(classes: Classes, b: Bytes, pos: nat)
    requires ValidFrom(b, 0) && ValidFrom(b, pos) && pos < |b| && CommentEnd(classes, b, pos).Some?
    ensures ValidFrom(b, CommentEnd(classes, b, pos).value)
  {
    hide LineComment, StartsWith, ValidFrom;
    var end := CommentEnd(classes, b, pos).value;
    if end < |b| {
      if LineComment(classes, b, pos) { AfterAscii(b, 0, end); } else { AfterAscii(b, 0, end - 1); }
    } else {
      EndIsCharacter(b);
    }
  }

  lemma EndIsCharacter(b: Bytes)
    ensures ValidFrom(b, |b|)
  {
  }

  /** Where the scan of a regular expression's body stops: an unescaped slash outside a class, the
      end of the line, or of the text. */
  function RegexStop(b: Bytes, pos: nat, inClass: bool): (end: nat)
    ensures pos <= end
    decreases |b| - pos
  {
    if pos >= |b| || b[pos] == NEWLINE || b[pos] == RETURN then pos
    else if b[pos] == BACKSLASH then RegexStop(b, pos + 2, inClass)
    else if b[pos] == SLASH && !inClass then pos
    else RegexStop(b, pos + 1, if b[pos] == 91 then true else if b[pos] == 93 then false else inClass)
  }

  /** The closing slash, if the regular expression has one. */
  function RegexEnd(b: Bytes, pos: nat): (end: Option<nat>)
    ensures end.Some? ==> pos < end.value < |b| && b[end.value] == SLASH
  {
    var end := RegexStop(b, pos + 1, false);
    if end < |b| && b[end] == SLASH then Some(end) else None
  }

  /** Past the closing quote, or the end of the text; a backslash hides what follows it. */
  function QuotedEnd(b: Bytes, pos: nat, delimiter: Byte): (end: nat)
    ensures end <= |b| && (pos <= |b| ==> pos <= end)
    ensures end < |b| ==> pos < end && b[end - 1] == delimiter
    decreases |b| - pos
  {
    if pos >= |b| then |b|
    else if b[pos] == BACKSLASH then QuotedEnd(b, pos + 2, delimiter)
    else if b[pos] == delimiter then pos + 1
    else QuotedEnd(b, pos + 1, delimiter)
  }

  // ---- The lexer -------------------------------------------------------------------------------

  datatype Kind = Quoted | Comment | Regex | Source
  datatype Span = Span(kind: Kind, start: nat, end: nat) {
    predicate Hidden() {
      kind == Comment || kind == Regex
    }
  }

  /** The first lexical element at a position, and the context after it. */
  function Element(classes: Classes, b: Bytes, pos: nat, c: Context): (r: (Span, Context))
    requires ValidFrom(b, 0) && ValidFrom(b, pos) && pos < |b|
    ensures r.0.start == pos < r.0.end <= |b| && ValidFrom(b, r.0.end)
  {
    if IsQuote(b[pos]) then
      var end := QuotedEnd(b, pos + 1, b[pos]);
      QuotedEndIsCharacter(b, pos);
      (Span(Quoted, pos, end), Valued(c))
    else
      var comment := CommentEnd(classes, b, pos);
      if comment.Some? then
        CommentEndIsCharacter(classes, b, pos);
        (Span(Comment, pos, comment.value), c)
      else
        var regex := RegexEnd(b, pos);
        if b[pos] == SLASH && c.allowed && regex.Some? then
          AfterAscii(b, 0, regex.value);
          (Span(Regex, pos, regex.value + 1), Valued(c))
        else
          var (end, after) := Token(classes, c, b, pos);
          (Span(Source, pos, end), after)
  }

  lemma QuotedEndIsCharacter(b: Bytes, pos: nat)
    requires ValidFrom(b, 0) && pos < |b| && IsQuote(b[pos])
    ensures ValidFrom(b, QuotedEnd(b, pos + 1, b[pos])) && pos < QuotedEnd(b, pos + 1, b[pos])
  {
    var end := QuotedEnd(b, pos + 1, b[pos]);
    if end < |b| { AfterAscii(b, 0, end - 1); }
  }

  /** The lexical elements of a text, one after another. */
  function Elements(classes: Classes, b: Bytes, pos: nat, c: Context): (spans: seq<Span>)
    requires ValidFrom(b, 0) && ValidFrom(b, pos) && pos <= |b|
    decreases |b| - pos
  {
    if pos == |b| then []
    else
      var (span, after) := Element(classes, b, pos, c);
      [span] + Elements(classes, b, span.end, after)
  }

  /** The spans follow one another without a gap, from one position to the end of the text, and
      every one begins and ends between characters. */
  ghost predicate Tiles(b: Bytes, spans: seq<Span>, from: nat, to: nat) {
    && from <= to <= |b|
    && (if spans == [] then from == to
        else spans[0].start == from && spans[|spans| - 1].end == to)
    && (forall i :: 0 <= i < |spans| ==> spans[i].start < spans[i].end && Sliceable(b, spans[i].start, spans[i].end))
    && (forall i :: 0 < i < |spans| ==> spans[i].start == spans[i - 1].end)
  }

  lemma {:induction false} ElementsTile(classes: Classes, b: Bytes, pos: nat, c: Context)
    requires ValidFrom(b, 0) && ValidFrom(b, pos) && pos <= |b|
    ensures Tiles(b, Elements(classes, b, pos, c), pos, |b|)
    decreases |b| - pos
  {
    if pos < |b| {
      var (span, after) := Element(classes, b, pos, c);
      ElementsTile(classes, b, span.end, after);
      ElementsStep(classes, b, pos, c);
      hide Element, Elements, ValidFrom;
      TilesPrepend(b, span, Elements(classes, b, span.end, after));
    }
  }

  lemma TilesPrepend(b: Bytes, span: Span, later: seq<Span>)
    requires span.start < span.end && Sliceable(b, span.start, span.end) && Tiles(b, later, span.end, |b|)
    ensures Tiles(b, [span] + later, span.start, |b|)
  {
    hide ValidFrom;
  }

  // ---- Masking -------------------------------------------------------------------------------

  /** The byte lies in a comment or a regular expression. */
  ghost predicate Covered(spans: seq<Span>, i: nat) {
    exists k :: 0 <= k < |spans| && spans[k].Hidden() && spans[k].start <= i < spans[k].end
  }

  /** The text with exactly the comments and regular expressions blanked, up to a position. */
  ghost predicate MaskedTo(b: Bytes, out: Bytes, spans: seq<Span>, to: nat) {
    && |out| == |b|
    && (forall i {:trigger out[i]} :: 0 <= i < |b| ==> out[i] == if i < to && Covered(spans, i) then SPACE else b[i])
  }

  function Blanked(out: Bytes, from: nat, to: nat): (r: Bytes)
    requires from <= to <= |out|
    ensures |r| == |out| && forall i {:trigger r[i]} :: 0 <= i < |out| ==>
      r[i] == if from <= i < to then SPACE else out[i]
  {
    out[..from] + seq(to - from, _ => SPACE) + out[to..]
  }

  /** One more element done: nothing changes outside its span, and only a hidden one is blanked. */
  lemma ElementMasked(b: Bytes, out: Bytes, done: seq<Span>, span: Span, from: nat)
    requires Tiles(b, done, 0, from) && MaskedTo(b, out, done, from)
    requires span.start == from < span.end && Sliceable(b, from, span.end)
    ensures Tiles(b, done + [span], 0, span.end)
    ensures MaskedTo(b, if span.Hidden() then Blanked(out, from, span.end) else out, done + [span], span.end)
  {
    hide ValidFrom;
    var next := done + [span];
    forall i: nat | i < span.end
      ensures Covered(next, i) <==> if i < from then Covered(done, i) else span.Hidden()
    {
      CoveredStep(done, span, from, i);
      if i >= from { NothingBeyond(b, done, from, i); }
    }
    hide Span.Hidden, Covered;
  }

  lemma CoveredStep(done: seq<Span>, span: Span, from: nat, i: nat)
    requires span.start == from < span.end
    ensures Covered(done + [span], i) <==> Covered(done, i) || (span.Hidden() && from <= i < span.end)
  {
    var next := done + [span];
    assert next[|done|] == span && forall k :: 0 <= k < |done| ==> next[k] == done[k];
    hide Span.Hidden;
    if Covered(done, i) {
      var k :| 0 <= k < |done| && done[k].Hidden() && done[k].start <= i < done[k].end;
      assert next[k] == done[k];
    }
  }

  lemma NothingBeyond(b: Bytes, done: seq<Span>, from: nat, i: nat)
    requires Tiles(b, done, 0, from) && from <= i
    ensures !Covered(done, i)
  {
    forall k | 0 <= k < |done|
      ensures done[k].end <= from
    {
      EndsGrow(b, done, from, k);
    }
    hide Span.Hidden;
  }

  lemma {:induction false} EndsGrow(b: Bytes, done: seq<Span>, from: nat, k: nat)
    requires Tiles(b, done, 0, from) && k < |done|
    ensures done[k].end <= from
    decreases |done| - k
  {
    if k < |done| - 1 { EndsGrow(b, done, from, k + 1); }
  }

  /** Blanking whole spans leaves whole characters. */
  lemma {:induction false} MaskIsText(b: Bytes, out: Bytes, spans: seq<Span>, k: nat)
    requires ValidFrom(b, 0) && Tiles(b, spans, 0, |b|) && MaskedTo(b, out, spans, |b|) && k <= |spans|
    ensures ValidFrom(out, if k < |spans| then spans[k].start else |b|)
    decreases |spans| - k
  {
    if k < |spans| {
      MaskIsText(b, out, spans, k + 1);
      var span := spans[k];
      var end := if k + 1 < |spans| then spans[k + 1].start else |b|;
      assert end == span.end;
      SpanIsMasked(b, out, spans, k);
      hide MaskedTo, ValidFrom, Tiles;
      if span.Hidden() {
        SpacesThen(out, span.start, span.end);
      } else {
        assert Sliceable(b, span.start, span.end);
        CopiedCharacters(b, out, span.start, span.end);
      }
    }
  }

  /** Within one span everything is blanked, or nothing is. */
  lemma SpanIsMasked(b: Bytes, out: Bytes, spans: seq<Span>, k: nat)
    requires Tiles(b, spans, 0, |b|) && MaskedTo(b, out, spans, |b|) && k < |spans|
    ensures spans[k].end <= |b| && Sliceable(b, spans[k].start, spans[k].end)
    ensures forall i {:trigger out[i]} :: spans[k].start <= i < spans[k].end ==>
      out[i] == if spans[k].Hidden() then SPACE else b[i]
  {
    hide ValidFrom;
    forall i: nat | spans[k].start <= i < spans[k].end
      ensures Covered(spans, i) <==> spans[k].Hidden()
    {
      if Covered(spans, i) {
        var l :| 0 <= l < |spans| && spans[l].Hidden() && spans[l].start <= i < spans[l].end;
        if l < k { Ordered(b, spans, l, k); }
        if k < l { Ordered(b, spans, k, l); }
      }
    }
    hide Span.Hidden, Covered;
  }

  lemma {:induction false} Ordered(b: Bytes, spans: seq<Span>, k: nat, l: nat)
    requires Tiles(b, spans, 0, |b|) && k < l < |spans|
    ensures spans[k].end <= spans[l].start
    decreases l
  {
    hide ValidFrom;
    if k + 1 < l { Ordered(b, spans, k, l - 1); }
  }

  /** The elements before `from` are done; the rest of the text is lexed from there. */
  ghost predicate Masking(classes: Classes, b: Bytes, out: Bytes, done: seq<Span>, from: nat, c: Context)
    requires ValidFrom(b, 0)
  {
    && from <= |b| && ValidFrom(b, from) && Tiles(b, done, 0, from) && MaskedTo(b, out, done, from)
    && Elements(classes, b, 0, START) == done + Elements(classes, b, from, c)
  }

  lemma ElementsStep(classes: Classes, b: Bytes, from: nat, c: Context)
    requires ValidFrom(b, 0) && ValidFrom(b, from) && from < |b|
    ensures var (span, after) := Element(classes, b, from, c);
      Elements(classes, b, from, c) == [span] + Elements(classes, b, span.end, after)
  {
    hide ValidFrom, Element;
  }

  lemma Advance(classes: Classes, b: Bytes, out: Bytes, done: seq<Span>, from: nat, c: Context)
    requires ValidFrom(b, 0) && Masking(classes, b, out, done, from, c) && from < |b|
    ensures var (span, after) := Element(classes, b, from, c);
      Masking(classes, b, if span.Hidden() then Blanked(out, from, span.end) else out, done + [span], span.end, after)
  {
    hide Element, Elements, Tiles, MaskedTo, ValidFrom, Blanked, Span.Hidden;
    ElementsStep(classes, b, from, c);
    var (span, after) := Element(classes, b, from, c);
    ElementMasked(b, out, done, span, from);
    Joined(done, span, Elements(classes, b, span.end, after));
  }

  lemma Joined(done: seq<Span>, span: Span, later: seq<Span>)
    ensures done + ([span] + later) == done + [span] + later
  {
  }

  /** Within a string that began at `from`, `position` bytes on. */
  ghost predicate InString(classes: Classes, b: Bytes, from: nat, before: Context, c: Context, position: nat)
    requires ValidFrom(b, 0)
  {
    && from < position && from < |b| && ValidFrom(b, from) && IsQuote(b[from])
    && Element(classes, b, from, before) == (Span(Quoted, from, QuotedEnd(b, position, b[from])), c)
  }

  lemma StringBegins(classes: Classes, b: Bytes, from: nat, before: Context)
    requires ValidFrom(b, 0) && from < |b| && ValidFrom(b, from) && IsQuote(b[from])
    ensures InString(classes, b, from, before, Valued(before), from + 1)
  {
    hide QuotedEnd, ValidFrom;
  }

  lemma StringGoesOn(classes: Classes, b: Bytes, from: nat, before: Context, c: Context, position: nat)
    requires ValidFrom(b, 0) && InString(classes, b, from, before, c, position)
    ensures position >= |b| ==> QuotedEnd(b, position, b[from]) == |b|
    ensures position < |b| && b[position] == BACKSLASH ==> InString(classes, b, from, before, c, position + 2)
    ensures position < |b| && b[position] != BACKSLASH && b[position] == b[from] ==>
      QuotedEnd(b, position, b[from]) == position + 1
    ensures position < |b| && b[position] != BACKSLASH && b[position] != b[from] ==>
      InString(classes, b, from, before, c, position + 1)
  {
    hide Element, ValidFrom;
  }

  lemma StringEnds(classes: Classes, b: Bytes, out: Bytes, done: seq<Span>, from: nat, before: Context, c: Context,
                   position: nat)
    requires ValidFrom(b, 0) && Masking(classes, b, out, done, from, before)
    requires InString(classes, b, from, before, c, position)
    ensures Masking(classes, b, out, done + [Span(Quoted, from, QuotedEnd(b, position, b[from]))],
                    QuotedEnd(b, position, b[from]), c)
  {
    hide Element, Masking, QuotedEnd, ValidFrom, IsQuote;
    Advance(classes, b, out, done, from, before);
  }

  /** Outside strings the tests for a comment, a regular expression and a token come in this
      order. */
  lemma OutsideString(classes: Classes, b: Bytes, from: nat, c: Context)
    requires ValidFrom(b, 0) && from < |b| && ValidFrom(b, from) && !IsQuote(b[from])
    ensures var comment, regex := CommentEnd(classes, b, from), RegexEnd(b, from);
      Element(classes, b, from, c) ==
        if comment.Some? then (Span(Comment, from, comment.value), c)
        else if b[from] == SLASH && c.allowed && regex.Some? then (Span(Regex, from, regex.value + 1), Valued(c))
        else (Span(Source, from, Token(classes, c, b, from).0), Token(classes, c, b, from).1)
  {
    hide ValidFrom, CommentEnd, RegexEnd, Token;
  }

  lemma AdvanceTo(classes: Classes, b: Bytes, out: Bytes, done: seq<Span>, from: nat, c: Context,
                  kind: Kind, end: nat, after: Context)
    requires ValidFrom(b, 0) && Masking(classes, b, out, done, from, c) && from < |b| && ValidFrom(b, from)
    requires Element(classes, b, from, c) == (Span(kind, from, end), after)
    ensures from < end <= |b| && |out| == |b|
    ensures kind == Comment || kind == Regex ==>
      Masking(classes, b, Blanked(out, from, end), done + [Span(kind, from, end)], end, after)
    ensures kind == Quoted || kind == Source ==> Masking(classes, b, out, done + [Span(kind, from, end)], end, after)
  {
    Advance(classes, b, out, done, from, c);
    hide Masking, Element, Blanked, ValidFrom;
  }

  lemma CommentStep(classes: Classes, b: Bytes, out: Bytes, done: seq<Span>, from: nat, c: Context)
    requires ValidFrom(b, 0) && Masking(classes, b, out, done, from, c) && from < |b| && ValidFrom(b, from)
    requires !IsQuote(b[from]) && CommentEnd(classes, b, from).Some?
    ensures var end := CommentEnd(classes, b, from).value;
      Masking(classes, b, Blanked(out, from, end), done + [Span(Comment, from, end)], end, c)
  {
    hide *;
    OutsideString(classes, b, from, c);
    AdvanceTo(classes, b, out, done, from, c, Comment, CommentEnd(classes, b, from).value, c);
  }

  lemma RegexStep(classes: Classes, b: Bytes, out: Bytes, done: seq<Span>, from: nat, c: Context)
    requires ValidFrom(b, 0) && Masking(classes, b, out, done, from, c) && from < |b| && ValidFrom(b, from)
    requires !IsQuote(b[from]) && CommentEnd(classes, b, from).None?
    requires b[from] == SLASH && c.allowed && RegexEnd(b, from).Some?
    ensures var end := RegexEnd(b, from).value + 1;
      Masking(classes, b, Blanked(out, from, end), done + [Span(Regex, from, end)], end, Valued(c))
  {
    hide *;
    OutsideString(classes, b, from, c);
    AdvanceTo(classes, b, out, done, from, c, Regex, RegexEnd(b, from).value + 1, Valued(c));
  }

  lemma SourceStep(classes: Classes, b: Bytes, out: Bytes, done: seq<Span>, from: nat, c: Context)
    requires ValidFrom(b, 0) && Masking(classes, b, out, done, from, c) && from < |b| && ValidFrom(b, from)
    requires !IsQuote(b[from]) && CommentEnd(classes, b, from).None?
    requires !(b[from] == SLASH && c.allowed && RegexEnd(b, from).Some?)
    ensures var (end, after) := Token(classes, c, b, from);
      Masking(classes, b, out, done + [Span(Source, from, end)], end, after)
  {
    hide *;
    OutsideString(classes, b, from, c);
    AdvanceTo(classes, b, out, done, from, c, Source, Token(classes, c, b, from).0, Token(classes, c, b, from).1);
  }

  lemma Finished(classes: Classes, b: Bytes, out: Bytes, done: seq<Span>, c: Context)
    requires ValidFrom(b, 0) && Masking(classes, b, out, done, |b|, c)
    ensures MaskedTo(b, out, Elements(classes, b, 0, START), |b|) && ValidFrom(out, 0)
  {
    assert done + [] == done == Elements(classes, b, 0, START);
    hide Elements;
    MaskIsText(b, out, done, 0);
  }

  /** One element outside strings. */
  method MaskElement(classes: Classes, b: Bytes, text: Bytes, ghost done: seq<Span>, position: nat, context: Context)
    returns (out: Bytes, ghost next: seq<Span>, end: nat, after: Context)
    requires ValidFrom(b, 0) && Masking(classes, b, text, done, position, context)
    requires position < |b| && !IsQuote(b[position])
    ensures Masking(classes, b, out, next, end, after) && position < end
  {
    hide *;
    MaskingFacts(classes, b, text, done, position, context);
    var comment := CommentEnd(classes, b, position);
    if comment.Some? {
      CommentStep(classes, b, text, done, position, context);
      end, after := comment.value, context;
      out, next := Blanked(text, position, end), done + [Span(Comment, position, end)];
      return;
    }
    var regex := RegexEnd(b, position);
    if b[position] == SLASH && context.allowed && regex.Some? {
      RegexStep(classes, b, text, done, position, context);
      end, after := regex.value + 1, Valued(context);
      out, next := Blanked(text, position, end), done + [Span(Regex, position, end)];
      return;
    }
    SourceStep(classes, b, text, done, position, context);
    var (e, a) := Token(classes, context, b, position);
    end, after := e, a;
    out, next := text, done + [Span(Source, position, end)];
  }

  /** The state between two turns: outside strings, or in the one that began at `from`. */
  ghost predicate Turn(classes: Classes, b: Bytes, out: Bytes, done: seq<Span>, from: nat, before: Context,
                       quote: Option<Byte>, context: Context, position: nat)
    requires ValidFrom(b, 0)
  {
    && Masking(classes, b, out, done, from, before)
    && match quote
       case None => position == from && context == before
       case Some(q) => from < |b| && q == b[from] && InString(classes, b, from, before, context, position)
  }

  lemma OpenTurn(classes: Classes, b: Bytes, out: Bytes, done: seq<Span>, from: nat, context: Context)
    requires ValidFrom(b, 0) && Turn(classes, b, out, done, from, context, None, context, from)
    requires from < |b| && IsQuote(b[from])
    ensures Turn(classes, b, out, done, from, context, Some(b[from]), Valued(context), from + 1)
  {
    MaskingFacts(classes, b, out, done, from, context);
    hide Masking, InString, IsQuote, Valued, ValidFrom;
    StringBegins(classes, b, from, context);
  }

  /** One byte of a string: an escape skips the next, the delimiter closes it. */
  lemma StringTurn(classes: Classes, b: Bytes, out: Bytes, done: seq<Span>, from: nat, before: Context, q: Byte,
                   context: Context, position: nat)
    requires ValidFrom(b, 0) && Turn(classes, b, out, done, from, before, Some(q), context, position) && position < |b|
    ensures b[position] == BACKSLASH ==> Turn(classes, b, out, done, from, before, Some(q), context, position + 2)
    ensures b[position] != BACKSLASH && b[position] != q ==>
      Turn(classes, b, out, done, from, before, Some(q), context, position + 1)
    ensures b[position] != BACKSLASH && b[position] == q ==>
      Turn(classes, b, out, done + [Span(Quoted, from, position + 1)], position + 1, context,
           None, context, position + 1)
  {
    hide Masking, InString, ValidFrom, QuotedEnd;
    StringGoesOn(classes, b, from, before, context, position);
    if b[position] != BACKSLASH && b[position] == q {
      StringEnds(classes, b, out, done, from, before, context, position);
    }
  }

  /** The text ends, perhaps within a string. */
  lemma LastTurn(classes: Classes, b: Bytes, out: Bytes, done: seq<Span>, from: nat, before: Context,
                 quote: Option<Byte>, context: Context, position: nat)
    requires ValidFrom(b, 0) && Turn(classes, b, out, done, from, before, quote, context, position) && position >= |b|
    ensures MaskedTo(b, out, Elements(classes, b, 0, START), |b|) && ValidFrom(out, 0)
  {
    hide Masking, InString, ValidFrom, QuotedEnd, MaskedTo, Elements;
    MaskingFacts(classes, b, out, done, from, before);
    if quote.Some? {
      StringGoesOn(classes, b, from, before, context, position);
      StringEnds(classes, b, out, done, from, before, context, position);
      Finished(classes, b, out, done + [Span(Quoted, from, |b|)], context);
    } else {
      Finished(classes, b, out, done, before);
    }
  }

  /** One turn inside a string. */
  method StringByte(classes: Classes, b: Bytes, ghost out: Bytes, ghost done: seq<Span>, ghost from: nat,
                    ghost before: Context,
                    q: Byte, ghost context: Context, position: nat)
    returns (quote: Option<Byte>, next: nat, ghost spans: seq<Span>, ghost start: nat, ghost opening: Context)
    requires ValidFrom(b, 0) && Turn(classes, b, out, done, from, before, Some(q), context, position) && position < |b|
    ensures Turn(classes, b, out, spans, start, opening, quote, context, next) && position < next
  {
    hide *;
    StringTurn(classes, b, out, done, from, before, q, context, position);
    quote, next, spans, start, opening := Some(q), position + 1, done, from, before;
    if b[position] == BACKSLASH { return Some(q), position + 2, done, from, before; }
    if b[position] == q {
      spans, start, opening := done + [Span(Quoted, from, position + 1)], position + 1, context;
      quote := None;
    }
  }

  /** Masks a text. The result has its length, is text itself, and differs from it exactly in the
      comments and regular expressions; every slice taken on the way is between characters. */
  method Mask(classes: Classes, b: Bytes) returns (out: Bytes)
    requires ValidFrom(b, 0)
    ensures MaskedTo(b, out, Elements(classes, b, 0, START), |b|)
    ensures |out| == |b| && ValidFrom(out, 0)
  {
    out := b;
    var position: nat, quote: Option<Byte>, context := 0, None, START;
    ghost var done: seq<Span>, from: nat, before := [], 0, START;
    hide *;
    MaskingStarts(classes, b);
    TurnOutside(classes, b, out, done, from, before);
    while position < |b|
      invariant Turn(classes, b, out, done, from, before, quote, context, position)
      decreases |b| - position
    {
      var byte := b[position];
      if quote.Some? {
        quote, position, done, from, before :=
          StringByte(classes, b, out, done, from, before, quote.value, context, position);
      } else if IsQuote(byte) {
        OutsideTurn(classes, b, out, done, from, before, context, position);
        OpenTurn(classes, b, out, done, from, context);
        quote := Some(byte);
        context := Valued(context);
        position := position + 1;
      } else {
        OutsideTurn(classes, b, out, done, from, before, context, position);
        out, done, position, context := MaskElement(classes, b, out, done, position, context);
        from, before := position, context;
        TurnOutside(classes, b, out, done, from, before);
      }
    }
    LastTurn(classes, b, out, done, from, before, quote, context, position);
    MaskedLength(b, out, Elements(classes, b, 0, START));
  }

  lemma OutsideTurn(classes: Classes, b: Bytes, out: Bytes, done: seq<Span>, from: nat, before: Context,
                    context: Context, position: nat)
    requires ValidFrom(b, 0) && Turn(classes, b, out, done, from, before, None, context, position)
    ensures position == from && context == before && Masking(classes, b, out, done, from, before)
  {
    hide Masking, ValidFrom;
  }

  lemma TurnOutside(classes: Classes, b: Bytes, out: Bytes, done: seq<Span>, from: nat, c: Context)
    requires ValidFrom(b, 0) && Masking(classes, b, out, done, from, c)
    ensures Turn(classes, b, out, done, from, c, None, c, from)
  {
    hide Masking, ValidFrom;
  }

  lemma MaskedLength(b: Bytes, out: Bytes, spans: seq<Span>)
    requires MaskedTo(b, out, spans, |b|)
    ensures |out| == |b|
  {
    hide Covered;
  }

  lemma MaskingStarts(classes: Classes, b: Bytes)
    requires ValidFrom(b, 0)
    ensures Masking(classes, b, b, [], 0, START)
  {
    assert [] + Elements(classes, b, 0, START) == Elements(classes, b, 0, START);
    hide Elements, ValidFrom;
  }

  lemma MaskingFacts(classes: Classes, b: Bytes, out: Bytes, done: seq<Span>, from: nat, c: Context)
    requires ValidFrom(b, 0) && Masking(classes, b, out, done, from, c)
    ensures |out| == |b| && from <= |b| && ValidFrom(b, from)
  {
    hide ValidFrom, Elements;
  }

  // ---- What the mask keeps ---------------------------------------------------------------------

  /** A string keeps every byte. */
  lemma StringsAreKept(classes: Classes, b: Bytes, out: Bytes, k: nat, i: nat)
    requires ValidFrom(b, 0) && MaskedTo(b, out, Elements(classes, b, 0, START), |b|)
    requires k < |Elements(classes, b, 0, START)|
    requires var span := Elements(classes, b, 0, START)[k]; !span.Hidden() && span.start <= i < span.end
    ensures i < |b| && out[i] == b[i]
  {
    var spans := Elements(classes, b, 0, START);
    ElementsTile(classes, b, 0, START);
    SpanIsMasked(b, out, spans, k);
  }

  lemma SpanOf(b: Bytes, spans: seq<Span>, i: nat) returns (k: nat)
    requires Tiles(b, spans, 0, |b|) && i < |b|
    ensures k < |spans| && spans[k].start <= i < spans[k].end
    ensures forall l :: 0 <= l < |spans| && spans[l].start <= i < spans[l].end ==> l == k
  {
    hide Sliceable;
    k := 0;
    while spans[k].end <= i
      invariant k < |spans| && spans[k].start <= i
      decreases |spans| - k
    {
      k := k + 1;
    }
    forall l | 0 <= l < |spans| && spans[l].start <= i < spans[l].end
      ensures l == k
    {
      if l < k { Ordered(b, spans, l, k); }
      if k < l { Ordered(b, spans, k, l); }
    }
  }

  /** Every byte of the text belongs to exactly one element. */
  lemma EveryByteHasItsElement(classes: Classes, b: Bytes, i: nat) returns (k: nat)
    requires ValidFrom(b, 0) && i < |b|
    ensures var spans := Elements(classes, b, 0, START);
      && k < |spans| && spans[k].start <= i < spans[k].end
      && forall l :: 0 <= l < |spans| && spans[l].start <= i < spans[l].end ==> l == k
  {
    ElementsTile(classes, b, 0, START);
    hide *;
    k := SpanOf(b, Elements(classes, b, 0, START), i);
  }
}
