/** What the masker's elements are, told by the forms of the language: strings, comments and regular
    expressions written out, and where a slash may begin one. */
module JavaScriptGrammar {
  import opened Options
  import opened Pixels
  import opened Utf8
  import opened JavaScriptMask

  // ---- Regular expressions --------------------------------------------------------------------------------

  /** Inside a class: a byte, or a backslash and any byte. */
  datatype ClassItem = ClassByte(b: Byte) | ClassEscape(b: Byte) {
    predicate Valid() {
      ClassByte? ==> b !in {10, 13, 92, 93}
    }

    function Code(): Bytes {
      if ClassByte? then [b] else [92, b]
    }
  }

  /** In a body: a byte, a backslash and any byte, or a class in brackets. */
  datatype Item = Plain(b: Byte) | Escape(b: Byte) | Class(items: seq<ClassItem>) {
    predicate Valid() {
      match this
      case Plain(b) => b !in {10, 13, 92, 47, 91}
      case Escape(_) => true
      case Class(items) => forall i :: 0 <= i < |items| ==> items[i].Valid()
    }

    function Code(): Bytes {
      match this
      case Plain(b) => [b]
      case Escape(b) => [92, b]
      case Class(items) => [91] + ClassCode(items) + [93]
    }
  }

  function ClassCode(items: seq<ClassItem>): Bytes {
    if items == [] then [] else items[0].Code() + ClassCode(items[1..])
  }

  function BodyCode(items: seq<Item>): Bytes {
    if items == [] then [] else items[0].Code() + BodyCode(items[1..])
  }

  predicate ValidClass(items: seq<ClassItem>) {
    forall i :: 0 <= i < |items| ==> items[i].Valid()
  }

  predicate ValidBody(items: seq<Item>) {
    forall i :: 0 <= i < |items| ==> items[i].Valid()
  }

  /** The bytes stand there. */
  predicate Stands(b: Bytes, pos: nat, code: Bytes) {
    pos + |code| <= |b| && forall i :: 0 <= i < |code| ==> b[pos + i] == code[i]
  }

  lemma StandsBoth(b: Bytes, pos: nat, first: Bytes, second: Bytes)
    ensures Stands(b, pos, first + second) <==> Stands(b, pos, first) && Stands(b, pos + |first|, second)
  {
    var both := first + second;
    assert forall i :: 0 <= i < |first| ==> both[i] == first[i];
    assert forall i :: 0 <= i < |second| ==> both[|first| + i] == second[i];
    if Stands(b, pos, both) {
      forall i | 0 <= i < |second|
        ensures b[pos + |first| + i] == second[i]
      {
        assert b[pos + (|first| + i)] == both[|first| + i];
      }
    }
  }

  lemma StandsThree(b: Bytes, pos: nat, first: Bytes, second: Bytes, third: Bytes)
    ensures Stands(b, pos, first + second + third) <==>
      Stands(b, pos, first) && Stands(b, pos + |first|, second) && Stands(b, pos + |first| + |second|, third)
  {
    StandsBoth(b, pos, first + second, third);
    StandsBoth(b, pos, first, second);
  }

  lemma StandsOne(b: Bytes, pos: nat, byte: Byte)
    ensures Stands(b, pos, [byte]) <==> pos < |b| && b[pos] == byte
  {
    if Stands(b, pos, [byte]) { assert b[pos + 0] == [byte][0]; }
  }

  /** The scan passes a class's items and stays inside it. */
  lemma {:induction false} PassesClass(b: Bytes, pos: nat, items: seq<ClassItem>)
    requires ValidClass(items) && Stands(b, pos, ClassCode(items))
    ensures RegexStop(b, pos, true) == RegexStop(b, pos + |ClassCode(items)|, true)
    decreases |items|
  {
    if items != [] {
      var item := items[0];
      StandsBoth(b, pos, item.Code(), ClassCode(items[1..]));
      assert item.Valid() && ValidClass(items[1..]);
      assert b[pos + 0] == item.Code()[0];
      PassesClass(b, pos + |item.Code()|, items[1..]);
    }
  }

  lemma PassesItem(b: Bytes, pos: nat, item: Item)
    requires item.Valid() && Stands(b, pos, item.Code())
    ensures RegexStop(b, pos, false) == RegexStop(b, pos + |item.Code()|, false)
  {
    assert b[pos + 0] == item.Code()[0];
    if item.Class? {
      var code := ClassCode(item.items);
      StandsThree(b, pos, [91], code, [93]);
      StandsOne(b, pos + 1 + |code|, 93);
      hide Stands;
      PassesClass(b, pos + 1, item.items);
    }
  }

  lemma BodyNext(items: seq<Item>)
    ensures BodyCode([]) == []
    ensures items != [] ==> BodyCode(items) == items[0].Code() + BodyCode(items[1..])
    ensures items != [] && ValidBody(items) ==> items[0].Valid() && ValidBody(items[1..])
  {
  }

  /** The scan passes a body's items. */
  lemma {:induction false} PassesBody(b: Bytes, pos: nat, items: seq<Item>)
    requires ValidBody(items) && Stands(b, pos, BodyCode(items))
    ensures RegexStop(b, pos, false) == RegexStop(b, pos + |BodyCode(items)|, false)
    decreases |items|
  {
    hide *;
    BodyNext(items);
    if items != [] {
      var item, rest := items[0], items[1..];
      StandsBoth(b, pos, item.Code(), BodyCode(rest));
      PassesItem(b, pos, item);
      PassesBody(b, pos + |item.Code()|, rest);
      assert |BodyCode(items)| == |item.Code()| + |BodyCode(rest)|;
    }
  }

  /** Inside a class, up to the bracket that closes it, if the scan does not stop before. */
  lemma {:induction false} ReadsClass(b: Bytes, pos: nat) returns (items: seq<ClassItem>)
    requires var end := RegexStop(b, pos, true); end < |b| && b[end] == 47
    ensures ValidClass(items) && Stands(b, pos, ClassCode(items) + [93])
    ensures RegexStop(b, pos, true) == RegexStop(b, pos + |ClassCode(items)| + 1, false)
    decreases |b| - pos
  {
    if b[pos] == 93 {
      items := [];
      StandsOne(b, pos, 93);
    } else {
      var item := if b[pos] == 92 then ClassEscape(b[pos + 1]) else ClassByte(b[pos]);
      assert Stands(b, pos, item.Code());
      var rest := ReadsClass(b, pos + |item.Code()|);
      hide Stands, RegexStop;
      items := [item] + rest;
      assert items[1..] == rest;
      assert ClassCode(items) + [93] == item.Code() + (ClassCode(rest) + [93]);
      StandsBoth(b, pos, item.Code(), ClassCode(rest) + [93]);
    }
  }

  /** What the scan reads up to a closing slash is a body. */
  lemma {:induction false} ReadsBody(b: Bytes, pos: nat) returns (items: seq<Item>)
    requires var end := RegexStop(b, pos, false); end < |b| && b[end] == 47
    ensures ValidBody(items) && Stands(b, pos, BodyCode(items))
    ensures RegexStop(b, pos, false) == pos + |BodyCode(items)|
    decreases |b| - pos
  {
    if b[pos] == 47 {
      items := [];
    } else {
      var item := ReadsItem(b, pos);
      hide RegexStop, Stands, Item.Valid, Item.Code;
      var rest := ReadsBody(b, pos + |item.Code()|);
      items := [item] + rest;
      assert items[1..] == rest;
      StandsBoth(b, pos, item.Code(), BodyCode(rest));
    }
  }

  lemma ReadsItem(b: Bytes, pos: nat) returns (item: Item)
    requires var end := RegexStop(b, pos, false); end < |b| && b[end] == 47
    requires b[pos] != 47
    ensures item.Valid() && Stands(b, pos, item.Code()) && |item.Code()| > 0
    ensures RegexStop(b, pos, false) == RegexStop(b, pos + |item.Code()|, false)
  {
    if b[pos] == 91 {
      var items := ReadsClass(b, pos + 1);
      StandsOne(b, pos, 91);
      hide Stands;
      item := Class(items);
      assert item.Code() == [91] + (ClassCode(items) + [93]);
      StandsBoth(b, pos, [91], ClassCode(items) + [93]);
    } else {
      item := if b[pos] == 92 then Escape(b[pos + 1]) else Plain(b[pos]);
      assert Stands(b, pos, item.Code());
    }
  }

  /** A literal: a slash, a body, and a slash. */
  ghost predicate Literal(b: Bytes, pos: nat, end: nat) {
    exists items :: LiteralOf(b, pos, end, items)
  }

  ghost predicate LiteralOf(b: Bytes, pos: nat, end: nat, items: seq<Item>) {
    && ValidBody(items) && Stands(b, pos + 1, BodyCode(items))
    && end == pos + 2 + |BodyCode(items)| <= |b| && b[pos] == 47 == b[end - 1]
  }

  /** After a slash there is a regular expression that ends with the slash at `end` exactly if it is
      written so: classes and escapes hide slashes, and no line end stands in it but behind a backslash. */
  lemma RegexIsLiteral(b: Bytes, pos: nat, end: nat)
    requires pos < |b| && b[pos] == 47
    ensures RegexEnd(b, pos) == Some(end) <==> Literal(b, pos, end + 1)
  {
    hide RegexEnd, LiteralOf;
    if RegexEnd(b, pos) == Some(end) { RegexReads(b, pos, end); }
    if Literal(b, pos, end + 1) {
      var items :| LiteralOf(b, pos, end + 1, items);
      LiteralEnds(b, pos, end, items);
    }
  }

  lemma RegexReads(b: Bytes, pos: nat, end: nat)
    requires pos < |b| && b[pos] == 47 && RegexEnd(b, pos) == Some(end)
    ensures Literal(b, pos, end + 1)
  {
    var items := ReadsBody(b, pos + 1);
    hide Stands, ValidBody, BodyCode, RegexStop;
    assert LiteralOf(b, pos, end + 1, items);
  }

  lemma LiteralEnds(b: Bytes, pos: nat, end: nat, items: seq<Item>)
    requires LiteralOf(b, pos, end + 1, items)
    ensures RegexEnd(b, pos) == Some(end)
  {
    hide Stands, ValidBody, BodyCode;
    PassesBody(b, pos + 1, items);
  }

  /** A body that meets the end of the line or of the text, perhaps within a class, is no regular
      expression. */
  lemma UnfinishedIsNone(b: Bytes, pos: nat, items: seq<Item>, open: Option<seq<ClassItem>>)
    requires ValidBody(items) && Stands(b, pos + 1, BodyCode(items))
    requires var n := pos + 1 + |BodyCode(items)|;
      && (open.Some? ==> ValidClass(open.value) && n < |b| && b[n] == 91 && Stands(b, n + 1, ClassCode(open.value)))
      && var end := if open.Some? then n + 1 + |ClassCode(open.value)| else n;
      end < |b| ==> b[end] == 10 || b[end] == 13
    ensures RegexEnd(b, pos).None?
  {
    hide Stands, ValidBody, ValidClass, BodyCode, ClassCode;
    PassesBody(b, pos + 1, items);
    if open.Some? { PassesClass(b, pos + 2 + |BodyCode(items)|, open.value); }
  }

  // ---- Strings --------------------------------------------------------------------------------------------

  /** In a string: a byte, or a backslash and any byte. */
  datatype Letter = Letter(b: Byte) | EscapedLetter(b: Byte) {
    predicate Valid(quote: Byte) {
      Letter? ==> b != 92 && b != quote
    }

    function Code(): Bytes {
      if Letter? then [b] else [92, b]
    }
  }

  function TextCode(letters: seq<Letter>): Bytes {
    if letters == [] then [] else letters[0].Code() + TextCode(letters[1..])
  }

  predicate ValidText(letters: seq<Letter>, quote: Byte) {
    forall i :: 0 <= i < |letters| ==> letters[i].Valid(quote)
  }

  ghost predicate TextOf(b: Bytes, pos: nat, end: nat, quote: Byte, letters: seq<Letter>) {
    && ValidText(letters, quote) && Stands(b, pos, TextCode(letters))
    && end == pos + |TextCode(letters)| + 1 <= |b| && b[end - 1] == quote
  }

  /** Letters up to a closing quote, which stands before `end`. */
  ghost predicate Closed(b: Bytes, pos: nat, end: nat, quote: Byte) {
    exists letters :: TextOf(b, pos, end, quote, letters)
  }

  lemma TextNext(letters: seq<Letter>, quote: Byte)
    ensures TextCode([]) == []
    ensures letters != [] ==> TextCode(letters) == letters[0].Code() + TextCode(letters[1..])
    ensures letters != [] && ValidText(letters, quote) ==> letters[0].Valid(quote) && ValidText(letters[1..], quote)
  {
  }

  lemma PassesLetter(b: Bytes, pos: nat, quote: Byte, letter: Letter)
    requires letter.Valid(quote) && Stands(b, pos, letter.Code()) && quote != 92
    ensures QuotedEnd(b, pos, quote) == QuotedEnd(b, pos + |letter.Code()|, quote)
  {
    assert b[pos + 0] == letter.Code()[0];
  }

  lemma {:induction false} PassesText(b: Bytes, pos: nat, quote: Byte, letters: seq<Letter>)
    requires ValidText(letters, quote) && Stands(b, pos, TextCode(letters)) && quote != 92
    ensures QuotedEnd(b, pos, quote) == QuotedEnd(b, pos + |TextCode(letters)|, quote)
    decreases |letters|
  {
    hide *;
    TextNext(letters, quote);
    if letters != [] {
      var letter, rest := letters[0], letters[1..];
      StandsBoth(b, pos, letter.Code(), TextCode(rest));
      PassesLetter(b, pos, quote, letter);
      PassesText(b, pos + |letter.Code()|, quote, rest);
      assert |TextCode(letters)| == |letter.Code()| + |TextCode(rest)|;
    }
  }

  lemma {:induction false} ReadsText(b: Bytes, pos: nat, quote: Byte) returns (letters: seq<Letter>)
    requires pos <= |b| && quote != 92
    ensures QuotedEnd(b, pos, quote) < |b| ==> TextOf(b, pos, QuotedEnd(b, pos, quote), quote, letters)
    decreases |b| - pos
  {
    letters := [];
    if pos + 1 < |b| && b[pos] != quote {
      var letter := if b[pos] == 92 then EscapedLetter(b[pos + 1]) else Letter(b[pos]);
      assert Stands(b, pos, letter.Code());
      PassesLetter(b, pos, quote, letter);
      var rest := ReadsText(b, pos + |letter.Code()|, quote);
      hide QuotedEnd;
      letters := [letter] + rest;
      assert letters[1..] == rest;
      StandsBoth(b, pos, letter.Code(), TextCode(rest));
    }
  }

  /** A string ends behind the quote that closes it, which no backslash hides, or with the text. */
  lemma QuotedIsText(b: Bytes, pos: nat, quote: Byte, end: nat)
    requires pos <= |b| && quote != 92
    ensures Closed(b, pos, end, quote) ==> QuotedEnd(b, pos, quote) == end
    ensures QuotedEnd(b, pos, quote) == |b| || Closed(b, pos, QuotedEnd(b, pos, quote), quote)
  {
    var letters := ReadsText(b, pos, quote);
    if Closed(b, pos, end, quote) {
      var other :| TextOf(b, pos, end, quote, other);
      hide TextCode, Stands, ValidText;
      PassesText(b, pos, quote, other);
    }
  }

  // ---- Elements -------------------------------------------------------------------------------------------

  /** The four forms of a comment. */
  predicate BeginsComment(classes: Classes, b: Bytes, pos: nat)
    requires ValidFrom(b, 0) && ValidFrom(b, pos) && pos < |b|
  {
    LineStartIsCharacter(b, pos);
    || Stands(b, pos, [47, 47]) || Stands(b, pos, [47, 42]) || Stands(b, pos, [60, 33, 45, 45])
    || (Stands(b, pos, [45, 45, 62]) && Blank(classes, b, LineStart(b, pos), pos))
  }

  /** An arrow begins a comment if only blanks precede it on its line, and none if anything visible does. */
  lemma {:induction false} BlankIs(classes: Classes, b: Bytes, from: nat, pos: nat)
    requires ValidFrom(b, from) && from <= pos <= |b| && ValidFrom(b, pos)
    ensures (forall i :: from <= i < pos ==> b[i] in {9, 11, 12, 32}) ==> Blank(classes, b, from, pos)
    ensures (exists i :: from <= i < pos && 33 <= b[i] < 127) ==> !Blank(classes, b, from, pos)
    decreases |b| - from
  {
    if from < pos {
      var n := CharLen(b, from);
      InsideOrAfter(b, from, pos);
      BlankIs(classes, b, from + n, pos);
    }
  }

  /** No character reaches past where another begins. */
  lemma InsideOrAfter(b: Bytes, from: nat, pos: nat)
    requires ValidFrom(b, from) && from < pos <= |b| && ValidFrom(b, pos)
    ensures 0 < CharLen(b, from) <= pos - from && ValidFrom(b, from + CharLen(b, from))
    ensures CharLen(b, from) > 1 ==> forall i :: from <= i < from + CharLen(b, from) ==> b[i] >= 128
  {
    if pos < |b| { assert CharLen(b, pos) > 0; }
  }

  lemma StartsIsStands(b: Bytes, pos: nat)
    ensures StartsWith(b, pos, "//") <==> Stands(b, pos, [47, 47])
    ensures StartsWith(b, pos, "/*") <==> Stands(b, pos, [47, 42])
    ensures StartsWith(b, pos, "<!--") <==> Stands(b, pos, [60, 33, 45, 45])
    ensures StartsWith(b, pos, "-->") <==> Stands(b, pos, [45, 45, 62])
  {
    StartsAt(b, pos, "//", [47, 47]);
    StartsAt(b, pos, "/*", [47, 42]);
    StartsAt(b, pos, "<!--", [60, 33, 45, 45]);
    StartsAt(b, pos, "-->", [45, 45, 62]);
  }

  lemma StartsAt(b: Bytes, pos: nat, s: string, code: Bytes)
    requires |s| == |code| && forall i :: 0 <= i < |s| ==> s[i] as int == code[i] as int
    ensures StartsWith(b, pos, s) <==> Stands(b, pos, code)
  {
    if pos + |s| <= |b| {
      var at := b[pos..pos + |s|];
      assert forall i :: 0 <= i < |s| ==> at[i] == b[pos + i];
      if Stands(b, pos, code) { assert forall i :: 0 <= i < |s| ==> at[i] as int == s[i] as int; }
      if StartsWith(b, pos, s) {
        forall i | 0 <= i < |code|
          ensures b[pos + i] == code[i]
        {
          assert at[i] as int == s[i] as int;
        }
      }
    }
  }

  /** Which element begins here: a string at a quote; else a comment at one of its forms; else a regular
      expression at a slash where one may begin and one is written; else source. */
  lemma ElementKinds(classes: Classes, b: Bytes, pos: nat, c: Context)
    requires ValidFrom(b, 0) && ValidFrom(b, pos) && pos < |b|
    ensures var span := Element(classes, b, pos, c).0;
      && (span.kind == Quoted <==> b[pos] in {34, 39, 96})
      && (span.kind == Comment <==> b[pos] !in {34, 39, 96} && BeginsComment(classes, b, pos))
      && (span.kind == Regex <==>
            !BeginsComment(classes, b, pos) && b[pos] == 47 && c.allowed && BeginsLiteral(b, pos))
      && (span.kind == Regex ==> Literal(b, pos, span.end))
  {
    hide *;
    KindIs(classes, b, pos, c);
    CommentBegins(classes, b, pos);
    LiteralBegins(b, pos);
  }

  lemma KindIs(classes: Classes, b: Bytes, pos: nat, c: Context)
    requires ValidFrom(b, 0) && ValidFrom(b, pos) && pos < |b|
    ensures var span, comment, regex := Element(classes, b, pos, c).0, CommentEnd(classes, b, pos), RegexEnd(b, pos);
      && (span.kind == Quoted <==> b[pos] in {34, 39, 96})
      && (span.kind == Comment <==> b[pos] !in {34, 39, 96} && comment.Some?)
      && (span.kind == Regex <==> b[pos] == 47 && comment.None? && c.allowed && regex.Some?)
      && (span.kind == Regex ==> span.end == regex.value + 1)
  {
    hide ValidFrom, Token, RegexEnd, CommentEnd, QuotedEnd;
  }

  lemma CommentBegins(classes: Classes, b: Bytes, pos: nat)
    requires ValidFrom(b, 0) && ValidFrom(b, pos) && pos < |b|
    ensures CommentEnd(classes, b, pos).Some? <==> BeginsComment(classes, b, pos)
  {
    StartsIsStands(b, pos);
    hide ValidFrom, StartsWith, Stands, Blank, LineStart, BlockEnd, LineEnd;
  }

  ghost predicate BeginsLiteral(b: Bytes, pos: nat) {
    exists end: nat :: Literal(b, pos, end)
  }

  lemma LiteralIsLong(b: Bytes, pos: nat, end: nat)
    requires Literal(b, pos, end)
    ensures end >= pos + 2
  {
  }

  lemma LiteralBegins(b: Bytes, pos: nat)
    ensures pos < |b| && b[pos] == 47 ==>
      && (RegexEnd(b, pos).Some? <==> BeginsLiteral(b, pos))
      && (RegexEnd(b, pos).Some? ==> Literal(b, pos, RegexEnd(b, pos).value + 1))
  {
    hide RegexEnd, Literal;
    if pos < |b| && b[pos] == 47 {
      if end: nat :| Literal(b, pos, end) {
        LiteralIsLong(b, pos, end);
        RegexIsLiteral(b, pos, end - 1);
      }
      var stop := RegexEnd(b, pos);
      if stop.Some? { RegexIsLiteral(b, pos, stop.value); }
    }
  }

  /** An arrow on a line that begins at `start`. */
  lemma ArrowOnLine(classes: Classes, b: Bytes, start: nat, pos: nat)
    requires ValidFrom(b, 0) && ValidFrom(b, pos) && start <= pos < |b| && Stands(b, pos, [45, 45, 62])
    requires start > 0 ==> b[start - 1] == 10 || b[start - 1] == 13
    requires forall i :: start <= i < pos ==> b[i] != 10 && b[i] != 13
    ensures (forall i :: start <= i < pos ==> b[i] in {9, 11, 12, 32}) ==> BeginsComment(classes, b, pos)
    ensures (exists i :: start <= i < pos && 33 <= b[i] < 127) ==> !BeginsComment(classes, b, pos)
  {
    LineStartIsCharacter(b, pos);
    assert LineStart(b, pos) == start;
    BlankIs(classes, b, start, pos);
    FirstBytes(b, pos);
  }

  lemma StandsFirst(b: Bytes, pos: nat, code: Bytes)
    ensures Stands(b, pos, code) && |code| > 0 ==> pos < |b| && b[pos] == code[0]
    ensures Stands(b, pos, code) && |code| > 1 ==> pos + 1 < |b| && b[pos + 1] == code[1]
  {
    if Stands(b, pos, code) {
      if |code| > 0 { assert b[pos + 0] == code[0]; }
      if |code| > 1 { assert b[pos + 1] == code[1]; }
    }
  }

  lemma FirstBytes(b: Bytes, pos: nat)
    ensures Stands(b, pos, [47, 47]) || Stands(b, pos, [47, 42]) ==> pos + 1 < |b| && b[pos] == 47
    ensures Stands(b, pos, [47, 47]) ==> b[pos + 1] == 47
    ensures Stands(b, pos, [47, 42]) ==> b[pos + 1] == 42
    ensures Stands(b, pos, [60, 33, 45, 45]) ==> pos < |b| && b[pos] == 60
    ensures Stands(b, pos, [45, 45, 62]) ==> pos < |b| && b[pos] == 45
  {
    StandsFirst(b, pos, [47, 47]);
    StandsFirst(b, pos, [47, 42]);
    StandsFirst(b, pos, [60, 33, 45, 45]);
    StandsFirst(b, pos, [45, 45, 62]);
    hide Stands;
  }

  /** A block comment ends behind the first mark that closes it, any other at the first line feed; and
      either with the text. */
  lemma CommentEnds(classes: Classes, b: Bytes, pos: nat, c: Context)
    requires ValidFrom(b, 0) && ValidFrom(b, pos) && pos < |b| && Element(classes, b, pos, c).0.kind == Comment
    ensures EndsComment(b, pos, Element(classes, b, pos, c).0.end)
  {
    CommentElement(classes, b, pos, c);
    hide Element, CommentEnd;
    CommentEndIs(classes, b, pos);
  }

  ghost predicate EndsComment(b: Bytes, pos: nat, end: nat) {
    && pos < end <= |b|
    && if Stands(b, pos, [47, 42]) then
         && (forall i :: pos + 2 <= i < end - 2 ==> !(b[i] == 42 && b[i + 1] == 47))
         && (|| (pos + 4 <= end && b[end - 2] == 42 && b[end - 1] == 47)
             || (end == |b| && forall i :: pos + 2 <= i < |b| - 1 ==> !(b[i] == 42 && b[i + 1] == 47)))
       else (end < |b| ==> b[end] == 10) && forall i :: pos <= i < end ==> b[i] != 10
  }

  lemma CommentElement(classes: Classes, b: Bytes, pos: nat, c: Context)
    requires ValidFrom(b, 0) && ValidFrom(b, pos) && pos < |b| && Element(classes, b, pos, c).0.kind == Comment
    ensures CommentEnd(classes, b, pos) == Some(Element(classes, b, pos, c).0.end)
  {
    hide ValidFrom, CommentEnd, Token, RegexEnd, QuotedEnd;
  }

  lemma CommentEndIs(classes: Classes, b: Bytes, pos: nat)
    requires ValidFrom(b, 0) && ValidFrom(b, pos) && pos < |b| && CommentEnd(classes, b, pos).Some?
    ensures EndsComment(b, pos, CommentEnd(classes, b, pos).value)
  {
    StartsIsStands(b, pos);
    FirstBytes(b, pos);
    hide ValidFrom, StartsWith, Stands, Blank, LineStart, LineEnd, BlockEnd, EndsComment;
    if Stands(b, pos, [47, 42]) { BlockCommentEnds(b, pos); } else { LineCommentEnds(b, pos); }
  }

  lemma BlockCommentEnds(b: Bytes, pos: nat)
    requires Stands(b, pos, [47, 42]) && pos + 2 <= |b|
    ensures EndsComment(b, pos, BlockEnd(b, pos + 2))
  {
    BlockEnds(b, pos + 2);
    hide Stands;
    var end := BlockEnd(b, pos + 2);
    assert pos + 2 <= end <= |b| && forall i :: pos + 2 <= i < end - 2 ==> !(b[i] == 42 && b[i + 1] == 47);
    hide BlockEnd;
  }

  lemma LineCommentEnds(b: Bytes, pos: nat)
    requires pos < |b| && b[pos] != 10 && !Stands(b, pos, [47, 42])
    ensures EndsComment(b, pos, LineEnd(b, pos + 1))
  {
    hide Stands;
  }

  lemma {:induction false} BlockEnds(b: Bytes, pos: nat)
    requires pos <= |b|
    ensures var end := BlockEnd(b, pos);
      || (pos + 2 <= end && b[end - 2] == 42 && b[end - 1] == 47)
      || (end == |b| && forall i :: pos <= i < |b| - 1 ==> !(b[i] == 42 && b[i + 1] == 47))
    decreases |b| - pos
  {
    if pos + 2 <= |b| && !(b[pos] == 42 && b[pos + 1] == 47) { BlockEnds(b, pos + 1); }
  }

  /** A string ends behind its closing quote, or with the text if it has none. */
  lemma StringElement(classes: Classes, b: Bytes, pos: nat, c: Context, end: nat)
    requires ValidFrom(b, 0) && ValidFrom(b, pos) && pos < |b| && (b[pos] == 34 || b[pos] == 39 || b[pos] == 96)
    ensures var span := Element(classes, b, pos, c).0;
      && (Closed(b, pos + 1, end, b[pos]) ==> span.end == end)
      && (span.end == |b| || Closed(b, pos + 1, span.end, b[pos]))
  {
    QuotedIsText(b, pos + 1, b[pos], end);
    hide ValidFrom, CommentEnd, RegexEnd, Token, QuotedEnd, Closed;
  }

  // ---- Where a regular expression may begin ----------------------------------------------------------------

  function Ascii(s: string): Bytes {
    seq(|s|, i requires 0 <= i < |s| => s[i] as int % 128)
  }

  /** Words an expression follows, and words whose parentheses a statement follows. */
  ghost predicate LeadsIn(word: Bytes) {
    word in {Ascii("return"), Ascii("throw"), Ascii("case"), Ascii("yield"), Ascii("typeof"), Ascii("void"),
             Ascii("delete")}
  }

  ghost predicate Controls(word: Bytes) {
    word in {Ascii("if"), Ascii("while"), Ascii("for"), Ascii("with"), Ascii("switch"), Ascii("catch")}
  }

  predicate SmallAscii(s: string) {
    forall i :: 0 <= i < |s| ==> s[i] as int < 128
  }

  lemma SpellsIsAscii(word: Bytes, s: string)
    requires SmallAscii(s)
    ensures Spells(word, s) <==> word == Ascii(s)
  {
  }

  lemma WordKinds(word: Bytes)
    ensures BeforeExpression(word) <==> LeadsIn(word)
    ensures ControlWord(word) <==> Controls(word)
  {
    hide Spells, Ascii;
    SpellsIsAscii(word, "return");
    SpellsIsAscii(word, "throw");
    SpellsIsAscii(word, "case");
    SpellsIsAscii(word, "yield");
    SpellsIsAscii(word, "typeof");
    SpellsIsAscii(word, "void");
    SpellsIsAscii(word, "delete");
    SpellsIsAscii(word, "if");
    SpellsIsAscii(word, "while");
    SpellsIsAscii(word, "for");
    SpellsIsAscii(word, "with");
    SpellsIsAscii(word, "switch");
    SpellsIsAscii(word, "catch");
  }

  /** Beyond ASCII the classes decide what is a blank and what belongs to a word. */
  lemma CharactersAre(classes: Classes, c: nat)
    ensures IsSpace(classes, c) <==> if c < 128 then c in {9, 10, 11, 12, 13, 32} else classes.whitespace(c)
    ensures IsWord(classes, c) <==> if c < 128 then WordByte(c) else classes.alphanumeric(c)
  {
  }

  /** Letters, digits, underscores and dollar signs. */
  predicate WordByte(b: Byte) {
    48 <= b <= 57 || 65 <= b <= 90 || 97 <= b <= 122 || b == 95 || b == 36
  }

  /** After an operator or an opening bracket, but the closing ones and the dot, an expression may begin. */
  lemma OperatorsAre(x: Byte)
    ensures Operator(x) <==> x in {61, 91, 123, 44, 58, 59, 33, 63, 38, 124, 43, 45, 42, 37, 126, 94, 60, 62}
  {
    assert OPERATORS == ['=', '[', '{', ',', ':', ';', '!', '?', '&', '|', '+', '-', '*', '%', '~', '^', '<', '>'];
    assert OPERATORS[0] == '=' && OPERATORS[1] == '[' && OPERATORS[2] == '{' && OPERATORS[3] == ',';
    assert OPERATORS[4] == ':' && OPERATORS[5] == ';' && OPERATORS[6] == '!' && OPERATORS[7] == '?';
    assert OPERATORS[8] == '&' && OPERATORS[9] == '|' && OPERATORS[10] == '+' && OPERATORS[11] == '-';
    assert OPERATORS[12] == '*' && OPERATORS[13] == '%' && OPERATORS[14] == '~' && OPERATORS[15] == '^';
    assert OPERATORS[16] == '<' && OPERATORS[17] == '>';
  }

  /** What an element leaves behind. Strings and regular expressions are values; comments and blanks change
      nothing; words and signs decide by what they are; and a parenthesis remembers whether the word before
      it was a control word. */
  lemma ContextAfter(classes: Classes, b: Bytes, pos: nat, c: Context)
    requires ValidFrom(b, 0) && ValidFrom(b, pos) && pos < |b|
    ensures var (span, after) := Element(classes, b, pos, c);
      && (span.kind == Quoted || span.kind == Regex ==> after == Context(false, false, c.parentheses))
      && (span.kind == Comment ==> after == c)
      && (span.kind == Source && b[pos] in {9, 10, 11, 12, 13, 32} ==> after == c && span.end == pos + 1)
      && (span.kind == Source && b[pos] == 40 ==>
            after == Context(true, false, c.parentheses + [c.control]) && span.end == pos + 1)
      && (span.kind == Source && b[pos] == 41 ==>
            var n := |c.parentheses|;
            && span.end == pos + 1
            && after == if n == 0 then Context(false, false, [])
                        else Context(c.parentheses[n - 1], false, c.parentheses[..n - 1]))
      && (span.kind == Source && b[pos] < 128 && b[pos] !in {9, 10, 11, 12, 13, 32, 40, 41} && !WordByte(b[pos]) ==>
            && span.end == pos + 1
            && after == Context(b[pos] in {61, 91, 123, 44, 58, 59, 33, 63, 38, 124, 43, 45, 42, 37, 126, 94, 60, 62},
                                false, c.parentheses))
      && (span.kind == Source && WordByte(b[pos]) ==>
            && after == Context(LeadsIn(b[pos..span.end]), Controls(b[pos..span.end]), c.parentheses)
            && (span.end < |b| ==> !WordByte(b[span.end])))
  {
    OperatorsAre(b[pos]);
    KindOf(classes, b, pos, c);
    if b[pos] < 128 { TokenIs(classes, b, pos, c); }
    hide ValidFrom, Token, Element, Operator, LeadsIn, Controls;
  }

  lemma KindOf(classes: Classes, b: Bytes, pos: nat, c: Context)
    requires ValidFrom(b, 0) && ValidFrom(b, pos) && pos < |b|
    ensures var (span, after) := Element(classes, b, pos, c);
      && (span.kind == Quoted || span.kind == Regex ==> after == Valued(c)) && (span.kind == Comment ==> after == c)
      && (span.kind == Source ==> (span.end, after) == Token(classes, c, b, pos))
  {
    hide ValidFrom, CommentEnd, Token, RegexEnd, QuotedEnd, Valued;
  }

  /** An ASCII token. */
  lemma TokenIs(classes: Classes, b: Bytes, pos: nat, c: Context)
    requires ValidFrom(b, 0) && ValidFrom(b, pos) && pos < |b| && b[pos] < 128
    ensures var (end, after) := Token(classes, c, b, pos); var x := b[pos];
      && (x in {9, 10, 11, 12, 13, 32} ==> end == pos + 1 && after == c)
      && (WordByte(x) ==>
            && after == Context(LeadsIn(b[pos..end]), Controls(b[pos..end]), c.parentheses)
            && (end < |b| ==> !WordByte(b[end])))
      && (x !in {9, 10, 11, 12, 13, 32} && !WordByte(x) ==> end == pos + 1 && after == AfterSign(c, x))
  {
    if WordByte(b[pos]) {
      var end := WordEnd(classes, b, pos + 1);
      WordKinds(b[pos..end]);
      WordStops(classes, b, pos + 1);
    }
    hide LeadsIn, Controls, AfterSign, WordEnd;
  }

  lemma {:induction false} WordStops(classes: Classes, b: Bytes, pos: nat)
    requires ValidFrom(b, pos)
    ensures var end := WordEnd(classes, b, pos); end < |b| ==> !WordByte(b[end])
    decreases |b| - pos
  {
    if pos < |b| && IsWord(classes, CodePoint(b, pos)) { WordStops(classes, b, pos + CharLen(b, pos)); }
  }

  // ---- Parentheses ----------------------------------------------------------------------------------------

  /** Where the lexer is after `n` elements, and the context there. */
  function At(classes: Classes, b: Bytes, n: nat): (r: (nat, Context))
    requires ValidFrom(b, 0)
    ensures r.0 <= |b| && ValidFrom(b, r.0)
  {
    if n == 0 then (0, START)
    else
      var (pos, c) := At(classes, b, n - 1);
      if pos == |b| then (pos, c) else var (span, after) := Element(classes, b, pos, c); (span.end, after)
  }

  function Depth(classes: Classes, b: Bytes, n: nat): nat
    requires ValidFrom(b, 0)
  {
    |At(classes, b, n).1.parentheses|
  }

  /** Element number `n` begins with this byte. */
  predicate Begins(classes: Classes, b: Bytes, n: nat, x: Byte)
    requires ValidFrom(b, 0)
  {
    At(classes, b, n).0 < |b| && b[At(classes, b, n).0] == x
  }

  /** Only parentheses change how many are open; each closing one takes the last that is. */
  lemma OneElement(classes: Classes, b: Bytes, n: nat)
    requires ValidFrom(b, 0)
    ensures var before, after := At(classes, b, n).1, At(classes, b, n + 1).1; var k := |before.parentheses|;
      && (Begins(classes, b, n, 40) ==> after == Context(true, false, before.parentheses + [before.control]))
      && (Begins(classes, b, n, 41) && k > 0 ==>
            after == Context(before.parentheses[k - 1], false, before.parentheses[..k - 1]))
      && (Begins(classes, b, n, 41) && k == 0 ==> after == Context(false, false, []))
      && (!Begins(classes, b, n, 40) && !Begins(classes, b, n, 41) ==> after.parentheses == before.parentheses)
  {
    AtNext(classes, b, n);
    var (pos, c) := At(classes, b, n);
    hide ValidFrom, Element, At;
    if pos < |b| { ParenthesisStep(classes, b, pos, c); }
  }

  lemma ParenthesisStep(classes: Classes, b: Bytes, pos: nat, c: Context)
    requires ValidFrom(b, 0) && ValidFrom(b, pos) && pos < |b|
    ensures var after, k := Element(classes, b, pos, c).1, |c.parentheses|;
      && (b[pos] == 40 ==> after == Context(true, false, c.parentheses + [c.control]))
      && (b[pos] == 41 && k > 0 ==> after == Context(c.parentheses[k - 1], false, c.parentheses[..k - 1]))
      && (b[pos] == 41 && k == 0 ==> after == Context(false, false, []))
      && (b[pos] !in {40, 41} ==> after.parentheses == c.parentheses)
  {
    ElementKinds(classes, b, pos, c);
    hide *;
    if b[pos] in {40, 41} {
      ParenthesesAreSource(classes, b, pos);
      ContextAfter(classes, b, pos, c);
    } else {
      OtherSigns(classes, b, pos, c);
    }
  }

  lemma AtNext(classes: Classes, b: Bytes, n: nat)
    requires ValidFrom(b, 0)
    ensures var (pos, c) := At(classes, b, n);
      At(classes, b, n + 1) ==
        if pos == |b| then (pos, c) else (Element(classes, b, pos, c).0.end, Element(classes, b, pos, c).1)
  {
    hide ValidFrom, Element;
  }

  lemma ParenthesesAreSource(classes: Classes, b: Bytes, pos: nat)
    requires ValidFrom(b, 0) && ValidFrom(b, pos) && pos < |b| && b[pos] in {40, 41}
    ensures !BeginsComment(classes, b, pos)
  {
    FirstBytes(b, pos);
    hide ValidFrom, Stands, Blank, LineStart;
  }

  lemma OtherSigns(classes: Classes, b: Bytes, pos: nat, c: Context)
    requires ValidFrom(b, 0) && ValidFrom(b, pos) && pos < |b| && b[pos] !in {40, 41}
    ensures Element(classes, b, pos, c).1.parentheses == c.parentheses
  {
    KindOf(classes, b, pos, c);
    TokenKeeps(classes, b, pos, c);
    hide ValidFrom, Element, Token;
  }

  lemma TokenKeeps(classes: Classes, b: Bytes, pos: nat, c: Context)
    requires ValidFrom(b, pos) && pos < |b| && b[pos] !in {40, 41}
    ensures Token(classes, c, b, pos).1.parentheses == c.parentheses
  {
    PointIsByte(b, pos);
    hide WordEnd, BeforeExpression, ControlWord, IsSpace, IsWord, Operator, CodePoint, CharLen;
  }

  lemma PointIsByte(b: Bytes, pos: nat)
    requires pos < |b| && CharLen(b, pos) > 0
    ensures CodePoint(b, pos) in {40, 41} ==> b[pos] == CodePoint(b, pos)
  {
  }

  /** From behind element `i` up to element `j` more parentheses are open than before `i`. */
  ghost predicate Within(classes: Classes, b: Bytes, i: nat, j: nat)
    requires ValidFrom(b, 0)
  {
    forall k: nat :: i < k <= j ==> Depth(classes, b, k) > Depth(classes, b, i)
  }

  /** While more parentheses are open than before it, an open one stays as it is. */
  lemma {:induction false} StaysOpen(classes: Classes, b: Bytes, i: nat, j: nat)
    requires ValidFrom(b, 0) && i < j && Begins(classes, b, i, 40)
    requires Within(classes, b, i, j)
    ensures Depth(classes, b, j) > Depth(classes, b, i)
    ensures At(classes, b, j).1.parentheses[..Depth(classes, b, i) + 1]
         == At(classes, b, i).1.parentheses + [At(classes, b, i).1.control]
  {
    hide ValidFrom, At, Begins;
    assert Depth(classes, b, j) > Depth(classes, b, i);
    if j == i + 1 {
      OneElement(classes, b, i);
    } else {
      assert Within(classes, b, i, j - 1);
      StaysOpen(classes, b, i, j - 1);
      OneElement(classes, b, j - 1);
      var d := Depth(classes, b, i);
      var before, after := At(classes, b, j - 1).1.parentheses, At(classes, b, j).1.parentheses;
      assert Depth(classes, b, j - 1) > d && |before| > d && |after| > d;
      assert before[..d + 1] == after[..d + 1];
    }
  }

  /** What follows the parenthesis that closes another is an expression exactly if the other one stood
      behind a control word. */
  lemma ClosedParenthesis(classes: Classes, b: Bytes, i: nat, j: nat)
    requires ValidFrom(b, 0) && i < j && Begins(classes, b, i, 40) && Begins(classes, b, j, 41)
    requires Within(classes, b, i, j)
    requires Depth(classes, b, j + 1) == Depth(classes, b, i)
    ensures At(classes, b, j + 1).1.allowed == At(classes, b, i).1.control
  {
    hide ValidFrom, At, Begins;
    StaysOpen(classes, b, i, j);
    OneElement(classes, b, j);
    var d := Depth(classes, b, i);
    assert Depth(classes, b, j) == d + 1;
    assert At(classes, b, j).1.parentheses[..d + 1][d] == At(classes, b, i).1.control;
  }
}
