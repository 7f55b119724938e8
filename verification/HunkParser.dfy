/** Reading one hunk of a unified diff, and printing it back. */
module HunkParser {
  import opened Results
  import opened Hunks

  const MARKER := "\\ No newline at end of file"
  const MAX_SAFE_INTEGER := 0x1F_FFFF_FFFF_FFFF

  // ----- numbers and ranges

  predicate IsDigit(c: char) {
    '0' <= c <= '9'
  }

  function DigitChar(d: nat): char
    requires d < 10
  {
    "0123456789"[d]
  }

  function DigitValue(c: char): nat
    requires IsDigit(c)
  {
    c as int - '0' as int
  }

  /** Decimal digits without leading zeros. */
  function Decimal(n: nat): string {
    if n < 10 then [DigitChar(n)] else Decimal(n / 10) + [DigitChar(n % 10)]
  }

  predicate AllDigits(s: string) {
    forall i :: 0 <= i < |s| ==> IsDigit(s[i])
  }

  function DecimalValue(s: string): nat
    requires AllDigits(s)
  {
    if s == "" then 0 else 10 * DecimalValue(s[..|s| - 1]) + DigitValue(s[|s| - 1])
  }

  /** Length of the run of digits at the front. */
  function DigitRun(s: string): (n: nat)
    ensures n <= |s| && AllDigits(s[..n])
    ensures n < |s| ==> !IsDigit(s[n])
  {
    if s == "" || !IsDigit(s[0]) then 0 else 1 + DigitRun(s[1..])
  }

  datatype Range = Range(start: nat, count: nat)

  predicate StartsWith(s: string, prefix: string) {
    |prefix| <= |s| && s[..|prefix|] == prefix
  }

  /** digits, optionally followed by a comma and digits; the count defaults to one. */
  function ReadRange(s: string): Option<(Range, string)> {
    var n := DigitRun(s);
    if n == 0 then None
    else
      var start, rest := DecimalValue(s[..n]), s[n..];
      var m := if rest != "" && rest[0] == ',' then DigitRun(rest[1..]) else 0;
      if m == 0 then Some((Range(start, 1), rest))
      else Some((Range(start, DecimalValue(rest[1..][..m])), rest[1 + m..]))
  }

  /** A count of one may be left out. */
  function PrintRange(range: Range, short: bool): string {
    Decimal(range.start) + if short && range.count == 1 then "" else "," + Decimal(range.count)
  }

  predicate SafeRange(range: Range) {
    && range.start <= MAX_SAFE_INTEGER && range.count <= MAX_SAFE_INTEGER
    && (range.count > 0 ==> range.start > 0)
  }

  predicate LineTerminator(c: char) {
    c == '\n' || c == '\r' || c == '\U{2028}' || c == '\U{2029}'
  }

  /** What may follow the closing @@: nothing, or a space and a section heading on the same line. */
  predicate HeaderEnd(s: string) {
    s == "" || (s[0] == ' ' && forall i :: 0 < i < |s| ==> !LineTerminator(s[i]))
  }

  /** @@ -range +range @@ */
  function ReadHeader(line: string): Result<(Range, Range), PatchError> {
    if !StartsWith(line, "@@ -") then Err(Invalid)
    else match ReadRange(line[4..])
      case None => Err(Invalid)
      case Some((oldRange, afterOld)) =>
        if !StartsWith(afterOld, " +") then Err(Invalid)
        else match ReadRange(afterOld[2..])
          case None => Err(Invalid)
          case Some((newRange, afterNew)) =>
            if StartsWith(afterNew, " @@") && HeaderEnd(afterNew[3..]) && SafeRange(oldRange) && SafeRange(newRange)
              then Ok((oldRange, newRange))
            else Err(Invalid)
  }

  function PrintHeader(h: Hunk, short: bool): string {
    "@@ -" + PrintRange(Range(h.oldStart, h.oldCount), short) + " +" + PrintRange(Range(h.newStart, h.newCount), short)
    + " @@"
  }

  lemma {:induction false} DecimalReadsBack(n: nat)
    ensures AllDigits(Decimal(n)) && Decimal(n) != "" && DecimalValue(Decimal(n)) == n
  {
    if n >= 10 {
      DecimalReadsBack(n / 10);
      var s := Decimal(n);
      assert s[..|s| - 1] == Decimal(n / 10);
    }
  }

  lemma {:induction false} DigitRunOf(digits: string, rest: string)
    requires AllDigits(digits) && (rest != "" ==> !IsDigit(rest[0]))
    ensures DigitRun(digits + rest) == |digits|
  {
    if digits == "" {
      assert digits + rest == rest;
    } else {
      DigitRunOf(digits[1..], rest);
      assert (digits + rest)[1..] == digits[1..] + rest;
    }
  }

  lemma RangeReadsBack(range: Range, short: bool, rest: string)
    requires rest != "" ==> rest[0] != ',' && !IsDigit(rest[0])
    ensures ReadRange(PrintRange(range, short) + rest) == Some((range, rest))
  {
    var text := RangeText(Decimal(range.start), if short && range.count == 1 then "" else Decimal(range.count));
    DecimalReadsBack(range.start);
    DecimalReadsBack(range.count);
    NumeralValue(text.start, range.start);
    NumeralValue(Decimal(range.count), range.count);
    hide ReadRange, DecimalValue, Decimal, AllDigits, Numeral;
    SpelledRangeRead(text, range, rest);
  }

  /** Both printed forms of a header are read back, counts left out or not. */
  lemma HeaderReadsBack(h: Hunk, short: bool)
    requires SafeRange(Range(h.oldStart, h.oldCount)) && SafeRange(Range(h.newStart, h.newCount))
    ensures ReadHeader(PrintHeader(h, short)) == Ok((Range(h.oldStart, h.oldCount), Range(h.newStart, h.newCount)))
  {
    hide PrintRange, ReadRange;
    var oldRange, newRange := Range(h.oldStart, h.oldCount), Range(h.newStart, h.newCount);
    var line := PrintHeader(h, short);
    var oldText, newText := PrintRange(oldRange, short), PrintRange(newRange, short);
    var afterOld := " +" + (newText + " @@");
    assert line == "@@ -" + (oldText + afterOld);
    assert line[..4] == "@@ -" && line[4..] == oldText + afterOld;
    RangeReadsBack(oldRange, short, afterOld);
    assert afterOld[..2] == " +" && afterOld[2..] == newText + " @@";
    RangeReadsBack(newRange, short, " @@");
    assert " @@"[..3] == " @@" && " @@"[3..] == "";
  }

  // ----- which lines are hunk headers

  function Digit(c: char): Option<nat> {
    match c
    case '0' => Some(0)
    case '1' => Some(1)
    case '2' => Some(2)
    case '3' => Some(3)
    case '4' => Some(4)
    case '5' => Some(5)
    case '6' => Some(6)
    case '7' => Some(7)
    case '8' => Some(8)
    case '9' => Some(9)
    case _ => None
  }

  /** A nonempty run of digits, and the number it stands for. */
  predicate Numeral(s: string, n: nat) {
    s != "" && Digit(s[|s| - 1]).Some?
    && var d := Digit(s[|s| - 1]).value;
       if |s| == 1 then n == d else n >= d && (n - d) % 10 == 0 && Numeral(s[..|s| - 1], (n - d) / 10)
  }

  /** A range as it is written: the digits of its start and of its count, the latter empty when left out. */
  datatype RangeText = RangeText(start: string, count: string)

  function Written(text: RangeText): string {
    text.start + if text.count == "" then "" else "," + text.count
  }

  predicate Spells(text: RangeText, range: Range) {
    Numeral(text.start, range.start) && if text.count == "" then range.count == 1 else Numeral(text.count, range.count)
  }

  /** Behind the last @@ there is nothing, or a blank and the rest of the line. */
  predicate Heading(s: string) {
    s == "" || (s[0] == ' ' && forall i :: 1 <= i < |s| ==> s[i] !in "\n\r\U{2028}\U{2029}")
  }

  /** A safe integer of the host language, and no lines before the first. */
  predicate Bounded(range: Range) {
    range.start <= 9007199254740991 && range.count <= 9007199254740991 && (range.start == 0 ==> range.count == 0)
  }

  predicate SpellsHeader(line: string, a: RangeText, b: RangeText, heading: string) {
    Heading(heading) && line == "@@ -" + (Written(a) + (" +" + (Written(b) + (" @@" + heading))))
  }

  /** The line spells these two ranges, both within their bounds. */
  ghost predicate HeaderOf(line: string, oldRange: Range, newRange: Range) {
    && Bounded(oldRange) && Bounded(newRange)
    && exists a, b, heading :: Spells(a, oldRange) && Spells(b, newRange) && SpellsHeader(line, a, b, heading)
  }

  lemma {:induction false} NumeralValue(s: string, n: nat)
    ensures Numeral(s, n) <==> s != "" && AllDigits(s) && DecimalValue(s) == n
  {
    if s != "" {
      var front, last := s[..|s| - 1], s[|s| - 1];
      assert IsDigit(last) <==> Digit(last).Some?;
      assert AllDigits(s) <==> AllDigits(front) && IsDigit(last) by {
        if AllDigits(front) && IsDigit(last) {
          forall i | 0 <= i < |s| ensures IsDigit(s[i]) { if i < |s| - 1 { assert s[i] == front[i]; } }
        }
      }
      if Digit(last).Some? {
        var d := Digit(last).value;
        assert d == DigitValue(last);
        if |s| > 1 {
          if n >= d && (n - d) % 10 == 0 { NumeralValue(front, (n - d) / 10); }
          if AllDigits(s) { NumeralValue(front, DecimalValue(front)); }
        } else {
          assert front == "";
        }
      }
    }
  }

  /** Digits in front are read as far as they go. */
  lemma DigitsRead(digits: string, n: nat, rest: string)
    requires Numeral(digits, n) && (rest != "" ==> !IsDigit(rest[0]))
    ensures digits != "" && AllDigits(digits) && DecimalValue(digits) == n && DigitRun(digits + rest) == |digits|
    ensures (digits + rest)[..|digits|] == digits && (digits + rest)[|digits|..] == rest
  {
    NumeralValue(digits, n);
    DigitRunOf(digits, rest);
  }

  lemma StartRead(start: string, n: nat, rest: string)
    requires Numeral(start, n) && (rest != "" ==> rest[0] != ',' && !IsDigit(rest[0]))
    ensures ReadRange(start + rest) == Some((Range(n, 1), rest))
  {
    DigitsRead(start, n, rest);
    hide DigitRun, DecimalValue, AllDigits, IsDigit, Numeral;
  }

  lemma StartAndCountRead(start: string, n: nat, count: string, m: nat, rest: string)
    requires Numeral(start, n) && Numeral(count, m) && (rest != "" ==> !IsDigit(rest[0]))
    ensures ReadRange(start + ("," + (count + rest))) == Some((Range(n, m), rest))
  {
    var tail := "," + (count + rest);
    assert !IsDigit(tail[0]);
    hide DigitRun, DecimalValue, AllDigits, IsDigit, Numeral;
    DigitsRead(start, n, tail);
    DigitsRead(count, m, rest);
    assert tail[1..] == count + rest;
    assert tail[1 + |count|..] == (count + rest)[|count|..];
  }

  lemma WrittenInFront(text: RangeText, rest: string)
    ensures Written(text) + rest == text.start + if text.count == "" then rest else "," + (text.count + rest)
  {
  }

  /** A range is read from every spelling of it, leading zeros included. */
  lemma SpelledRangeRead(text: RangeText, range: Range, rest: string)
    requires Spells(text, range)
    requires rest != "" ==> rest[0] != ',' && !IsDigit(rest[0])
    ensures ReadRange(Written(text) + rest) == Some((range, rest))
  {
    hide ReadRange, Numeral, IsDigit, Written;
    WrittenInFront(text, rest);
    if text.count == "" {
      StartRead(text.start, range.start, rest);
    } else {
      StartAndCountRead(text.start, range.start, text.count, range.count, rest);
    }
  }

  lemma RunSpelled(s: string)
    requires DigitRun(s) > 0
    ensures Numeral(s[..DigitRun(s)], DecimalValue(s[..DigitRun(s)])) && s == s[..DigitRun(s)] + s[DigitRun(s)..]
  {
    NumeralValue(s[..DigitRun(s)], DecimalValue(s[..DigitRun(s)]));
    hide DigitRun, DecimalValue, AllDigits, Numeral;
  }

  /** Whatever range is read was spelled in front of the rest. */
  lemma ReadRangeSpelled(s: string) returns (text: RangeText)
    requires ReadRange(s).Some?
    ensures var (range, rest) := ReadRange(s).value; Spells(text, range) && s == Written(text) + rest
  {
    hide DigitRun, DecimalValue, AllDigits, IsDigit, Numeral, Written;
    var n := DigitRun(s);
    RunSpelled(s);
    var rest := s[n..];
    var m := if rest != "" && rest[0] == ',' then DigitRun(rest[1..]) else 0;
    if m == 0 {
      text := RangeText(s[..n], "");
      WrittenInFront(text, rest);
    } else {
      RunSpelled(rest[1..]);
      text := RangeText(s[..n], rest[1..][..m]);
      WrittenInFront(text, rest[1 + m..]);
      assert rest[1..][m..] == rest[1 + m..] && rest == "," + rest[1..];
    }
  }

  lemma BoundedIsSafe(range: Range)
    ensures Bounded(range) <==> SafeRange(range)
  {
  }

  lemma HeadingIsEnd(s: string)
    ensures Heading(s) <==> HeaderEnd(s)
  {
  }

  lemma SpelledHeaderRead(line: string, oldRange: Range, newRange: Range, a: RangeText, b: RangeText, heading: string)
    requires Bounded(oldRange) && Bounded(newRange) && Spells(a, oldRange) && Spells(b, newRange)
    requires SpellsHeader(line, a, b, heading)
    ensures ReadHeader(line) == Ok((oldRange, newRange))
  {
    hide ReadRange, Written, Spells, Bounded, SafeRange, Heading, HeaderEnd;
    BoundedIsSafe(oldRange);
    BoundedIsSafe(newRange);
    HeadingIsEnd(heading);
    var afterNew := " @@" + heading;
    var afterOld := " +" + (Written(b) + afterNew);
    assert line[..4] == "@@ -" && line[4..] == Written(a) + afterOld;
    SpelledRangeRead(a, oldRange, afterOld);
    assert afterOld[..2] == " +" && afterOld[2..] == Written(b) + afterNew;
    SpelledRangeRead(b, newRange, afterNew);
    assert afterNew[..3] == " @@" && afterNew[3..] == heading;
  }

  /** A header is read exactly when the line spells the two ranges, and there is one way to fail. */
  lemma HeaderIsExact(line: string, oldRange: Range, newRange: Range)
    ensures ReadHeader(line) == Ok((oldRange, newRange)) <==> HeaderOf(line, oldRange, newRange)
    ensures ReadHeader(line).Err? ==> ReadHeader(line).error == Invalid
  {
    hide ReadRange, Written, Spells, Bounded, SafeRange, Heading, HeaderEnd;
    if HeaderOf(line, oldRange, newRange) {
      var a, b, heading :| Spells(a, oldRange) && Spells(b, newRange) && SpellsHeader(line, a, b, heading);
      SpelledHeaderRead(line, oldRange, newRange, a, b, heading);
    }
    if ReadHeader(line) == Ok((oldRange, newRange)) {
      BoundedIsSafe(oldRange);
      BoundedIsSafe(newRange);
      var a := ReadRangeSpelled(line[4..]);
      var afterOld := ReadRange(line[4..]).value.1;
      var b := ReadRangeSpelled(afterOld[2..]);
      var afterNew := ReadRange(afterOld[2..]).value.1;
      HeadingIsEnd(afterNew[3..]);
      assert line == line[..4] + line[4..] && afterOld == afterOld[..2] + afterOld[2..];
      assert afterNew == afterNew[..3] + afterNew[3..];
      assert SpellsHeader(line, a, b, afterNew[3..]);
    }
  }

  // ----- bodies

  function PrintKind(kind: Kind): char {
    match kind
    case Context => ' '
    case Remove => '-'
    case Add => '+'
  }

  function PrintBodyLine(b: BodyLine): seq<string> {
    [[PrintKind(b.kind)] + b.content] + if b.noNewline then ["\\ No newline at end of file"] else []
  }

  function PrintBody(body: seq<BodyLine>): seq<string> {
    if body == [] then [] else PrintBodyLine(body[0]) + PrintBody(body[1..])
  }

  function PrintHunk(h: Hunk, short: bool): seq<string> {
    [PrintHeader(h, short)] + PrintBody(h.body)
  }

  /** The last body line so far can still take a no-newline marker. */
  predicate CanFlag(body: seq<BodyLine>) {
    body != [] && !body[|body| - 1].noNewline
  }

  function FlagLast(body: seq<BodyLine>): seq<BodyLine>
    requires CanFlag(body)
  {
    body[|body| - 1 := body[|body| - 1].(noNewline := true)]
  }

  function KindOf(c: char): Option<Kind> {
    match c
    case ' ' => Some(Context)
    case '-' => Some(Remove)
    case '+' => Some(Add)
    case _ => None
  }

  predicate IsMarker(lines: seq<string>) {
    lines != [] && lines[0] == MARKER
  }

  /** The body of a hunk, given how many old and new lines it still lacks; returns the body and the lines after it. */
  function ReadBody(lines: seq<string>, body: seq<BodyLine>, oldLeft: nat, newLeft: nat)
    : (r: Result<(seq<BodyLine>, seq<string>), PatchError>)
    ensures r.Ok? ==> |r.value.1| <= |lines|
  {
    if oldLeft == 0 && newLeft == 0 then
      if !IsMarker(lines) then Ok((body, lines))
      else if CanFlag(body) then Ok((FlagLast(body), lines[1..]))
      else Err(Invalid)
    else if lines == [] || lines[0] == "" then Err(Invalid)
    else if lines[0][0] == '\\' then
      if lines[0] == MARKER && CanFlag(body) then ReadBody(lines[1..], FlagLast(body), oldLeft, newLeft)
        else Err(Invalid)
    else match KindOf(lines[0][0])
      case None => Err(Invalid)
      case Some(kind) =>
        if (kind != Add && oldLeft == 0) || (kind != Remove && newLeft == 0) then Err(Invalid)
        else ReadBody(lines[1..], body + [BodyLine(kind, lines[0][1..], false)],
                      if kind != Add then oldLeft - 1 else oldLeft, if kind != Remove then newLeft - 1 else newLeft)
  }

  /** One hunk at the front of the lines. */
  function ReadHunk(lines: seq<string>): (r: Result<(Hunk, seq<string>), PatchError>)
    ensures r.Ok? ==> |r.value.1| < |lines|
  {
    if lines == [] then Err(Invalid)
    else match ReadHeader(lines[0])
      case Err(e) => Err(e)
      case Ok((oldRange, newRange)) =>
        match ReadBody(lines[1..], [], oldRange.count, newRange.count)
        case Err(e) => Err(e)
        case Ok((body, rest)) => Ok((Hunk(oldRange.start, oldRange.count, newRange.start, newRange.count, body), rest))
  }

  /** Where a printed body ends: a marker may follow only a line that already carries one. */
  predicate EndsBody(body: seq<BodyLine>, rest: seq<string>) {
    IsMarker(rest) ==> body != [] && body[|body| - 1].noNewline
  }

  lemma ReadUnflagged(b: BodyLine, rest: seq<string>, body: seq<BodyLine>, oldLeft: nat, newLeft: nat)
    requires (b.kind != Add ==> oldLeft > 0) && (b.kind != Remove ==> newLeft > 0)
    ensures ReadBody([[PrintKind(b.kind)] + b.content] + rest, body, oldLeft, newLeft) ==
            ReadBody(rest, body + [b.(noNewline := false)],
                     if b.kind != Add then oldLeft - 1 else oldLeft, if b.kind != Remove then newLeft - 1 else newLeft)
  {
    var line := [PrintKind(b.kind)] + b.content;
    assert line[1..] == b.content;
    assert ([line] + rest)[1..] == rest;
  }

  lemma ReadMarker(rest: seq<string>, body: seq<BodyLine>, b: BodyLine, oldLeft: nat, newLeft: nat)
    requires b.noNewline && (oldLeft > 0 || newLeft > 0)
    ensures ReadBody([MARKER] + rest, body + [b.(noNewline := false)], oldLeft, newLeft)
            == ReadBody(rest, body + [b], oldLeft, newLeft)
  {
    var flagged := body + [b.(noNewline := false)];
    assert FlagLast(flagged) == body + [b];
    assert ([MARKER] + rest)[1..] == rest;
  }

  /** A printed body is read back, markers inside it included, up to the line that follows. */
  lemma {:induction false} BodyReadsBack(todo: seq<BodyLine>, rest: seq<string>, body: seq<BodyLine>)
    requires EndsBody(todo, rest)
    ensures ReadBody(PrintBody(todo) + rest, body, |OldSide(todo)|, |NewSide(todo)|) == Ok((body + todo, rest))
    decreases |todo|
  {
    hide *;
    if todo == [] {
      NothingToRead(rest, body);
      assert body + [] == body && [] + rest == rest;
    } else {
      var b, more := todo[0], PrintBody(todo[1..]) + rest;
      PrintFirst(todo, rest);
      SidesFirst(todo);
      EndsFirst(todo, rest);
      assert body + [b] + todo[1..] == body + todo;
      var after := if b.noNewline then [MARKER] + more else more;
      ReadUnflagged(b, after, body, |OldSide(todo)|, |NewSide(todo)|);
      if todo[1..] != [] {
        BodyReadsBack(todo[1..], rest, body + [b]);
        if b.noNewline {
          ReadMarker(more, body, b, |OldSide(todo[1..])|, |NewSide(todo[1..])|);
        } else {
          assert b.(noNewline := false) == b;
        }
      } else {
        assert body + [b] == body + todo && b.(noNewline := b.noNewline) == b;
        if b.noNewline { ReadLastMarker(rest, body, b); } else { ReadDone(rest, body + [b]); }
      }
    }
  }

  lemma NothingToRead(rest: seq<string>, body: seq<BodyLine>)
    ensures PrintBody([]) == [] && OldSide([]) == [] && NewSide([]) == []
    ensures EndsBody([], rest) ==> ReadBody(rest, body, 0, 0) == Ok((body, rest))
  {
  }

  lemma PrintFirst(todo: seq<BodyLine>, rest: seq<string>)
    requires todo != []
    ensures var b, more := todo[0], PrintBody(todo[1..]) + rest;
            PrintBody(todo) + rest == [[PrintKind(b.kind)] + b.content] + if b.noNewline then [MARKER] + more else more
    ensures todo[1..] == [] ==> PrintBody(todo[1..]) + rest == rest
  {
    var b, more := todo[0], PrintBody(todo[1..]);
    var line := [PrintKind(b.kind)] + b.content;
    LinesFirst(todo);
    NothingToRead(rest, []);
    hide *;
    OneAhead(line, more, rest);
    TwoAhead(line, MARKER, more, rest);
    assert [] + rest == rest;
  }

  lemma LinesFirst(todo: seq<BodyLine>)
    requires todo != []
    ensures var b, more := todo[0], PrintBody(todo[1..]);
            var line := [PrintKind(b.kind)] + b.content;
            PrintBody(todo) == if b.noNewline then [line, MARKER] + more else [line] + more
  {
    hide PrintKind;
  }

  lemma OneAhead(line: string, more: seq<string>, rest: seq<string>)
    ensures [line] + more + rest == [line] + (more + rest)
  {
  }

  lemma TwoAhead(line: string, marker: string, more: seq<string>, rest: seq<string>)
    ensures [line, marker] + more + rest == [line] + ([marker] + (more + rest))
  {
  }

  lemma SidesFirst(todo: seq<BodyLine>)
    requires todo != []
    ensures |OldSide(todo)| == |OldSide(todo[1..])| + if todo[0].kind != Add then 1 else 0
    ensures |NewSide(todo)| == |NewSide(todo[1..])| + if todo[0].kind != Remove then 1 else 0
    ensures todo[1..] == [] ==> OldSide(todo[1..]) == [] && NewSide(todo[1..]) == []
    ensures todo[1..] != [] ==> |OldSide(todo[1..])| > 0 || |NewSide(todo[1..])| > 0
  {
  }

  lemma EndsFirst(todo: seq<BodyLine>, rest: seq<string>)
    requires todo != [] && EndsBody(todo, rest)
    ensures todo[1..] != [] ==> EndsBody(todo[1..], rest)
    ensures todo[1..] == [] && !todo[0].noNewline ==> !IsMarker(rest)
  {
  }

  lemma ReadDone(rest: seq<string>, body: seq<BodyLine>)
    requires !IsMarker(rest)
    ensures ReadBody(rest, body, 0, 0) == Ok((body, rest))
  {
  }

  lemma ReadLastMarker(rest: seq<string>, body: seq<BodyLine>, b: BodyLine)
    requires b.noNewline
    ensures ReadBody([MARKER] + rest, body + [b.(noNewline := false)], 0, 0) == Ok((body + [b], rest))
  {
    assert FlagLast(body + [b.(noNewline := false)]) == body + [b];
    assert ([MARKER] + rest)[1..] == rest;
  }

  // ----- nothing else is accepted

  lemma {:induction false} PrintBodyAppend(a: seq<BodyLine>, b: seq<BodyLine>)
    ensures PrintBody(a + b) == PrintBody(a) + PrintBody(b)
  {
    hide PrintBodyLine;
    if a == [] {
      assert a + b == b;
    } else {
      PrintBodyAppend(a[1..], b);
      assert (a + b)[0] == a[0] && (a + b)[1..] == a[1..] + b;
      Shift(PrintBodyLine(a[0]), PrintBody(a[1..]), PrintBody(b));
    }
  }

  lemma {:induction false} SidesAppend(a: seq<BodyLine>, b: seq<BodyLine>)
    ensures |OldSide(a + b)| == |OldSide(a)| + |OldSide(b)|
    ensures |NewSide(a + b)| == |NewSide(a)| + |NewSide(b)|
  {
    if a == [] {
      assert a + b == b;
    } else {
      SidesAppend(a[1..], b);
      assert (a + b)[0] == a[0] && (a + b)[1..] == a[1..] + b;
    }
  }

  lemma PrintBodyLast(body: seq<BodyLine>, b: BodyLine)
    ensures PrintBody(body + [b]) == PrintBody(body) + PrintBodyLine(b)
    ensures |OldSide(body + [b])| == |OldSide(body)| + if b.kind != Add then 1 else 0
    ensures |NewSide(body + [b])| == |NewSide(body)| + if b.kind != Remove then 1 else 0
  {
    PrintBodyAppend(body, [b]);
    SidesAppend(body, [b]);
    assert PrintBody([b]) == PrintBodyLine(b);
    assert [b][1..] == [];
  }

  lemma FlagPrintsMarker(body: seq<BodyLine>)
    requires CanFlag(body)
    ensures PrintBody(FlagLast(body)) == PrintBody(body) + [MARKER]
    ensures |OldSide(FlagLast(body))| == |OldSide(body)| && |NewSide(FlagLast(body))| == |NewSide(body)|
  {
    var front, b := body[..|body| - 1], body[|body| - 1];
    assert body == front + [b];
    assert FlagLast(body) == front + [b.(noNewline := true)];
    PrintBodyLast(front, b);
    PrintBodyLast(front, b.(noNewline := true));
    assert PrintBodyLine(b.(noNewline := true)) == PrintBodyLine(b) + [MARKER];
  }

  /** Whatever is accepted as a body is what printing that body gives, no line more or less. */
  lemma {:induction false} BodyIsExact(lines: seq<string>, body: seq<BodyLine>, oldLeft: nat, newLeft: nat)
    requires ReadBody(lines, body, oldLeft, newLeft).Ok?
    ensures var (result, rest) := ReadBody(lines, body, oldLeft, newLeft).value;
            && PrintBody(body) + lines == PrintBody(result) + rest
            && |OldSide(result)| == |OldSide(body)| + oldLeft
            && |NewSide(result)| == |NewSide(body)| + newLeft
            && EndsBody(result, rest)
    decreases |lines|
  {
    hide PrintBody, OldSide, NewSide;
    if oldLeft == 0 && newLeft == 0 {
      if IsMarker(lines) {
        FlagPrintsMarker(body);
        assert lines == [MARKER] + lines[1..];
        Shift(PrintBody(body), [MARKER], lines[1..]);
      }
    } else if lines[0][0] == '\\' {
      FlagPrintsMarker(body);
      BodyIsExact(lines[1..], FlagLast(body), oldLeft, newLeft);
      assert lines == [MARKER] + lines[1..];
      Shift(PrintBody(body), [MARKER], lines[1..]);
    } else {
      var kind := KindOf(lines[0][0]).value;
      var b := BodyLine(kind, lines[0][1..], false);
      PrintBodyLast(body, b);
      BodyIsExact(lines[1..], body + [b], if kind != Add then oldLeft - 1 else oldLeft,
                  if kind != Remove then newLeft - 1 else newLeft);
      assert lines[0] == [PrintKind(kind)] + lines[0][1..];
      assert PrintBodyLine(b) == [lines[0]];
      assert lines == [lines[0]] + lines[1..];
      Shift(PrintBody(body), [lines[0]], lines[1..]);
    }
  }

  lemma Shift<T>(a: seq<T>, b: seq<T>, c: seq<T>)
    ensures a + (b + c) == (a + b) + c
  {
  }

  /** The lines hold exactly this hunk, followed by rest. */
  ghost predicate HoldsHunk(lines: seq<string>, h: Hunk, rest: seq<string>) {
    && lines != []
    && HeaderOf(lines[0], Range(h.oldStart, h.oldCount), Range(h.newStart, h.newCount))
    && lines[1..] == PrintBody(h.body) + rest
    && Counted(h)
    && EndsBody(h.body, rest)
  }

  lemma {:induction false} BodyOnlyInvalid(lines: seq<string>, body: seq<BodyLine>, oldLeft: nat, newLeft: nat)
    ensures var r := ReadBody(lines, body, oldLeft, newLeft); r.Err? ==> r.error == Invalid
    decreases |lines|
  {
    if (oldLeft > 0 || newLeft > 0) && lines != [] && lines[0] != "" {
      if lines[0][0] == '\\' {
        if CanFlag(body) { BodyOnlyInvalid(lines[1..], FlagLast(body), oldLeft, newLeft); }
      } else if KindOf(lines[0][0]).Some? {
        var kind := KindOf(lines[0][0]).value;
        if !((kind != Add && oldLeft == 0) || (kind != Remove && newLeft == 0)) {
          var oldLeft', newLeft' := if kind != Add then oldLeft - 1 else oldLeft,
                                    if kind != Remove then newLeft - 1 else newLeft;
          BodyOnlyInvalid(lines[1..], body + [BodyLine(kind, lines[0][1..], false)], oldLeft', newLeft');
        }
      }
    }
  }

  /** A hunk is read if and only if the lines hold that hunk, and there is one way to fail. */
  lemma ReadHunkIsExact(lines: seq<string>, h: Hunk, rest: seq<string>)
    ensures ReadHunk(lines) == Ok((h, rest)) <==> HoldsHunk(lines, h, rest)
    ensures ReadHunk(lines).Err? ==> ReadHunk(lines).error == Invalid
  {
    hide ReadBody, PrintBody, ReadHeader, HeaderOf, OldSide, NewSide;
    if lines != [] {
      HeaderIsExact(lines[0], Range(h.oldStart, h.oldCount), Range(h.newStart, h.newCount));
    }
    if HoldsHunk(lines, h, rest) {
      BodyReadsBack(h.body, rest, []);
      assert [] + h.body == h.body;
    }
    if lines != [] && ReadHeader(lines[0]).Ok? {
      var (oldRange, newRange) := ReadHeader(lines[0]).value;
      BodyOnlyInvalid(lines[1..], [], oldRange.count, newRange.count);
      if ReadBody(lines[1..], [], oldRange.count, newRange.count).Ok? {
        BodyIsExact(lines[1..], [], oldRange.count, newRange.count);
        EmptyBody();
        assert [] + lines[1..] == lines[1..];
      }
    }
  }

  lemma EmptyBody()
    ensures PrintBody([]) == [] && OldSide([]) == [] && NewSide([]) == []
  {
  }

  /** Printing a hunk and parsing it gives the same hunk, flags included, and stops right after it. */
  lemma HunkReadsBack(h: Hunk, short: bool, rest: seq<string>)
    requires Counted(h) && SafeRange(Range(h.oldStart, h.oldCount)) && SafeRange(Range(h.newStart, h.newCount))
    requires EndsBody(h.body, rest)
    ensures ReadHunk(PrintHunk(h, short) + rest) == Ok((h, rest))
  {
    hide ReadHunk, PrintBody, PrintHeader, ReadHeader, HeaderOf, Counted;
    var lines := PrintHunk(h, short) + rest;
    HeaderReadsBack(h, short);
    HeaderIsExact(lines[0], Range(h.oldStart, h.oldCount), Range(h.newStart, h.newCount));
    assert lines[1..] == PrintBody(h.body) + rest;
    ReadHunkIsExact(lines, h, rest);
  }

  // ----- hunk lists

  function PrintHunks(hunks: seq<Hunk>, short: bool): seq<string> {
    if hunks == [] then [] else PrintHunk(hunks[0], short) + PrintHunks(hunks[1..], short)
  }

  /** Consecutive hunks, as long as a line opens one. */
  function ReadHunks(lines: seq<string>): (r: Result<(seq<Hunk>, seq<string>), PatchError>)
    ensures r.Ok? ==> |r.value.1| <= |lines|
    decreases |lines|
  {
    if lines == [] || !StartsWith(lines[0], "@@ ") then Ok(([], lines))
    else match ReadHunk(lines)
      case Err(e) => Err(e)
      case Ok((h, rest)) =>
        match ReadHunks(rest)
        case Err(e) => Err(e)
        case Ok((hunks, after)) => Ok(([h] + hunks, after))
  }

  predicate Printable(h: Hunk) {
    Counted(h) && SafeRange(Range(h.oldStart, h.oldCount)) && SafeRange(Range(h.newStart, h.newCount))
  }

  /** A whole hunk list survives printing and parsing. */
  lemma {:induction false} HunksReadBack(hunks: seq<Hunk>, short: bool, rest: seq<string>)
    requires forall h :: h in hunks ==> Printable(h)
    requires rest == [] || (rest[0] != MARKER && !StartsWith(rest[0], "@@ "))
    ensures ReadHunks(PrintHunks(hunks, short) + rest) == Ok((hunks, rest))
  {
    hide ReadHunk, ReadHunks, PrintHunk, PrintHunks, StartsWith, Printable;
    if hunks == [] {
      NothingPrinted(short, rest);
    } else {
      var h, after := hunks[0], PrintHunks(hunks[1..], short) + rest;
      assert Printable(h);
      HunksReadBack(hunks[1..], short, rest);
      HunksOpen(hunks[1..], short, rest);
      PrintableReadsBack(h, short, after);
      PrintHunksFirst(hunks, short);
      FirstHunkRead(PrintHunk(h, short) + after, h, after, hunks[1..], rest);
      assert PrintHunk(h, short) + PrintHunks(hunks[1..], short) + rest == PrintHunk(h, short) + after;
      assert [h] + hunks[1..] == hunks;
    }
  }

  lemma NothingPrinted(short: bool, rest: seq<string>)
    requires rest == [] || !StartsWith(rest[0], "@@ ")
    ensures ReadHunks(PrintHunks([], short) + rest) == Ok(([], rest))
  {
    assert PrintHunks([], short) + rest == rest;
  }

  lemma PrintHunksFirst(hunks: seq<Hunk>, short: bool)
    requires hunks != []
    ensures PrintHunks(hunks, short) == PrintHunk(hunks[0], short) + PrintHunks(hunks[1..], short)
  {
  }

  lemma PrintableReadsBack(h: Hunk, short: bool, after: seq<string>)
    requires Printable(h) && !IsMarker(after)
    ensures var lines := PrintHunk(h, short) + after;
            lines != [] && StartsWith(lines[0], "@@ ") && ReadHunk(lines) == Ok((h, after))
  {
    HunkReadsBack(h, short, after);
    HunkHeaderOpens(h, short);
    hide ReadHunk, PrintHeader, StartsWith, PrintBody;
    assert (PrintHunk(h, short) + after)[0] == PrintHeader(h, short);
  }

  lemma FirstHunkRead(lines: seq<string>, h: Hunk, after: seq<string>, hunks: seq<Hunk>, rest: seq<string>)
    requires lines != [] && StartsWith(lines[0], "@@ ") && ReadHunk(lines) == Ok((h, after))
             && ReadHunks(after) == Ok((hunks, rest))
    ensures ReadHunks(lines) == Ok(([h] + hunks, rest))
  {
    hide ReadHunk, StartsWith;
  }

  /** What follows a hunk is not a marker. */
  lemma HunksOpen(hunks: seq<Hunk>, short: bool, rest: seq<string>)
    requires rest == [] || rest[0] != MARKER
    ensures !IsMarker(PrintHunks(hunks, short) + rest)
  {
    var lines := PrintHunks(hunks, short) + rest;
    if hunks != [] {
      HunkHeaderOpens(hunks[0], short);
      hide PrintHeader;
      assert lines[0] == PrintHeader(hunks[0], short);
    } else {
      assert lines == rest;
    }
  }

  lemma HunkHeaderOpens(h: Hunk, short: bool)
    ensures StartsWith(PrintHeader(h, short), "@@ ") && PrintHeader(h, short) != MARKER
  {
    var line := PrintHeader(h, short);
    assert line[0] == '@' && line[1] == '@' && line[2] == ' ';
    assert line[..3] == "@@ ";
    assert MARKER[0] == '\\';
  }

  // ----- the parsing loop

  /** The hunk parser: an index running down the lines, a body growing behind it. */
  method ParseHunk(lines: seq<string>, startIndex: nat) returns (r: Result<(Hunk, nat), PatchError>)
    requires startIndex <= |lines|
    ensures r.Ok? ==> r.value.1 <= |lines| && ReadHunk(lines[startIndex..]) == Ok((r.value.0, lines[r.value.1..]))
    ensures r.Err? ==> ReadHunk(lines[startIndex..]) == Err(r.error)
  {
    hide ReadHeader;
    if startIndex == |lines| { return Err(Invalid); }
    assert lines[startIndex..][0] == lines[startIndex] && lines[startIndex..][1..] == lines[startIndex + 1..];
    var header := ReadHeader(lines[startIndex]);
    if header.Err? { return Err(header.error); }
    var (oldRange, newRange) := header.value;
    var body: seq<BodyLine> := [];
    var oldSeen, newSeen := 0, 0;
    var index := startIndex + 1;
    ghost var goal := ReadBody(lines[index..], [], oldRange.count, newRange.count);
    while oldSeen < oldRange.count || newSeen < newRange.count
      invariant startIndex < index <= |lines|
      invariant oldSeen <= oldRange.count && newSeen <= newRange.count
      invariant goal == ReadBody(lines[index..], body, oldRange.count - oldSeen, newRange.count - newSeen)
      decreases |lines| - index
    {
      if index == |lines| { return Err(Invalid); }
      var line := lines[index];
      assert lines[index..][0] == line && lines[index..][1..] == lines[index + 1..];
      if line != "" && line[0] == '\\' {
        if line != MARKER || !CanFlag(body) { return Err(Invalid); }
        body := FlagLast(body);
        index := index + 1;
        continue;
      }
      if line == "" || KindOf(line[0]).None? { return Err(Invalid); }
      var kind := KindOf(line[0]).value;
      if kind != Add { oldSeen := oldSeen + 1; }
      if kind != Remove { newSeen := newSeen + 1; }
      if oldSeen > oldRange.count || newSeen > newRange.count { return Err(Invalid); }
      body := body + [BodyLine(kind, line[1..], false)];
      index := index + 1;
    }
    if index < |lines| && lines[index] == MARKER {
      if !CanFlag(body) { return Err(Invalid); }
      body := FlagLast(body);
      index := index + 1;
    }
    r := Ok((Hunk(oldRange.start, oldRange.count, newRange.start, newRange.count, body), index));
  }
}
