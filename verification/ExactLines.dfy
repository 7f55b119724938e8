/** Lossless line splitting: every line keeps the exact ending it had in the text. */
module ExactLines {

  datatype Ending = CrLf | Lf | Missing

  datatype Line = Line(content: string, ending: Ending)

  function EndingText(ending: Ending): string {
    match ending
    case CrLf => "\r\n"
    case Lf => "\n"
    case Missing => ""
  }

  function Print(line: Line): string {
    line.content + EndingText(line.ending)
  }

  function Join(lines: seq<Line>): string {
    if lines == [] then "" else Print(lines[0]) + Join(lines[1..])
  }

  predicate EndsWithCr(s: string) {
    s != "" && s[|s| - 1] == '\r'
  }

  predicate NoLf(s: string) {
    forall i :: 0 <= i < |s| ==> s[i] != '\n'
  }

  /** Index of the first line feed, or the length when there is none. */
  function FirstLf(text: string): (n: nat)
    ensures n <= |text|
  {
    if text == "" || text[0] == '\n' then 0 else 1 + FirstLf(text[1..])
  }

  lemma FirstLfStops(text: string)
    ensures forall i :: 0 <= i < FirstLf(text) ==> text[i] != '\n'
    ensures FirstLf(text) < |text| ==> text[FirstLf(text)] == '\n'
  {
    if text != "" && text[0] != '\n' {
      FirstLfStops(text[1..]);
    }
  }

  /** The line whose text stops before the line feed at n, or at the end of the text. */
  function LineUpTo(text: string, n: nat): Line
    requires n <= |text|
  {
    if n == |text| then Line(text, Missing)
    else if n > 0 && text[n - 1] == '\r' then Line(text[..n - 1], CrLf)
    else Line(text[..n], Lf)
  }

  /** The lines of a text, each with its own ending. */
  function Lines(text: string): seq<Line> {
    if text == "" then []
    else
      var n := FirstLf(text);
      if n == |text| then [LineUpTo(text, n)] else [LineUpTo(text, n)] + Lines(text[n + 1..])
  }

  predicate WellFormedLine(line: Line, last: bool) {
    && NoLf(line.content)
    && (line.ending == Lf ==> !EndsWithCr(line.content))
    && (line.ending == Missing ==> last && line.content != "")
  }

  /** What a list of lines must satisfy to be readable back from its text. */
  predicate WellFormed(lines: seq<Line>) {
    lines == [] || (WellFormedLine(lines[0], |lines| == 1) && WellFormed(lines[1..]))
  }

  lemma LineUpToIsExact(text: string, n: nat)
    requires n < |text| && text[n] == '\n'
    requires forall i :: 0 <= i < n ==> text[i] != '\n'
    ensures Print(LineUpTo(text, n)) == text[..n + 1]
    ensures WellFormedLine(LineUpTo(text, n), false)
  {
    var line := LineUpTo(text, n);
    if line.ending == CrLf {
      assert Print(line) == text[..n - 1] + ['\r', '\n'];
    } else {
      assert Print(line) == text[..n] + ['\n'];
    }
  }

  lemma FirstLfAt(text: string, n: nat)
    requires n < |text| && text[n] == '\n'
    requires forall i :: 0 <= i < n ==> text[i] != '\n'
    ensures FirstLf(text) == n
  {
    FirstLfStops(text);
  }

  /** A line feed at n with none before it ends the first line. */
  lemma LinesAt(text: string, n: nat)
    requires n < |text| && text[n] == '\n'
    requires forall i :: 0 <= i < n ==> text[i] != '\n'
    ensures Lines(text) == [LineUpTo(text, n)] + Lines(text[n + 1..])
  {
    assert text != "" && FirstLf(text) == n by { FirstLfAt(text, n); }
  }

  /** Without a line feed, a nonempty text is one line with no ending. */
  lemma LinesUnended(text: string)
    requires text != "" && NoLf(text)
    ensures Lines(text) == [Line(text, Missing)]
  {
    FirstLfStops(text);
  }

  lemma ConsIsLossless(line: Line, rest: seq<Line>)
    requires WellFormedLine(line, false) && WellFormed(rest)
    ensures Join([line] + rest) == Print(line) + Join(rest)
    ensures WellFormed([line] + rest)
  {
    assert ([line] + rest)[1..] == rest;
  }

  lemma SplitOnceIsLossless(text: string, n: nat, rest: seq<Line>)
    requires n < |text| && text[n] == '\n'
    requires forall i :: 0 <= i < n ==> text[i] != '\n'
    requires Join(rest) == text[n + 1..] && WellFormed(rest)
    ensures Join([LineUpTo(text, n)] + rest) == text
    ensures WellFormed([LineUpTo(text, n)] + rest)
  {
    LineUpToIsExact(text, n);
    ConsIsLossless(LineUpTo(text, n), rest);
    assert text == text[..n + 1] + text[n + 1..];
  }

  /** Splitting loses nothing, and what it returns is well formed. */
  lemma {:induction false} SplitIsLossless(text: string)
    ensures Join(Lines(text)) == text
    ensures WellFormed(Lines(text))
    decreases |text|
  {
    var n := FirstLf(text);
    FirstLfStops(text);
    if text == "" {
    } else if n == |text| {
      LinesUnended(text);
      assert Join([Line(text, Missing)]) == text + "" + "";
    } else {
      SplitIsLossless(text[n + 1..]);
      SplitOnceIsLossless(text, n, Lines(text[n + 1..]));
    }
  }

  /** Reading one printed line back from the front of a text. */
  lemma LinesOfPrinted(line: Line, rest: string)
    requires WellFormedLine(line, false)
    ensures Lines(Print(line) + rest) == [line] + Lines(rest)
  {
    var text := Print(line) + rest;
    var n := if line.ending == CrLf then |line.content| + 1 else |line.content|;
    LinesAt(text, n);
    assert text[n + 1..] == rest;
    assert LineUpTo(text, n) == line by {
      assert text[..|line.content|] == line.content;
    }
  }

  /** Splitting is the only inverse of joining on well-formed lines. */
  lemma {:induction false} SplitInvertsJoin(lines: seq<Line>)
    requires WellFormed(lines)
    ensures Lines(Join(lines)) == lines
  {
    if lines != [] {
      var line, rest := lines[0], lines[1..];
      SplitInvertsJoin(rest);
      if line.ending == Missing {
        assert Join(lines) == line.content by {
          assert Join(rest) == "";
          assert line.content + "" + "" == line.content;
        }
        LinesUnended(line.content);
        assert lines == [line];
      } else {
        LinesOfPrinted(line, Join(rest));
      }
    }
  }

  lemma SliceLines(text: string, start: nat, index: nat)
    requires start <= index < |text| && text[index] == '\n'
    requires forall i :: start <= i < index ==> text[i] != '\n'
    ensures Lines(text[start..]) == [LineUpTo(text[start..], index - start)] + Lines(text[index + 1..])
  {
    var tail, n := text[start..], index - start;
    assert Lines(tail) == [LineUpTo(tail, n)] + Lines(tail[n + 1..]) by { LinesAt(tail, n); }
    assert tail[n + 1..] == text[index + 1..];
  }

  lemma SliceLine(text: string, start: nat, index: nat)
    requires start <= index < |text|
    ensures LineUpTo(text[start..], index - start) ==
            if index > start && text[index - 1] == '\r' then Line(text[start..index - 1], CrLf)
              else Line(text[start..index], Lf)
  {
    var tail, n := text[start..], index - start;
    assert tail[..n] == text[start..index];
    if n > 0 { assert tail[..n - 1] == text[start..index - 1]; }
  }

  /** Nothing is lost between the lines already cut and the text still to cut. */
  ghost predicate CutSoFar(text: string, start: nat, lines: seq<Line>)
    requires start <= |text|
  {
    lines + Lines(text[start..]) == Lines(text)
  }

  lemma CutLine(text: string, start: nat, index: nat, lines: seq<Line>, line: Line)
    requires start <= index < |text| && text[index] == '\n' && CutSoFar(text, start, lines)
    requires forall i :: start <= i < index ==> text[i] != '\n'
    requires line
             == if index > start && text[index - 1] == '\r' then Line(text[start..index - 1], CrLf)
             else Line(text[start..index], Lf)
    ensures CutSoFar(text, index + 1, lines + [line])
  {
    SliceLine(text, start, index);
    SliceLines(text, start, index);
    var rest := Lines(text[index + 1..]);
    assert lines + ([line] + rest) == (lines + [line]) + rest;
  }

  lemma CutRest(text: string, start: nat, lines: seq<Line>)
    requires start <= |text| && CutSoFar(text, start, lines)
    requires forall i :: start <= i < |text| ==> text[i] != '\n'
    ensures Lines(text) == if start == |text| then lines else lines + [Line(text[start..], Missing)]
  {
    if start < |text| { LinesUnended(text[start..]); }
  }

  /** The splitting loop: one pass over the text, cutting after every line feed. */
  method SplitExact(text: string) returns (lines: seq<Line>)
    ensures lines == Lines(text)
  {
    hide Lines, FirstLf;
    lines := [];
    var start := 0;
    assert text[0..] == text;
    for index := 0 to |text|
      invariant start <= index
      invariant forall i :: start <= i < index ==> text[i] != '\n'
      invariant CutSoFar(text, start, lines)
    {
      if text[index] == '\n' {
        var hasCarriageReturn := index > start && text[index - 1] == '\r';
        var line := if hasCarriageReturn then Line(text[start..index - 1], CrLf) else Line(text[start..index], Lf);
        CutLine(text, start, index, lines, line);
        lines := lines + [line];
        start := index + 1;
      }
    }
    CutRest(text, start, lines);
    if start < |text| {
      lines := lines + [Line(text[start..], Missing)];
    }
  }

  function CountEnding(lines: seq<Line>, ending: Ending): nat {
    if lines == [] then 0 else (if lines[0].ending == ending then 1 else 0) + CountEnding(lines[1..], ending)
  }

  /** The ending given to added lines: CRLF only when it is the strict majority. */
  function PreferredEnding(lines: seq<Line>): Ending {
    if CountEnding(lines, CrLf) > CountEnding(lines, Lf) then CrLf else Lf
  }

  function Endings(lines: seq<Line>): seq<Ending> {
    if lines == [] then [] else [lines[0].ending] + Endings(lines[1..])
  }

  lemma {:induction false} EndingsCounted(lines: seq<Line>, ending: Ending)
    ensures CountEnding(lines, ending) == multiset(Endings(lines))[ending]
  {
    if lines != [] {
      EndingsCounted(lines[1..], ending);
      assert Endings(lines) == [lines[0].ending] + Endings(lines[1..]);
    }
  }

  /** Added lines get CRLF exactly when more lines end in CRLF than in LF. */
  lemma PreferredExactly(lines: seq<Line>)
    ensures PreferredEnding(lines) == CrLf <==> multiset(Endings(lines))[CrLf] > multiset(Endings(lines))[Lf]
    ensures PreferredEnding(lines) == Lf <==> multiset(Endings(lines))[CrLf] <= multiset(Endings(lines))[Lf]
  {
    EndingsCounted(lines, CrLf);
    EndingsCounted(lines, Lf);
    hide CountEnding, Endings;
  }

  predicate NoCrLf(lines: seq<Line>) {
    forall i :: 0 <= i < |lines| ==> lines[i].ending != CrLf
  }

  lemma {:induction false} NoCrLfPrefersLf(lines: seq<Line>)
    requires NoCrLf(lines)
    ensures CountEnding(lines, CrLf) == 0
    ensures PreferredEnding(lines) == Lf
  {
    if lines != [] {
      assert NoCrLf(lines[1..]) by {
        forall i | 0 <= i < |lines[1..]| ensures lines[1..][i] == lines[i + 1] {}
      }
      NoCrLfPrefersLf(lines[1..]);
    }
  }
}
