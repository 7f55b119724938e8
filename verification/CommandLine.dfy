/** Quoting arguments into one command line, and reading them back by the C runtime's rules. */
module CommandLine {

  // ----- quoting

  function Backslashes(n: nat): string {
    if n == 0 then "" else "\\" + Backslashes(n - 1)
  }

  predicate Special(c: char) {
    c == ' ' || c == '\t' || c == '\n' || c == '\U{0B}' || c == '"'
  }

  predicate NeedsQuotes(value: string) {
    value == "" || exists i :: 0 <= i < |value| && Special(value[i])
  }

  /** The quoted form of what is left of a value, with a run of backslashes held back. */
  function QuoteRest(rest: string, backslashes: nat): string {
    if rest == "" then Backslashes(2 * backslashes)
    else if rest[0] == '\\' then QuoteRest(rest[1..], backslashes + 1)
    else if rest[0] == '"' then Backslashes(2 * backslashes + 1) + "\"" + QuoteRest(rest[1..], 0)
    else Backslashes(backslashes) + [rest[0]] + QuoteRest(rest[1..], 0)
  }

  function Quoted(value: string): string {
    if NeedsQuotes(value) then "\"" + QuoteRest(value, 0) + "\"" else value
  }

  function QuotedTail(arguments: seq<string>): string {
    if arguments == [] then "" else " " + Quoted(arguments[0]) + QuotedTail(arguments[1..])
  }

  lemma {:induction false} QuotedLonger(rest: string, backslashes: nat)
    ensures |QuoteRest(rest, backslashes)| >= |rest| + backslashes
    decreases |rest|
  {
    BackslashesLength(backslashes);
    BackslashesLength(2 * backslashes);
    BackslashesLength(2 * backslashes + 1);
    hide Backslashes;
    if rest != "" {
      QuotedLonger(rest[1..], if rest[0] == '\\' then backslashes + 1 else 0);
    }
  }

  /** A value is put between quotes exactly when it is empty or holds a blank, tab, line feed, vertical tab or quote. */
  lemma QuotedExactly(value: string)
    ensures Quoted(value) == value <==>
            value != "" && forall i :: 0 <= i < |value| ==> value[i] !in " \t\n\U{0B}\""
    ensures Quoted(value) != value ==> |Quoted(value)| >= |value| + 2 && Quoted(value)[0] == '"'
  {
    QuotedLonger(value, 0);
    hide QuoteRest, Backslashes;
    assert forall c: char :: Special(c) <==> c in " \t\n\U{0B}\"";
  }

  /** The quoting loop: backslashes are counted and only written once the next character is known. */
  method QuoteArgument(value: string) returns (r: string)
    ensures r == Quoted(value)
  {
    if value != "" && !(exists i :: 0 <= i < |value| && Special(value[i])) { return value; }
    assert Quoted(value) == "\"" + QuoteRest(value, 0) + "\"";
    hide *;
    r := "\"";
    var backslashes := 0;
    assert value[0..] == value;
    for i := 0 to |value|
      invariant r + QuoteRest(value[i..], backslashes) == "\"" + QuoteRest(value, 0)
    {
      var character := value[i];
      assert value[i..][0] == character && value[i..][1..] == value[i + 1..];
      QuoteFirst(value[i..], backslashes);
      ghost var rest := QuoteRest(value[i + 1..], 0);
      if character == '\\' {
        backslashes := backslashes + 1;
      } else if character == '"' {
        Appended(r, Backslashes(backslashes * 2 + 1), "\"", rest);
        r := r + Backslashes(backslashes * 2 + 1) + "\"";
        backslashes := 0;
      } else {
        Appended(r, Backslashes(backslashes), [character], rest);
        r := r + Backslashes(backslashes) + [character];
        backslashes := 0;
      }
    }
    QuoteNothing(value[|value|..], backslashes);
    r := r + Backslashes(backslashes * 2) + "\"";
  }

  lemma QuoteFirst(rest: string, backslashes: nat)
    requires rest != ""
    ensures QuoteRest(rest, backslashes)
         == if rest[0] == '\\' then QuoteRest(rest[1..], backslashes + 1)
            else if rest[0] == '"' then Backslashes(2 * backslashes + 1) + "\"" + QuoteRest(rest[1..], 0)
            else Backslashes(backslashes) + [rest[0]] + QuoteRest(rest[1..], 0)
  {
  }

  lemma QuoteNothing(rest: string, backslashes: nat)
    requires rest == ""
    ensures QuoteRest(rest, backslashes) == Backslashes(2 * backslashes)
  {
  }

  lemma Appended(r: string, a: string, b: string, rest: string)
    ensures r + (a + b + rest) == (r + a + b) + rest
  {
  }

  method BuildCommandLine(executable: string, arguments: seq<string>) returns (r: string)
    ensures r == Quoted(executable) + QuotedTail(arguments)
  {
    hide Quoted;
    r := QuoteArgument(executable);
    for i := 0 to |arguments|
      invariant r + QuotedTail(arguments[i..]) == Quoted(executable) + QuotedTail(arguments)
    {
      var quoted := QuoteArgument(arguments[i]);
      assert arguments[i..][0] == arguments[i] && arguments[i..][1..] == arguments[i + 1..];
      r := r + " " + quoted;
    }
  }

  // ----- reading back, by "Parsing C command-line arguments"

  predicate Blank(c: char) {
    c == ' ' || c == '\t'
  }

  /** The program name: quotes only switch blanks off and on, and backslashes are ordinary. */
  function ReadProgram(text: string, inQuotes: bool): (r: (string, string))
    ensures |r.1| <= |text|
  {
    if text == "" || (Blank(text[0]) && !inQuotes) then ("", text)
    else if text[0] == '"' then ReadProgram(text[1..], !inQuotes)
    else
      var (name, rest) := ReadProgram(text[1..], inQuotes);
      ([text[0]] + name, rest)
  }

  function Emit(out: string, read: (string, string)): (string, string) {
    (out + read.0, read.1)
  }

  /** One argument: backslashes are special only in front of a quote. */
  function ReadArgument(text: string, inQuotes: bool, slashes: nat): (r: (string, string))
    ensures |r.1| <= |text|
    ensures text != "" && !(Blank(text[0]) && !inQuotes) ==> |r.1| < |text|
  {
    if text == "" || (Blank(text[0]) && !inQuotes) then (Backslashes(slashes), text)
    else if text[0] == '\\' then ReadArgument(text[1..], inQuotes, slashes + 1)
    else if text[0] != '"' then Emit(Backslashes(slashes) + [text[0]], ReadArgument(text[1..], inQuotes, 0))
    else if slashes % 2 == 1 then Emit(Backslashes(slashes / 2) + "\"", ReadArgument(text[1..], inQuotes, 0))
    else if inQuotes && |text| > 1 && text[1] == '"'
         then Emit(Backslashes(slashes / 2) + "\"", ReadArgument(text[2..], true, 0))
    else Emit(Backslashes(slashes / 2), ReadArgument(text[1..], !inQuotes, 0))
  }

  function ReadArguments(text: string): seq<string>
    decreases |text|
  {
    if text == "" then []
    else if Blank(text[0]) then ReadArguments(text[1..])
    else
      var (argument, rest) := ReadArgument(text, false, 0);
      [argument] + ReadArguments(rest)
  }

  /** The argument vector a program started with this command line sees. */
  function SplitCommandLine(text: string): seq<string> {
    var (name, rest) := ReadProgram(text, false);
    [name] + ReadArguments(rest)
  }

  // ----- the round trip

  /** What follows an argument on the line: nothing, or a blank. */
  predicate Ends(tail: string) {
    tail == "" || Blank(tail[0])
  }

  lemma {:induction false} ReadsBackslashes(n: nat, rest: string, inQuotes: bool, slashes: nat)
    ensures ReadArgument(Backslashes(n) + rest, inQuotes, slashes) == ReadArgument(rest, inQuotes, slashes + n)
  {
    if n == 0 {
      assert Backslashes(n) + rest == rest;
    } else {
      var text := Backslashes(n) + rest;
      assert text[0] == '\\' && text[1..] == Backslashes(n - 1) + rest;
      ReadsBackslashes(n - 1, rest, inQuotes, slashes + 1);
    }
  }

  lemma {:induction false} OneMoreBackslash(n: nat)
    ensures Backslashes(n + 1) == Backslashes(n) + "\\"
  {
    if n > 0 { OneMoreBackslash(n - 1); }
  }

  lemma Regroup(a: string, b: string, c: string)
    ensures a + (b + c) == (a + b) + c
    ensures "" + a == a && a + "" == a
  {
  }

  /** Inside quotes, the quoted rest and the closing quote read as the value, held-back backslashes included. */
  lemma {:induction false} QuotedRestReads(value: string, backslashes: nat, tail: string)
    requires Ends(tail)
    ensures ReadArgument(QuoteRest(value, backslashes) + ("\"" + tail), true, 0)
            == (Backslashes(backslashes) + value, tail)
    decreases |value|
  {
    hide ReadArgument, Backslashes;
    var close := "\"" + tail;
    if value == "" {
      ReadsBackslashes(2 * backslashes, close, true, 0);
      ClosingQuoteReads(backslashes, 2 * backslashes, tail);
      Regroup(Backslashes(backslashes), "", "");
    } else {
      var c, more := value[0], value[1..];
      assert value == [c] + more;
      if c == '\\' {
        QuotedRestReads(more, backslashes + 1, tail);
        OneMoreBackslash(backslashes);
        Regroup(Backslashes(backslashes), "\\", more);
      } else {
        QuotedRestReads(more, 0, tail);
        NoBackslashes();
        Regroup(more, "", "");
        Regroup(Backslashes(backslashes), [c], more);
        Regroup(Backslashes(backslashes), [c], QuoteRest(more, 0) + close);
        if c == '"' {
          var slashes := Backslashes(2 * backslashes + 1);
          Regroup(slashes, "\"", QuoteRest(more, 0));
          Regroup(slashes, "\"" + QuoteRest(more, 0), close);
          Regroup("\"", QuoteRest(more, 0), close);
          ReadsBackslashes(2 * backslashes + 1, "\"" + (QuoteRest(more, 0) + close), true, 0);
          EscapedQuoteReads(backslashes, 2 * backslashes + 1, QuoteRest(more, 0) + close);
        } else {
          Regroup(Backslashes(backslashes), [c], QuoteRest(more, 0));
          Regroup(Backslashes(backslashes), [c] + QuoteRest(more, 0), close);
          Regroup([c], QuoteRest(more, 0), close);
          ReadsBackslashes(backslashes, [c] + (QuoteRest(more, 0) + close), true, 0);
          PlainCharacterReads(c, backslashes, QuoteRest(more, 0) + close, true);
        }
      }
    }
  }

  lemma NoBackslashes()
    ensures Backslashes(0) == ""
  {
  }

  lemma ClosingQuoteReads(backslashes: nat, slashes: nat, tail: string)
    requires Ends(tail) && slashes == 2 * backslashes
    ensures ReadArgument("\"" + tail, true, slashes) == (Backslashes(backslashes), tail)
  {
    hide Backslashes;
    var text := "\"" + tail;
    assert text[0] == '"' && text[1..] == tail;
    assert slashes % 2 == 0 && slashes / 2 == backslashes;
    assert ReadArgument(tail, false, 0) == (Backslashes(0), tail);
    NoBackslashes();
    Regroup(Backslashes(backslashes), "", "");
  }

  lemma EscapedQuoteReads(backslashes: nat, slashes: nat, more: string)
    requires slashes == 2 * backslashes + 1
    ensures ReadArgument("\"" + more, true, slashes)
            == Emit(Backslashes(backslashes) + "\"", ReadArgument(more, true, 0))
  {
    hide Backslashes;
    var text := "\"" + more;
    assert text[0] == '"' && text[1..] == more;
    assert slashes % 2 == 1 && slashes / 2 == backslashes;
  }

  lemma PlainCharacterReads(c: char, backslashes: nat, more: string, inQuotes: bool)
    requires c != '\\' && c != '"' && (inQuotes || !Blank(c))
    ensures ReadArgument([c] + more, inQuotes, backslashes) ==
            Emit(Backslashes(backslashes) + [c], ReadArgument(more, inQuotes, 0))
  {
    assert ([c] + more)[1..] == more;
  }

  lemma {:induction false} BareValueReads(value: string, backslashes: nat, tail: string)
    requires Ends(tail) && forall i :: 0 <= i < |value| ==> !Special(value[i])
    ensures ReadArgument(value + tail, false, backslashes) == (Backslashes(backslashes) + value, tail)
    decreases |value|
  {
    if value == "" {
      assert value + tail == tail && Backslashes(backslashes) + value == Backslashes(backslashes);
    } else {
      assert (value + tail)[1..] == value[1..] + tail && (value + tail)[0] == value[0];
      if value[0] == '\\' {
        BareValueReads(value[1..], backslashes + 1, tail);
        OneMoreBackslash(backslashes);
        assert Backslashes(backslashes + 1) + value[1..] == Backslashes(backslashes) + value;
      } else {
        BareValueReads(value[1..], 0, tail);
        assert Backslashes(backslashes) + [value[0]] + ("" + value[1..]) == Backslashes(backslashes) + value;
      }
    }
  }

  /** A quoted argument reads back as itself, and the line goes on after it. */
  lemma ArgumentReadsBack(value: string, tail: string)
    requires Ends(tail)
    ensures Quoted(value) != "" && !Blank(Quoted(value)[0])
    ensures ReadArgument(Quoted(value) + tail, false, 0) == (value, tail)
  {
    hide QuoteRest;
    if NeedsQuotes(value) {
      var more := QuoteRest(value, 0) + ("\"" + tail);
      var text := Quoted(value) + tail;
      assert text == "\"" + more;
      assert text[1..] == more;
      QuotedRestReads(value, 0, tail);
      assert "" + ("" + value) == value;
    } else {
      BareValueReads(value, 0, tail);
      assert "" + value == value;
      assert !Special(value[0]);
    }
  }

  lemma {:induction false} ArgumentsReadBack(arguments: seq<string>)
    ensures ReadArguments(QuotedTail(arguments)) == arguments
  {
    hide ReadArgument, Quoted;
    if arguments != [] {
      var tail := QuotedTail(arguments[1..]);
      var text := Quoted(arguments[0]) + tail;
      ArgumentsReadBack(arguments[1..]);
      ArgumentReadsBack(arguments[0], tail);
      assert QuotedTail(arguments) == " " + text;
      assert (" " + text)[1..] == text;
    }
  }

  // ----- the program name

  predicate HasQuote(value: string) {
    exists i :: 0 <= i < |value| && value[i] == '"'
  }

  predicate EndsWithBackslash(value: string) {
    value != "" && value[|value| - 1] == '\\'
  }

  /** Length of the run of backslashes at the end, with a run of the given length before the value. */
  function TrailingRun(value: string, before: nat): nat {
    if value == "" then before else TrailingRun(value[1..], if value[0] == '\\' then before + 1 else 0)
  }

  lemma {:induction false} TrailingRunMeans(value: string, before: nat)
    requires value != ""
    ensures TrailingRun(value, before) > 0 <==> EndsWithBackslash(value)
    decreases |value|
  {
    if |value| > 1 { TrailingRunMeans(value[1..], if value[0] == '\\' then before + 1 else 0); }
  }

  lemma {:induction false} ProgramHasNoQuote(text: string, inQuotes: bool)
    ensures !HasQuote(ReadProgram(text, inQuotes).0)
  {
    if text != "" && !(Blank(text[0]) && !inQuotes) {
      ProgramHasNoQuote(text[1..], if text[0] == '"' then !inQuotes else inQuotes);
    }
  }

  lemma {:induction false} ProgramReadsPlain(value: string, tail: string, inQuotes: bool)
    requires !HasQuote(value) && (inQuotes || forall i :: 0 <= i < |value| ==> !Blank(value[i]))
    ensures ReadProgram(value + tail, inQuotes) == Emit(value, ReadProgram(tail, inQuotes))
  {
    var after := ReadProgram(tail, inQuotes);
    if value == "" {
      assert value + tail == tail && "" + after.0 == after.0;
    } else {
      assert (value + tail)[1..] == value[1..] + tail && (value + tail)[0] == value[0];
      assert [value[0]] + (value[1..] + after.0) == value + after.0;
      assert !HasQuote(value[1..]) by { assert forall i :: 0 <= i < |value[1..]| ==> value[1..][i] == value[i + 1]; }
      ProgramReadsPlain(value[1..], tail, inQuotes);
    }
  }

  /** Without quotes in the value, quoting only doubles the backslashes at the very end. */
  lemma {:induction false} QuotedWithoutQuotes(value: string, backslashes: nat)
    requires !HasQuote(value)
    ensures QuoteRest(value, backslashes)
            == Backslashes(backslashes) + value + Backslashes(TrailingRun(value, backslashes))
    decreases |value|
  {
    if value == "" {
      AddBackslashes(backslashes, backslashes);
      Regroup(Backslashes(backslashes), "", "");
    } else {
      var c, more := value[0], value[1..];
      assert value == [c] + more && c != '"';
      assert !HasQuote(more) by { assert forall i :: 0 <= i < |more| ==> more[i] == value[i + 1]; }
      hide Backslashes, HasQuote;
      var end := Backslashes(TrailingRun(value, backslashes));
      if c == '\\' {
        QuotedWithoutQuotes(more, backslashes + 1);
        OneMoreBackslash(backslashes);
        Regroup(Backslashes(backslashes), "\\", more);
      } else {
        QuotedWithoutQuotes(more, 0);
        NoBackslashes();
        Regroup(more, "", "");
        Regroup(Backslashes(backslashes), [c], more + end);
        Regroup([c], more, end);
        Regroup(Backslashes(backslashes), value, end);
      }
    }
  }

  lemma {:induction false} AddBackslashes(m: nat, n: nat)
    ensures Backslashes(m) + Backslashes(n) == Backslashes(m + n)
  {
    if m > 0 { AddBackslashes(m - 1, n); }
  }

  lemma {:induction false} BackslashesLength(n: nat)
    ensures |Backslashes(n)| == n
  {
    if n > 0 { BackslashesLength(n - 1); }
  }

  /** The program names that survive: no quote, and no backslash in front of an added closing quote. */
  predicate PlainProgram(executable: string) {
    !HasQuote(executable) && (NeedsQuotes(executable) ==> !EndsWithBackslash(executable))
  }

  lemma ProgramReadsBack(executable: string, tail: string)
    requires Ends(tail)
    ensures ReadProgram(Quoted(executable) + tail, false).0 == executable <==> PlainProgram(executable)
    ensures PlainProgram(executable) ==> ReadProgram(Quoted(executable) + tail, false).1 == tail
  {
    if HasQuote(executable) {
      ProgramHasNoQuote(Quoted(executable) + tail, false);
    } else if NeedsQuotes(executable) {
      QuotedProgramReads(executable, tail);
      BackslashesLength(TrailingRun(executable, 0));
      if executable != "" { TrailingRunMeans(executable, 0); }
      Regroup(executable, "", "");
    } else {
      ProgramReadsPlain(executable, tail, false);
      assert executable + "" == executable;
    }
  }

  lemma QuotedProgramReads(executable: string, tail: string)
    requires Ends(tail) && !HasQuote(executable) && NeedsQuotes(executable)
    ensures ReadProgram(Quoted(executable) + tail, false)
            == (executable + Backslashes(TrailingRun(executable, 0)), tail)
  {
    hide QuoteRest, NeedsQuotes, TrailingRun;
    var name := executable + Backslashes(TrailingRun(executable, 0));
    QuotedWithoutQuotes(executable, 0);
    assert Backslashes(TrailingRun(executable, 0)) + "" == Backslashes(TrailingRun(executable, 0));
    assert "" + executable == executable;
    BackslashesNoQuote(executable, TrailingRun(executable, 0));
    var inside := name + ("\"" + tail);
    assert Quoted(executable) + tail == "\"" + inside;
    assert ("\"" + inside)[1..] == inside;
    ProgramReadsPlain(name, "\"" + tail, true);
    assert ("\"" + tail)[1..] == tail;
    assert name + "" == name;
  }

  lemma {:induction false} BackslashesNoQuote(value: string, n: nat)
    requires !HasQuote(value)
    ensures !HasQuote(value + Backslashes(n))
    decreases n
  {
    if n == 0 {
      assert value + Backslashes(0) == value;
    } else {
      BackslashesNoQuote(value + "\\", n - 1);
      assert value + Backslashes(n) == value + "\\" + Backslashes(n - 1);
    }
  }

  /**
   * The command line is read back as exactly the executable and its arguments, whatever the arguments,
   * if and only if the executable holds no quote and does not end in a backslash inside added quotes.
   */
  lemma CommandLineRoundTrip(executable: string, arguments: seq<string>)
    ensures SplitCommandLine(Quoted(executable) + QuotedTail(arguments)) == [executable] + arguments
            <==> PlainProgram(executable)
  {
    hide ReadProgram, ReadArguments, Quoted, PlainProgram;
    var tail := QuotedTail(arguments);
    ProgramReadsBack(executable, tail);
    ArgumentsReadBack(arguments);
    var (name, rest) := ReadProgram(Quoted(executable) + tail, false);
    assert ([name] + ReadArguments(rest))[0] == name;
    assert ([executable] + arguments)[0] == executable;
  }
}
