/** Swapping the two sides of a patch undoes it, exactly when the patched text can be read back line by line. */
module PatchInverse {
  import opened Results
  import opened ExactLines
  import opened Hunks

  function InvertKind(kind: Kind): Kind {
    match kind
    case Context => Context
    case Remove => Add
    case Add => Remove
  }

  function InvertBody(body: seq<BodyLine>): seq<BodyLine> {
    if body == [] then [] else [body[0].(kind := InvertKind(body[0].kind))] + InvertBody(body[1..])
  }

  function Invert(h: Hunk): Hunk {
    Hunk(h.newStart, h.newCount, h.oldStart, h.oldCount, InvertBody(h.body))
  }

  function InvertAll(hunks: seq<Hunk>): seq<Hunk> {
    if hunks == [] then [] else [Invert(hunks[0])] + InvertAll(hunks[1..])
  }

  lemma {:induction false} InvertedSides(body: seq<BodyLine>)
    ensures |OldSide(InvertBody(body))| == |NewSide(body)|
    ensures |NewSide(InvertBody(body))| == |OldSide(body)|
  {
    if body != [] { InvertedSides(body[1..]); }
  }

  /** The inverted body matches the image it made and gives back the lines it matched. */
  lemma {:induction false} BodyInverts(body: seq<BodyLine>, olds: seq<Line>, tail: seq<Line>)
    requires Matches(body, olds) && NoCrLf(olds)
    ensures |OldSide(body)| <= |olds|
    ensures BodyRestores(body, olds, tail)
  {
    if body == [] {
      assert olds[..0] == [];
    } else {
      var rest := if body[0].kind == Add then olds else olds[1..];
      assert NoCrLf(rest) by { assert forall i :: 0 <= i < |rest| ==> rest[i] in olds; }
      BodyInverts(body[1..], rest, tail);
      match body[0].kind
      case Add => AddInverts(body, olds, tail);
      case Remove => RemoveInverts(body, olds, tail);
      case Context => ContextInverts(body, olds, tail);
    }
  }

  predicate BodyRestores(body: seq<BodyLine>, olds: seq<Line>, tail: seq<Line>)
    requires Matches(body, olds) && |OldSide(body)| <= |olds|
  {
    && Matches(InvertBody(body), Image(body, olds, Lf) + tail)
    && Image(InvertBody(body), Image(body, olds, Lf) + tail, Lf) == olds[..|OldSide(body)|]
  }

  lemma AddInverts(body: seq<BodyLine>, olds: seq<Line>, tail: seq<Line>)
    requires body != [] && body[0].kind == Add && Matches(body, olds) && |OldSide(body[1..])| <= |olds|
    requires BodyRestores(body[1..], olds, tail)
    ensures BodyRestores(body, olds, tail)
  {
    InvertFirst(body);
    assert (Image(body, olds, Lf) + tail)[1..] == Image(body[1..], olds, Lf) + tail;
  }

  lemma RemoveInverts(body: seq<BodyLine>, olds: seq<Line>, tail: seq<Line>)
    requires body != [] && body[0].kind == Remove && Matches(body, olds) && |OldSide(body[1..])| <= |olds| - 1
    requires olds[0].ending != CrLf && BodyRestores(body[1..], olds[1..], tail)
    ensures BodyRestores(body, olds, tail)
  {
    InvertFirst(body);
    FirstAndRest(olds, |OldSide(body[1..])|);
  }

  lemma ContextInverts(body: seq<BodyLine>, olds: seq<Line>, tail: seq<Line>)
    requires body != [] && body[0].kind == Context && Matches(body, olds) && |OldSide(body[1..])| <= |olds| - 1
    requires BodyRestores(body[1..], olds[1..], tail)
    ensures BodyRestores(body, olds, tail)
  {
    InvertFirst(body);
    FirstAndRest(olds, |OldSide(body[1..])|);
    assert (Image(body, olds, Lf) + tail)[1..] == Image(body[1..], olds[1..], Lf) + tail;
  }

  lemma InvertFirst(body: seq<BodyLine>)
    requires body != []
    ensures InvertBody(body)[0] == body[0].(kind := InvertKind(body[0].kind))
            && InvertBody(body)[1..] == InvertBody(body[1..])
  {
  }

  lemma FirstAndRest(olds: seq<Line>, n: nat)
    requires n < |olds|
    ensures [olds[0]] + olds[1..][..n] == olds[..n + 1]
  {
  }

  lemma Concat3(a: seq<Line>, b: seq<Line>, c: seq<Line>, d: seq<Line>)
    ensures a + (b + c + d) == (a + b + c) + d
    ensures (a + (b + c + d))[|a| + |b|..] == c + d
    ensures (a + (b + c + d))[|a|..|a| + |b|] == b
  {
  }

  /** On lines that end in LF or not at all, the inverted hunks applied to the result restore the original. */
  lemma {:induction false} OutcomeInverts(original: seq<Line>, hunks: seq<Hunk>, from: nat, offset: int,
                                          done: seq<Line>)
    requires from <= |original| && NoCrLf(original) && |done| == from + offset
    requires Outcome(original, Lf, hunks, from, offset).Ok?
    ensures Outcome(done + Outcome(original, Lf, hunks, from, offset).value, Lf, InvertAll(hunks), from + offset,
                    -offset)
            == Ok(original[from..])
    decreases |hunks|
  {
    hide Matches, Image, OldSide, NewSide, InvertBody, Index;
    var result := Outcome(original, Lf, hunks, from, offset).value;
    if hunks == [] {
      assert (done + result)[from + offset..] == result;
    } else {
      var h := hunks[0];
      var at := Index(h.oldStart, h.oldCount);
      var image := Image(h.body, original[at..], Lf);
      var end, growth := at + h.oldCount, offset + h.newCount - h.oldCount;
      MatchesAt(h.body, original[at..]);
      var tail := Outcome(original, Lf, hunks[1..], end, growth).value;
      assert result == original[from..at] + image + tail;
      Concat3(done, original[from..at], image, tail);
      var news := done + result;
      assert NoCrLf(original[at..]) by { assert forall i :: 0 <= i < |original| - at ==>
                                        original[at..][i] == original[at + i]; }
      BodyInverts(h.body, original[at..], tail);
      InvertedSides(h.body);
      ImageLength(h.body, original[at..], Lf);
      OutcomeInverts(original, hunks[1..], end, growth, done + original[from..at] + image);
      assert InvertAll(hunks)[0] == Invert(h) && InvertAll(hunks)[1..] == InvertAll(hunks[1..]);
      InvertedStep(original, news, h, InvertAll(hunks[1..]), from, offset, at, image);
    }
  }

  lemma InvertedStep(original: seq<Line>, news: seq<Line>, h: Hunk, rest: seq<Hunk>, from: nat, offset: int, at: nat,
                     image: seq<Line>)
    requires 0 <= from + offset <= at + offset && from <= at && at + h.oldCount <= |original|
             && at + offset + h.newCount <= |news|
    requires at == Index(h.oldStart, h.oldCount) && at + offset == Index(h.newStart, h.newCount)
    requires Matches(InvertBody(h.body), news[at + offset..])
    requires Image(InvertBody(h.body), news[at + offset..], Lf) == original[at..at + h.oldCount]
    requires |OldSide(InvertBody(h.body))| == h.newCount
    requires news[from + offset..at + offset] == original[from..at]
    requires Outcome(news, Lf, rest, at + offset + h.newCount, h.oldCount - h.newCount - offset)
             == Ok(original[at + h.oldCount..])
    ensures Outcome(news, Lf, [Invert(h)] + rest, from + offset, -offset) == Ok(original[from..])
  {
    hide Matches, Image, OldSide, NewSide, InvertBody;
    assert ([Invert(h)] + rest)[1..] == rest;
    assert original[from..] == original[from..at] + original[at..at + h.oldCount] + original[at + h.oldCount..];
  }

  // ----- from lines to text

  predicate NoBreaks(s: string) {
    forall i :: 0 <= i < |s| ==> s[i] != '\n' && s[i] != '\r'
  }

  predicate NoCr(s: string) {
    forall i :: 0 <= i < |s| ==> s[i] != '\r'
  }

  /** Lines of an LF-only text. */
  predicate Plain(lines: seq<Line>) {
    forall i :: 0 <= i < |lines| ==> NoBreaks(lines[i].content) && lines[i].ending != CrLf
  }

  predicate PlainHunks(hunks: seq<Hunk>) {
    forall h :: h in hunks ==> PlainBody(h.body)
  }

  predicate PlainBody(body: seq<BodyLine>) {
    forall i :: 0 <= i < |body| ==> NoBreaks(body[i].content)
  }

  /** The only line without an ending is the last one, and it is not empty. */
  predicate MissingOnlyLast(lines: seq<Line>) {
    forall i :: 0 <= i < |lines| && lines[i].ending == Missing ==> i == |lines| - 1 && lines[i].content != ""
  }

  lemma {:induction false} ImagePlain(body: seq<BodyLine>, olds: seq<Line>)
    requires Matches(body, olds) && PlainBody(body) && Plain(olds)
    ensures Plain(Image(body, olds, Lf))
  {
    if body != [] {
      assert PlainBody(body[1..]) by { assert forall i :: 0 <= i < |body[1..]| ==> body[1..][i] == body[i + 1]; }
      var rest := if body[0].kind == Add then olds else olds[1..];
      assert Plain(rest) by { assert forall i :: 0 <= i < |rest| ==> rest[i] in olds; }
      ImagePlain(body[1..], rest);
    }
  }

  lemma {:induction false} OutcomePlain(original: seq<Line>, hunks: seq<Hunk>, from: nat, offset: int)
    requires from <= |original| && Plain(original) && PlainHunks(hunks)
    requires Outcome(original, Lf, hunks, from, offset).Ok?
    ensures Plain(Outcome(original, Lf, hunks, from, offset).value)
    decreases |hunks|
  {
    hide Matches, Image, OldSide, NewSide, Index, PlainBody, NoBreaks;
    if hunks != [] {
      var h := hunks[0];
      var at := Index(h.oldStart, h.oldCount);
      MatchesAt(h.body, original[at..]);
      assert PlainBody(h.body);
      ImagePlain(h.body, original[at..]);
      OutcomePlain(original, hunks[1..], at + h.oldCount, offset + h.newCount - h.oldCount);
    }
  }

  lemma {:induction false} PlainLines(text: string)
    requires NoCr(text)
    ensures Plain(Lines(text))
    decreases |text|
  {
    if text != "" {
      var n := FirstLf(text);
      FirstLfStops(text);
      if n < |text| {
        PlainLines(text[n + 1..]);
        assert Lines(text) == [Line(text[..n], Lf)] + Lines(text[n + 1..]);
      }
    }
  }

  lemma {:induction false} PlainJoin(lines: seq<Line>)
    requires Plain(lines)
    ensures NoCr(Join(lines))
  {
    if lines != [] {
      assert Plain(lines[1..]) by { assert forall i :: 0 <= i < |lines[1..]| ==> lines[1..][i] == lines[i + 1]; }
      PlainJoin(lines[1..]);
    }
  }

  lemma PlainNoCrLf(lines: seq<Line>)
    requires Plain(lines)
    ensures NoCrLf(lines) && PreferredEnding(lines) == Lf
  {
    NoCrLfPrefersLf(lines);
  }

  lemma {:induction false} PlainWellFormed(lines: seq<Line>)
    requires Plain(lines) && MissingOnlyLast(lines)
    ensures WellFormed(lines)
  {
    if lines != [] {
      var rest := lines[1..];
      assert Plain(rest) && MissingOnlyLast(rest) by {
        assert forall i :: 0 <= i < |rest| ==> rest[i] == lines[i + 1];
      }
      PlainWellFormed(rest);
      assert NoBreaks(lines[0].content);
    }
  }

  lemma UnendedPrefix(prefix: string, rest: string)
    requires NoBreaks(prefix) && rest != ""
    ensures |Lines(prefix + rest)| == |Lines(rest)|
  {
    hide Lines, FirstLf, LineUpTo;
    var n := FirstLf(rest);
    FirstLfStops(rest);
    var text := prefix + rest;
    if n < |rest| {
      LinesAt(rest, n);
      LinesAt(text, |prefix| + n);
      assert text[|prefix| + n + 1..] == rest[n + 1..];
    } else {
      LinesUnended(rest);
      LinesUnended(text);
    }
  }

  /** Joining and splitting again never makes lines, and loses some unless the missing ending is only the last one. */
  lemma {:induction false} ResplitCount(lines: seq<Line>)
    requires Plain(lines)
    ensures |Lines(Join(lines))| <= |lines|
    ensures !MissingOnlyLast(lines) ==> |Lines(Join(lines))| < |lines|
  {
    if lines != [] {
      var line, rest := lines[0], lines[1..];
      assert Plain(rest) by { assert forall i :: 0 <= i < |rest| ==> rest[i] == lines[i + 1]; }
      ResplitCount(rest);
      assert NoBreaks(line.content);
      if line.ending == Missing {
        assert Print(line) == line.content;
        if Join(rest) != "" {
          UnendedPrefix(line.content, Join(rest));
        } else {
          assert Join(lines) == line.content;
          if line.content != "" { LinesUnended(line.content); }
        }
      } else {
        LinesOfPrinted(line, Join(rest));
        if MissingOnlyLast(rest) { assert forall i :: 0 < i < |lines| ==> lines[i] == rest[i - 1]; }
      }
    }
  }

  lemma {:induction false} InvertedGrowth(hunks: seq<Hunk>)
    ensures Growth(InvertAll(hunks)) == -Growth(hunks)
  {
    if hunks != [] {
      InvertedSides(hunks[0].body);
      InvertedGrowth(hunks[1..]);
      assert InvertAll(hunks)[1..] == InvertAll(hunks[1..]);
    }
  }

  lemma {:induction false} InvertedPlain(hunks: seq<Hunk>)
    requires PlainHunks(hunks)
    ensures PlainHunks(InvertAll(hunks))
  {
    if hunks != [] {
      InvertedPlain(hunks[1..]);
      InvertedBodyPlain(hunks[0].body);
    }
  }

  lemma {:induction false} InvertedBodyPlain(body: seq<BodyLine>)
    requires PlainBody(body)
    ensures PlainBody(InvertBody(body))
  {
    if body != [] {
      assert PlainBody(body[1..]) by { assert forall i :: 0 <= i < |body[1..]| ==> body[1..][i] == body[i + 1]; }
      InvertedBodyPlain(body[1..]);
    }
  }

  // ----- when no line is merged with the next

  predicate AllEnded(lines: seq<Line>) {
    forall i :: 0 <= i < |lines| ==> lines[i].ending != Missing
  }

  /** A new line without an ending is not empty and nothing follows it, in its hunk or later. */
  predicate EndsWell(body: seq<BodyLine>, later: bool) {
    if body == [] then true
    else
      && EndsWell(body[1..], later)
      && (body[0].kind != Remove && body[0].noNewline ==> body[0].content != "" && NewSide(body[1..]) == [] && !later)
  }

  /** The patched text has lines behind the first from original ones. */
  predicate GoesOn(original: seq<Line>, hunks: seq<Hunk>, from: nat) {
    if hunks == [] then from < |original|
    else
      var at := Index(hunks[0].oldStart, hunks[0].oldCount);
      from < at || NewSide(hunks[0].body) != [] || GoesOn(original, hunks[1..], EndOf(hunks[0]))
  }

  function EndOf(h: Hunk): nat {
    var at := Index(h.oldStart, h.oldCount);
    if at + h.oldCount < 0 then 0 else at + h.oldCount
  }

  /**
   * The patch merges no lines: nothing comes after the last line of a text that does not end in a line feed, unless
   * that line is replaced, and nothing comes after a line that a hunk leaves without one.
   */
  predicate MergesNothing(original: seq<Line>, hunks: seq<Hunk>, from: nat) {
    if hunks == [] then true
    else
      var at, later := Index(hunks[0].oldStart, hunks[0].oldCount), GoesOn(original, hunks[1..], EndOf(hunks[0]));
      && (from < at == |original| && original[at - 1].ending == Missing ==> NewSide(hunks[0].body) == [] && !later)
      && EndsWell(hunks[0].body, later)
      && MergesNothing(original, hunks[1..], EndOf(hunks[0]))
  }

  lemma MissingConcat(a: seq<Line>, b: seq<Line>)
    ensures MissingOnlyLast(a + b) <==> MissingOnlyLast(b) && if b == [] then MissingOnlyLast(a) else AllEnded(a)
  {
    var all := a + b;
    assert forall i :: 0 <= i < |b| ==> all[|a| + i] == b[i];
    assert forall i :: 0 <= i < |a| ==> all[i] == a[i];
    if b == [] {
      assert all == a;
    } else if MissingOnlyLast(all) {
      forall i | 0 <= i < |a| ensures a[i].ending != Missing { assert all[i] == a[i]; }
      forall i | 0 <= i < |b| && b[i].ending == Missing
        ensures i == |b| - 1 && b[i].content != ""
      {
        assert all[|a| + i] == b[i];
      }
    }
  }

  /** The lines a hunk leaves behind are ended, or ended but for the last one, exactly as its body says. */
  lemma {:induction false} ImageEnds(body: seq<BodyLine>, olds: seq<Line>, later: bool)
    requires Matches(body, olds)
    ensures |Image(body, olds, Lf)| == |NewSide(body)|
    ensures EndsWell(body, later) <==>
            if later then AllEnded(Image(body, olds, Lf)) else MissingOnlyLast(Image(body, olds, Lf))
  {
    if body != [] {
      var rest := if body[0].kind == Add then olds else olds[1..];
      ImageEnds(body[1..], rest, later);
      if body[0].kind != Remove {
        var line := if body[0].kind == Add then Line(body[0].content, if body[0].noNewline then Missing else Lf)
          else olds[0];
        var image := Image(body[1..], rest, Lf);
        assert Image(body, olds, Lf) == [line] + image && line.content == body[0].content;
        hide Matches, Image;
        FirstEnds(line, image);
      }
    }
  }

  lemma FirstEnds(line: Line, rest: seq<Line>)
    ensures MissingOnlyLast([line] + rest)
       <==> MissingOnlyLast(rest) && (line.ending == Missing ==> rest == [] && line.content != "")
    ensures AllEnded([line] + rest) <==> AllEnded(rest) && line.ending != Missing
  {
    MissingConcat([line], rest);
    var all := [line] + rest;
    assert forall i :: 0 <= i < |rest| ==> all[i + 1] == rest[i];
    assert all[0] == line && [line][0] == line;
  }

  lemma FrontEnds(original: seq<Line>, from: nat, at: nat)
    requires MissingOnlyLast(original) && from <= at <= |original|
    ensures MissingOnlyLast(original[from..at])
    ensures AllEnded(original[from..at]) <==> !(from < at == |original| && original[at - 1].ending == Missing)
  {
    var front := original[from..at];
    assert forall i :: 0 <= i < |front| ==> front[i] == original[from + i];
    if from < at { assert front[|front| - 1] == original[at - 1]; }
  }

  /** The patched lines miss an ending only on a last, nonempty line exactly when the patch merges nothing. */
  lemma {:induction false} MergesNothingExactly(original: seq<Line>, hunks: seq<Hunk>, from: nat, offset: int)
    requires MissingOnlyLast(original) && from <= |original| && Outcome(original, Lf, hunks, from, offset).Ok?
    ensures var result := Outcome(original, Lf, hunks, from, offset).value;
            && (GoesOn(original, hunks, from) <==> result != [])
            && (MergesNothing(original, hunks, from) <==> MissingOnlyLast(result))
    decreases |hunks|
  {
    hide Outcome, Matches, Image, OldSide, NewSide, Index, EndsWell, MissingOnlyLast, AllEnded, GoesOn, MergesNothing;
    hide EndOf;
    if hunks == [] {
      NoHunksMergeNothing(original, from, offset);
    } else {
      var h := hunks[0];
      var at := Index(h.oldStart, h.oldCount);
      OutcomeFirst(original, Lf, hunks, from, offset);
      EndIs(h);
      var front, image := original[from..at], Image(h.body, original[at..], Lf);
      var rest := Outcome(original, Lf, hunks[1..], at + h.oldCount, offset + h.newCount - h.oldCount).value;
      PatchFirst(original, hunks, from);
      MergesNothingExactly(original, hunks[1..], at + h.oldCount, offset + h.newCount - h.oldCount);
      ImageEnds(h.body, original[at..], rest != []);
      FrontEnds(original, from, at);
      ThreeEnds(front, image, rest);
    }
  }

  lemma NoHunksMergeNothing(original: seq<Line>, from: nat, offset: int)
    requires MissingOnlyLast(original) && from <= |original|
    ensures Outcome(original, Lf, [], from, offset) == Ok(original[from..]) && MissingOnlyLast(original[from..])
    ensures MergesNothing(original, [], from) && (GoesOn(original, [], from) <==> original[from..] != [])
  {
    FrontEnds(original, from, |original|);
    assert original[from..|original|] == original[from..];
  }

  lemma EndIs(h: Hunk)
    ensures Index(h.oldStart, h.oldCount) + h.oldCount >= 0 ==> EndOf(h) == Index(h.oldStart, h.oldCount) + h.oldCount
  {
  }

  lemma PatchFirst(original: seq<Line>, hunks: seq<Hunk>, from: nat)
    requires hunks != []
    ensures var h := hunks[0];
            var at, later := Index(h.oldStart, h.oldCount), GoesOn(original, hunks[1..], EndOf(h));
            && (GoesOn(original, hunks, from) <==> from < at || NewSide(h.body) != [] || later)
            && (MergesNothing(original, hunks, from) <==>
                  && (from < at == |original| && original[at - 1].ending == Missing ==> NewSide(h.body) == [] && !later)
                  && EndsWell(h.body, later)
                  && MergesNothing(original, hunks[1..], EndOf(h)))
  {
    hide Index, EndOf, NewSide, EndsWell;
  }

  lemma ThreeEnds(a: seq<Line>, b: seq<Line>, c: seq<Line>)
    ensures MissingOnlyLast(a + b + c)
       <==> && MissingOnlyLast(c)
            && (if c == [] then MissingOnlyLast(b) else AllEnded(b))
            && (if b == [] && c == [] then MissingOnlyLast(a) else AllEnded(a))
  {
    MissingConcat(b, c);
    MissingConcat(a, b + c);
    hide MissingOnlyLast, AllEnded;
    assert a + b + c == a + (b + c);
    assert b + c == [] <==> b == [] && c == [];
  }

  lemma {:induction false} SplitMissingOnlyLast(text: string)
    ensures MissingOnlyLast(Lines(text))
  {
    SplitIsLossless(text);
    WellFormedEnds(Lines(text));
  }

  lemma {:induction false} WellFormedEnds(lines: seq<Line>)
    requires WellFormed(lines)
    ensures MissingOnlyLast(lines)
  {
    if lines != [] {
      WellFormedEnds(lines[1..]);
      assert [lines[0]] + lines[1..] == lines;
      FirstEnds(lines[0], lines[1..]);
    }
  }

  /**
   * Patches invert. On an LF-only text and an LF-only patch that applies, the swapped patch restores the text
   * if and only if the patch merges no lines.
   */
  lemma PatchInverts(text: string, hunks: seq<Hunk>, result: seq<Line>)
    requires NoCr(text) && PlainHunks(hunks)
    requires Outcome(Lines(text), Lf, hunks, 0, 0) == Ok(result)
    ensures Patched(text, hunks) == Ok(Join(result))
    ensures Patched(Join(result), InvertAll(hunks)) == Ok(text) <==> MergesNothing(Lines(text), hunks, 0)
  {
    hide Outcome, InvertAll, Plain, NoCr, PlainHunks, MissingOnlyLast, Lines, Join, PreferredEnding, MergesNothing;
    hide GoesOn;
    PlainLines(text);
    PlainNoCrLf(Lines(text));
    OutcomePlain(Lines(text), hunks, 0, 0);
    SplitMissingOnlyLast(text);
    MergesNothingExactly(Lines(text), hunks, 0, 0);
    if MissingOnlyLast(result) {
      RestoresWhenReadable(text, hunks, result);
    } else {
      LosesWhenMerged(text, hunks, result);
    }
  }

  /** A patch that merges two lines: the first line is replaced by one that is said to end the file. */
  lemma MergingPatch(first: string, second: string, added: string)
    requires NoBreaks(first) && NoBreaks(second)
    ensures var hunk := Hunk(1, 1, 1, 1, [BodyLine(Remove, first, false), BodyLine(Add, added, true)]);
            Patched(first + "\n" + second + "\n", [hunk]) == Ok(added + second + "\n")
  {
    hide Lines, Outcome, Join, Matches, Image, PreferredEnding, OldSide, NoCrLf, NoBreaks, Plain;
    var a, b := Line(first, Lf), Line(second, Lf);
    TwoLines(a, b);
    assert first + "\n" + second + "\n" == first + "\n" + (second + "\n");
    TwoPlain(a, b);
    PlainNoCrLf([a, b]);
    var body := [BodyLine(Remove, first, false), BodyLine(Add, added, true)];
    ReplacesFirst(body, [a, b]);
    OneHunkOutcome([a, b], Hunk(1, 1, 1, 1, body));
    JoinTwo(Line(added, Missing), b);
    assert Print(Line(added, Missing)) == added + "" && added + "" + (second + "\n") == added + second + "\n";
    assert [] + [Line(added, Missing)] + [b] == [Line(added, Missing), b];
  }

  lemma TwoLines(a: Line, b: Line)
    requires a.ending == b.ending == Lf && NoBreaks(a.content) && NoBreaks(b.content)
    ensures Lines(Print(a) + Print(b)) == [a, b]
  {
    LinesOfPrinted(a, Print(b));
    LinesOfPrinted(b, "");
    assert Print(b) + "" == Print(b) && [b] + Lines("") == [b];
  }

  lemma TwoPlain(a: Line, b: Line)
    requires a.ending == b.ending == Lf && NoBreaks(a.content) && NoBreaks(b.content)
    ensures Plain([a, b])
  {
  }

  lemma JoinTwo(a: Line, b: Line)
    ensures Join([a, b]) == Print(a) + Print(b)
  {
    assert [a, b][1..] == [b] && [b][1..] == [];
    assert Join([b]) == Print(b) + Join([]);
    assert Print(b) + "" == Print(b);
  }

  lemma ReplacesFirst(body: seq<BodyLine>, olds: seq<Line>)
    requires |body| == 2 && body[0].kind == Remove && body[1].kind == Add && body[1].noNewline && olds != []
             && Fits(body[0], olds[0])
    ensures Matches(body, olds) && OldSide(body) == [body[0]]
            && Image(body, olds, Lf) == [Line(body[1].content, Missing)]
  {
    var rest := body[1..];
    var none := rest[1..];
    assert OldSide(none) == [] && Matches(none, olds[1..]) && Image(none, olds[1..], Lf) == [];
    assert OldSide(rest) == [] && Matches(rest, olds[1..]);
    assert Image(rest, olds[1..], Lf) == [Line(body[1].content, Missing)] + [];
    assert [body[0]] + [] == [body[0]];
  }

  lemma OneHunkOutcome(original: seq<Line>, h: Hunk)
    requires |original| == 2 && h.oldStart == h.oldCount == h.newStart == h.newCount == 1
    requires Matches(h.body, original) && |OldSide(h.body)| == |Image(h.body, original, Lf)| == 1
    ensures Outcome(original, Lf, [h], 0, 0) == Ok([] + Image(h.body, original, Lf) + original[1..])
  {
    hide Matches, Image, OldSide;
    assert [h][1..] == [] && original[0..] == original && original[0..0] == [];
  }

  lemma RestoresWhenReadable(text: string, hunks: seq<Hunk>, result: seq<Line>)
    requires Plain(Lines(text)) && Plain(result) && MissingOnlyLast(result)
    requires Outcome(Lines(text), Lf, hunks, 0, 0) == Ok(result)
    ensures Patched(Join(result), InvertAll(hunks)) == Ok(text)
  {
    hide Outcome, InvertAll, Plain, MissingOnlyLast, Lines, Join, PreferredEnding, NoCrLf;
    PlainWellFormed(result);
    SplitInvertsJoin(result);
    PlainNoCrLf(result);
    PlainNoCrLf(Lines(text));
    OutcomeInverts(Lines(text), hunks, 0, 0, []);
    assert [] + result == result;
    assert Lines(text)[0..] == Lines(text);
    SplitIsLossless(text);
  }

  lemma LosesWhenMerged(text: string, hunks: seq<Hunk>, result: seq<Line>)
    requires Plain(result) && PlainHunks(hunks) && !MissingOnlyLast(result)
    requires Outcome(Lines(text), Lf, hunks, 0, 0) == Ok(result)
    ensures Patched(Join(result), InvertAll(hunks)) != Ok(text)
  {
    hide Outcome, InvertAll, Plain, PlainHunks, MissingOnlyLast, Lines, Join, PreferredEnding, NoCr, NoCrLf, Growth;
    var merged := Lines(Join(result));
    PlainJoin(result);
    PlainLines(Join(result));
    PlainNoCrLf(merged);
    InvertedPlain(hunks);
    LineCountLaw(Lines(text), Lf, hunks, 0, 0);
    InvertedGrowth(hunks);
    ResplitCount(result);
    var back := Outcome(merged, Lf, InvertAll(hunks), 0, 0);
    if back.Ok? {
      OutcomePlain(merged, InvertAll(hunks), 0, 0);
      LineCountLaw(merged, Lf, InvertAll(hunks), 0, 0);
      ResplitCount(back.value);
    }
  }
}
