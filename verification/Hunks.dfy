/** Unified-diff hunks and their application to the lines of a file. */
module Hunks {
  import opened Results
  import opened ExactLines

  datatype Kind = Context | Remove | Add

  datatype BodyLine = BodyLine(kind: Kind, content: string, noNewline: bool)

  datatype Hunk = Hunk(oldStart: nat, oldCount: nat, newStart: nat, newCount: nat, body: seq<BodyLine>)

  datatype PatchError = Invalid | CheckFailed

  /** The body lines that stand for lines of the old file. */
  function OldSide(body: seq<BodyLine>): seq<BodyLine> {
    if body == [] then []
    else if body[0].kind == Add then OldSide(body[1..])
    else [body[0]] + OldSide(body[1..])
  }

  /** The body lines that stand for lines of the new file. */
  function NewSide(body: seq<BodyLine>): seq<BodyLine> {
    if body == [] then []
    else if body[0].kind == Remove then NewSide(body[1..])
    else [body[0]] + NewSide(body[1..])
  }

  /** Zero-based line index of a range; an empty range names the line before it. */
  function Index(start: nat, count: nat): int {
    if count == 0 then start else start - 1
  }

  predicate Fits(bodyLine: BodyLine, line: Line) {
    && line.content == bodyLine.content
    && (line.ending == Missing <==> bodyLine.noNewline)
  }

  /** The old side of a body agrees with the lines at the front of olds. */
  predicate Matches(body: seq<BodyLine>, olds: seq<Line>) {
    if body == [] then true
    else if body[0].kind == Add then Matches(body[1..], olds)
    else olds != [] && Fits(body[0], olds[0]) && Matches(body[1..], olds[1..])
  }

  /** The lines a matching body leaves behind: old lines kept as they are, added lines with the given ending. */
  function Image(body: seq<BodyLine>, olds: seq<Line>, ending: Ending): seq<Line>
    requires Matches(body, olds)
  {
    if body == [] then []
    else match body[0].kind
      case Add =>
        [Line(body[0].content, if body[0].noNewline then Missing else ending)] + Image(body[1..], olds, ending)
      case Remove => Image(body[1..], olds[1..], ending)
      case Context => [olds[0]] + Image(body[1..], olds[1..], ending)
  }

  /**
   * Simultaneous replacement. Every hunk is placed and matched against the original lines alone;
   * from is the first original line no earlier hunk covers, offset the line growth so far.
   */
  function Outcome(original: seq<Line>, ending: Ending, hunks: seq<Hunk>, from: nat, offset: int)
    : Result<seq<Line>, PatchError>
    requires from <= |original|
    decreases |hunks|
  {
    if hunks == [] then Ok(original[from..])
    else
      var h := hunks[0];
      var at := Index(h.oldStart, h.oldCount);
      if at < from || at > |original| || at + offset != Index(h.newStart, h.newCount) then Err(CheckFailed)
      else if !Matches(h.body, original[at..]) then Err(CheckFailed)
      else
        MatchesAt(h.body, original[at..]);
        var image := Image(h.body, original[at..], ending);
        if |OldSide(h.body)| != h.oldCount || |image| != h.newCount then Err(Invalid)
        else
          match Outcome(original, ending, hunks[1..], at + h.oldCount, offset + h.newCount - h.oldCount)
          case Err(e) => Err(e)
          case Ok(rest) => Ok(original[from..at] + image + rest)
  }

  /** What matching means, line by line. */
  lemma {:induction false} MatchesAt(body: seq<BodyLine>, olds: seq<Line>)
    ensures Matches(body, olds) <==>
            && |OldSide(body)| <= |olds|
            && forall k :: 0 <= k < |OldSide(body)| ==> Fits(OldSide(body)[k], olds[k])
  {
    if body == [] {
    } else if body[0].kind == Add {
      MatchesAt(body[1..], olds);
    } else if olds != [] {
      var tail := OldSide(body[1..]);
      MatchesAt(body[1..], olds[1..]);
      assert OldSide(body) == [body[0]] + tail;
      if |OldSide(body)| <= |olds| && forall k :: 0 <= k < |OldSide(body)| ==> Fits(OldSide(body)[k], olds[k]) {
        forall k | 0 <= k < |tail| ensures Fits(tail[k], olds[1..][k]) {
          assert Fits(OldSide(body)[k + 1], olds[k + 1]);
        }
      }
    }
  }

  /** Where each body line lands: context lines are the old lines themselves, added lines are new. */
  lemma {:induction false} ImageAt(body: seq<BodyLine>, olds: seq<Line>, ending: Ending, i: nat)
    requires i < |body| && body[i].kind != Remove && Matches(body, olds)
    ensures |Image(body, olds, ending)| == |NewSide(body)|
    ensures |OldSide(body[..i])| < |olds| || body[i].kind == Add
    ensures |NewSide(body[..i])| < |NewSide(body)|
    ensures Image(body, olds, ending)[|NewSide(body[..i])|] ==
            if body[i].kind == Context then olds[|OldSide(body[..i])|]
            else Line(body[i].content, if body[i].noNewline then Missing else ending)
  {
    ImageLength(body, olds, ending);
    if i == 0 {
      assert body[..0] == [];
    } else {
      assert body[..i][1..] == body[1..][..i - 1];
      assert body[..i][0] == body[0];
      ImageAt(body[1..], if body[0].kind == Add then olds else olds[1..], ending, i - 1);
    }
  }

  lemma {:induction false} ImageLength(body: seq<BodyLine>, olds: seq<Line>, ending: Ending)
    requires Matches(body, olds)
    ensures |Image(body, olds, ending)| == |NewSide(body)|
  {
    if body != [] {
      ImageLength(body[1..], if body[0].kind == Add then olds else olds[1..], ending);
    }
  }

  /** Line growth of a hunk list: added lines minus removed lines. */
  function Growth(hunks: seq<Hunk>): int {
    if hunks == [] then 0 else |NewSide(hunks[0].body)| - |OldSide(hunks[0].body)| + Growth(hunks[1..])
  }

  /** A patch changes the number of lines by exactly the lines it adds minus the lines it removes. */
  lemma {:induction false} LineCountLaw(original: seq<Line>, ending: Ending, hunks: seq<Hunk>, from: nat, offset: int)
    requires from <= |original| && Outcome(original, ending, hunks, from, offset).Ok?
    ensures |Outcome(original, ending, hunks, from, offset).value| == |original| - from + Growth(hunks)
    decreases |hunks|
  {
    if hunks != [] {
      var h := hunks[0];
      var at := Index(h.oldStart, h.oldCount);
      MatchesAt(h.body, original[at..]);
      ImageLength(h.body, original[at..], ending);
      LineCountLaw(original, ending, hunks[1..], at + h.oldCount, offset + h.newCount - h.oldCount);
    }
  }

  /** The original lines a hunk replaces. */
  predicate Covers(h: Hunk, k: nat) {
    Index(h.oldStart, h.oldCount) <= k < Index(h.oldStart, h.oldCount) + h.oldCount
  }

  predicate Uncovered(hunks: seq<Hunk>, k: nat) {
    forall h :: h in hunks ==> !Covers(h, k)
  }

  lemma UncoveredFirst(hunks: seq<Hunk>, k: nat)
    requires hunks != [] && Uncovered(hunks, k)
    ensures Uncovered(hunks[1..], k)
    ensures var at := Index(hunks[0].oldStart, hunks[0].oldCount); at > k || at + hunks[0].oldCount <= k
  {
    assert !Covers(hunks[0], k);
  }

  /** Growth of the hunks placed at or before line k. */
  function GrowthBefore(hunks: seq<Hunk>, k: nat): int {
    if hunks == [] || Index(hunks[0].oldStart, hunks[0].oldCount) > k then 0
    else hunks[0].newCount - hunks[0].oldCount + GrowthBefore(hunks[1..], k)
  }

  lemma Concat3First<T>(a: seq<T>, b: seq<T>, c: seq<T>, j: nat)
    requires j < |a|
    ensures (a + b + c)[j] == a[j]
  {
  }

  /** What the first hunk contributes to a successful outcome. */
  lemma OutcomeFirst(original: seq<Line>, ending: Ending, hunks: seq<Hunk>, from: nat, offset: int)
    requires from <= |original| && hunks != [] && Outcome(original, ending, hunks, from, offset).Ok?
    ensures var h := hunks[0];
            var at := Index(h.oldStart, h.oldCount);
            && from <= at && at + h.oldCount <= |original| && Matches(h.body, original[at..])
            && |Image(h.body, original[at..], ending)| == h.newCount
            && var rest := Outcome(original, ending, hunks[1..], at + h.oldCount, offset + h.newCount - h.oldCount);
               rest.Ok? && Outcome(original, ending, hunks, from, offset).value
                           == original[from..at] + Image(h.body, original[at..], ending) + rest.value
  {
    hide Matches, Image, OldSide, NewSide, Index;
    var h := hunks[0];
    var at := Index(h.oldStart, h.oldCount);
    if from <= at <= |original| { MatchesAt(h.body, original[at..]); }
  }

  /** A line no hunk covers is still there, ending included, moved by the growth before it. */
  lemma {:induction false} UncoveredLineKept(original: seq<Line>, ending: Ending, hunks: seq<Hunk>, from: nat,
                                             offset: int, k: nat)
    requires from <= k < |original| && Outcome(original, ending, hunks, from, offset).Ok?
    requires Uncovered(hunks, k)
    ensures var result := Outcome(original, ending, hunks, from, offset).value;
            && 0 <= k - from + GrowthBefore(hunks, k) < |result|
            && result[k - from + GrowthBefore(hunks, k)] == original[k]
    decreases |hunks|
  {
    hide *;
    if hunks == [] {
      KeptWithoutHunks(original, ending, from, offset, k);
    } else {
      var h := hunks[0];
      var at := Index(h.oldStart, h.oldCount);
      OutcomeFirst(original, ending, hunks, from, offset);
      UncoveredFirst(hunks, k);
      GrowthFirst(hunks, k);
      var front, image := original[from..at], Image(h.body, original[at..], ending);
      var rest := Outcome(original, ending, hunks[1..], at + h.oldCount, offset + h.newCount - h.oldCount).value;
      if at <= k {
        UncoveredLineKept(original, ending, hunks[1..], at + h.oldCount, offset + h.newCount - h.oldCount, k);
        LaterLineKept(front, image, rest, k - at - h.oldCount + GrowthBefore(hunks[1..], k),
                      k - from + GrowthBefore(hunks, k), original[k]);
      } else {
        Concat3First(front, image, rest, k - from);
      }
    }
  }

  lemma KeptWithoutHunks(original: seq<Line>, ending: Ending, from: nat, offset: int, k: nat)
    requires from <= k < |original|
    ensures Outcome(original, ending, [], from, offset) == Ok(original[from..]) && GrowthBefore([], k) == 0
  {
  }

  lemma GrowthFirst(hunks: seq<Hunk>, k: nat)
    requires hunks != []
    ensures GrowthBefore(hunks, k) == if Index(hunks[0].oldStart, hunks[0].oldCount) > k then 0
                                      else hunks[0].newCount - hunks[0].oldCount + GrowthBefore(hunks[1..], k)
  {
  }

  lemma LaterLineKept(a: seq<Line>, b: seq<Line>, c: seq<Line>, j: int, i: int, line: Line)
    requires 0 <= j < |c| && c[j] == line && i == |a| + |b| + j
    ensures 0 <= i < |a + b + c| && (a + b + c)[i] == line
  {
  }

  /** Parsed hunks: the counts in the header are those of the body. */
  predicate Counted(h: Hunk) {
    && |OldSide(h.body)| == h.oldCount
    && |NewSide(h.body)| == h.newCount
  }

  /** On hunks whose counts match their bodies the only failure is a patch that does not fit. */
  lemma {:induction false} CountedNeverInvalid(original: seq<Line>, ending: Ending, hunks: seq<Hunk>, from: nat,
                                               offset: int)
    requires from <= |original| && forall h :: h in hunks ==> Counted(h)
    ensures Outcome(original, ending, hunks, from, offset) != Err(Invalid)
    decreases |hunks|
  {
    if hunks != [] {
      var h := hunks[0];
      var at := Index(h.oldStart, h.oldCount);
      assert Counted(h);
      if from <= at <= |original| && Matches(h.body, original[at..]) {
        MatchesAt(h.body, original[at..]);
        ImageLength(h.body, original[at..], ending);
        CountedNeverInvalid(original, ending, hunks[1..], at + h.oldCount, offset + h.newCount - h.oldCount);
      }
    }
  }

  /** Applying a hunk list to a whole text. */
  function Patched(text: string, hunks: seq<Hunk>): Result<string, PatchError> {
    var original := Lines(text);
    match Outcome(original, PreferredEnding(original), hunks, 0, 0)
    case Err(e) => Err(e)
    case Ok(lines) => Ok(Join(lines))
  }

  /** The lines still untouched by the splice loop are the original ones, shifted by the offset. */
  ghost predicate Spliced(original: seq<Line>, current: seq<Line>, done: seq<Line>, end: nat, offset: int) {
    && end <= |original|
    && current == done + original[end..]
    && |done| == end + offset
  }

  lemma SplicedSuffix(original: seq<Line>, current: seq<Line>, done: seq<Line>, end: nat, offset: int, at: nat)
    requires Spliced(original, current, done, end, offset) && end <= at <= |original|
    ensures 0 <= at + offset <= |current|
    ensures current[at + offset..] == original[at..]
    ensures current[..at + offset] == done + original[end..at]
  {
  }

  /** The inner loop after i body lines: used old lines consumed, replacement built. */
  ghost predicate BodySoFar(body: seq<BodyLine>, olds: seq<Line>, ending: Ending, i: nat, used: nat,
                            replacement: seq<Line>) {
    && i <= |body| && used <= |olds|
    && (Matches(body, olds) <==> Matches(body[i..], olds[used..]))
    && |OldSide(body)| == used + |OldSide(body[i..])|
    && (Matches(body, olds) ==> Image(body, olds, ending) == replacement + Image(body[i..], olds[used..], ending))
  }

  lemma BodyStart(body: seq<BodyLine>, olds: seq<Line>, ending: Ending)
    ensures BodySoFar(body, olds, ending, 0, 0, [])
  {
    assert body[0..] == body && olds[0..] == olds;
    if Matches(body, olds) { assert [] + Image(body, olds, ending) == Image(body, olds, ending); }
  }

  lemma BodyEnd(body: seq<BodyLine>, olds: seq<Line>, ending: Ending, used: nat, replacement: seq<Line>)
    requires BodySoFar(body, olds, ending, |body|, used, replacement)
    ensures Matches(body, olds) && used == |OldSide(body)| && replacement == Image(body, olds, ending)
  {
    assert body[|body|..] == [];
  }

  lemma Regroup<T>(a: seq<T>, x: T, b: seq<T>)
    ensures a + ([x] + b) == (a + [x]) + b
  {
  }

  lemma BodyAdd(body: seq<BodyLine>, olds: seq<Line>, ending: Ending, i: nat, used: nat, replacement: seq<Line>)
    requires BodySoFar(body, olds, ending, i, used, replacement) && i < |body| && body[i].kind == Add
    ensures BodySoFar(body, olds, ending, i + 1, used,
                      replacement + [Line(body[i].content, if body[i].noNewline then Missing else ending)])
  {
    var added := Line(body[i].content, if body[i].noNewline then Missing else ending);
    assert body[i..][0] == body[i] && body[i..][1..] == body[i + 1..];
    if Matches(body, olds) {
      Regroup(replacement, added, Image(body[i + 1..], olds[used..], ending));
    }
  }

  lemma BodyOld(body: seq<BodyLine>, olds: seq<Line>, ending: Ending, i: nat, used: nat, replacement: seq<Line>)
    requires BodySoFar(body, olds, ending, i, used, replacement) && i < |body| && body[i].kind != Add
    ensures used <= |olds|
    ensures used == |olds|
            || !(olds[used].content == body[i].content && (olds[used].ending == Missing <==> body[i].noNewline))
            ==> !Matches(body, olds)
    ensures used < |olds| && olds[used].content == body[i].content
            && (olds[used].ending == Missing <==> body[i].noNewline) ==>
              BodySoFar(body, olds, ending, i + 1, used + 1,
                        if body[i].kind == Context then replacement + [olds[used]] else replacement)
  {
    assert body[i..][0] == body[i] && body[i..][1..] == body[i + 1..];
    if used < |olds| {
      assert olds[used..][0] == olds[used] && olds[used..][1..] == olds[used + 1..];
      if Matches(body, olds) {
        Regroup(replacement, olds[used], Image(body[i + 1..], olds[used + 1..], ending));
      }
    }
  }

  /** One hunk body against the current lines: the inner loop. */
  method MatchBody(h: Hunk, current: seq<Line>, targetStart: nat, addedEnding: Ending)
    returns (r: Result<(nat, seq<Line>), PatchError>)
    requires targetStart <= |current|
    ensures r.Err? ==> r.error == CheckFailed
    ensures r.Ok? <==> Matches(h.body, current[targetStart..])
    ensures r.Ok? ==> r.value.0 == |OldSide(h.body)| && r.value.1 == Image(h.body, current[targetStart..], addedEnding)
  {
    hide *;
    var cursor := targetStart;
    var replacement: seq<Line> := [];
    ghost var olds := current[targetStart..];
    BodyStart(h.body, olds, addedEnding);
    for i := 0 to |h.body|
      invariant targetStart <= cursor <= |current|
      invariant BodySoFar(h.body, olds, addedEnding, i, cursor - targetStart, replacement)
    {
      var bodyLine := h.body[i];
      if bodyLine.kind == Add {
        BodyAdd(h.body, olds, addedEnding, i, cursor - targetStart, replacement);
        replacement := replacement + [Line(bodyLine.content, if bodyLine.noNewline then Missing else addedEnding)];
      } else {
        BodyOld(h.body, olds, addedEnding, i, cursor - targetStart, replacement);
        if cursor == |current| || current[cursor].content != bodyLine.content { return Err(CheckFailed); }
        var actual := current[cursor];
        assert olds[cursor - targetStart] == actual;
        if (if bodyLine.noNewline then actual.ending != Missing else actual.ending == Missing) {
          return Err(CheckFailed);
        }
        if bodyLine.kind == Context {
          replacement := replacement + [actual];
        }
        cursor := cursor + 1;
      }
    }
    BodyEnd(h.body, olds, addedEnding, cursor - targetStart, replacement);
    return Ok((cursor - targetStart, replacement));
  }

  /** The outer loop between hunks: what is left to do decides the outcome of the whole. */
  ghost predicate ApplySoFar(original: seq<Line>, ending: Ending, all: seq<Hunk>, left: seq<Hunk>, current: seq<Line>,
                             done: seq<Line>, end: nat, offset: int)
  {
    && Spliced(original, current, done, end, offset)
    && Outcome(original, ending, all, 0, 0) == Prepend(done, Outcome(original, ending, left, end, offset))
  }

  /** The splice loop: hunks replace ranges of the current lines in place, at a running offset. */
  method ApplyHunks(beforeText: string, hunks: seq<Hunk>) returns (r: Result<string, PatchError>)
    ensures r == Patched(beforeText, hunks)
  {
    hide *;
    var original := SplitExact(beforeText);
    var current := original;
    var addedEnding := PreferredEnding(original);
    var offset := 0;
    var previousOriginalEnd: nat := 0;
    ghost var done: seq<Line> := [];
    PatchedIsOutcome(beforeText, hunks);
    StartApply(original, addedEnding, hunks);
    assert hunks[0..] == hunks;
    for i := 0 to |hunks|
      invariant ApplySoFar(original, addedEnding, hunks, hunks[i..], current, done, previousOriginalEnd, offset)
    {
      var h := hunks[i];
      assert hunks[i..][0] == h && hunks[i..][1..] == hunks[i + 1..];
      ApplyFails(original, addedEnding, hunks, hunks[i..], current, done, previousOriginalEnd, offset);
      var originalStart := Index(h.oldStart, h.oldCount);
      if originalStart < previousOriginalEnd || originalStart > |original| { return Err(CheckFailed); }
      var targetStart := originalStart + offset;
      if targetStart != Index(h.newStart, h.newCount) { return Err(CheckFailed); }
      UntouchedSuffix(original, addedEnding, hunks, hunks[i..], current, done, previousOriginalEnd, offset,
                      originalStart);
      var matched := MatchBody(h, current, targetStart, addedEnding);
      if matched.Err? { return Err(CheckFailed); }
      var (consumed, replacement) := matched.value;
      if consumed != h.oldCount || |replacement| != h.newCount { return Err(Invalid); }
      StepApply(original, addedEnding, hunks, hunks[i..], current, done, previousOriginalEnd, offset,
                h, originalStart, replacement);
      current := current[..targetStart] + replacement + current[targetStart + consumed..];
      done := done + original[previousOriginalEnd..originalStart] + replacement;
      offset := offset + h.newCount - h.oldCount;
      previousOriginalEnd := originalStart + h.oldCount;
    }
    FinishApply(original, addedEnding, hunks, current, done, previousOriginalEnd, offset);
    r := Ok(Join(current));
  }

  lemma PatchedIsOutcome(text: string, hunks: seq<Hunk>)
    ensures Patched(text, hunks) ==
            var original := Lines(text);
            match Outcome(original, PreferredEnding(original), hunks, 0, 0)
            case Err(e) => Err(e)
            case Ok(lines) => Ok(Join(lines))
  {
  }

  lemma StartApply(original: seq<Line>, ending: Ending, hunks: seq<Hunk>)
    ensures ApplySoFar(original, ending, hunks, hunks, original, [], 0, 0)
  {
    var whole := Outcome(original, ending, hunks, 0, 0);
    if whole.Ok? { assert [] + whole.value == whole.value; }
  }

  lemma SpliceStep(original: seq<Line>, current: seq<Line>, done: seq<Line>, end: nat, offset: int,
                   at: nat, count: nat, image: seq<Line>)
    requires Spliced(original, current, done, end, offset)
    requires end <= at && at + count <= |original|
    ensures 0 <= at + offset <= at + offset + count <= |current|
    ensures Spliced(original, current[..at + offset] + image + current[at + offset + count..],
                    done + original[end..at] + image, at + count, offset + |image| - count)
  {
    SplicedSuffix(original, current, done, end, offset, at);
    SplicedSuffix(original, current, done, end, offset, at + count);
  }

  lemma FinishApply(original: seq<Line>, ending: Ending, all: seq<Hunk>, current: seq<Line>, done: seq<Line>, end: nat,
                    offset: int)
    requires ApplySoFar(original, ending, all, [], current, done, end, offset)
    ensures Outcome(original, ending, all, 0, 0) == Ok(current)
  {
  }

  /** Each failing test of the loop is a failure of the whole patch. */
  lemma ApplyFails(original: seq<Line>, ending: Ending, all: seq<Hunk>, left: seq<Hunk>, current: seq<Line>,
                   done: seq<Line>, end: nat, offset: int)
    requires ApplySoFar(original, ending, all, left, current, done, end, offset) && left != []
    ensures var h := left[0];
            var at := Index(h.oldStart, h.oldCount);
            var whole := Outcome(original, ending, all, 0, 0);
            && (at < end || at > |original| || at + offset != Index(h.newStart, h.newCount) ==>
                whole == Err(CheckFailed))
            && (end <= at <= |original| && at + offset == Index(h.newStart, h.newCount) ==>
                  && (!Matches(h.body, original[at..]) ==> whole == Err(CheckFailed))
                  && (Matches(h.body, original[at..]) ==>
                        && |OldSide(h.body)| <= |original| - at
                        && (|OldSide(h.body)| != h.oldCount || |Image(h.body, original[at..], ending)| != h.newCount
                            ==> whole == Err(Invalid))))
  {
    var h := left[0];
    var at := Index(h.oldStart, h.oldCount);
    if end <= at <= |original| {
      MatchesAt(h.body, original[at..]);
    }
  }

  lemma UntouchedSuffix(original: seq<Line>, ending: Ending, all: seq<Hunk>, left: seq<Hunk>, current: seq<Line>,
                        done: seq<Line>, end: nat, offset: int, at: nat)
    requires ApplySoFar(original, ending, all, left, current, done, end, offset) && end <= at <= |original|
    ensures 0 <= at + offset <= |current|
    ensures current[at + offset..] == original[at..]
  {
    hide Outcome;
    SplicedSuffix(original, current, done, end, offset, at);
  }

  lemma StepApply(original: seq<Line>, ending: Ending, all: seq<Hunk>, left: seq<Hunk>, current: seq<Line>,
                  done: seq<Line>, end: nat, offset: int, h: Hunk, at: nat, image: seq<Line>)
    requires ApplySoFar(original, ending, all, left, current, done, end, offset)
    requires left != [] && left[0] == h && at == Index(h.oldStart, h.oldCount)
    requires end <= at && at + h.oldCount <= |original|
    requires at + offset == Index(h.newStart, h.newCount)
    requires Matches(h.body, original[at..]) && image == Image(h.body, original[at..], ending)
    requires |OldSide(h.body)| == h.oldCount && |image| == h.newCount
    requires 0 <= at + offset <= at + offset + h.oldCount <= |current|
    ensures ApplySoFar(original, ending, all, left[1..],
                       current[..at + offset] + image + current[at + offset + h.oldCount..],
                       done + original[end..at] + image, at + h.oldCount, offset + h.newCount - h.oldCount)
  {
    hide Spliced, Prepend, Outcome, Matches, Image, OldSide, NewSide, Index;
    SpliceStep(original, current, done, end, offset, at, h.oldCount, image);
    StepOutcome(original, ending, left, end, offset, done, image);
  }

  ghost function Prepend(done: seq<Line>, r: Result<seq<Line>, PatchError>): Result<seq<Line>, PatchError> {
    if r.Err? then r else Ok(done + r.value)
  }

  lemma Reassociate<T>(a: seq<T>, b: seq<T>, c: seq<T>, d: seq<T>)
    ensures a + (b + c + d) == a + b + c + d
  {
  }

  lemma StepOutcome(original: seq<Line>, ending: Ending, hunks: seq<Hunk>, from: nat, offset: int, done: seq<Line>,
                    image: seq<Line>)
    requires hunks != [] && from <= |original|
    requires var h := hunks[0];
             var at := Index(h.oldStart, h.oldCount);
             && from <= at <= |original|
             && at + offset == Index(h.newStart, h.newCount)
             && Matches(h.body, original[at..])
             && image == Image(h.body, original[at..], ending)
             && |OldSide(h.body)| == h.oldCount <= |original| - at
             && |image| == h.newCount
    ensures var h := hunks[0];
            var at := Index(h.oldStart, h.oldCount);
            Prepend(done, Outcome(original, ending, hunks, from, offset)) ==
            Prepend(done + original[from..at] + image,
                    Outcome(original, ending, hunks[1..], at + h.oldCount, offset + h.newCount - h.oldCount))
  {
    hide Matches, Image, OldSide, NewSide, Index;
    var h := hunks[0];
    var at := Index(h.oldStart, h.oldCount);
    var tail := Outcome(original, ending, hunks[1..], at + h.oldCount, offset + h.newCount - h.oldCount);
    if tail.Ok? {
      Reassociate(done, original[from..at], image, tail.value);
    }
  }
}
