/** What a unified diff says: which lines become which, and where, by the line numbers of its headers. */
module HunkPlacement {
  import opened Results
  import opened ExactLines
  import opened Hunks

  /** Lines that stay, and the old lines behind them with the new ones in their place. */
  datatype Change = Change(kept: seq<Line>, olds: seq<Line>, news: seq<Line>)

  function Before(changes: seq<Change>, tail: seq<Line>): seq<Line> {
    if changes == [] then tail else changes[0].kept + changes[0].olds + Before(changes[1..], tail)
  }

  function After(changes: seq<Change>, tail: seq<Line>): seq<Line> {
    if changes == [] then tail else changes[0].kept + changes[0].news + After(changes[1..], tail)
  }

  /** The body says that these old lines become these new ones; added lines get the ending unless marked. */
  predicate Turns(body: seq<BodyLine>, olds: seq<Line>, news: seq<Line>, ending: Ending) {
    if body == [] then olds == [] && news == []
    else
      var b := body[0];
      match b.kind
      case Add =>
        news != [] && news[0] == Line(b.content, if b.noNewline then Missing else ending)
        && Turns(body[1..], olds, news[1..], ending)
      case Remove =>
        olds != [] && olds[0].content == b.content && (b.noNewline <==> olds[0].ending == Missing)
        && Turns(body[1..], olds[1..], news, ending)
      case Context =>
        olds != [] && olds[0].content == b.content && (b.noNewline <==> olds[0].ending == Missing)
        && news != [] && news[0] == olds[0]
        && Turns(body[1..], olds[1..], news[1..], ending)
  }

  /** A range counts its lines and starts with the number of its first one, or, without lines, of the one before. */
  predicate Numbers(start: nat, count: nat, before: int, lines: seq<Line>) {
    count == |lines| && start == if lines == [] then before else before + 1
  }

  /** Each hunk names its change, behind so many old and so many new lines. */
  predicate Placed(hunks: seq<Hunk>, changes: seq<Change>, oldBefore: int, newBefore: int, ending: Ending) {
    && |hunks| == |changes|
    && (hunks != [] ==>
          var h, c := hunks[0], changes[0];
          var oldAt, newAt := oldBefore + |c.kept|, newBefore + |c.kept|;
          && Numbers(h.oldStart, h.oldCount, oldAt, c.olds) && Numbers(h.newStart, h.newCount, newAt, c.news)
          && Turns(h.body, c.olds, c.news, ending)
          && Placed(hunks[1..], changes[1..], oldAt + |c.olds|, newAt + |c.news|, ending))
  }

  lemma {:induction false} TurnsRead(body: seq<BodyLine>, olds: seq<Line>, news: seq<Line>, ending: Ending,
                                     more: seq<Line>)
    requires Turns(body, olds, news, ending)
    ensures Matches(body, olds + more) && Image(body, olds + more, ending) == news && |OldSide(body)| == |olds|
  {
    if body != [] {
      var b := body[0];
      if b.kind == Add {
        TurnsRead(body[1..], olds, news[1..], ending, more);
      } else {
        TurnsRead(body[1..], olds[1..], if b.kind == Context then news[1..] else news, ending, more);
        assert (olds + more)[1..] == olds[1..] + more;
      }
    }
  }

  lemma {:induction false} MatchTurns(body: seq<BodyLine>, olds: seq<Line>, ending: Ending)
    requires Matches(body, olds)
    ensures |OldSide(body)| <= |olds| && Turns(body, olds[..|OldSide(body)|], Image(body, olds, ending), ending)
  {
    if body != [] {
      var b := body[0];
      MatchTurns(body[1..], if b.kind == Add then olds else olds[1..], ending);
      if b.kind != Add {
        assert olds[..|OldSide(body)|][1..] == olds[1..][..|OldSide(body[1..])|];
      }
    }
  }

  /** Changes named by the hunks are what the outcome makes of the lines. */
  lemma {:induction false} PlacedRead(original: seq<Line>, ending: Ending, hunks: seq<Hunk>, from: nat, offset: int,
                                      changes: seq<Change>, tail: seq<Line>)
    requires from <= |original| && original[from..] == Before(changes, tail)
    requires Placed(hunks, changes, from, from + offset, ending)
    ensures Outcome(original, ending, hunks, from, offset) == Ok(After(changes, tail))
    decreases |hunks|
  {
    hide Turns, Matches, Image, OldSide;
    if hunks != [] {
      var h, c := hunks[0], changes[0];
      var at := from + |c.kept|;
      var rest := Before(changes[1..], tail);
      assert original[from..] == c.kept + (c.olds + rest);
      assert original[from..at] == c.kept && original[at..] == c.olds + rest;
      assert original[at + |c.olds|..] == rest;
      TurnsRead(h.body, c.olds, c.news, ending, rest);
      PlacedRead(original, ending, hunks[1..], at + h.oldCount, offset + h.newCount - h.oldCount, changes[1..], tail);
      assert Index(h.oldStart, h.oldCount) == at && Index(h.newStart, h.newCount) == at + offset;
    }
  }

  /** Whatever the outcome makes of the lines is changes that the hunks name. */
  lemma {:induction false} ChangesOf(original: seq<Line>, ending: Ending, hunks: seq<Hunk>, from: nat, offset: int)
    returns (changes: seq<Change>, tail: seq<Line>)
    requires from <= |original| && Outcome(original, ending, hunks, from, offset).Ok?
    ensures original[from..] == Before(changes, tail)
    ensures Outcome(original, ending, hunks, from, offset).value == After(changes, tail)
    ensures Placed(hunks, changes, from, from + offset, ending)
    decreases |hunks|
  {
    hide Turns, Matches, Image, OldSide;
    if hunks == [] {
      changes, tail := [], original[from..];
    } else {
      var h := hunks[0];
      var at := Index(h.oldStart, h.oldCount);
      OutcomeFirst(original, ending, hunks, from, offset);
      var c := FirstChange(original, ending, hunks, from, offset);
      var later, behind := ChangesOf(original, ending, hunks[1..], at + h.oldCount, offset + h.newCount - h.oldCount);
      changes, tail := [c] + later, behind;
      hide Outcome, Numbers, Index;
      assert changes[1..] == later;
    }
  }

  /** The change that the first hunk names. */
  lemma FirstChange(original: seq<Line>, ending: Ending, hunks: seq<Hunk>, from: nat, offset: int) returns (c: Change)
    requires from <= |original| && hunks != [] && Outcome(original, ending, hunks, from, offset).Ok?
    ensures var h := hunks[0];
            var at := Index(h.oldStart, h.oldCount);
            && from <= at && at + h.oldCount <= |original| && Matches(h.body, original[at..])
            && c.kept == original[from..at] && c.news == Image(h.body, original[at..], ending)
            && original[from..] == c.kept + c.olds + original[at + h.oldCount..]
            && at == from + |c.kept| && |c.olds| == h.oldCount && |c.news| == h.newCount
            && Numbers(h.oldStart, h.oldCount, at, c.olds) && Numbers(h.newStart, h.newCount, at + offset, c.news)
            && Turns(h.body, c.olds, c.news, ending)
  {
    hide Turns, Matches, Image, OldSide, Outcome;
    var h := hunks[0];
    var at := Index(h.oldStart, h.oldCount);
    OutcomeFirst(original, ending, hunks, from, offset);
    FirstCounted(original, ending, hunks, from, offset);
    MatchTurns(h.body, original[at..], ending);
    c := Change(original[from..at], original[at..at + h.oldCount], Image(h.body, original[at..], ending));
    assert c.olds == original[at..][..h.oldCount];
  }

  lemma FirstCounted(original: seq<Line>, ending: Ending, hunks: seq<Hunk>, from: nat, offset: int)
    requires from <= |original| && hunks != [] && Outcome(original, ending, hunks, from, offset).Ok?
    ensures |OldSide(hunks[0].body)| == hunks[0].oldCount
    ensures Index(hunks[0].oldStart, hunks[0].oldCount) + offset == Index(hunks[0].newStart, hunks[0].newCount)
  {
    hide Matches, Image, OldSide, Index;
  }

  /** The text consists of the lines before the changes, and the result of those after. */
  ghost predicate Changed(text: string, hunks: seq<Hunk>, result: string, changes: seq<Change>, tail: seq<Line>) {
    && Lines(text) == Before(changes, tail) && result == Join(After(changes, tail))
    && Placed(hunks, changes, 0, 0, PreferredEnding(Lines(text)))
  }

  /** A patch gives this result exactly when its hunks name changes that turn the text's lines into the result's. */
  lemma PatchedExactly(text: string, hunks: seq<Hunk>, result: string)
    ensures Patched(text, hunks) == Ok(result) <==> exists changes, tail :: Changed(text, hunks, result, changes, tail)
  {
    hide Lines, Join, PreferredEnding, Placed, Before, After, Outcome;
    var original, ending := Lines(text), PreferredEnding(Lines(text));
    assert original[0..] == original;
    if Patched(text, hunks) == Ok(result) {
      var changes, tail := ChangesOf(original, ending, hunks, 0, 0);
      assert Changed(text, hunks, result, changes, tail);
    }
    if changes, tail :| Changed(text, hunks, result, changes, tail) {
      PlacedRead(original, ending, hunks, 0, 0, changes, tail);
    }
  }
}
