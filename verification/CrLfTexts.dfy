/** Texts whose line endings are all CRLF: they are patched, diffed and restored like the same texts with LF. */
module CrLfTexts {
  import opened Results
  import opened ExactLines
  import opened Hunks
  import opened HunkParser
  import opened PatchInverse
  import opened DiffPrinter
  import opened PatchText

  /** The text with a carriage return before every line feed. */
  function ToCrLf(text: string): string {
    if text == "" then "" else (if text[0] == '\n' then "\r\n" else [text[0]]) + ToCrLf(text[1..])
  }

  function CrLfLine(line: Line): Line {
    if line.ending == Lf then Line(line.content, CrLf) else line
  }

  function CrLfLines(lines: seq<Line>): (r: seq<Line>)
    ensures |r| == |lines|
  {
    if lines == [] then [] else [CrLfLine(lines[0])] + CrLfLines(lines[1..])
  }

  // ----- characters and lines

  lemma {:induction false} ToCrLfConcat(a: string, b: string)
    ensures ToCrLf(a + b) == ToCrLf(a) + ToCrLf(b)
  {
    if a == "" {
      assert a + b == b;
    } else {
      var first := if a[0] == '\n' then "\r\n" else [a[0]];
      assert (a + b)[0] == a[0] && (a + b)[1..] == a[1..] + b;
      ToCrLfConcat(a[1..], b);
      assert first + (ToCrLf(a[1..]) + ToCrLf(b)) == (first + ToCrLf(a[1..])) + ToCrLf(b);
    }
  }

  lemma {:induction false} ToCrLfKeeps(text: string)
    requires NoLf(text)
    ensures ToCrLf(text) == text
  {
    if text != "" {
      assert NoLf(text[1..]) by { assert forall i :: 0 <= i < |text[1..]| ==> text[1..][i] == text[i + 1]; }
      ToCrLfKeeps(text[1..]);
    }
  }

  /** The diff printer does not see the difference. */
  lemma {:induction false} FoldUndoes(text: string)
    requires NoCr(text)
    ensures FoldCrLf(ToCrLf(text)) == text
  {
    if text != "" {
      assert NoCr(text[1..]) by { assert forall i :: 0 <= i < |text[1..]| ==> text[1..][i] == text[i + 1]; }
      FoldUndoes(text[1..]);
      var rest := ToCrLf(text[1..]);
      if text[0] == '\n' {
        assert ("\r\n" + rest)[2..] == rest;
      } else {
        assert ([text[0]] + rest)[1..] == rest;
        if rest == "" { assert text[1..] == ""; }
      }
    }
  }

  lemma PrintCrLf(line: Line)
    requires NoBreaks(line.content) && line.ending != CrLf
    ensures Print(CrLfLine(line)) == ToCrLf(Print(line))
  {
    ToCrLfConcat(line.content, EndingText(line.ending));
    ToCrLfKeeps(line.content);
    assert ToCrLf("\n") == "\r\n" + ToCrLf("\n"[1..]) && ToCrLf("") == "";
  }

  lemma {:induction false} JoinCrLf(lines: seq<Line>)
    requires Plain(lines)
    ensures Join(CrLfLines(lines)) == ToCrLf(Join(lines))
  {
    if lines != [] {
      assert Plain(lines[1..]) by { assert forall i :: 0 <= i < |lines[1..]| ==> lines[1..][i] == lines[i + 1]; }
      JoinCrLf(lines[1..]);
      PrintCrLf(lines[0]);
      hide Print, CrLfLine, ToCrLf;
      ToCrLfConcat(Print(lines[0]), Join(lines[1..]));
      assert CrLfLines(lines)[0] == CrLfLine(lines[0]) && CrLfLines(lines)[1..] == CrLfLines(lines[1..]);
    }
  }

  lemma {:induction false} CrLfWellFormed(lines: seq<Line>)
    requires WellFormed(lines)
    ensures WellFormed(CrLfLines(lines))
  {
    if lines != [] {
      CrLfWellFormed(lines[1..]);
      assert CrLfLines(lines)[0] == CrLfLine(lines[0]) && CrLfLines(lines)[1..] == CrLfLines(lines[1..]);
    }
  }

  /** Exact splitting sees the same lines, with CRLF where there was LF. */
  lemma LinesOfCrLf(text: string)
    requires NoCr(text)
    ensures Lines(ToCrLf(text)) == CrLfLines(Lines(text))
  {
    hide Lines, Join, WellFormed, Plain, NoCr, CrLfLines, ToCrLf;
    SplitIsLossless(text);
    PlainLines(text);
    JoinCrLf(Lines(text));
    CrLfWellFormed(Lines(text));
    SplitInvertsJoin(CrLfLines(Lines(text)));
  }

  predicate Unended(lines: seq<Line>) {
    forall i :: 0 <= i < |lines| ==> lines[i].ending == Missing
  }

  lemma {:induction false} PrefersCrLf(lines: seq<Line>)
    requires NoCrLf(lines)
    ensures CountEnding(CrLfLines(lines), Lf) == 0
    ensures CountEnding(CrLfLines(lines), CrLf) > 0 <==> !Unended(lines)
  {
    if lines != [] {
      assert NoCrLf(lines[1..]) && (Unended(lines) <==> lines[0].ending == Missing && Unended(lines[1..])) by {
        assert forall i :: 0 <= i < |lines[1..]| ==> lines[1..][i] == lines[i + 1];
        if lines[0].ending == Missing && Unended(lines[1..]) {
          forall i | 0 < i < |lines| ensures lines[i].ending == Missing { assert lines[i] == lines[1..][i - 1]; }
        }
      }
      PrefersCrLf(lines[1..]);
      assert CrLfLines(lines)[0] == CrLfLine(lines[0]) && CrLfLines(lines)[1..] == CrLfLines(lines[1..]);
    }
  }

  /** A text without a line feed has no ended line. */
  lemma UnendedExactly(text: string)
    requires NoCr(text)
    ensures Unended(Lines(text)) <==> NoLf(text)
  {
    var n := FirstLf(text);
    FirstLfStops(text);
    if NoLf(text) {
      if text != "" { LinesUnended(text); }
    } else {
      assert n < |text|;
      LinesAt(text, n);
      assert Lines(text)[0] == LineUpTo(text, n);
    }
  }

  // ----- patching

  lemma CrLfAt(lines: seq<Line>, i: nat)
    requires i <= |lines|
    ensures CrLfLines(lines)[i..] == CrLfLines(lines[i..]) && CrLfLines(lines)[..i] == CrLfLines(lines[..i])
    decreases i
  {
    if i > 0 {
      CrLfAt(lines[1..], i - 1);
      assert CrLfLines(lines)[1..] == CrLfLines(lines[1..]) && CrLfLines(lines)[0] == CrLfLine(lines[0]);
      assert lines[1..][i - 1..] == lines[i..] && lines[1..][..i - 1] == lines[..i][1..];
      assert CrLfLines(lines)[i..] == CrLfLines(lines)[1..][i - 1..];
      assert CrLfLines(lines)[..i] == [CrLfLine(lines[0])] + CrLfLines(lines)[1..][..i - 1];
    } else {
      assert lines[0..] == lines && CrLfLines(lines)[0..] == CrLfLines(lines);
    }
  }

  lemma {:induction false} CrLfConcat(a: seq<Line>, b: seq<Line>)
    ensures CrLfLines(a + b) == CrLfLines(a) + CrLfLines(b)
  {
    CrLfAt(a + b, |a|);
    assert (a + b)[..|a|] == a && (a + b)[|a|..] == b;
  }

  /** A body matches regardless of how ended lines end; what it leaves behind ends as the file does. */
  lemma {:induction false} ImageCrLf(body: seq<BodyLine>, olds: seq<Line>)
    ensures Matches(body, CrLfLines(olds)) <==> Matches(body, olds)
    ensures Matches(body, olds) ==> Image(body, CrLfLines(olds), CrLf) == CrLfLines(Image(body, olds, Lf))
  {
    if body != [] {
      if body[0].kind == Add {
        ImageCrLf(body[1..], olds);
      } else if olds != [] {
        assert CrLfLines(olds)[0] == CrLfLine(olds[0]) && CrLfLines(olds)[1..] == CrLfLines(olds[1..]);
        ImageCrLf(body[1..], olds[1..]);
      }
    }
  }

  function CrLfOutcome(r: Result<seq<Line>, PatchError>): Result<seq<Line>, PatchError> {
    if r.Err? then r else Ok(CrLfLines(r.value))
  }

  lemma {:induction false} OutcomeCrLf(original: seq<Line>, hunks: seq<Hunk>, from: nat, offset: int)
    requires from <= |original|
    ensures Outcome(CrLfLines(original), CrLf, hunks, from, offset)
            == CrLfOutcome(Outcome(original, Lf, hunks, from, offset))
    decreases |hunks|
  {
    hide Matches, Image, OldSide, NewSide, Index, CrLfLines;
    CrLfAt(original, from);
    if hunks != [] {
      var h := hunks[0];
      var at := Index(h.oldStart, h.oldCount);
      if from <= at <= |original| && at + offset == Index(h.newStart, h.newCount) {
        CrLfAt(original, at);
        ImageCrLf(h.body, original[at..]);
        if Matches(h.body, original[at..]) {
          MatchesAt(h.body, original[at..]);
          MatchesAt(h.body, CrLfLines(original[at..]));
          var image := Image(h.body, original[at..], Lf);
          if |OldSide(h.body)| == h.oldCount && |image| == h.newCount {
            OutcomeCrLf(original, hunks[1..], at + h.oldCount, offset + h.newCount - h.oldCount);
            var rest := Outcome(original, Lf, hunks[1..], at + h.oldCount, offset + h.newCount - h.oldCount);
            if rest.Ok? { ThreeCrLf(original, from, at, image, rest.value); }
          }
        }
      }
    }
  }

  lemma ThreeCrLf(original: seq<Line>, from: nat, at: nat, image: seq<Line>, rest: seq<Line>)
    requires from <= at <= |original|
    ensures CrLfLines(original[from..at] + image + rest)
            == CrLfLines(original)[from..at] + CrLfLines(image) + CrLfLines(rest)
  {
    hide CrLfLines;
    CrLfConcat(original[from..at] + image, rest);
    CrLfConcat(original[from..at], image);
    CrLfAt(original, from);
    CrLfAt(original[from..], at - from);
    assert original[from..][..at - from] == original[from..at];
    assert CrLfLines(original)[from..][..at - from] == CrLfLines(original)[from..at];
  }

  function CrLfText(r: Result<string, PatchError>): Result<string, PatchError> {
    if r.Err? then r else Ok(ToCrLf(r.value))
  }

  /**
   * Patching respects line endings: a text with CRLF throughout is patched like the same text with LF, and the result
   * has CRLF throughout. A text without any line feed has no ending to go by and gets LF.
   */
  lemma PatchKeepsCrLf(text: string, hunks: seq<Hunk>)
    requires NoCr(text) && PlainHunks(hunks)
    ensures Patched(ToCrLf(text), hunks) == if NoLf(text) then Patched(text, hunks) else CrLfText(Patched(text, hunks))
  {
    hide Outcome, Lines, Join, ToCrLf, Plain, NoCr, PlainHunks, CountEnding, NoLf, CrLfLines, NoCrLf, Unended;
    if NoLf(text) {
      ToCrLfKeeps(text);
    } else {
      LinesOfCrLf(text);
      PlainLines(text);
      PlainNoCrLf(Lines(text));
      UnendedExactly(text);
      PrefersCrLf(Lines(text));
      OutcomeCrLf(Lines(text), hunks, 0, 0);
      var outcome := Outcome(Lines(text), Lf, hunks, 0, 0);
      if outcome.Ok? {
        OutcomePlain(Lines(text), hunks, 0, 0);
        JoinCrLf(outcome.value);
      }
    }
  }

  // ----- diffs and inverses

  lemma SplitsAlike(text: string)
    requires NoCr(text)
    ensures SplitLines(ToCrLf(text)) == SplitLines(text)
  {
    FoldUndoes(text);
    FoldKeepsLf(text);
  }

  /** The diff of two texts with CRLF throughout is that of the same texts with LF. */
  lemma CrLfDiffIsTheSame(oldText: string, newText: string, relPath: string)
    requires NoCr(oldText) && NoCr(newText)
    ensures DiffLines(ToCrLf(oldText), ToCrLf(newText), relPath) == DiffLines(oldText, newText, relPath)
  {
    SplitsAlike(oldText);
    SplitsAlike(newText);
  }

  /** Its hunk makes the edit on them, too. */
  lemma CrLfDiffMakesTheEdit(oldText: string, newText: string)
    requires NoCr(oldText) && NoCr(newText)
    ensures Patched(ToCrLf(oldText) + "\r\n", [DiffHunk(SplitLines(ToCrLf(oldText)), SplitLines(ToCrLf(newText)))])
            == Ok(ToCrLf(newText) + "\r\n")
  {
    hide SplitOnLf, DiffHunk, Patched, PlainBody, NoBreaks;
    var h := DiffHunk(SplitLines(oldText), SplitLines(newText));
    SplitsAlike(oldText);
    SplitsAlike(newText);
    DiffMakesTheEdit(oldText, newText);
    FoldKeepsLf(oldText);
    FoldKeepsLf(newText);
    SplitPlain(oldText);
    SplitPlain(newText);
    DiffHunkPlain(SplitLines(oldText), SplitLines(newText));
    TerminatedCrLf(oldText);
    TerminatedCrLf(newText);
    assert PlainHunks([h]);
    assert (oldText + "\n")[|oldText|] == '\n';
    PatchKeepsCrLf(oldText + "\n", [h]);
  }

  /** The whole round trip on texts with CRLF throughout. */
  lemma CrLfDiffRoundTrip(oldText: string, newText: string, relPath: string, p: string, path: PathReader)
    requires NoCr(oldText) && NoCr(newText) && NoBreaks(relPath)
    requires |oldText| < MAX_SAFE_INTEGER && |newText| < MAX_SAFE_INTEGER
    requires path("a/" + relPath) == Ok(Some(p)) && path("b/" + relPath) == Ok(Some(p))
    ensures var (before, after) := (ToCrLf(oldText), ToCrLf(newText));
            var h := DiffHunk(SplitLines(before), SplitLines(after));
            && ReadPatch(JoinOnLf(DiffLines(before, after, relPath)), path) == Ok([FilePatch(Some(p), Some(p), [h])])
            && Patched(before + "\r\n", [h]) == Ok(after + "\r\n")
  {
    hide SplitLines, DiffHunk, DiffLines, ReadPatch, Patched, ToCrLf, NoCr, NoBreaks, JoinOnLf;
    SplitsAlike(oldText);
    SplitsAlike(newText);
    CrLfDiffIsTheSame(oldText, newText, relPath);
    CrLfDiffMakesTheEdit(oldText, newText);
    DiffRoundTrip(oldText, newText, relPath, p, path);
  }

  lemma TerminatedCrLf(text: string)
    ensures ToCrLf(text + "\n") == ToCrLf(text) + "\r\n"
  {
    ToCrLfConcat(text, "\n");
    assert "\n"[1..] == "" && "\r\n" + "" == "\r\n";
  }

  lemma {:induction false} LineFeedsStay(text: string)
    ensures NoLf(ToCrLf(text)) <==> NoLf(text)
    ensures NoCr(ToCrLf(text)) ==> NoLf(text)
  {
    if text != "" {
      var first, rest := if text[0] == '\n' then "\r\n" else [text[0]], ToCrLf(text[1..]);
      LineFeedsStay(text[1..]);
      AllOfConcat(first, rest);
      AllOfConcat([text[0]], text[1..]);
      assert [text[0]] + text[1..] == text;
      assert first[0] == '\r' || first == [text[0]];
      if text[0] == '\n' {
        assert first[1] == '\n' && [text[0]][0] == '\n';
      } else {
        assert NoLf([text[0]]);
      }
    }
  }

  lemma AllOfConcat(a: string, b: string)
    ensures NoLf(a + b) <==> NoLf(a) && NoLf(b)
    ensures NoCr(a + b) <==> NoCr(a) && NoCr(b)
  {
    assert forall i :: 0 <= i < |a| ==> (a + b)[i] == a[i];
    assert forall i :: 0 <= i < |b| ==> (a + b)[|a| + i] == b[i];
  }

  lemma ToCrLfDiffers(a: string, b: string)
    requires NoCr(a) && NoCr(b)
    ensures ToCrLf(a) == ToCrLf(b) <==> a == b
  {
    FoldUndoes(a);
    FoldUndoes(b);
  }

  /** A text without carriage returns is patched without them. */
  lemma PatchedPlain(text: string, hunks: seq<Hunk>)
    requires NoCr(text) && PlainHunks(hunks)
    ensures Patched(text, hunks) == match Outcome(Lines(text), Lf, hunks, 0, 0)
                                    case Err(e) => Err(e)
                                    case Ok(lines) => Ok(Join(lines))
    ensures Patched(text, hunks).Ok? ==> NoCr(Patched(text, hunks).value)
  {
    hide Outcome, Lines, Join, Plain, NoCr, PlainHunks, NoCrLf, PreferredEnding;
    PlainLines(text);
    PlainNoCrLf(Lines(text));
    var outcome := Outcome(Lines(text), Lf, hunks, 0, 0);
    if outcome.Ok? {
      OutcomePlain(Lines(text), hunks, 0, 0);
      PlainJoin(outcome.value);
    }
  }

  /**
   * Patches invert on texts with CRLF throughout, if and only if the patch merges no lines and does not take the last
   * line feed away: a text without one is given back its lines with LF.
   */
  lemma CrLfPatchInverts(text: string, hunks: seq<Hunk>, after: string)
    requires NoCr(text) && PlainHunks(hunks) && Patched(ToCrLf(text), hunks) == Ok(after)
    ensures Patched(after, InvertAll(hunks)) == Ok(ToCrLf(text)) <==>
            MergesNothing(Lines(text), hunks, 0) && (NoLf(text) || !NoLf(after))
  {
    hide Outcome, Lines, Join, ToCrLf, NoCr, PlainHunks, NoLf, Patched, InvertAll, MergesNothing;
    PatchKeepsCrLf(text, hunks);
    PatchedPlain(text, hunks);
    PatchInverts(text, hunks, Outcome(Lines(text), Lf, hunks, 0, 0).value);
    if NoLf(text) {
      ToCrLfKeeps(text);
    } else {
      var plain := Patched(text, hunks).value;
      LineFeedsStay(plain);
      LineFeedsStay(text);
      InvertedPlain(hunks);
      PatchKeepsCrLf(plain, InvertAll(hunks));
      PatchedPlain(plain, InvertAll(hunks));
      var back := Patched(plain, InvertAll(hunks));
      if back.Ok? { ToCrLfDiffers(back.value, text); }
    }
  }
}
