/** The one-hunk unified diff printed for an edit, and why applying it makes the edit. */
module DiffPrinter {
  import opened Results
  import opened ExactLines
  import opened Hunks
  import opened HunkParser
  import opened PatchInverse

  const CONTEXT := 3

  // ----- loose line splitting

  /** Every CR LF pair becomes a line feed. */
  function FoldCrLf(text: string): string {
    if |text| < 2 then text
    else if text[0] == '\r' && text[1] == '\n' then "\n" + FoldCrLf(text[2..])
    else [text[0]] + FoldCrLf(text[1..])
  }

  function SplitOnLf(text: string): (lines: seq<string>)
    ensures lines != []
    decreases |text|
  {
    var n := FirstLf(text);
    if n == |text| then [text] else [text[..n]] + SplitOnLf(text[n + 1..])
  }

  function SplitLines(text: string): seq<string> {
    SplitOnLf(FoldCrLf(text))
  }

  function JoinOnLf(lines: seq<string>): string
    requires lines != []
  {
    if |lines| == 1 then lines[0] else lines[0] + "\n" + JoinOnLf(lines[1..])
  }

  /** The same lines, each ended by a line feed. */
  function Terminated(lines: seq<string>): (r: seq<Line>)
    ensures |r| == |lines|
  {
    if lines == [] then [] else [Line(lines[0], Lf)] + Terminated(lines[1..])
  }

  lemma TerminatedAt(lines: seq<string>)
    ensures forall i :: 0 <= i < |lines| ==> Terminated(lines)[i] == Line(lines[i], Lf)
  {
    if lines != [] { TerminatedAt(lines[1..]); }
  }

  lemma {:induction false} FoldKeepsLf(text: string)
    requires NoCr(text)
    ensures FoldCrLf(text) == text
  {
    if |text| >= 2 { FoldKeepsLf(text[1..]); }
  }

  lemma {:induction false} SplitOnLfLosesNothing(text: string)
    ensures JoinOnLf(SplitOnLf(text)) == text
    ensures forall line :: line in SplitOnLf(text) ==> NoLf(line)
    decreases |text|
  {
    var n := FirstLf(text);
    FirstLfStops(text);
    if n < |text| {
      var rest := SplitOnLf(text[n + 1..]);
      SplitOnLfLosesNothing(text[n + 1..]);
      assert SplitOnLf(text) == [text[..n]] + rest;
      assert ([text[..n]] + rest)[1..] == rest;
      assert text == text[..n] + "\n" + text[n + 1..];
    }
  }

  /** The same lines with every CR LF ending turned into a line feed. */
  function WithLf(lines: seq<Line>): seq<Line> {
    if lines == [] then []
    else [if lines[0].ending == CrLf then Line(lines[0].content, Lf) else lines[0]] + WithLf(lines[1..])
  }

  lemma {:induction false} FoldUnended(s: string)
    requires NoLf(s)
    ensures FoldCrLf(s) == s
  {
    if |s| >= 2 {
      assert NoLf(s[1..]) by { assert forall i :: 0 <= i < |s[1..]| ==> s[1..][i] == s[i + 1]; }
      FoldUnended(s[1..]);
      assert s == [s[0]] + s[1..];
    }
  }

  lemma {:induction false} FoldLine(s: string, rest: string)
    requires NoLf(s)
    ensures FoldCrLf(s + ("\n" + rest)) == (if EndsWithCr(s) then s[..|s| - 1] else s) + ("\n" + FoldCrLf(rest))
  {
    var text := s + ("\n" + rest);
    if s == "" {
      assert text == "\n" + rest && text[1..] == rest;
      if rest == "" { assert "\n" + rest == "\n"; }
    } else {
      assert text[0] == s[0] && text[1] == (if |s| == 1 then '\n' else s[1]);
      if s == "\r" {
        assert text[2..] == rest;
      } else {
        assert text[1..] == s[1..] + ("\n" + rest);
        assert NoLf(s[1..]) by { assert forall i :: 0 <= i < |s[1..]| ==> s[1..][i] == s[i + 1]; }
        FoldLine(s[1..], rest);
        hide FoldCrLf;
        FirstKept(s, FoldCrLf(rest));
      }
    }
  }

  lemma FirstKept(s: string, rest: string)
    requires s != "" && s != "\r"
    ensures [s[0]] + ((if EndsWithCr(s[1..]) then s[1..][..|s| - 2] else s[1..]) + ("\n" + rest))
         == (if EndsWithCr(s) then s[..|s| - 1] else s) + ("\n" + rest)
  {
    assert s == [s[0]] + s[1..];
    if EndsWithCr(s) { assert s[..|s| - 1] == [s[0]] + s[1..][..|s| - 2]; }
  }

  /** Folding is what turning every CR LF ending of the exact lines into a line feed comes to. */
  lemma {:induction false} FoldIsWithLf(text: string)
    ensures FoldCrLf(text) == Join(WithLf(Lines(text)))
    decreases |text|
  {
    hide FoldCrLf, Lines, Join, WithLf, FirstLf;
    var n := FirstLf(text);
    FirstLfStops(text);
    if n < |text| {
      FoldIsWithLf(text[n + 1..]);
      FoldFirst(text, n);
    } else {
      FoldLast(text);
    }
  }

  lemma FoldLast(text: string)
    requires NoLf(text)
    ensures FoldCrLf(text) == Join(WithLf(Lines(text)))
  {
    FoldUnended(text);
    hide FoldCrLf, FirstLf, LineUpTo;
    if text != "" {
      LinesUnended(text);
      hide Lines;
      assert [Line(text, Missing)][1..] == [] && WithLf([Line(text, Missing)]) == [Line(text, Missing)] + [];
      assert text + "" + "" == text;
    }
  }

  lemma FoldFirst(text: string, n: nat)
    requires n < |text| && text[n] == '\n' && forall i :: 0 <= i < n ==> text[i] != '\n'
    requires FoldCrLf(text[n + 1..]) == Join(WithLf(Lines(text[n + 1..])))
    ensures FoldCrLf(text) == Join(WithLf(Lines(text)))
  {
    hide FoldCrLf, Lines, Join, WithLf;
    var rest := text[n + 1..];
    LinesAt(text, n);
    FoldLine(text[..n], rest);
    assert text == text[..n] + ("\n" + rest);
    JoinWithLfFirst(LineUpTo(text, n), Lines(rest));
    LineUpToContent(text, n);
  }

  lemma LineUpToContent(text: string, n: nat)
    requires n < |text|
    ensures LineUpTo(text, n).ending != Missing
    ensures LineUpTo(text, n).content == if EndsWithCr(text[..n]) then text[..n][..n - 1] else text[..n]
  {
    if n > 0 { assert text[..n][..n - 1] == text[..n - 1]; }
  }

  lemma JoinWithLfFirst(line: Line, rest: seq<Line>)
    requires line.ending != Missing
    ensures Join(WithLf([line] + rest)) == line.content + ("\n" + Join(WithLf(rest)))
  {
    var folded := Line(line.content, Lf);
    assert ([line] + rest)[1..] == rest;
    assert WithLf([line] + rest) == [folded] + WithLf(rest);
    assert ([folded] + WithLf(rest))[1..] == WithLf(rest);
    assert line.content + "\n" + Join(WithLf(rest)) == line.content + ("\n" + Join(WithLf(rest)));
  }

  /** The loosely split lines, joined, are the text with every CR LF ending turned into a line feed. */
  lemma SplitLosesNothing(text: string)
    ensures JoinOnLf(SplitLines(text)) == Join(WithLf(Lines(text)))
    ensures forall line :: line in SplitLines(text) ==> NoLf(line)
  {
    SplitOnLfLosesNothing(FoldCrLf(text));
    FoldIsWithLf(text);
  }

  lemma {:induction false} SplitInvertsJoinOnLf(lines: seq<string>)
    requires lines != [] && forall line :: line in lines ==> NoLf(line)
    ensures SplitOnLf(JoinOnLf(lines)) == lines
  {
    var text, line := JoinOnLf(lines), lines[0];
    FirstLfStops(text);
    assert NoLf(line);
    if |lines| == 1 {
      assert FirstLf(text) == |text|;
    } else {
      SplitInvertsJoinOnLf(lines[1..]);
      FirstLfAt(text, |line|);
      assert text[..|line|] == line && text[|line| + 1..] == JoinOnLf(lines[1..]);
    }
  }

  /** With one more line feed, exact splitting sees the same lines as loose splitting. */
  lemma {:induction false} TerminatedLines(text: string)
    requires NoCr(text)
    ensures Lines(text + "\n") == Terminated(SplitOnLf(text))
    decreases |text|
  {
    var n := FirstLf(text);
    EndedLines(text);
    TerminatedFirst(SplitOnLf(text));
    hide *;
    if n < |text| { TerminatedLines(text[n + 1..]); }
  }

  /** The first line of a text with one more line feed, and the others. */
  lemma EndedLines(text: string)
    requires NoCr(text)
    ensures FirstLf(text) < |text| ==>
              var rest := text[FirstLf(text) + 1..];
              && NoCr(rest) && SplitOnLf(text)[1..] == SplitOnLf(rest)
              && Lines(text + "\n") == [Line(SplitOnLf(text)[0], Lf)] + Lines(rest + "\n")
    ensures FirstLf(text) >= |text| ==>
              SplitOnLf(text)[1..] == [] && Lines(text + "\n") == [Line(SplitOnLf(text)[0], Lf)]
  {
    var n, ended := FirstLf(text), text + "\n";
    FirstLfStops(text);
    FirstEnded(text, n);
    LinesAt(ended, n);
    Appended(text, "\n", n);
    if n < |text| {
      Appended(text, "\n", n + 1);
    } else {
      assert text[..n] == text && ended[n + 1..] == "" && Lines("") == [];
    }
    hide Lines, FirstLf, LineUpTo;
  }

  lemma Appended<T>(a: seq<T>, b: seq<T>, n: nat)
    requires n <= |a|
    ensures (a + b)[..n] == a[..n] && (a + b)[n..] == a[n..] + b
  {
  }

  lemma FirstEnded(text: string, n: nat)
    requires n <= |text| && NoCr(text)
    ensures LineUpTo(text + "\n", n) == Line(text[..n], Lf)
  {
    Appended(text, "\n", n);
    if n > 0 { assert (text + "\n")[n - 1] == text[n - 1]; }
  }

  lemma TerminatedFirst(lines: seq<string>)
    requires lines != []
    ensures Terminated(lines) == [Line(lines[0], Lf)] + Terminated(lines[1..])
    ensures lines[1..] == [] ==> Terminated(lines[1..]) == []
  {
  }

  lemma {:induction false} JoinTerminated(lines: seq<string>)
    requires lines != []
    ensures Join(Terminated(lines)) == JoinOnLf(lines) + "\n"
  {
    assert Terminated(lines)[1..] == Terminated(lines[1..]);
    if |lines| == 1 {
      assert Join(Terminated(lines)) == lines[0] + "\n" + "";
    } else {
      JoinTerminated(lines[1..]);
    }
  }

  // ----- the hunk of an edit

  function CommonPrefix(a: seq<string>, b: seq<string>): (n: nat)
    ensures n <= |a| && n <= |b|
  {
    if a == [] || b == [] || a[0] != b[0] then 0 else 1 + CommonPrefix(a[1..], b[1..])
  }

  function CommonSuffix(a: seq<string>, b: seq<string>): (n: nat)
    ensures n <= |a| && n <= |b|
  {
    if a == [] || b == [] || a[|a| - 1] != b[|b| - 1] then 0 else 1 + CommonSuffix(a[..|a| - 1], b[..|b| - 1])
  }

  /** n is the length of the longest common prefix. */
  lemma {:induction false} CommonPrefixIsLongest(a: seq<string>, b: seq<string>)
    ensures var n := CommonPrefix(a, b);
            a[..n] == b[..n] && (n < |a| && n < |b| ==> a[n] != b[n])
  {
    if a != [] && b != [] && a[0] == b[0] {
      CommonPrefixIsLongest(a[1..], b[1..]);
      var n := CommonPrefix(a, b);
      assert a[..n] == [a[0]] + a[1..][..n - 1] && b[..n] == [b[0]] + b[1..][..n - 1];
    }
  }

  lemma EndsOfSlice<T>(s: seq<T>, n: nat)
    requires n < |s|
    ensures s[|s| - n - 1..] == s[..|s| - 1][|s| - 1 - n..] + [s[|s| - 1]]
  {
  }

  lemma CommonSuffixStep(a: seq<string>, b: seq<string>)
    ensures CommonSuffix(a, b)
         == if a == [] || b == [] || a[|a| - 1] != b[|b| - 1] then 0
            else 1 + CommonSuffix(a[..|a| - 1], b[..|b| - 1])
  {
  }

  /** n is the length of the longest common suffix. */
  lemma {:induction false} CommonSuffixIsLongest(a: seq<string>, b: seq<string>)
    ensures var n := CommonSuffix(a, b);
            a[|a| - n..] == b[|b| - n..] && (n < |a| && n < |b| ==> a[|a| - 1 - n] != b[|b| - 1 - n])
  {
    CommonSuffixStep(a, b);
    hide CommonSuffix;
    if a == [] || b == [] || a[|a| - 1] != b[|b| - 1] {
      assert a[|a|..] == b[|b|..] == [];
    } else {
      var a', b' := a[..|a| - 1], b[..|b| - 1];
      var n := CommonSuffix(a', b');
      CommonSuffixIsLongest(a', b');
      EndsOfSlice(a, n);
      EndsOfSlice(b, n);
      if n < |a'| && n < |b'| { assert a[|a| - 2 - n] == a'[|a'| - 1 - n] && b[|b| - 2 - n] == b'[|b'| - 1 - n]; }
    }
  }

  function Min(a: int, b: int): int { if a < b then a else b }

  function Max(a: int, b: int): int { if a > b then a else b }

  function Block(kind: Kind, lines: seq<string>): seq<BodyLine> {
    if lines == [] then [] else [BodyLine(kind, lines[0], false)] + Block(kind, lines[1..])
  }

  /** The lines before the last suffix ones, and up to three of those. */
  function HunkEnd(lines: seq<string>, suffix: nat): (end: nat)
    requires suffix <= |lines|
    ensures |lines| - suffix <= end <= |lines|
  {
    Min(|lines|, |lines| - suffix + CONTEXT)
  }

  /** The hunk that replaces what lies between a common prefix and a common suffix, with three lines of context. */
  function EditHunk(old_: seq<string>, new_: seq<string>, prefix: nat, suffix: nat): Hunk
    requires prefix + suffix <= |old_| && prefix + suffix <= |new_|
  {
    var start := Max(0, prefix - CONTEXT);
    Hunk(start + 1, HunkEnd(old_, suffix) - start, start + 1, HunkEnd(new_, suffix) - start,
         Block(Context, old_[start..prefix])
         + Block(Remove, old_[prefix..|old_| - suffix])
         + Block(Add, new_[prefix..|new_| - suffix])
         + Block(Context, old_[|old_| - suffix..HunkEnd(old_, suffix)]))
  }

  /** Three lines of context on either side, or as many as there are. */
  lemma ContextOfThree(old_: seq<string>, new_: seq<string>, prefix: nat, suffix: nat)
    requires prefix + suffix <= |old_| && prefix + suffix <= |new_|
    ensures var h := EditHunk(old_, new_, prefix, suffix);
            var before, after := if prefix < 3 then prefix else 3, if suffix < 3 then suffix else 3;
            && h.oldStart == h.newStart == prefix - before + 1
            && h.oldCount == before + (|old_| - suffix - prefix) + after
            && h.newCount == before + (|new_| - suffix - prefix) + after
  {
  }

  /** The hunk of the diff between two line lists. */
  function DiffHunk(old_: seq<string>, new_: seq<string>): Hunk {
    var prefix := CommonPrefix(old_, new_);
    EditHunk(old_, new_, prefix, CommonSuffix(old_[prefix..], new_[prefix..]))
  }

  lemma {:induction false} AddedBlockApplies(lines: seq<string>, olds: seq<Line>)
    ensures Matches(Block(Add, lines), olds) && Image(Block(Add, lines), olds, Lf) == Terminated(lines)
    ensures OldSide(Block(Add, lines)) == []
  {
    if lines != [] {
      AddedBlockApplies(lines[1..], olds);
      assert Block(Add, lines)[1..] == Block(Add, lines[1..]);
    }
  }

  lemma {:induction false} OldBlockApplies(kind: Kind, lines: seq<string>, rest: seq<Line>)
    requires kind != Add
    ensures Matches(Block(kind, lines), Terminated(lines) + rest)
    ensures Image(Block(kind, lines), Terminated(lines) + rest, Lf)
            == (if kind == Remove then [] else Terminated(lines))
    ensures |OldSide(Block(kind, lines))| == |lines|
  {
    hide Matches, Image, OldSide, Block, Terminated;
    if lines == [] {
      NoOldLines(kind, rest);
    } else {
      var olds := Terminated(lines[1..]) + rest;
      OldBlockApplies(kind, lines[1..], rest);
      FirstOfBlock(kind, lines);
      OldLineApplies(BodyLine(kind, lines[0], false), Block(kind, lines[1..]), Line(lines[0], Lf), olds);
      assert [Line(lines[0], Lf)] + Terminated(lines[1..]) + rest == [Line(lines[0], Lf)] + olds;
    }
  }

  lemma NoOldLines(kind: Kind, rest: seq<Line>)
    ensures Block(kind, []) == [] && OldSide([]) == [] && Terminated([]) == []
    ensures Matches([], [] + rest) && Image([], [] + rest, Lf) == []
  {
  }

  lemma FirstOfBlock(kind: Kind, lines: seq<string>)
    requires lines != []
    ensures Block(kind, lines) == [BodyLine(kind, lines[0], false)] + Block(kind, lines[1..])
    ensures Terminated(lines) == [Line(lines[0], Lf)] + Terminated(lines[1..])
  {
  }

  lemma OldLineApplies(b: BodyLine, body: seq<BodyLine>, line: Line, olds: seq<Line>)
    requires b.kind != Add && Fits(b, line) && Matches(body, olds)
    ensures Matches([b] + body, [line] + olds)
    ensures Image([b] + body, [line] + olds, Lf) == (if b.kind == Remove then [] else [line]) + Image(body, olds, Lf)
    ensures |OldSide([b] + body)| == 1 + |OldSide(body)|
  {
    assert ([b] + body)[1..] == body && ([line] + olds)[1..] == olds;
  }

  /** The lines left when the first line of a body has been dealt with, and what it leaves of them. */
  function Behind(b: BodyLine, olds: seq<Line>): seq<Line> {
    if b.kind == Add || olds == [] then olds else olds[1..]
  }

  function Left(b: BodyLine, olds: seq<Line>): seq<Line>
    requires b.kind == Add || olds != []
  {
    match b.kind
    case Add => [Line(b.content, if b.noNewline then Missing else Lf)]
    case Remove => []
    case Context => [olds[0]]
  }

  lemma FirstApplies(body: seq<BodyLine>, olds: seq<Line>)
    requires body != []
    ensures Matches(body, olds) <==> (body[0].kind == Add || (olds != [] && Fits(body[0], olds[0])))
                                     && Matches(body[1..], Behind(body[0], olds))
    ensures Matches(body, olds) ==>
            Image(body, olds, Lf) == Left(body[0], olds) + Image(body[1..], Behind(body[0], olds), Lf)
    ensures |OldSide(body)| == |OldSide(body[1..])| + if body[0].kind == Add then 0 else 1
  {
  }

  lemma {:induction false} AppendApplies(a: seq<BodyLine>, b: seq<BodyLine>, olds: seq<Line>)
    requires Matches(a, olds) && |OldSide(a)| <= |olds| && Matches(b, olds[|OldSide(a)|..])
    ensures Matches(a + b, olds)
    ensures Image(a + b, olds, Lf) == Image(a, olds, Lf) + Image(b, olds[|OldSide(a)|..], Lf)
  {
    if a == [] {
      assert a + b == b && olds[0..] == olds;
    } else {
      assert (a + b)[0] == a[0] && (a + b)[1..] == a[1..] + b;
      FirstApplies(a, olds);
      FirstApplies(a + b, olds);
      hide Matches, Image, OldSide, Fits, Left;
      var rest := Behind(a[0], olds);
      assert olds[|OldSide(a)|..] == rest[|OldSide(a[1..])|..];
      AppendApplies(a[1..], b, rest);
    }
  }

  /** The body matches exactly the lines in front, whatever follows, and leaves image behind. */
  ghost predicate Applied(body: seq<BodyLine>, front: seq<Line>, rest: seq<Line>, image: seq<Line>) {
    && Matches(body, front + rest)
    && Image(body, front + rest, Lf) == image
    && |OldSide(body)| == |front|
    && |NewSide(body)| == |image|
  }

  lemma ExtendAdd(body: seq<BodyLine>, front: seq<Line>, rest: seq<Line>, image: seq<Line>, lines: seq<string>)
    requires Applied(body, front, rest, image)
    ensures Applied(body + Block(Add, lines), front, rest, image + Terminated(lines))
  {
    hide Matches, Image, OldSide, NewSide, Terminated, Block;
    AddedBlockApplies(lines, rest);
    assert (front + rest)[|front|..] == rest;
    AppendApplies(body, Block(Add, lines), front + rest);
    SidesAppend(body, Block(Add, lines));
    ImageLength(body + Block(Add, lines), front + rest, Lf);
  }

  lemma ExtendOld(kind: Kind, body: seq<BodyLine>, front: seq<Line>, rest: seq<Line>, image: seq<Line>,
                  lines: seq<string>)
    requires kind != Add && Applied(body, front, Terminated(lines) + rest, image)
    ensures Applied(body + Block(kind, lines), front + Terminated(lines), rest,
                    if kind == Context then image + Terminated(lines) else image)
  {
    hide Matches, Image, OldSide, NewSide, Terminated, Block;
    OldBlockApplies(kind, lines, rest);
    var olds := front + (Terminated(lines) + rest);
    assert olds[|front|..] == Terminated(lines) + rest;
    AppendApplies(body, Block(kind, lines), olds);
    SidesAppend(body, Block(kind, lines));
    ImageLength(body + Block(kind, lines), olds, Lf);
    assert olds == front + Terminated(lines) + rest;
    if kind == Remove { assert image + [] == image; }
  }

  /** The old lines covered by the edit match it, and its image is the new lines in their place. */
  lemma EditApplies(before: seq<string>, removed: seq<string>, added: seq<string>, after: seq<string>, rest: seq<Line>)
    ensures Applied(Block(Context, before) + Block(Remove, removed) + Block(Add, added) + Block(Context, after),
                    Terminated(before) + Terminated(removed) + Terminated(after), rest,
                    Terminated(before) + Terminated(added) + Terminated(after))
  {
    hide Matches, Image, OldSide, NewSide, Terminated, Block;
    var r2 := Terminated(after) + rest;
    var r1 := Terminated(removed) + r2;
    assert Applied(Block(Context, before), Terminated(before), r1, Terminated(before)) by {
      OldBlockApplies(Context, before, r1);
      ImageLength(Block(Context, before), Terminated(before) + r1, Lf);
    }
    hide Applied;
    ExtendOld(Remove, Block(Context, before), Terminated(before), r2, Terminated(before), removed);
    ExtendAdd(Block(Context, before) + Block(Remove, removed), Terminated(before) + Terminated(removed), r2,
              Terminated(before), added);
    ExtendOld(Context, Block(Context, before) + Block(Remove, removed) + Block(Add, added),
              Terminated(before) + Terminated(removed), rest, Terminated(before) + Terminated(added), after);
  }

  lemma TerminatedSlice(lines: seq<string>, i: nat, j: nat)
    requires i <= j <= |lines|
    ensures Terminated(lines[i..j]) == Terminated(lines)[i..j]
  {
    hide Terminated;
    TerminatedAt(lines);
    TerminatedAt(lines[i..j]);
  }

  /** A prefix and a suffix two line lists share, without overlap. */
  ghost predicate Shared(a: seq<string>, b: seq<string>, prefix: nat, suffix: nat) {
    && prefix + suffix <= |a| && prefix + suffix <= |b|
    && a[..prefix] == b[..prefix]
    && a[|a| - suffix..] == b[|b| - suffix..]
  }

  lemma SharedBounds(a: seq<string>, b: seq<string>, prefix: nat, suffix: nat)
    requires Shared(a, b, prefix, suffix)
    ensures prefix + suffix <= |a| && prefix + suffix <= |b|
  {
  }

  lemma CommonIsShared(a: seq<string>, b: seq<string>)
    ensures Shared(a, b, CommonPrefix(a, b), CommonSuffix(a[CommonPrefix(a, b)..], b[CommonPrefix(a, b)..]))
  {
    hide CommonPrefix, CommonSuffix;
    var p := CommonPrefix(a, b);
    CommonPrefixIsLongest(a, b);
    CommonSuffixIsLongest(a[p..], b[p..]);
    SharedFrom(a, b, p, CommonSuffix(a[p..], b[p..]));
  }

  lemma SharedFrom(a: seq<string>, b: seq<string>, p: nat, s: nat)
    requires p <= |a| && p <= |b| && a[..p] == b[..p]
    requires s <= |a| - p && s <= |b| - p && a[p..][|a| - p - s..] == b[p..][|b| - p - s..]
    ensures Shared(a, b, p, s)
  {
    DropDrop(a, p, |a| - p - s);
    DropDrop(b, p, |b| - p - s);
  }

  lemma DropDrop<T>(s: seq<T>, i: nat, j: nat)
    requires i + j <= |s|
    ensures s[i..][j..] == s[i + j..]
  {
  }

  /** The counts printed in the header are those of the body. */
  lemma EditCounted(a: seq<string>, b: seq<string>, prefix: nat, suffix: nat)
    requires Shared(a, b, prefix, suffix)
    ensures Counted(EditHunk(a, b, prefix, suffix))
  {
    hide Matches, Image, OldSide, NewSide, Terminated, Block;
    var start, end := Max(0, prefix - CONTEXT), HunkEnd(a, suffix);
    EditApplies(a[start..prefix], a[prefix..|a| - suffix], b[prefix..|b| - suffix], a[|a| - suffix..end], []);
  }

  lemma Slices<T>(s: seq<T>, i: nat, j: nat, k: nat, l: nat)
    requires i <= j <= k <= l <= |s|
    ensures s[i..j] + s[j..k] + s[k..l] + s[l..] == s[i..]
  {
  }

  lemma CoveredLines(a: seq<string>, i: nat, j: nat, k: nat, l: nat)
    requires i <= j <= k <= l <= |a|
    ensures Terminated(a[i..j]) + Terminated(a[j..k]) + Terminated(a[k..l]) + Terminated(a)[l..] == Terminated(a)[i..]
  {
    hide Terminated;
    TerminatedSlice(a, i, j);
    TerminatedSlice(a, j, k);
    TerminatedSlice(a, k, l);
    Slices(Terminated(a), i, j, k, l);
  }

  /** What the hunk leaves in place of the lines it covers. */
  ghost function EditImage(a: seq<string>, b: seq<string>, prefix: nat, suffix: nat): seq<Line>
    requires prefix + suffix <= |a| && prefix + suffix <= |b|
  {
    Terminated(a[Max(0, prefix - CONTEXT)..prefix]) + Terminated(b[prefix..|b| - suffix])
    + Terminated(a[|a| - suffix..HunkEnd(a, suffix)])
  }

  lemma EditMatches(a: seq<string>, b: seq<string>, prefix: nat, suffix: nat)
    requires prefix + suffix <= |a| && prefix + suffix <= |b|
    ensures var body, olds := EditHunk(a, b, prefix, suffix).body, Terminated(a)[Max(0, prefix - CONTEXT)..];
            && Matches(body, olds)
            && Image(body, olds, Lf) == EditImage(a, b, prefix, suffix)
            && |OldSide(body)| == HunkEnd(a, suffix) - Max(0, prefix - CONTEXT)
  {
    hide Matches, Image, OldSide, NewSide, Terminated, Block;
    var start, end := Max(0, prefix - CONTEXT), HunkEnd(a, suffix);
    EditApplies(a[start..prefix], a[prefix..|a| - suffix], b[prefix..|b| - suffix], a[|a| - suffix..end],
                Terminated(a)[end..]);
    CoveredLines(a, start, prefix, |a| - suffix, end);
  }

  /** Both ranges start at the same line and neither is empty. */
  lemma EditPlace(a: seq<string>, b: seq<string>, prefix: nat, suffix: nat)
    requires prefix + suffix <= |a| && prefix + suffix <= |b| && a != [] && b != []
    ensures var h, start := EditHunk(a, b, prefix, suffix), Max(0, prefix - CONTEXT);
            && 0 <= start && h.oldStart == start + 1 == h.newStart
            && start + h.oldCount == HunkEnd(a, suffix) && h.oldCount > 0
            && start + h.newCount == HunkEnd(b, suffix) && h.newCount > 0
  {
    hide Block;
  }

  /** On the old lines, the one hunk of an edit gives exactly the new lines. */
  lemma EditMakesTheEdit(a: seq<string>, b: seq<string>, prefix: nat, suffix: nat)
    requires Shared(a, b, prefix, suffix) && a != [] && b != []
    ensures prefix + suffix <= |a| && prefix + suffix <= |b|
    ensures Outcome(Terminated(a), Lf, [EditHunk(a, b, prefix, suffix)], 0, 0) == Ok(Terminated(b))
  {
    hide *;
    SharedBounds(a, b, prefix, suffix);
    var start, h, image := Max(0, prefix - CONTEXT), EditHunk(a, b, prefix, suffix), EditImage(a, b, prefix, suffix);
    EditPlace(a, b, prefix, suffix);
    EditMatches(a, b, prefix, suffix);
    EditedLines(a, b, prefix, suffix);
    EditedLength(a, b, prefix, suffix);
    OneHunk(Terminated(a), h, start, image);
  }

  lemma OneHunk(original: seq<Line>, h: Hunk, at: nat, image: seq<Line>)
    requires at + h.oldCount <= |original|
    requires Matches(h.body, original[at..]) && Image(h.body, original[at..], Lf) == image
    requires h.oldCount == |OldSide(h.body)| > 0 && h.newCount == |image| > 0
    requires h.oldStart == at + 1 == h.newStart
    ensures Outcome(original, Lf, [h], 0, 0) == Ok(original[..at] + image + original[at + h.oldCount..])
  {
    hide Matches, Image, OldSide, NewSide, Outcome;
    StepOutcome(original, Lf, [h], 0, 0, [], image);
    NoHunks(original, at + h.oldCount, h.newCount - h.oldCount);
    PrependNothing(Outcome(original, Lf, [h], 0, 0));
    assert [h][1..] == [] && [] + original[0..at] == original[..at];
  }

  lemma PrependNothing(r: Result<seq<Line>, PatchError>)
    ensures Prepend([], r) == r
  {
    if r.Ok? { assert [] + r.value == r.value; }
  }

  lemma NoHunks(original: seq<Line>, from: nat, offset: int)
    requires from <= |original|
    ensures Outcome(original, Lf, [], from, offset) == Ok(original[from..])
  {
  }

  lemma EditedLines(a: seq<string>, b: seq<string>, prefix: nat, suffix: nat)
    requires Shared(a, b, prefix, suffix)
    ensures Terminated(a)[..Max(0, prefix - CONTEXT)] + EditImage(a, b, prefix, suffix)
            + Terminated(a)[HunkEnd(a, suffix)..]
            == Terminated(b)
  {
    hide *;
    SharedBounds(a, b, prefix, suffix);
    EditBounds(prefix);
    EditedText(a, b, prefix, suffix);
    EditImageIs(a, b, prefix, suffix);
    EditedAt(a, b, Max(0, prefix - CONTEXT), prefix, |b| - suffix, |a| - suffix, HunkEnd(a, suffix),
             EditImage(a, b, prefix, suffix));
  }

  /** The old lines around the hunk and what the hunk leaves between them are the new lines. */
  lemma EditedText(a: seq<string>, b: seq<string>, prefix: nat, suffix: nat)
    requires Shared(a, b, prefix, suffix)
    ensures prefix + suffix <= |a| && prefix + suffix <= |b| && 0 <= Max(0, prefix - CONTEXT) <= prefix
    ensures var start, end := Max(0, prefix - CONTEXT), HunkEnd(a, suffix);
            a[..start] + (a[start..prefix] + b[prefix..|b| - suffix] + a[|a| - suffix..end]) + a[end..] == b
  {
    EditBounds(prefix);
    SharedSlices(a, b, prefix, suffix);
    hide *;
    Reassemble(a, b, Max(0, prefix - CONTEXT), prefix, |a| - suffix, |b| - suffix, HunkEnd(a, suffix));
  }

  lemma EditedAt(a: seq<string>, b: seq<string>, start: nat, prefix: nat, n: nat, m: nat, end: nat, image: seq<Line>)
    requires start <= prefix <= |a| && m <= end <= |a| && prefix <= n <= |b|
    requires a[..start] + (a[start..prefix] + b[prefix..n] + a[m..end]) + a[end..] == b
    requires image == Terminated(a[start..prefix]) + Terminated(b[prefix..n]) + Terminated(a[m..end])
    ensures Terminated(a)[..start] + image + Terminated(a)[end..] == Terminated(b)
  {
    hide *;
    TerminatedFive(a[..start], a[start..prefix], b[prefix..n], a[m..end], a[end..]);
    TerminatedEnds(a, start);
    TerminatedEnds(a, end);
  }

  lemma EditImageIs(a: seq<string>, b: seq<string>, prefix: nat, suffix: nat)
    requires prefix + suffix <= |a| && prefix + suffix <= |b|
    ensures EditImage(a, b, prefix, suffix)
            == Terminated(a[Max(0, prefix - CONTEXT)..prefix]) + Terminated(b[prefix..|b| - suffix])
               + Terminated(a[|a| - suffix..HunkEnd(a, suffix)])
  {
  }

  lemma TerminatedConcat(a: seq<string>, b: seq<string>)
    ensures Terminated(a + b) == Terminated(a) + Terminated(b)
  {
    TerminatedAt(a);
    TerminatedAt(b);
    TerminatedAt(a + b);
    hide Terminated;
  }

  lemma TerminatedFive(w: seq<string>, x: seq<string>, y: seq<string>, z: seq<string>, rest: seq<string>)
    ensures Terminated(w) + (Terminated(x) + Terminated(y) + Terminated(z)) + Terminated(rest)
            == Terminated(w + (x + y + z) + rest)
  {
    hide Terminated;
    TerminatedConcat(x, y);
    TerminatedConcat(x + y, z);
    TerminatedConcat(w, x + y + z);
    TerminatedConcat(w + (x + y + z), rest);
  }

  lemma TerminatedEnds(lines: seq<string>, i: nat)
    requires i <= |lines|
    ensures Terminated(lines)[..i] == Terminated(lines[..i]) && Terminated(lines)[i..] == Terminated(lines[i..])
  {
    hide Terminated;
    TerminatedConcat(lines[..i], lines[i..]);
    assert lines == lines[..i] + lines[i..];
  }

  lemma EditBounds(prefix: nat)
    ensures 0 <= Max(0, prefix - CONTEXT) <= prefix
  {
  }

  lemma EditedLength(a: seq<string>, b: seq<string>, prefix: nat, suffix: nat)
    requires Shared(a, b, prefix, suffix)
    ensures |EditImage(a, b, prefix, suffix)| == HunkEnd(b, suffix) - Max(0, prefix - CONTEXT)
  {
    hide Terminated;
  }

  lemma SharedSlices(a: seq<string>, b: seq<string>, prefix: nat, suffix: nat)
    requires Shared(a, b, prefix, suffix)
    ensures prefix + suffix <= |a| && prefix + suffix <= |b|
    ensures a[0..prefix] == b[0..prefix] && a[|a| - suffix..|a|] == b[|b| - suffix..|b|]
  {
    assert a[0..prefix] == a[..prefix] && b[0..prefix] == b[..prefix];
    assert a[|a| - suffix..|a|] == a[|a| - suffix..] && b[|b| - suffix..|b|] == b[|b| - suffix..];
  }

  lemma Reassemble<T>(s: seq<T>, t: seq<T>, start: nat, prefix: nat, m: nat, n: nat, end: nat)
    requires start <= prefix <= m <= end <= |s| && prefix <= n <= |t|
    requires s[0..prefix] == t[0..prefix] && s[m..|s|] == t[n..|t|]
    ensures s[..start] + (s[start..prefix] + t[prefix..n] + s[m..end]) + s[end..] == t
  {
    var w, x, y, z, rest := s[..start], s[start..prefix], t[prefix..n], s[m..end], s[end..];
    assert w + x == t[0..prefix] && z + rest == t[n..|t|];
    assert w + (x + y + z) + rest == (w + x) + y + (z + rest);
    assert t == t[0..prefix] + t[prefix..n] + t[n..|t|];
  }

  // ----- the printing loop

  datatype Diff = NoChanges | Changed(lines: seq<string>, additions: nat, deletions: nat)

  /** The diff lines of two texts: two path lines and one hunk. */
  function DiffLines(oldText: string, newText: string, relPath: string): seq<string> {
    ["--- a/" + relPath, "+++ b/" + relPath] + PrintHunk(DiffHunk(SplitLines(oldText), SplitLines(newText)), false)
  }

  lemma {:induction false} PrintBlockStep(kind: Kind, lines: seq<string>, i: nat, j: nat)
    requires i <= j < |lines|
    ensures PrintBody(Block(kind, lines[i..j + 1]))
            == PrintBody(Block(kind, lines[i..j])) + [[PrintKind(kind)] + lines[j]]
  {
    hide PrintBody;
    BlockAppend(kind, lines[i..j], lines[j]);
    assert lines[i..j + 1] == lines[i..j] + [lines[j]];
    PrintBodyLast(Block(kind, lines[i..j]), BodyLine(kind, lines[j], false));
  }

  lemma {:induction false} BlockAppend(kind: Kind, lines: seq<string>, line: string)
    ensures Block(kind, lines + [line]) == Block(kind, lines) + [BodyLine(kind, line, false)]
  {
    if lines != [] {
      BlockAppend(kind, lines[1..], line);
      assert (lines + [line])[1..] == lines[1..] + [line];
    }
  }

  /** One of the four printing loops: a slice of lines, each behind the mark of its kind. */
  method PushLines(out: seq<string>, kind: Kind, lines: seq<string>, from: nat, to: nat) returns (r: seq<string>)
    requires from <= to <= |lines|
    ensures r == out + PrintBody(Block(kind, lines[from..to]))
  {
    r := out;
    for i := from to to
      invariant r == out + PrintBody(Block(kind, lines[from..i]))
    {
      PrintBlockStep(kind, lines, from, i);
      r := r + [[PrintKind(kind)] + lines[i]];
    }
  }

  /** Length of the agreement at the two fronts, counted upwards. */
  method CountPrefix(a: seq<string>, b: seq<string>) returns (n: nat)
    ensures n == CommonPrefix(a, b)
  {
    n := 0;
    while n < |a| && n < |b| && a[n] == b[n]
      invariant n <= |a| && n <= |b|
      invariant CommonPrefix(a, b) == n + CommonPrefix(a[n..], b[n..])
    {
      assert a[n..][1..] == a[n + 1..] && b[n..][1..] == b[n + 1..];
      n := n + 1;
    }
  }

  /** Length of the agreement at the two ends, never reaching back into the common prefix. */
  method CountSuffix(a: seq<string>, b: seq<string>, prefix: nat) returns (n: nat)
    requires prefix <= |a| && prefix <= |b|
    ensures n == CommonSuffix(a[prefix..], b[prefix..])
  {
    n := 0;
    assert a[prefix..|a| - n] == a[prefix..] && b[prefix..|b| - n] == b[prefix..];
    while n < |a| - prefix && n < |b| - prefix && a[|a| - 1 - n] == b[|b| - 1 - n]
      invariant n <= |a| - prefix && n <= |b| - prefix
      invariant CommonSuffix(a[prefix..], b[prefix..]) == n + CommonSuffix(a[prefix..|a| - n], b[prefix..|b| - n])
    {
      var a', b' := a[prefix..|a| - n], b[prefix..|b| - n];
      assert a'[..|a'| - 1] == a[prefix..|a| - n - 1] && b'[..|b'| - 1] == b[prefix..|b| - n - 1];
      n := n + 1;
    }
  }

  /** The diff printer, up to joining the lines. */
  method MakeUnifiedDiff(oldText: string, newText: string, relPath: string) returns (diff: Diff)
    ensures diff.NoChanges? <==> oldText == newText
    ensures diff.Changed? ==>
              var h := DiffHunk(SplitLines(oldText), SplitLines(newText));
              && diff.lines == DiffLines(oldText, newText, relPath)
              && diff.additions == |NewSide(h.body)| - |ContextLines(h.body)|
              && diff.deletions == |OldSide(h.body)| - |ContextLines(h.body)|
  {
    hide SplitLines, PrintBody, Block, PrintHeader, OldSide, NewSide, ContextLines, PrintKind, Decimal, CommonPrefix;
    hide CommonSuffix;
    if oldText == newText { return NoChanges; }
    var oldLines, newLines := SplitLines(oldText), SplitLines(newText);
    var prefix := CountPrefix(oldLines, newLines);
    var suffix := CountSuffix(oldLines, newLines, prefix);
    var coreOldEnd, coreNewEnd := |oldLines| - suffix, |newLines| - suffix;
    var start := Max(0, prefix - CONTEXT);
    var oldEnd, newEnd := Min(|oldLines|, coreOldEnd + CONTEXT), Min(|newLines|, coreNewEnd + CONTEXT);
    ghost var h := EditHunk(oldLines, newLines, prefix, suffix);
    var header :=
      "@@ -" + Decimal(start + 1) + "," + Decimal(oldEnd - start) + " +" + Decimal(start + 1) + ","
      + Decimal(newEnd - start) + " @@";
    var out := ["--- a/" + relPath, "+++ b/" + relPath, header];
    out := PushLines(out, Context, oldLines, start, prefix);
    out := PushLines(out, Remove, oldLines, prefix, coreOldEnd);
    out := PushLines(out, Add, newLines, prefix, coreNewEnd);
    out := PushLines(out, Context, oldLines, coreOldEnd, oldEnd);
    PrintEdit(oldLines[start..prefix], oldLines[prefix..coreOldEnd], newLines[prefix..coreNewEnd],
              oldLines[coreOldEnd..oldEnd]);
    PrintEditHeader(h, header);
    Regroup6(["--- a/" + relPath, "+++ b/" + relPath], header, PrintBody(Block(Context, oldLines[start..prefix])),
             PrintBody(Block(Remove, oldLines[prefix..coreOldEnd])),
             PrintBody(Block(Add, newLines[prefix..coreNewEnd])),
             PrintBody(Block(Context, oldLines[coreOldEnd..oldEnd])));
    diff := Changed(out, coreNewEnd - prefix, coreOldEnd - prefix);
  }

  lemma Regroup6<T>(paths: seq<T>, header: T, b1: seq<T>, b2: seq<T>, b3: seq<T>, b4: seq<T>)
    requires |paths| == 2
    ensures [paths[0], paths[1], header] + b1 + b2 + b3 + b4 == paths + ([header] + (b1 + b2 + b3 + b4))
  {
  }

  /** The context lines of a body. */
  function ContextLines(body: seq<BodyLine>): seq<BodyLine> {
    if body == [] then []
    else if body[0].kind == Context then [body[0]] + ContextLines(body[1..])
    else ContextLines(body[1..])
  }

  lemma PrintEditHeader(h: Hunk, header: string)
    requires header
             == "@@ -" + Decimal(h.oldStart) + "," + Decimal(h.oldCount) + " +" + Decimal(h.newStart) + ","
             + Decimal(h.newCount) + " @@"
    ensures header == PrintHeader(h, false)
  {
    hide Decimal;
    var a, b, c, d := Decimal(h.oldStart), Decimal(h.oldCount), Decimal(h.newStart), Decimal(h.newCount);
    assert header == "@@ -" + (a + ("," + b)) + " +" + (c + ("," + d)) + " @@";
  }

  lemma {:induction false} ContextAppend(a: seq<BodyLine>, b: seq<BodyLine>)
    ensures |ContextLines(a + b)| == |ContextLines(a)| + |ContextLines(b)|
  {
    if a == [] {
      assert a + b == b;
    } else {
      ContextAppend(a[1..], b);
      assert (a + b)[1..] == a[1..] + b;
    }
  }

  lemma {:induction false} BlockContext(kind: Kind, lines: seq<string>)
    ensures |ContextLines(Block(kind, lines))| == if kind == Context then |lines| else 0
  {
    if lines != [] {
      BlockContext(kind, lines[1..]);
      assert Block(kind, lines)[1..] == Block(kind, lines[1..]);
    }
  }

  lemma PrintEdit(before: seq<string>, removed: seq<string>, added: seq<string>, after: seq<string>)
    ensures var b1, b2, b3, b4 := Block(Context, before), Block(Remove, removed), Block(Add, added),
            Block(Context, after);
            && PrintBody(b1 + b2 + b3 + b4) == PrintBody(b1) + PrintBody(b2) + PrintBody(b3) + PrintBody(b4)
            && |ContextLines(b1 + b2 + b3 + b4)| == |before| + |after|
            && |OldSide(b1 + b2 + b3 + b4)| == |before| + |removed| + |after|
            && |NewSide(b1 + b2 + b3 + b4)| == |before| + |added| + |after|
  {
    hide *;
    var b1, b2, b3, b4 := Block(Context, before), Block(Remove, removed), Block(Add, added), Block(Context, after);
    PrintBodyAppend(b1, b2);
    PrintBodyAppend(b1 + b2, b3);
    PrintBodyAppend(b1 + b2 + b3, b4);
    ContextAppend(b1, b2);
    ContextAppend(b1 + b2, b3);
    ContextAppend(b1 + b2 + b3, b4);
    BlockContext(Context, before);
    BlockContext(Remove, removed);
    BlockContext(Add, added);
    BlockContext(Context, after);
    EditSides(before, removed, added, after);
  }

  lemma EditSides(before: seq<string>, removed: seq<string>, added: seq<string>, after: seq<string>)
    ensures var body := Block(Context, before) + Block(Remove, removed) + Block(Add, added) + Block(Context, after);
            && |OldSide(body)| == |before| + |removed| + |after|
            && |NewSide(body)| == |before| + |added| + |after|
  {
    hide Matches, Image, OldSide, NewSide, Block, Terminated;
    EditApplies(before, removed, added, after, []);
  }
}
