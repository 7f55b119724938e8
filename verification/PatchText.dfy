/** Whole patch texts: the file loop of the parser, and the round trip from an edit to its diff and back. */
module PatchText {
  import opened Results
  import opened ExactLines
  import opened Hunks
  import opened HunkParser
  import opened PatchInverse
  import opened DiffPrinter

  /** How a path line is turned into a workspace path, or into None for /dev/null. */
  type PathReader = string -> Result<Option<string>, PatchError>

  datatype FilePatch = FilePatch(oldPath: Option<string>, newPath: Option<string>, hunks: seq<Hunk>)

  /** Extended header lines that announce something other than a plain content change. */
  predicate Rejected(line: string) {
    || StartsWith(line, "rename from ") || StartsWith(line, "rename to ")
    || StartsWith(line, "copy from ") || StartsWith(line, "copy to ")
    || StartsWith(line, "similarity index ") || StartsWith(line, "dissimilarity index ")
    || StartsWith(line, "old mode ") || StartsWith(line, "new mode ")
    || (StartsWith(line, "new file mode ") && line != "new file mode 100644")
    || (StartsWith(line, "deleted file mode ") && line != "deleted file mode 100644")
  }

  function PathsFit(oldPath: Option<string>, newPath: Option<string>): Option<PatchError> {
    if oldPath.None? && newPath.None? then Some(Invalid)
    else if oldPath.Some? && newPath.Some? && oldPath != newPath then Some(CheckFailed)
    else None
  }

  function ReadFiles(lines: seq<string>, path: PathReader): Result<seq<FilePatch>, PatchError>
    decreases |lines|
  {
    if lines == [] then Ok([])
    else if lines[0] == "GIT binary patch" || StartsWith(lines[0], "Binary files ") then Err(CheckFailed)
    else if !StartsWith(lines[0], "--- ") then ReadFiles(lines[1..], path)
    else match ReadFile(lines, path)
      case Err(e) => Err(e)
      case Ok((file, rest)) =>
        match ReadFiles(rest, path)
        case Err(e) => Err(e)
        case Ok(files) => Ok([file] + files)
  }

  /** One file section: two path lines and at least one hunk. */
  function ReadFile(lines: seq<string>, path: PathReader): (r: Result<(FilePatch, seq<string>), PatchError>)
    requires lines != [] && StartsWith(lines[0], "--- ")
    ensures r.Ok? ==> |r.value.1| < |lines|
  {
    match path(lines[0][4..])
    case Err(e) => Err(e)
    case Ok(oldPath) =>
      if |lines| == 1 || !StartsWith(lines[1], "+++ ") then Err(Invalid)
      else match path(lines[1][4..])
        case Err(e) => Err(e)
        case Ok(newPath) =>
          if PathsFit(oldPath, newPath).Some? then Err(PathsFit(oldPath, newPath).value)
          else match ReadHunks(lines[2..])
            case Err(e) => Err(e)
            case Ok((hunks, rest)) =>
              if hunks == [] then Err(CheckFailed) else Ok((FilePatch(oldPath, newPath, hunks), rest))
  }

  /** The file patches of a patch text. */
  function ReadPatch(patch: string, path: PathReader): Result<seq<FilePatch>, PatchError> {
    var lines := SplitLines(patch);
    if exists i :: 0 <= i < |lines| && Rejected(lines[i]) then Err(Invalid)
    else match ReadFiles(lines, path)
      case Err(e) => Err(e)
      case Ok(files) => if files == [] then Err(Invalid) else Ok(files)
  }

  ghost function PrependFiles(done: seq<FilePatch>, r: Result<seq<FilePatch>, PatchError>)
    : Result<seq<FilePatch>, PatchError> {
    if r.Err? then r else Ok(done + r.value)
  }

  ghost function PrependHunks(done: seq<Hunk>, r: Result<(seq<Hunk>, seq<string>), PatchError>)
    : Result<(seq<Hunk>, seq<string>), PatchError> {
    if r.Err? then r else Ok((done + r.value.0, r.value.1))
  }

  /** The hunk loop inside a file section. */
  method ParseHunks(lines: seq<string>, startIndex: nat) returns (r: Result<(seq<Hunk>, nat), PatchError>)
    requires startIndex <= |lines|
    ensures r.Ok? ==>
            startIndex <= r.value.1 <= |lines| && ReadHunks(lines[startIndex..]) == Ok((r.value.0, lines[r.value.1..]))
    ensures r.Err? ==> ReadHunks(lines[startIndex..]) == Err(r.error)
  {
    hide ReadHunk;
    var hunks: seq<Hunk> := [];
    var index := startIndex;
    ghost var goal := ReadHunks(lines[startIndex..]);
    if goal.Ok? { assert [] + goal.value.0 == goal.value.0; }
    while index < |lines| && StartsWith(lines[index], "@@ ")
      invariant startIndex <= index <= |lines|
      invariant goal == PrependHunks(hunks, ReadHunks(lines[index..]))
      decreases |lines| - index
    {
      var parsed := ParseHunk(lines, index);
      if parsed.Err? { return Err(parsed.error); }
      var (hunk, next) := parsed.value;
      HunkStep(lines, index, hunks, hunk, next);
      hunks := hunks + [hunk];
      index := next;
    }
    assert hunks + [] == hunks;
    return Ok((hunks, index));
  }

  lemma HunkStep(lines: seq<string>, index: nat, hunks: seq<Hunk>, hunk: Hunk, next: nat)
    requires index < |lines| && StartsWith(lines[index], "@@ ") && next <= |lines|
    requires ReadHunk(lines[index..]) == Ok((hunk, lines[next..]))
    ensures index < next
    ensures PrependHunks(hunks, ReadHunks(lines[index..])) == PrependHunks(hunks + [hunk], ReadHunks(lines[next..]))
  {
    hide ReadHunk;
    var tail := ReadHunks(lines[next..]);
    if tail.Ok? { assert hunks + ([hunk] + tail.value.0) == (hunks + [hunk]) + tail.value.0; }
  }

  lemma FileStep(lines: seq<string>, index: nat, files: seq<FilePatch>, file: FilePatch, next: nat, path: PathReader)
    requires index < |lines| && StartsWith(lines[index], "--- ") && next <= |lines|
    requires ReadFile(lines[index..], path) == Ok((file, lines[next..]))
    ensures PrependFiles(files, ReadFiles(lines[index..], path))
            == PrependFiles(files + [file], ReadFiles(lines[next..], path))
  {
    hide ReadFile;
    assert lines[index][..4][0] == '-';
    assert !StartsWith(lines[index], "Binary files ") by { assert "Binary files "[0] == 'B'; }
    var tail := ReadFiles(lines[next..], path);
    if tail.Ok? { assert files + ([file] + tail.value) == (files + [file]) + tail.value; }
  }

  /** The file loop: skips what is not a file section, reads path lines and hunks of what is. */
  method ParseUnifiedDiff(patch: string, path: PathReader) returns (r: Result<seq<FilePatch>, PatchError>)
    ensures r == ReadPatch(patch, path)
  {
    hide ReadHunks, SplitLines, Rejected;
    var lines := SplitLines(patch);
    for i := 0 to |lines|
      invariant forall j :: 0 <= j < i ==> !Rejected(lines[j])
    {
      if Rejected(lines[i]) { return Err(Invalid); }
    }
    var files: seq<FilePatch> := [];
    var index := 0;
    ghost var goal := ReadFiles(lines, path);
    assert lines[0..] == lines;
    if goal.Ok? { assert [] + goal.value == goal.value; }
    while index < |lines|
      invariant index <= |lines|
      invariant goal == PrependFiles(files, ReadFiles(lines[index..], path))
    {
      ghost var rest := lines[index..];
      assert rest[0] == lines[index] && rest[1..] == lines[index + 1..];
      if lines[index] == "GIT binary patch" || StartsWith(lines[index], "Binary files ") { return Err(CheckFailed); }
      if !StartsWith(lines[index], "--- ") {
        index := index + 1;
        continue;
      }
      var section := index;
      var oldPath := path(lines[index][4..]);
      if oldPath.Err? { return Err(oldPath.error); }
      index := index + 1;
      if index == |lines| || !StartsWith(lines[index], "+++ ") { return Err(Invalid); }
      assert rest[1] == lines[index] && rest[2..] == lines[index + 1..];
      var newPath := path(lines[index][4..]);
      if newPath.Err? { return Err(newPath.error); }
      index := index + 1;
      if PathsFit(oldPath.value, newPath.value).Some? { return Err(PathsFit(oldPath.value, newPath.value).value); }
      var hunks := ParseHunks(lines, index);
      if hunks.Err? { return Err(hunks.error); }
      if hunks.value.0 == [] { return Err(CheckFailed); }
      var file := FilePatch(oldPath.value, newPath.value, hunks.value.0);
      FileStep(lines, section, files, file, hunks.value.1, path);
      files := files + [file];
      index := hunks.value.1;
    }
    assert files + [] == files && lines[|lines|..] == [];
    r := if files == [] then Err(Invalid) else Ok(files);
  }

  // ----- from an edit to its diff and back

  lemma {:induction false} SplitPlain(text: string)
    requires NoCr(text)
    ensures forall line :: line in SplitOnLf(text) ==> NoBreaks(line)
    ensures |SplitOnLf(text)| <= |text| + 1
    decreases |text|
  {
    var n := FirstLf(text);
    FirstLfStops(text);
    if n < |text| { SplitPlain(text[n + 1..]); }
  }

  lemma {:induction false} TerminatedNoCrLf(lines: seq<string>)
    ensures NoCrLf(Terminated(lines))
  {
    if lines != [] { TerminatedNoCrLf(lines[1..]); }
  }

  /**
   * Applying the hunk of a diff makes the edit. The extra line feed makes exact splitting see
   * the lines the printer saw.
   */
  lemma DiffMakesTheEdit(oldText: string, newText: string)
    requires NoCr(oldText) && NoCr(newText)
    ensures Patched(oldText + "\n", [DiffHunk(SplitLines(oldText), SplitLines(newText))]) == Ok(newText + "\n")
  {
    hide SplitOnLf, Lines, Join, Terminated, JoinOnLf, Outcome, EditHunk, CommonPrefix, CommonSuffix, Shared, NoCrLf;
    hide PreferredEnding;
    FoldKeepsLf(oldText);
    FoldKeepsLf(newText);
    var a, b := SplitOnLf(oldText), SplitOnLf(newText);
    TerminatedLines(oldText);
    TerminatedNoCrLf(a);
    NoCrLfPrefersLf(Terminated(a));
    CommonIsShared(a, b);
    EditMakesTheEdit(a, b, CommonPrefix(a, b), CommonSuffix(a[CommonPrefix(a, b)..], b[CommonPrefix(a, b)..]));
    JoinTerminated(b);
    SplitOnLfLosesNothing(newText);
  }

  /** The hunk of a diff has matching counts and line numbers a parser can hold. */
  lemma DiffHunkPrintable(a: seq<string>, b: seq<string>)
    requires 0 < |a| <= MAX_SAFE_INTEGER && 0 < |b| <= MAX_SAFE_INTEGER
    ensures Printable(DiffHunk(a, b))
  {
    hide CommonPrefix, CommonSuffix, Shared, Block;
    CommonIsShared(a, b);
    var prefix := CommonPrefix(a, b);
    var suffix := CommonSuffix(a[prefix..], b[prefix..]);
    EditCounted(a, b, prefix, suffix);
  }

  /** The text of a diff line cannot be mistaken for anything but a diff line. */
  predicate DiffLine(line: string) {
    && NoBreaks(line) && line != ""
    && (line[0] == ' ' || line[0] == '-' || line[0] == '+' || line[0] == '@' || line[0] == '\\')
  }

  lemma DiffLineAccepted(line: string)
    requires DiffLine(line)
    ensures !Rejected(line)
  {
    hide StartsWith;
    OpensOtherwise(line, "rename from ");
    OpensOtherwise(line, "rename to ");
    OpensOtherwise(line, "copy from ");
    OpensOtherwise(line, "copy to ");
    OpensOtherwise(line, "similarity index ");
    OpensOtherwise(line, "dissimilarity index ");
    OpensOtherwise(line, "old mode ");
    OpensOtherwise(line, "new mode ");
    OpensOtherwise(line, "new file mode ");
    OpensOtherwise(line, "deleted file mode ");
  }

  lemma OpensOtherwise(line: string, prefix: string)
    requires line != "" && prefix != "" && line[0] != prefix[0]
    ensures !StartsWith(line, prefix)
  {
  }

  lemma {:induction false} BodyDiffLines(body: seq<BodyLine>)
    requires PlainBody(body)
    ensures forall line :: line in PrintBody(body) ==> DiffLine(line)
  {
    if body != [] {
      assert PlainBody(body[1..]) by { assert forall i :: 0 <= i < |body[1..]| ==> body[1..][i] == body[i + 1]; }
      BodyDiffLines(body[1..]);
      MarkerIsDiffLine();
      assert NoBreaks(body[0].content);
      assert forall line :: line in PrintBody(body) ==> line in PrintBodyLine(body[0]) || line in PrintBody(body[1..]);
    }
  }

  lemma MarkerIsDiffLine()
    ensures DiffLine(MARKER)
  {
  }

  lemma {:induction false} DecimalPlain(n: nat)
    ensures NoBreaks(Decimal(n))
  {
    DecimalReadsBack(n);
    assert forall i :: 0 <= i < |Decimal(n)| ==> IsDigit(Decimal(n)[i]);
  }

  lemma HeaderDiffLine(h: Hunk, short: bool)
    ensures DiffLine(PrintHeader(h, short))
  {
    hide Decimal;
    DecimalPlain(h.oldStart);
    DecimalPlain(h.oldCount);
    DecimalPlain(h.newStart);
    DecimalPlain(h.newCount);
  }

  lemma {:induction false} BlockPlain(kind: Kind, lines: seq<string>)
    requires forall line :: line in lines ==> NoBreaks(line)
    ensures PlainBody(Block(kind, lines))
  {
    if lines != [] {
      BlockPlain(kind, lines[1..]);
      assert NoBreaks(lines[0]);
    }
  }

  lemma DiffHunkPlain(a: seq<string>, b: seq<string>)
    requires forall line :: line in a ==> NoBreaks(line)
    requires forall line :: line in b ==> NoBreaks(line)
    ensures PlainBody(DiffHunk(a, b).body)
  {
    hide CommonPrefix, CommonSuffix, NoBreaks, Block;
    CommonIsShared(a, b);
    var prefix := CommonPrefix(a, b);
    var suffix := CommonSuffix(a[prefix..], b[prefix..]);
    BlockPlain(Context, a[Max(0, prefix - CONTEXT)..prefix]);
    BlockPlain(Remove, a[prefix..|a| - suffix]);
    BlockPlain(Add, b[prefix..|b| - suffix]);
    BlockPlain(Context, a[|a| - suffix..HunkEnd(a, suffix)]);
  }

  lemma DiffLinesPlain(oldText: string, newText: string, relPath: string)
    requires NoCr(oldText) && NoCr(newText) && NoBreaks(relPath)
    ensures forall line :: line in DiffLines(oldText, newText, relPath) ==> DiffLine(line)
  {
    hide SplitOnLf, DiffHunk, PrintBody, PrintHeader;
    FoldKeepsLf(oldText);
    FoldKeepsLf(newText);
    SplitPlain(oldText);
    SplitPlain(newText);
    var h := DiffHunk(SplitOnLf(oldText), SplitOnLf(newText));
    DiffHunkPlain(SplitOnLf(oldText), SplitOnLf(newText));
    BodyDiffLines(h.body);
    HeaderDiffLine(h, false);
    var lines := DiffLines(oldText, newText, relPath);
    assert lines == ["--- a/" + relPath, "+++ b/" + relPath, PrintHeader(h, false)] + PrintBody(h.body);
  }

  lemma {:induction false} JoinPlain(lines: seq<string>)
    requires lines != [] && forall line :: line in lines ==> NoBreaks(line)
    ensures NoCr(JoinOnLf(lines))
  {
    assert NoBreaks(lines[0]);
    if |lines| > 1 { JoinPlain(lines[1..]); }
  }

  /** The lines of a diff come back from its text unchanged and none of them is rejected. */
  lemma DiffLinesSurvive(lines: seq<string>)
    requires lines != [] && forall line :: line in lines ==> DiffLine(line)
    ensures SplitLines(JoinOnLf(lines)) == lines
    ensures forall i :: 0 <= i < |lines| ==> !Rejected(lines[i])
  {
    hide SplitOnLf, JoinOnLf, Rejected;
    JoinPlain(lines);
    FoldKeepsLf(JoinOnLf(lines));
    assert forall line :: line in lines ==> NoLf(line);
    SplitInvertsJoinOnLf(lines);
    forall i | 0 <= i < |lines| ensures !Rejected(lines[i]) { DiffLineAccepted(lines[i]); }
  }

  // ----- any number of files

  /** A file section as it is written: lines the parser passes over, two path lines, hunks. */
  datatype Section = Section(preamble: seq<string>, oldName: string, newName: string, hunks: seq<Hunk>)

  function PathLines(s: Section): seq<string> {
    ["--- " + s.oldName, "+++ " + s.newName]
  }

  function PrintSections(sections: seq<Section>, short: bool): seq<string> {
    if sections == [] then []
    else sections[0].preamble
         + (PathLines(sections[0]) + (PrintHunks(sections[0].hunks, short) + PrintSections(sections[1..], short)))
  }

  predicate PassedOver(line: string) {
    line != "GIT binary patch" && !StartsWith(line, "Binary files ") && !StartsWith(line, "--- ")
  }

  /** Readable by itself, and not taken for more of the section before it. */
  predicate Readable(s: Section, path: PathReader) {
    && (forall line :: line in s.preamble ==> PassedOver(line))
    && (s.preamble == [] || (s.preamble[0] != MARKER && !StartsWith(s.preamble[0], "@@ ")))
    && path(s.oldName).Ok? && path(s.newName).Ok? && PathsFit(path(s.oldName).value, path(s.newName).value).None?
    && s.hunks != [] && forall h :: h in s.hunks ==> Printable(h)
  }

  function FileOf(s: Section, path: PathReader): FilePatch
    requires Readable(s, path)
  {
    FilePatch(path(s.oldName).value, path(s.newName).value, s.hunks)
  }

  function FilesOf(sections: seq<Section>, path: PathReader): seq<FilePatch>
    requires forall s :: s in sections ==> Readable(s, path)
  {
    if sections == [] then [] else [FileOf(sections[0], path)] + FilesOf(sections[1..], path)
  }

  lemma {:induction false} PreambleSkipped(preamble: seq<string>, rest: seq<string>, path: PathReader)
    requires forall line :: line in preamble ==> PassedOver(line)
    ensures ReadFiles(preamble + rest, path) == ReadFiles(rest, path)
  {
    if preamble == [] {
      assert preamble + rest == rest;
    } else {
      assert PassedOver(preamble[0]) && (preamble + rest)[1..] == preamble[1..] + rest;
      PreambleSkipped(preamble[1..], rest, path);
    }
  }

  lemma PathLinesOpen(s: Section)
    ensures StartsWith(PathLines(s)[0], "--- ") && StartsWith(PathLines(s)[1], "+++ ")
    ensures PathLines(s)[0][4..] == s.oldName && PathLines(s)[1][4..] == s.newName
    ensures PathLines(s)[0] != "GIT binary patch" && !StartsWith(PathLines(s)[0], "Binary files ")
    ensures PathLines(s)[0] != MARKER && !StartsWith(PathLines(s)[0], "@@ ")
  {
    var line := PathLines(s)[0];
    assert line[..4] == "--- " && PathLines(s)[1][..4] == "+++ " && line[0] == '-';
    OpensOtherwise(line, "Binary files ");
    OpensOtherwise(line, "@@ ");
  }

  /** Nothing after a section can be taken for more of its hunks. */
  lemma SectionsOpen(sections: seq<Section>, short: bool, path: PathReader)
    requires forall s :: s in sections ==> Readable(s, path)
    ensures var lines := PrintSections(sections, short);
            lines == [] || (lines[0] != MARKER && !StartsWith(lines[0], "@@ "))
  {
    if sections != [] {
      var s := sections[0];
      assert Readable(s, path);
      PathLinesOpen(s);
      hide PathLines, StartsWith, PassedOver, PrintHunks, Printable;
      if s.preamble == [] {
        assert PrintSections(sections, short)[0] == PathLines(s)[0];
      } else {
        assert PrintSections(sections, short)[0] == s.preamble[0];
      }
    }
  }

  lemma SectionReads(s: Section, short: bool, after: seq<string>, path: PathReader)
    requires Readable(s, path) && (after == [] || (after[0] != MARKER && !StartsWith(after[0], "@@ ")))
    ensures var lines := PathLines(s) + (PrintHunks(s.hunks, short) + after);
            StartsWith(lines[0], "--- ") && ReadFile(lines, path) == Ok((FileOf(s, path), after))
  {
    var lines := PathLines(s) + (PrintHunks(s.hunks, short) + after);
    PathLinesOpen(s);
    HunksReadBack(s.hunks, short, after);
    hide ReadHunks, PrintHunks, Printable, StartsWith, PassedOver;
    assert lines[0] == PathLines(s)[0] && lines[1] == PathLines(s)[1];
    assert lines[2..] == PrintHunks(s.hunks, short) + after;
  }

  /** Every printed list of file sections is read as exactly its files, in order. */
  lemma {:induction false} SectionsReadBack(sections: seq<Section>, short: bool, path: PathReader)
    requires forall s :: s in sections ==> Readable(s, path)
    ensures ReadFiles(PrintSections(sections, short), path) == Ok(FilesOf(sections, path))
  {
    if sections != [] {
      var s, after := sections[0], PrintSections(sections[1..], short);
      assert Readable(s, path);
      var lines := PathLines(s) + (PrintHunks(s.hunks, short) + after);
      SectionsReadBack(sections[1..], short, path);
      SectionsOpen(sections[1..], short, path);
      SectionReads(s, short, after, path);
      PathLinesOpen(s);
      PreambleSkipped(s.preamble, lines, path);
      hide PathLines, PrintHunks, ReadFile, StartsWith, PassedOver, Printable;
      assert lines[0] == PathLines(s)[0];
    }
  }

  // ----- header lines a patch may not have

  /** The line is such a header with rest behind it: rename, copy, similarity, mode, or a file of another mode. */
  predicate RefusedAs(line: string, rest: string) {
    || line == "rename from " + rest || line == "rename to " + rest
    || line == "copy from " + rest || line == "copy to " + rest
    || line == "similarity index " + rest || line == "dissimilarity index " + rest
    || line == "old mode " + rest || line == "new mode " + rest
    || (rest != "100644" && (line == "new file mode " + rest || line == "deleted file mode " + rest))
  }

  ghost predicate Refused(line: string) {
    exists rest: string :: RefusedAs(line, rest)
  }

  lemma OpensWith(prefix: string, rest: string)
    ensures StartsWith(prefix + rest, prefix) && (prefix + rest)[|prefix|..] == rest
  {
  }

  lemma OpensAs(line: string, prefix: string)
    requires StartsWith(line, prefix)
    ensures |prefix| <= |line| && line == prefix + line[|prefix|..]
  {
  }

  lemma RefusedIsRejected(line: string, rest: string)
    requires RefusedAs(line, rest)
    ensures Rejected(line)
  {
    OpensWith("rename from ", rest);
    OpensWith("rename to ", rest);
    OpensWith("copy from ", rest);
    OpensWith("copy to ", rest);
    OpensWith("similarity index ", rest);
    OpensWith("dissimilarity index ", rest);
    OpensWith("old mode ", rest);
    OpensWith("new mode ", rest);
    OpensWith("new file mode ", rest);
    OpensWith("deleted file mode ", rest);
    OpensWith("new file mode ", "100644");
    OpensWith("deleted file mode ", "100644");
    assert "new file mode " + "100644" == "new file mode 100644";
    assert "deleted file mode " + "100644" == "deleted file mode 100644";
    hide StartsWith;
  }

  lemma RejectedIsRefused(line: string)
    requires Rejected(line)
    ensures Refused(line)
  {
    var prefix := RejectedOpening(line);
    OpensAs(line, prefix);
    var rest := line[|prefix|..];
    assert "new file mode " + "100644" == "new file mode 100644";
    assert "deleted file mode " + "100644" == "deleted file mode 100644";
    hide StartsWith, Rejected;
    assert RefusedAs(line, rest);
  }

  lemma RejectedOpening(line: string) returns (prefix: string)
    requires Rejected(line)
    ensures StartsWith(line, prefix)
    ensures prefix in ["rename from ", "rename to ", "copy from ", "copy to ", "similarity index ",
                       "dissimilarity index ", "old mode ", "new mode ", "new file mode ", "deleted file mode "]
    ensures prefix == "new file mode " ==> line != "new file mode 100644"
    ensures prefix == "deleted file mode " ==> line != "deleted file mode 100644"
  {
    hide StartsWith;
    prefix :=
      if StartsWith(line, "rename from ") then "rename from "
      else if StartsWith(line, "rename to ") then "rename to "
      else if StartsWith(line, "copy from ") then "copy from "
      else if StartsWith(line, "copy to ") then "copy to "
      else if StartsWith(line, "similarity index ") then "similarity index "
      else if StartsWith(line, "dissimilarity index ") then "dissimilarity index "
      else if StartsWith(line, "old mode ") then "old mode "
      else if StartsWith(line, "new mode ") then "new mode "
      else if StartsWith(line, "new file mode ") && line != "new file mode 100644" then "new file mode "
      else "deleted file mode ";
  }

  /** The check on header lines rejects exactly the refused ones. */
  lemma RejectedExactly(line: string)
    ensures Rejected(line) <==> Refused(line)
  {
    if Rejected(line) { RejectedIsRefused(line); }
    if rest: string :| RefusedAs(line, rest) { RefusedIsRejected(line, rest); }
  }

  /** A created or deleted file is refused exactly for another mode than that of a regular file. */
  lemma FileModeDecides(mode: string)
    ensures Rejected("new file mode " + mode) <==> mode != "100644"
    ensures Rejected("deleted file mode " + mode) <==> mode != "100644"
  {
    if mode == "100644" {
      RegularFileAccepted("new file mode 100644");
      RegularFileAccepted("deleted file mode 100644");
      assert "new file mode " + "100644" == "new file mode 100644";
      assert "deleted file mode " + "100644" == "deleted file mode 100644";
    } else {
      RefusedIsRejected("new file mode " + mode, mode);
      RefusedIsRejected("deleted file mode " + mode, mode);
    }
  }

  lemma RegularFileAccepted(line: string)
    requires line == "new file mode 100644" || line == "deleted file mode 100644"
    ensures !Rejected(line)
  {
    hide StartsWith;
    DiffersAt(line, "rename from ", 0);
    DiffersAt(line, "rename to ", 0);
    DiffersAt(line, "copy from ", 0);
    DiffersAt(line, "copy to ", 0);
    DiffersAt(line, "similarity index ", 0);
    DiffersAt(line, "dissimilarity index ", 1);
    DiffersAt(line, "old mode ", 0);
    DiffersAt(line, "new mode ", 4);
    DiffersAt(line, "new file mode ", 0);
    DiffersAt(line, "deleted file mode ", 0);
  }

  lemma DiffersAt(line: string, prefix: string, i: nat)
    ensures i < |prefix| && (i >= |line| || line[i] != prefix[i]) ==> !StartsWith(line, prefix)
  {
  }

  /** A patch with a refused line anywhere is invalid. */
  lemma RefusedPatch(patch: string, line: string, path: PathReader)
    requires line in SplitLines(patch) && Refused(line)
    ensures ReadPatch(patch, path) == Err(Invalid)
  {
    RejectedExactly(line);
    hide ReadFiles, Rejected, Refused;
  }

  /** Without one, the files decide alone. */
  lemma NoneRefused(patch: string, path: PathReader)
    requires forall line :: line in SplitLines(patch) ==> !Refused(line)
    ensures ReadPatch(patch, path) == match ReadFiles(SplitLines(patch), path)
                                      case Err(e) => Err(e)
                                      case Ok(files) => if files == [] then Err(Invalid) else Ok(files)
  {
    forall line | line in SplitLines(patch) ensures !Rejected(line) { RejectedExactly(line); }
    hide ReadFiles, Rejected, Refused, SplitLines;
  }

  // ----- whole patch texts

  /** Nothing in the section breaks a line, and no line of the preamble is refused. */
  ghost predicate Writable(s: Section) {
    && (forall line :: line in s.preamble ==> NoBreaks(line) && !Refused(line))
    && NoBreaks(s.oldName) && NoBreaks(s.newName) && PlainHunks(s.hunks)
  }

  predicate Passes(line: string) {
    NoBreaks(line) && !Rejected(line)
  }

  lemma {:induction false} HunksPass(hunks: seq<Hunk>, short: bool)
    requires PlainHunks(hunks)
    ensures forall line :: line in PrintHunks(hunks, short) ==> Passes(line)
  {
    hide Rejected, NoBreaks, PrintHeader, PrintBody, PlainBody, DiffLine;
    if hunks != [] {
      HunksPass(hunks[1..], short);
      BodyDiffLines(hunks[0].body);
      HeaderDiffLine(hunks[0], short);
      forall line | line in PrintHunk(hunks[0], short) ensures Passes(line) { DiffLinePasses(line); }
    }
  }

  lemma DiffLinePasses(line: string)
    requires DiffLine(line)
    ensures Passes(line)
  {
    DiffLineAccepted(line);
    hide Rejected;
  }

  lemma PathLinePasses(line: string, name: string)
    requires NoBreaks(name) && (line == "--- " + name || line == "+++ " + name)
    ensures Passes(line)
  {
    DiffLinePasses(line);
  }

  lemma {:induction false} SectionsPass(sections: seq<Section>, short: bool)
    requires forall s :: s in sections ==> Writable(s)
    ensures forall line :: line in PrintSections(sections, short) ==> Passes(line)
  {
    hide Rejected, Refused, NoBreaks, PrintHunks, PlainHunks;
    if sections != [] {
      var s := sections[0];
      assert Writable(s);
      SectionsPass(sections[1..], short);
      HunksPass(s.hunks, short);
      PathLinePasses("--- " + s.oldName, s.oldName);
      PathLinePasses("+++ " + s.newName, s.newName);
      forall line | line in s.preamble ensures Passes(line) { RejectedExactly(line); }
    }
  }

  /**
   * Whole patch texts: printing file sections, joining the lines and parsing gives exactly the files. Lines before a
   * section may say anything but what is refused, so also that a regular file is created or deleted.
   */
  lemma PatchReadsBack(sections: seq<Section>, short: bool, path: PathReader)
    requires sections != [] && forall s :: s in sections ==> Readable(s, path) && Writable(s)
    ensures PrintSections(sections, short) != []
    ensures ReadPatch(JoinOnLf(PrintSections(sections, short)), path) == Ok(FilesOf(sections, path))
  {
    hide ReadFiles, ReadPatch, Readable, Writable, PrintSections, JoinOnLf, PathsFit, FileOf, Passes;
    SectionsReadBack(sections, short, path);
    SectionsPass(sections, short);
    SomethingPrinted(sections, short);
    LinesRead(PrintSections(sections, short), path, FilesOf(sections, path));
  }

  lemma SomethingPrinted(sections: seq<Section>, short: bool)
    requires sections != []
    ensures PrintSections(sections, short) != []
  {
    hide PrintHunks;
  }

  lemma LinesRead(lines: seq<string>, path: PathReader, files: seq<FilePatch>)
    requires lines != [] && forall line :: line in lines ==> Passes(line)
    requires ReadFiles(lines, path) == Ok(files) && files != []
    ensures ReadPatch(JoinOnLf(lines), path) == Ok(files)
  {
    hide ReadFiles, Rejected, JoinOnLf, FoldCrLf, SplitOnLf;
    forall line | line in lines ensures NoBreaks(line) && NoLf(line) && !Rejected(line) { assert Passes(line); }
    hide NoBreaks, NoLf;
    JoinPlain(lines);
    FoldKeepsLf(JoinOnLf(lines));
    SplitInvertsJoinOnLf(lines);
  }

  /** Git's patch for a new or a deleted regular file is read. */
  lemma RegularFileReads(git: string, created: bool, s: Section, path: PathReader)
    requires PassedOver(git) && NoBreaks(git) && !Refused(git) && git != MARKER && !StartsWith(git, "@@ ")
    requires s.preamble == [git, if created then "new file mode 100644" else "deleted file mode 100644"]
    requires path(s.oldName).Ok? && path(s.newName).Ok? && PathsFit(path(s.oldName).value, path(s.newName).value).None?
    requires NoBreaks(s.oldName) && NoBreaks(s.newName)
    requires s.hunks != [] && PlainHunks(s.hunks) && forall h :: h in s.hunks ==> Printable(h)
    ensures Readable(s, path) && PrintSections([s], false) != []
    ensures ReadPatch(JoinOnLf(PrintSections([s], false)), path) == Ok([FileOf(s, path)])
  {
    RegularFilePassed(s.preamble[1]);
    hide StartsWith, PassedOver, Rejected, Refused, PathsFit, Printable, PlainHunks, NoBreaks, ReadPatch, JoinOnLf;
    hide PrintSections;
    assert Readable(s, path) && Writable(s);
    PatchReadsBack([s], false, path);
    OneFile(s, path);
  }

  lemma OneFile(s: Section, path: PathReader)
    requires Readable(s, path)
    ensures FilesOf([s], path) == [FileOf(s, path)]
  {
    hide Readable;
    assert [s][1..] == [];
  }

  lemma RegularFilePassed(line: string)
    requires line == "new file mode 100644" || line == "deleted file mode 100644"
    ensures PassedOver(line) && NoBreaks(line) && !Refused(line)
  {
    RegularFileAccepted(line);
    RejectedExactly(line);
    hide Rejected, Refused, StartsWith;
    DiffersAt(line, "Binary files ", 0);
    DiffersAt(line, "--- ", 0);
    assert line != "GIT binary patch" by { assert line[0] != "GIT binary patch"[0]; }
    RegularLineWhole();
  }

  lemma RegularLineWhole()
    ensures NoBreaks("new file mode 100644") && NoBreaks("deleted file mode 100644")
  {
  }

  /**
   * The round trip: the diff text of an edit is parsed as one file with one hunk, and applying that hunk
   * to the old text makes the new text. The length bound is that of a string in the host language.
   */
  lemma DiffRoundTrip(oldText: string, newText: string, relPath: string, p: string, path: PathReader)
    requires NoCr(oldText) && NoCr(newText) && NoBreaks(relPath)
    requires |oldText| < MAX_SAFE_INTEGER && |newText| < MAX_SAFE_INTEGER
    requires path("a/" + relPath) == Ok(Some(p)) && path("b/" + relPath) == Ok(Some(p))
    ensures var h := DiffHunk(SplitLines(oldText), SplitLines(newText));
            && ReadPatch(JoinOnLf(DiffLines(oldText, newText, relPath)), path) == Ok([FilePatch(Some(p), Some(p), [h])])
            && Patched(oldText + "\n", [h]) == Ok(newText + "\n")
  {
    hide SplitOnLf, FoldCrLf, JoinOnLf, DiffHunk, PrintHunk, ReadFiles, Rejected, DiffLine, NoBreaks, NoCr, Patched;
    hide Printable;
    DiffMakesTheEdit(oldText, newText);
    FoldKeepsLf(oldText);
    FoldKeepsLf(newText);
    SplitPlain(oldText);
    SplitPlain(newText);
    var h := DiffHunk(SplitLines(oldText), SplitLines(newText));
    DiffHunkPrintable(SplitLines(oldText), SplitLines(newText));
    var section := Section([], "a/" + relPath, "b/" + relPath, [h]);
    DiffLinesPlain(oldText, newText, relPath);
    DiffLinesSurvive(DiffLines(oldText, newText, relPath));
    assert "--- a/" + relPath == "--- " + section.oldName && "+++ b/" + relPath == "+++ " + section.newName;
    OneSection(section, DiffLines(oldText, newText, relPath), h);
    SectionsReadBack([section], false, path);
    assert FilesOf([section], path) == [FileOf(section, path)];
  }

  lemma OneSection(section: Section, lines: seq<string>, h: Hunk)
    requires section == Section([], section.oldName, section.newName, [h])
    requires lines == ["--- " + section.oldName, "+++ " + section.newName] + PrintHunk(h, false)
    ensures PrintSections([section], false) == lines
  {
    hide PrintHunk;
    assert PrintSections([section], false) == [] + (PathLines(section) + (PrintHunks([h], false) + []));
    assert PrintHunks([h], false) == PrintHunk(h, false) + [];
  }
}
