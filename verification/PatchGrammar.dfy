/** Which texts are patches: exactly those that are laid out as file sections, between lines that mean nothing. */
module PatchGrammar {
  import opened Results
  import opened Hunks
  import opened HunkParser
  import opened DiffPrinter
  import opened PatchText

  /** A hunk behind the line that announces it. */
  datatype Chunk = Chunk(header: string, hunk: Hunk)

  /** A file section: lines to pass over, the two path lines, hunks. */
  datatype Part = Part(preamble: seq<string>, oldLine: string, newLine: string, chunks: seq<Chunk>)

  function ChunkLines(chunks: seq<Chunk>): seq<string> {
    if chunks == [] then []
    else [chunks[0].header] + (PrintBody(chunks[0].hunk.body) + ChunkLines(chunks[1..]))
  }

  /** The lines of the parts, and tail behind them. */
  function PartLines(parts: seq<Part>, tail: seq<string>): seq<string> {
    if parts == [] then tail
    else
      var p := parts[0];
      p.preamble + ([p.oldLine, p.newLine] + (ChunkLines(p.chunks) + PartLines(parts[1..], tail)))
  }

  predicate OpensHunk(lines: seq<string>) {
    lines != [] && StartsWith(lines[0], "@@ ")
  }

  /** The line announces the hunk, and the body has the announced counts. */
  ghost predicate Announces(c: Chunk) {
    && StartsWith(c.header, "@@ ")
    && HeaderOf(c.header, Range(c.hunk.oldStart, c.hunk.oldCount), Range(c.hunk.newStart, c.hunk.newCount))
    && Counted(c.hunk)
  }

  /** Announced hunks, and nothing after them that would belong to the last one or be another one. */
  ghost predicate LegalChunks(chunks: seq<Chunk>, after: seq<string>) {
    if chunks == [] then !OpensHunk(after)
    else
      && Announces(chunks[0])
      && EndsBody(chunks[0].hunk.body, ChunkLines(chunks[1..]) + after)
      && LegalChunks(chunks[1..], after)
  }

  predicate AllPassedOver(lines: seq<string>) {
    forall i :: 0 <= i < |lines| ==> PassedOver(lines[i])
  }

  predicate NamesFile(p: Part, path: PathReader) {
    && StartsWith(p.oldLine, "--- ") && StartsWith(p.newLine, "+++ ")
    && path(p.oldLine[4..]).Ok? && path(p.newLine[4..]).Ok?
    && var oldPath, newPath := path(p.oldLine[4..]).value, path(p.newLine[4..]).value;
       (oldPath.Some? || newPath.Some?) && (oldPath.Some? && newPath.Some? ==> oldPath.value == newPath.value)
  }

  ghost predicate LegalParts(parts: seq<Part>, tail: seq<string>, path: PathReader) {
    parts != [] ==>
      && AllPassedOver(parts[0].preamble)
      && NamesFile(parts[0], path)
      && parts[0].chunks != []
      && LegalChunks(parts[0].chunks, PartLines(parts[1..], tail))
      && LegalParts(parts[1..], tail, path)
  }

  function HunksOf(chunks: seq<Chunk>): seq<Hunk> {
    if chunks == [] then [] else [chunks[0].hunk] + HunksOf(chunks[1..])
  }

  function FilesOfParts(parts: seq<Part>, path: PathReader): seq<FilePatch>
    requires forall p :: p in parts ==> NamesFile(p, path)
  {
    if parts == [] then []
    else
      var p := parts[0];
      assert NamesFile(p, path);
      [FilePatch(path(p.oldLine[4..]).value, path(p.newLine[4..]).value, HunksOf(p.chunks))]
      + FilesOfParts(parts[1..], path)
  }

  lemma {:induction false} LegalPartsName(parts: seq<Part>, tail: seq<string>, path: PathReader)
    requires LegalParts(parts, tail, path)
    ensures forall p :: p in parts ==> NamesFile(p, path)
  {
    hide NamesFile, LegalChunks, AllPassedOver, PartLines;
    if parts != [] { LegalPartsName(parts[1..], tail, path); }
  }

  /** The text is laid out as these files. */
  ghost predicate LaidOut(lines: seq<string>, parts: seq<Part>, tail: seq<string>, files: seq<FilePatch>,
                          path: PathReader)
  {
    && LegalParts(parts, tail, path) && AllPassedOver(tail)
    && lines == PartLines(parts, tail)
    && (forall p :: p in parts ==> NamesFile(p, path))
    && files == FilesOfParts(parts, path)
  }

  // ----- legal layouts are read

  lemma ChunkHolds(c: Chunk, rest: seq<string>)
    requires Announces(c) && EndsBody(c.hunk.body, rest)
    ensures ReadHunk([c.header] + (PrintBody(c.hunk.body) + rest)) == Ok((c.hunk, rest))
  {
    var lines := [c.header] + (PrintBody(c.hunk.body) + rest);
    assert lines[1..] == PrintBody(c.hunk.body) + rest;
    ReadHunkIsExact(lines, c.hunk, rest);
    hide ReadHunk, PrintBody, HeaderOf, EndsBody, Counted;
  }

  lemma {:induction false} ChunksRead(chunks: seq<Chunk>, after: seq<string>)
    requires LegalChunks(chunks, after)
    ensures ReadHunks(ChunkLines(chunks) + after) == Ok((HunksOf(chunks), after))
  {
    hide ReadHunk, ReadHunks, PrintBody, EndsBody, StartsWith, HeaderOf, Counted;
    if chunks == [] {
      NoHunkRead(after);
      assert [] + after == after;
    } else {
      var c, rest := chunks[0], ChunkLines(chunks[1..]) + after;
      var lines := [c.header] + (PrintBody(c.hunk.body) + rest);
      assert [c] + chunks[1..] == chunks;
      ChunkInFront(c, chunks[1..], after);
      ChunkHolds(c, rest);
      ChunksRead(chunks[1..], after);
      assert lines[0] == c.header;
      FirstHunkRead(lines, c.hunk, rest, HunksOf(chunks[1..]), after);
    }
  }

  lemma NoHunkRead(lines: seq<string>)
    requires !OpensHunk(lines)
    ensures ReadHunks(lines) == Ok(([], lines))
  {
  }

  lemma PassedOverRead(preamble: seq<string>, rest: seq<string>, path: PathReader)
    requires AllPassedOver(preamble)
    ensures ReadFiles(preamble + rest, path) == ReadFiles(rest, path)
  {
    forall line | line in preamble ensures PassedOver(line) {}
    PreambleSkipped(preamble, rest, path);
  }

  lemma FileLineIsNoBinary(line: string)
    requires StartsWith(line, "--- ")
    ensures line != "GIT binary patch" && !StartsWith(line, "Binary files ") && !PassedOver(line)
  {
    assert line[..4][0] == '-';
    OpensOtherwise(line, "Binary files ");
  }

  lemma PartRead(p: Part, after: seq<string>, path: PathReader)
    requires NamesFile(p, path) && p.chunks != [] && LegalChunks(p.chunks, after)
    ensures var lines := [p.oldLine, p.newLine] + (ChunkLines(p.chunks) + after);
            ReadFile(lines, path)
            == Ok((FilePatch(path(p.oldLine[4..]).value, path(p.newLine[4..]).value, HunksOf(p.chunks)), after))
  {
    var lines := [p.oldLine, p.newLine] + (ChunkLines(p.chunks) + after);
    ChunksRead(p.chunks, after);
    hide ReadHunks, ChunkLines, StartsWith, LegalChunks, PathsFit;
    assert lines[2..] == ChunkLines(p.chunks) + after;
    assert lines[0] == p.oldLine && lines[1] == p.newLine;
    assert HunksOf(p.chunks) != [];
  }

  lemma FirstPartRead(p: Part, after: seq<string>, path: PathReader)
    requires AllPassedOver(p.preamble) && NamesFile(p, path) && p.chunks != [] && LegalChunks(p.chunks, after)
    ensures var file := FilePatch(path(p.oldLine[4..]).value, path(p.newLine[4..]).value, HunksOf(p.chunks));
            ReadFiles(p.preamble + ([p.oldLine, p.newLine] + (ChunkLines(p.chunks) + after)), path)
            == PrependFiles([file], ReadFiles(after, path))
  {
    var lines := [p.oldLine, p.newLine] + (ChunkLines(p.chunks) + after);
    PassedOverRead(p.preamble, lines, path);
    PartRead(p, after, path);
    FileLineIsNoBinary(p.oldLine);
    hide ReadFile, StartsWith, LegalChunks, ChunkLines, AllPassedOver;
    assert lines[0] == p.oldLine;
  }

  lemma PrependTwice(a: seq<FilePatch>, b: seq<FilePatch>, r: Result<seq<FilePatch>, PatchError>)
    ensures PrependFiles(a, PrependFiles(b, r)) == PrependFiles(a + b, r)
    ensures PrependFiles([], r) == r
  {
    if r.Ok? { assert a + (b + r.value) == a + b + r.value && [] + r.value == r.value; }
  }

  /** Legal parts are read as their files, whatever comes of the lines behind them. */
  lemma {:induction false} PartsRead(parts: seq<Part>, tail: seq<string>, path: PathReader)
    requires LegalParts(parts, tail, path)
    ensures forall p :: p in parts ==> NamesFile(p, path)
    ensures ReadFiles(PartLines(parts, tail), path) == PrependFiles(FilesOfParts(parts, path), ReadFiles(tail, path))
  {
    hide ReadFiles, PrependFiles, AllPassedOver, LegalChunks, ChunkLines, HunksOf;
    LegalPartsName(parts, tail, path);
    var first := if parts == [] then [] else [FilesOfParts(parts, path)[0]];
    PrependTwice(first, if parts == [] then [] else FilesOfParts(parts[1..], path), ReadFiles(tail, path));
    if parts != [] {
      assert NamesFile(parts[0], path);
      PartsRead(parts[1..], tail, path);
      FirstPartRead(parts[0], PartLines(parts[1..], tail), path);
    }
  }

  // ----- nothing else is read

  /** Hunks that were read are laid out as chunks. */
  lemma {:induction false} ChunksOf(lines: seq<string>) returns (chunks: seq<Chunk>)
    requires ReadHunks(lines).Ok?
    ensures var (hunks, rest) := ReadHunks(lines).value;
            lines == ChunkLines(chunks) + rest && HunksOf(chunks) == hunks && LegalChunks(chunks, rest)
    decreases |lines|
  {
    hide ReadHunk, ReadHunks, PrintBody, StartsWith, HeaderOf, EndsBody, Counted;
    if !OpensHunk(lines) {
      NoHunkRead(lines);
      chunks := [];
      assert [] + lines == lines;
    } else {
      var h, more := HunkWasRead(lines);
      ReadHunkIsExact(lines, h, more);
      var later := ChunksOf(more);
      var c := Chunk(lines[0], h);
      chunks := [c] + later;
      assert chunks[1..] == later;
      assert lines == [lines[0]] + lines[1..];
      ChunkInFront(c, later, ReadHunks(more).value.1);
    }
  }

  /** The first hunk of those that were read, and the lines of the others. */
  lemma HunkWasRead(lines: seq<string>) returns (h: Hunk, more: seq<string>)
    requires OpensHunk(lines) && ReadHunks(lines).Ok?
    ensures |more| < |lines| && ReadHunk(lines) == Ok((h, more)) && ReadHunks(more).Ok?
    ensures ReadHunks(lines).value == ([h] + ReadHunks(more).value.0, ReadHunks(more).value.1)
  {
    hide StartsWith;
    h, more := ReadHunk(lines).value.0, ReadHunk(lines).value.1;
  }

  lemma ChunkInFront(c: Chunk, later: seq<Chunk>, rest: seq<string>)
    ensures [c.header] + (PrintBody(c.hunk.body) + (ChunkLines(later) + rest)) == ChunkLines([c] + later) + rest
  {
    hide PrintBody;
    assert ([c] + later)[1..] == later;
  }

  /** A file that was read is laid out as a part behind no preamble. */
  lemma PartOf(lines: seq<string>, path: PathReader) returns (p: Part)
    requires lines != [] && StartsWith(lines[0], "--- ") && ReadFile(lines, path).Ok?
    ensures var (file, rest) := ReadFile(lines, path).value;
            && p.preamble == [] && NamesFile(p, path) && p.chunks != [] && LegalChunks(p.chunks, rest)
            && lines == [p.oldLine, p.newLine] + (ChunkLines(p.chunks) + rest)
            && file == FilePatch(path(p.oldLine[4..]).value, path(p.newLine[4..]).value, HunksOf(p.chunks))
  {
    hide *;
    FileWasRead(lines, path);
    var chunks := ChunksOf(lines[2..]);
    p := Part([], lines[0], lines[1], chunks);
    FileNamed(p, path);
    SomeChunks(chunks);
    assert lines == [lines[0], lines[1]] + lines[2..];
  }

  lemma SomeChunks(chunks: seq<Chunk>)
    ensures chunks == [] ==> HunksOf(chunks) == []
  {
  }

  lemma FileNamed(p: Part, path: PathReader)
    requires StartsWith(p.oldLine, "--- ") && StartsWith(p.newLine, "+++ ")
    requires path(p.oldLine[4..]).Ok? && path(p.newLine[4..]).Ok?
    requires PathsFit(path(p.oldLine[4..]).value, path(p.newLine[4..]).value).None?
    ensures NamesFile(p, path)
  {
  }

  /** What reading a file section takes. */
  lemma FileWasRead(lines: seq<string>, path: PathReader)
    requires lines != [] && StartsWith(lines[0], "--- ") && ReadFile(lines, path).Ok?
    ensures |lines| >= 2 && |lines[0]| >= 4 && |lines[1]| >= 4 && StartsWith(lines[1], "+++ ")
    ensures path(lines[0][4..]).Ok? && path(lines[1][4..]).Ok?
    ensures PathsFit(path(lines[0][4..]).value, path(lines[1][4..]).value).None?
    ensures ReadHunks(lines[2..]).Ok?
    ensures var (hunks, rest) := ReadHunks(lines[2..]).value;
            hunks != [] && ReadFile(lines, path).value
                           == (FilePatch(path(lines[0][4..]).value, path(lines[1][4..]).value, hunks), rest)
  {
    hide ReadHunks, PathsFit;
  }

  /** Lines that were read as files are laid out as parts. */
  lemma {:induction false} PartsOf(lines: seq<string>, path: PathReader) returns (parts: seq<Part>, tail: seq<string>)
    requires ReadFiles(lines, path).Ok?
    ensures LaidOut(lines, parts, tail, ReadFiles(lines, path).value, path)
    decreases |lines|
  {
    hide ReadFile, StartsWith, LegalChunks, ChunkLines, NamesFile;
    if lines == [] {
      parts, tail := [], [];
    } else if !StartsWith(lines[0], "--- ") {
      var later, behind := PartsOf(lines[1..], path);
      assert lines == [lines[0]] + lines[1..] && PassedOver(lines[0]);
      parts, tail := LineInFront(lines[0], lines[1..], later, behind, ReadFiles(lines[1..], path).value, path);
    } else {
      var (file, rest) := ReadFile(lines, path).value;
      var p := PartOf(lines, path);
      var later, behind := PartsOf(rest, path);
      parts, tail := [p] + later, behind;
      PartInFront(lines, p, rest, later, behind, file, ReadFiles(rest, path).value, path);
    }
  }

  /** A line that means nothing belongs to the preamble of the next part, or to the tail. */
  lemma LineInFront(line: string, lines: seq<string>, parts: seq<Part>, tail: seq<string>, files: seq<FilePatch>,
                    path: PathReader)
    returns (parts': seq<Part>, tail': seq<string>)
    requires PassedOver(line) && LaidOut(lines, parts, tail, files, path)
    ensures LaidOut([line] + lines, parts', tail', files, path)
  {
    hide PassedOver, LegalChunks, ChunkLines;
    if parts == [] {
      parts', tail' := [], [line] + tail;
    } else {
      tail' := tail;
      parts' := InPreamble(line, parts, tail, path);
      assert NamesFile(parts'[0], path) by { assert NamesFile(parts[0], path); }
    }
  }

  lemma PartInFront(lines: seq<string>, p: Part, rest: seq<string>, parts: seq<Part>, tail: seq<string>,
                    file: FilePatch, files: seq<FilePatch>, path: PathReader)
    requires NamesFile(p, path) && p.preamble == [] && p.chunks != [] && LegalChunks(p.chunks, rest)
    requires lines == [p.oldLine, p.newLine] + (ChunkLines(p.chunks) + rest)
    requires file == FilePatch(path(p.oldLine[4..]).value, path(p.newLine[4..]).value, HunksOf(p.chunks))
    requires LaidOut(rest, parts, tail, files, path)
    ensures LaidOut(lines, [p] + parts, tail, [file] + files, path)
  {
    hide PassedOver, LegalChunks, ChunkLines, StartsWith, PathsFit, HunksOf;
    var all := [p] + parts;
    assert all[1..] == parts && [] + lines == lines;
  }

  /** Lines are read as these files exactly when they are laid out as them. */
  lemma FilesAreExact(lines: seq<string>, files: seq<FilePatch>, path: PathReader)
    ensures ReadFiles(lines, path) == Ok(files) <==> exists parts, tail :: LaidOut(lines, parts, tail, files, path)
  {
    if ReadFiles(lines, path) == Ok(files) {
      var parts, tail := PartsOf(lines, path);
    }
    if parts, tail :| LaidOut(lines, parts, tail, files, path) {
      PartsRead(parts, tail, path);
      PassedOverRead(tail, [], path);
      assert tail + [] == tail && files + [] == files;
    }
  }

  // ----- which error the others give

  /** Lines at whose front a section ought to be that is none, and the error this is. */
  ghost predicate Faulty(lines: seq<string>, path: PathReader, e: PatchError) {
    lines != [] &&
    if lines[0] == "GIT binary patch" || StartsWith(lines[0], "Binary files ") then e == CheckFailed
    else StartsWith(lines[0], "--- ") && FaultyFile(lines, path, e)
  }

  ghost predicate FaultyFile(lines: seq<string>, path: PathReader, e: PatchError)
    requires lines != [] && StartsWith(lines[0], "--- ")
  {
    match path(lines[0][4..])
    case Err(x) => e == x
    case Ok(oldPath) =>
      if |lines| == 1 || !StartsWith(lines[1], "+++ ") then e == Invalid
      else match path(lines[1][4..])
        case Err(x) => e == x
        case Ok(newPath) =>
          if oldPath.None? && newPath.None? then e == Invalid
          else if oldPath.Some? && newPath.Some? && oldPath.value != newPath.value then e == CheckFailed
          else if !OpensHunk(lines[2..]) then e == CheckFailed
          else e == Invalid && !Chunked(lines[2..])
  }

  /** The lines begin with announced hunks, or with none, and then go on with something else. */
  ghost predicate Chunked(lines: seq<string>) {
    exists chunks, after :: lines == ChunkLines(chunks) + after && LegalChunks(chunks, after)
  }

  /** Behind legal parts and lines that mean nothing, the text goes on with a fault. */
  ghost predicate FailsBehind(lines: seq<string>, parts: seq<Part>, between: seq<string>, fault: seq<string>,
                              path: PathReader, e: PatchError)
  {
    && LegalParts(parts, between + fault, path) && AllPassedOver(between)
    && lines == PartLines(parts, between + fault)
    && Faulty(fault, path, e)
  }

  /** Hunks are read exactly when they are laid out, and there is one way to fail. */
  lemma {:induction false} HunksFail(lines: seq<string>)
    ensures var r := ReadHunks(lines); r.Err? ==> r.error == Invalid
    ensures ReadHunks(lines).Ok? <==> Chunked(lines)
    decreases |lines|
  {
    HunksOnlyInvalid(lines);
    hide ReadHunks, LegalChunks, ChunkLines;
    if chunks, after :| lines == ChunkLines(chunks) + after && LegalChunks(chunks, after) {
      ChunksRead(chunks, after);
    }
    if ReadHunks(lines).Ok? { var chunks := ChunksOf(lines); }
  }

  lemma {:induction false} HunksOnlyInvalid(lines: seq<string>)
    ensures var r := ReadHunks(lines); r.Err? ==> r.error == Invalid
    decreases |lines|
  {
    hide ReadHunk;
    if OpensHunk(lines) {
      ReadHunkIsExact(lines, Hunk(0, 0, 0, 0, []), []);
      if ReadHunk(lines).Ok? { HunksOnlyInvalid(ReadHunk(lines).value.1); }
    }
  }

  /** A file section fails exactly as a faulty one does. */
  lemma FileFails(lines: seq<string>, path: PathReader, e: PatchError)
    requires lines != [] && StartsWith(lines[0], "--- ")
    ensures ReadFile(lines, path) == Err(e) <==> FaultyFile(lines, path, e)
  {
    hide ReadHunks, Chunked, OpensHunk, StartsWith;
    if |lines| >= 2 {
      HunksFail(lines[2..]);
      HunksBegin(lines[2..]);
    }
  }

  /** No hunk is read exactly when no line opens one. */
  lemma HunksBegin(lines: seq<string>)
    ensures ReadHunks(lines).Ok? ==> (ReadHunks(lines).value.0 == [] <==> !OpensHunk(lines))
    ensures !OpensHunk(lines) ==> ReadHunks(lines).Ok?
  {
  }

  lemma FaultRead(lines: seq<string>, path: PathReader, e: PatchError)
    requires Faulty(lines, path, e)
    ensures ReadFiles(lines, path) == Err(e)
  {
    if StartsWith(lines[0], "--- ") {
      FileLineIsNoBinary(lines[0]);
      FileFails(lines, path, e);
    }
    hide ReadFile, FaultyFile, StartsWith;
  }

  /** Lines that fail do so at the first fault behind what can be read. */
  lemma {:induction false} FaultOf(lines: seq<string>, path: PathReader)
    returns (parts: seq<Part>, between: seq<string>, fault: seq<string>)
    requires ReadFiles(lines, path).Err?
    ensures FailsBehind(lines, parts, between, fault, path, ReadFiles(lines, path).error)
    decreases |lines|
  {
    hide ReadFile, StartsWith, LegalChunks, ChunkLines, NamesFile, FaultyFile;
    var e := ReadFiles(lines, path).error;
    if lines[0] == "GIT binary patch" || StartsWith(lines[0], "Binary files ") {
      parts, between, fault := [], [], lines;
      assert [] + lines == lines;
    } else if !StartsWith(lines[0], "--- ") {
      assert lines == [lines[0]] + lines[1..] && PassedOver(lines[0]);
      parts, between, fault := FaultOf(lines[1..], path);
      parts, between := LineBeforeFault(lines[0], lines[1..], parts, between, fault, path, e);
    } else {
      FileFails(lines, path, e);
      if ReadFile(lines, path).Err? {
        parts, between, fault := [], [], lines;
        assert [] + lines == lines;
      } else {
        var rest := ReadFile(lines, path).value.1;
        var p := PartOf(lines, path);
        parts, between, fault := FaultOf(rest, path);
        hide Faulty, AllPassedOver, PassedOver;
        assert ([p] + parts)[1..] == parts && [] + lines == lines;
        AllPassedOverEmpty();
        parts := [p] + parts;
      }
    }
  }

  lemma AllPassedOverEmpty()
    ensures AllPassedOver([])
  {
  }

  lemma LineBeforeFault(line: string, lines: seq<string>, parts: seq<Part>, between: seq<string>, fault: seq<string>,
                        path: PathReader, e: PatchError)
    returns (parts': seq<Part>, between': seq<string>)
    requires PassedOver(line) && FailsBehind(lines, parts, between, fault, path, e)
    ensures FailsBehind([line] + lines, parts', between', fault, path, e)
  {
    hide PassedOver, LegalChunks, ChunkLines, Faulty;
    if parts == [] {
      parts', between' := [], [line] + between;
      assert [line] + (between + fault) == [line] + between + fault;
    } else {
      between' := between;
      parts' := InPreamble(line, parts, between + fault, path);
    }
  }

  /** A line that means nothing in front of the first part. */
  lemma InPreamble(line: string, parts: seq<Part>, tail: seq<string>, path: PathReader) returns (parts': seq<Part>)
    requires PassedOver(line) && LegalParts(parts, tail, path) && parts != []
    ensures LegalParts(parts', tail, path) && PartLines(parts', tail) == [line] + PartLines(parts, tail)
    ensures |parts'| == |parts| && parts'[1..] == parts[1..]
    ensures parts'[0] == parts[0].(preamble := [line] + parts[0].preamble)
  {
    hide PassedOver, LegalChunks, ChunkLines;
    var p := parts[0];
    var q := p.(preamble := [line] + p.preamble);
    parts' := [q] + parts[1..];
    assert NamesFile(q, path) by { assert NamesFile(p, path); }
    assert parts'[1..] == parts[1..];
    var more := [p.oldLine, p.newLine] + (ChunkLines(p.chunks) + PartLines(parts[1..], tail));
    assert [line] + (p.preamble + more) == ([line] + p.preamble) + more;
  }

  /** Lines fail with this error exactly when what can be read of them is followed by a fault that gives it. */
  lemma FilesFailExactly(lines: seq<string>, path: PathReader, e: PatchError)
    ensures ReadFiles(lines, path) == Err(e) <==>
            exists parts, between, fault :: FailsBehind(lines, parts, between, fault, path, e)
  {
    hide ReadFiles, PartLines, FilesOfParts, LegalParts, AllPassedOver, Faulty;
    if ReadFiles(lines, path) == Err(e) {
      var parts, between, fault := FaultOf(lines, path);
    }
    if parts, between, fault :| FailsBehind(lines, parts, between, fault, path, e) {
      FaultRead(fault, path, e);
      PassedOverRead(between, fault, path);
      PartsRead(parts, between + fault, path);
    }
  }

  /**
   * A text without refused lines fails with this error exactly when it does so at the first fault behind what can be
   * read, or, as invalid, when it has no file section at all.
   */
  lemma PatchFailsExactly(patch: string, path: PathReader, e: PatchError)
    requires forall line :: line in SplitLines(patch) ==> !Refused(line)
    ensures ReadPatch(patch, path) == Err(e) <==>
            || (e == Invalid && AllPassedOver(SplitLines(patch)))
            || exists parts, between, fault :: FailsBehind(SplitLines(patch), parts, between, fault, path, e)
  {
    var lines := SplitLines(patch);
    NoneRefused(patch, path);
    FilesFailExactly(lines, path, e);
    NoFiles(lines, path);
    hide ReadFiles, SplitLines, Refused, FailsBehind, AllPassedOver;
  }

  lemma {:induction false} NoFiles(lines: seq<string>, path: PathReader)
    ensures ReadFiles(lines, path) == Ok([]) <==> AllPassedOver(lines)
  {
    hide ReadFile;
    if lines != [] {
      assert lines == [lines[0]] + lines[1..];
      if PassedOver(lines[0]) { NoFiles(lines[1..], path); }
      assert AllPassedOver(lines) <==> PassedOver(lines[0]) && AllPassedOver(lines[1..]) by {
        if PassedOver(lines[0]) && AllPassedOver(lines[1..]) {
          forall i | 0 <= i < |lines| ensures PassedOver(lines[i]) {
            if i > 0 { assert lines[i] == lines[1..][i - 1]; }
          }
        }
      }
    }
  }

  /**
   * A text is accepted as a patch of these files exactly when none of its lines is refused, there is a file, and its
   * lines are those of file sections with nothing but meaningless lines before, between and behind them.
   */
  lemma PatchIsExact(patch: string, files: seq<FilePatch>, path: PathReader)
    ensures ReadPatch(patch, path) == Ok(files) <==>
            && (forall line :: line in SplitLines(patch) ==> !Refused(line))
            && files != []
            && exists parts, tail :: LaidOut(SplitLines(patch), parts, tail, files, path)
  {
    forall line | line in SplitLines(patch) ensures Rejected(line) <==> Refused(line) { RejectedExactly(line); }
    hide ReadFiles, SplitLines, Rejected, Refused, LaidOut;
    FilesAreExact(SplitLines(patch), files, path);
  }
}
