# CodexGPT core: verified model

A Dafny model of the parts of CodexGPT whose correctness does not depend on the operating system: the unified-diff
engine, the framed protocol of the native process host, byte-budgeted transcript loading, the bounded directory walks,
the workspace handle registry and the canonical encoding of configurations. `dafny verify dfyconfig.toml` checks it.

Loops, mutable records and in-place updates of the program are methods and classes here, each proved against a
specification function or predicate; what the program promises is then proved of those specifications.

| files | what they model |
|---|---|
| `ExactLines`, `Hunks`, `HunkPlacement`, `PatchInverse` | lossless line splitting, applying hunks at a running offset, what a patch says, undoing it |
| `HunkParser`, `DiffPrinter`, `PatchText`, `PatchGrammar` | reading and printing hunks, the diff printer, whole patch texts, the round trip, and which texts are patches |
| `CrLfTexts` | texts with CRLF throughout: patches, diffs and inverses |
| `GitPath` | strict UTF-8 and Git's C-style path quoting |
| `Streams`, `FrameCodec`, `FramedRequest` | byte streams with arbitrary short reads, authenticated frames, one framed request against an arbitrary peer |
| `BoundedReader`, `PersistentProcess` | keeping the end of a stream, and the record shared by reader threads, watcher and polls |
| `JsonScanner`, `CommandLine` | the one-pass duplicate-key check and Windows command-line quoting |
| `Transcript`, `SessionFiles`, `SessionIndex`, `RepoTree`, `Directories` | cutting text to bytes, loading a transcript, walking directory trees |
| `Workspaces` | the registry of workspace handles |
| `CanonicalValues`, `ConfigFingerprint` | canonical encoding and the list behind the public fingerprint |
| `Results`, `CodeUnits`, `Sorting` | outcomes, texts as UTF-16 code units with their order, stable sorting |

The peer of the protocol, the scheduler and the operating system are arbitrary choices: the frames that arrive, how a
stream splits into reads, when a worker or a reader thread takes a step, what the clock and the random generator return.
The keyed digest is an arbitrary function, and so are the decoding of one JSON string literal, the normaliser of path
lines, the parser of one session file, the blocked-path rule and the collation of file names.

Five laws hold only under a condition, and the condition is proved to be exact:

- a swapped patch restores the text if and only if the patch merges no lines: nothing may follow a line that a hunk leaves
  without an ending, nor an unended last line of the text unless it is replaced (`applyHunks` accepts such patches, and one
  that merges two lines is shown);
- on a text with CRLF throughout it restores the text if and only if, besides, the patch leaves a line feed or there was
  none: lines put back into a text without any ending get LF;
- a command line reads back as its executable and arguments if and only if the executable holds no quote and does not end
  in a backslash inside added quotes;
- file discovery reports truncation although nothing was missed if and only if all session files fit, none is in a folder
  it is barred from, and either there is such a folder, or exactly as many files as fit were met and then an empty or
  fileless folder last; it never misses a file without reporting it;
- an id can be issued again if and only if it is dead and each of its revocations has been followed by as many others as
  there may be tombstones. Until more handles than that have been revoked, every issued id is live or has had exactly one
  revocation event, and not both; a run from a new registry that breaks this afterwards is shown.

## Model

| member | source | states |
|---|---|---|
| ExactLines.SplitIsLossless | src/patchOps.ts:227-241 | joining the split lines gives back the text, for every text |
| ExactLines.SplitInvertsJoin | src/patchOps.ts:227-241 | splitting the join of well-formed lines gives back the same lines and endings |
| ExactLines.SplitExact | src/patchOps.ts:227-241 | the splitting loop returns those lines |
| ExactLines.NoCrLfPrefersLf | src/patchOps.ts:243-247 | text without CRLF endings gets LF for added lines |
| ExactLines.PreferredExactly | src/patchOps.ts:243-247 | added lines get CRLF exactly when more lines of the text end in CRLF than in LF |
| Hunks.MatchesAt | src/patchOps.ts:265-277 | a body matches exactly when every old-side line agrees in content and in having an ending |
| Hunks.ImageAt | src/patchOps.ts:265-277 | a context line keeps the file's own line and ending; an added line lands at its place with the preferred ending or none |
| Hunks.LineCountLaw | src/patchOps.ts:249-287 | a successful patch changes the number of lines by adds minus removes |
| Hunks.UncoveredLineKept | src/patchOps.ts:249-287 | a line outside every hunk's old range survives with its ending, moved by the growth before it |
| Hunks.CountedNeverInvalid | src/patchOps.ts:278-281 | on hunks whose counts match their bodies the count check cannot fail |
| Hunks.MatchBody | src/patchOps.ts:263-277 | the inner loop succeeds exactly on a match and returns the lines consumed and the replacement |
| Hunks.ApplyHunks | src/patchOps.ts:249-287 | the splice loop with its running offset equals simultaneous replacement matched against the original lines only, errors included |
| HunkPlacement.PatchedExactly | src/patchOps.ts:249-287 | a patch gives a result if and only if its hunks, by the line numbers and counts of their headers and line by line, name changes that turn the lines of the text into those of the result |
| PatchInverse.BodyInverts | src/patchOps.ts:249-287 | the swapped body matches what the body left and restores what it matched |
| PatchInverse.OutcomeInverts | src/patchOps.ts:249-287 | a whole swapped hunk list applied to the result restores the original lines |
| PatchInverse.ResplitCount | src/patchOps.ts:227-241 | an unended line in the middle makes joining and splitting lose a line |
| PatchInverse.MergesNothingExactly | src/patchOps.ts:255-287 | the patched lines miss an ending only on a last nonempty line exactly when nothing follows a new line without an ending and nothing is put behind an unended text |
| PatchInverse.MergingPatch | src/patchOps.ts:265-287 | a concrete accepted patch whose text merges two lines |
| PatchInverse.PatchInverts | src/patchOps.ts:227-287 | on LF-only text, the swapped patch restores the text if and only if the patch, read against the text, merges no lines |
| HunkParser.HeaderReadsBack | src/patchOps.ts:123-139 | a printed hunk header reads back, whether or not counts of one are left out |
| HunkParser.HeaderIsExact | src/patchOps.ts:123-139 | a line is a hunk header if and only if it spells the two ranges, in digits and with a count of one possibly left out, both safe integers and with no lines before the first, and at most a blank and a heading follow; anything else is invalid |
| HunkParser.BodyReadsBack | src/patchOps.ts:140-170 | a printed body reads back with its no-newline flags, markers inside it included |
| HunkParser.BodyIsExact | src/patchOps.ts:140-170 | an accepted body is exactly what printing it gives, with the announced counts |
| HunkParser.ReadHunkIsExact | src/patchOps.ts:132-181 | a hunk is read if and only if the lines hold exactly that hunk, in header, counts, body and flags |
| HunkParser.HunkReadsBack | src/patchOps.ts:132-181 | parsing a printed counted hunk returns the same hunk and the index behind it |
| HunkParser.HunksReadBack | src/patchOps.ts:214-219 | parsing any printed list of counted hunks returns the same list |
| HunkParser.ParseHunk | src/patchOps.ts:132-181 | the index-driven parse loop returns what the specification reads, and its error |
| DiffPrinter.SplitLosesNothing | src/fsOps.ts:455-457 | the loosely split lines, joined, are the text with every CRLF ending of the exact splitter turned into LF |
| DiffPrinter.SplitInvertsJoinOnLf | src/fsOps.ts:455-457 | splitting lines joined by line feeds returns them |
| DiffPrinter.TerminatedLines | src/fsOps.ts:455-457 | with one more line feed the exact splitter sees the lines the printer saw |
| DiffPrinter.CommonPrefixIsLongest | src/fsOps.ts:471-474 | the prefix left out of the diff is the longest common one |
| DiffPrinter.CommonSuffixIsLongest | src/fsOps.ts:476-483 | the suffix left out is the longest common one that does not overlap the prefix |
| DiffPrinter.CountPrefix | src/fsOps.ts:471-474 | the forward loop finds that prefix |
| DiffPrinter.CountSuffix | src/fsOps.ts:476-483 | the backward loop finds that suffix |
| DiffPrinter.EditCounted | src/fsOps.ts:485-503 | the printed counts are those of the printed body |
| DiffPrinter.ContextOfThree | src/fsOps.ts:485-498 | up to three unchanged lines stand around the edit, and the hunk starts with the first of them |
| DiffPrinter.EditMakesTheEdit | src/fsOps.ts:464-503 | on the old lines, the one hunk of the diff leaves exactly the new lines |
| DiffPrinter.PushLines | src/fsOps.ts:500-503 | each printing loop appends the marked lines of its slice |
| DiffPrinter.MakeUnifiedDiff | src/fsOps.ts:464-510 | no diff exactly for equal texts; otherwise the printed lines are those of the hunk, with its additions and deletions |
| PatchText.ParseHunks | src/patchOps.ts:214-219 | the hunk loop of a file section |
| PatchText.ParseUnifiedDiff | src/patchOps.ts:183-225 | the file loop returns what the specification reads from the patch text, and its error; which header lines it refuses is settled by the next rows |
| PatchText.RejectedExactly | src/patchOps.ts:185-194 | a line is rejected if and only if it is one of the eight rename, copy, similarity and mode headers, or a new or deleted file header, with something behind it, for the last two anything but 100644 |
| PatchText.FileModeDecides | src/patchOps.ts:190 | a new or deleted file header is rejected exactly for a mode other than 100644 |
| PatchText.RefusedPatch | src/patchOps.ts:185-194 | one such line anywhere makes the patch invalid |
| PatchText.NoneRefused | src/patchOps.ts:183-225 | without one, the file sections alone decide |
| PatchText.RegularFileReads | src/patchOps.ts:183-225 | Git's patch that creates or deletes a regular file is read as its file |
| PatchText.DiffMakesTheEdit | src/fsOps.ts:455-503 | for all texts without carriage returns, the diff's hunk applied to old text plus a line feed gives new text plus a line feed |
| PatchText.DiffHunkPrintable | src/fsOps.ts:485-498 | the diff's hunk has matching counts and numbers the parser accepts |
| PatchText.SectionsReadBack | src/patchOps.ts:195-222 | any printed list of file sections, with lines to pass over before them, is read as exactly its files |
| PatchText.PatchReadsBack | src/patchOps.ts:183-225 | printing file sections, joining the lines and parsing the text gives exactly the files, whatever lines stand before them but the refused ones |
| PatchText.DiffRoundTrip | src/patchOps.ts:183-287 | parsing the printed diff gives one file with that hunk, and applying it makes the edit |
| PatchGrammar.FilesAreExact | src/patchOps.ts:194-223 | lines are read as these files if and only if they are laid out as sections of them, with nothing but lines to pass over before, between and behind |
| PatchGrammar.PatchIsExact | src/patchOps.ts:183-225 | a text is accepted as a patch of these files if and only if none of its lines is a refused header, there is a file, and its lines are so laid out |
| PatchGrammar.PatchFailsExactly | src/patchOps.ts:194-224 | a text without refused headers fails with an error if and only if, behind the file sections that can be read, its first fault gives it: a binary note, a path line that cannot be read or has no partner, paths that do not fit, no hunk or a broken one; or it has no section at all |
| CrLfTexts.PatchKeepsCrLf | src/patchOps.ts:243-287 | a text with CRLF throughout is patched like the same text with LF, errors included, and keeps CRLF throughout; one without any line feed gets LF |
| CrLfTexts.CrLfDiffRoundTrip | src/fsOps.ts:455-503 | the diff of two texts with CRLF throughout is read back as one file, and its hunk turns old text plus CRLF into new text plus CRLF |
| CrLfTexts.CrLfPatchInverts | src/patchOps.ts:227-287 | on a text with CRLF throughout the swapped patch restores the text if and only if the patch merges no lines and leaves a line feed where there was one |
| GitPath.DecodeIsExact | src/patchOps.ts:78-84 | strict UTF-8 decoding accepts exactly the encodings of texts and returns the text (section 3 of RFC 3629) |
| GitPath.ReadOctal | src/patchOps.ts:95-101 | one to three octal digits are taken, as many as there are |
| GitPath.DecodeGitQuotedPath | src/patchOps.ts:75-109 | the decoding loop with its pending byte run equals the recursive decoder, failures included |
| GitPath.QuoteReadsBack | src/patchOps.ts:75-109 | escaped byte runs and literal runs compose: a quoted rest behind pending bytes decodes to both |
| GitPath.GitQuotingInverts | src/patchOps.ts:75-109 | Git's quoting of any path decodes to the path, whether or not it escapes non-ASCII bytes |
| FrameCodec.LittleEndianOfValue | scripts/windows-process-host.cs:2161-2163 | header numbers of a width and their byte fields correspond one to one |
| FrameCodec.FramesAllowed | scripts/windows-process-host.cs:1828-1836 | exactly which kinds, flags and payload lengths are accepted, and which error names what is wrong with the others |
| FrameCodec.HeaderFaults | scripts/windows-process-host.cs:1818-1842 | which error a header gives, read off its bytes, and that the checks come in the order of the program |
| FrameCodec.DecodeIsExact | scripts/windows-process-host.cs:1815-1849 | a frame is read if and only if it is legal, carries the expected sequence and its bytes are the written ones |
| FrameCodec.TagDecides | scripts/windows-process-host.cs:1834-1883 | behind a faultless header a frame is read exactly when its payload is there and the tag is the front of the digest of all header bytes before it and the payload |
| FrameCodec.BuildPrefix | scripts/windows-process-host.cs:1851-1864 | the header filled in place is the specified prefix |
| FrameCodec.WriteFrame | scripts/windows-process-host.cs:1851-1869 | header, tag and payload are written, or nothing for an oversized payload |
| FrameCodec.ReadExact | scripts/windows-process-host.cs:2144-2159 | exactly the asked bytes under every short-read schedule; a clean end only before the first byte |
| FrameCodec.ReadFrame | scripts/windows-process-host.cs:1815-1849 | the reader returns the specified frame or the first failing check, and consumes exactly the frame |
| FrameCodec.ReadFrames | scripts/windows-process-host.cs:213-218 | the receive loop reads the frames of the stream under every short-read schedule |
| FrameCodec.FramesReadBack | scripts/windows-process-host.cs:1815-1869 | writing any legal consecutive frames and reading them returns the same frames |
| FrameCodec.OnlyConsecutiveFrames | scripts/windows-process-host.cs:1815-1849 | whatever bytes arrive, accepted frames are consecutive and are exactly the front of the data |
| FrameCodec.InOrderIsLongest | scripts/windows-process-host.cs:1824-1825 | the run of frames in order cannot be extended |
| FrameCodec.ReadStopsAtTheGap | scripts/windows-process-host.cs:1824-1825 | of legal frames under any numbers the longest run in order is read; a smaller number behind it is a duplicate, a larger one out of order, and the last number leaves none to use |
| FramedRequest.PiecesCarryTheStream | scripts/windows-process-host.cs:496-539 | output pieces join to the stream, fit a frame, mark the end once and last, and are as many as counted, also for an empty stream |
| FramedRequest.Session.StartFrameRead | scripts/windows-process-host.cs:541-544 | a read is started only when none is outstanding, with the current expected sequence |
| FramedRequest.Session.CompleteControlRead | scripts/windows-process-host.cs:546-552 | completing a read succeeds exactly when the next frame is intact, carries the expected number and leaves a next one; what goes wrong inside the read comes wrapped, a missing frame or number does not; no read is left outstanding |
| FramedRequest.Session.HandleInterleavedRequest | scripts/windows-process-host.cs:559-582 | a request of another id is answered once, under its own id and without flags, with what it is dispatched to, when it is well formed and the answer can be sent, and is an error otherwise; any other frame is left alone |
| FramedRequest.Session.NextControl | scripts/windows-process-host.cs:515-520 | the first frame that is no interleaved request is returned behind the answers to those before it; the first failing frame or answer decides the error |
| FramedRequest.Session.SendPiece | scripts/windows-process-host.cs:512-529 | a piece is credited exactly by a credit for the size of its frame, cancelled by a cancel, and refused by any other control |
| FramedRequest.Session.SendStream | scripts/windows-process-host.cs:496-531 | one stream is sent piece by piece as far as its pieces are credited, and a read is left outstanding exactly while frames remain |
| FramedRequest.Session.WriteFramedOutput | scripts/windows-process-host.cs:482-534 | stdout's then stderr's pieces are sent as far as they are credited, never more than one uncredited; success, cancellation and error are decided by the frames that come |
| FramedRequest.Session.ReadFramedInput | scripts/windows-process-host.cs:410-439 | input is accepted exactly when its frames have the declared length with the end marked last, one exact credit after each; the first other frame decides the error |
| FramedRequest.Session.WatchWorker | scripts/windows-process-host.cs:325-363 | an undisturbed worker is waited for; only a frame that came early is taken; an interleaved request is answered and the worker watched on, and only the cancel or a frame that is neither ends the watch, with its error |
| FramedRequest.Session.TakeEarlyControl | scripts/windows-process-host.cs:326-340 | one early frame is an answered interleaved request, the cancel, or the error it causes, and which one is determined |
| FramedRequest.Session.HandleFramedRequest | scripts/windows-process-host.cs:284-408 | which outcome the inbound frames lead to, errors included; an answered early request never decides it; whatever the outcome, requests are answered in order, each with what it is dispatched to, and output goes to this request alone; on normal return no read is outstanding, this request is answered last, with the worker's response or the one for cancelled requests, the request and each input frame were credited with their sizes, and the output is delivered and credited or was cancelled |
| FramedRequest.Session.RunRequest | scripts/windows-process-host.cs:308-407 | the part after the input: the worker's result delivered and its response sent, or the cancellation, with the same account of every response |
| FramedRequest.Session.InputIsRead | scripts/windows-process-host.cs:410-439 | payloads sent as consecutive input frames with the end marked last are read whole |
| FramedRequest.Session.PiecesAreCredited | scripts/windows-process-host.cs:496-534 | exact credits in order, with answerable requests of other ids in between, get every piece sent |
| FramedRequest.Session.WellBehavedPeerIsServed | scripts/windows-process-host.cs:284-408 | a peer that sends its declared input and then credits each output frame, not before there is output, is served with the worker's output, whatever requests of other ids it makes before each credit, while the worker runs or later |
| FramedRequest.Session.RequestsDoNotDisturb | scripts/windows-process-host.cs:325-354 | requests of other ids made while the worker runs are answered and change nothing in what is then delivered |
| FramedRequest.Session.CancelEndsOutput | scripts/windows-process-host.cs:512-525 | a cancel in place of a credit ends the output right behind the piece it answers |
| FramedRequest.Session.CancelingPeerIsCanceled | scripts/windows-process-host.cs:284-408 | a peer that cancels early or in place of any credit gets its request cancelled; only an early cancel of a worker that does not stop in time fails |
| FramedRequest.ServedRun | scripts/windows-process-host.cs:284-408 | a run from a new session, with a request of another id answered while the worker runs, that completes |
| BoundedReader.BringToFront | scripts/windows-process-host.cs:1757-1765 | rebuilding the queue moves the last block to the front and keeps the others in order |
| BoundedReader.DropExcess | scripts/windows-process-host.cs:1749-1770 | dropping the excess keeps exactly the last limit bytes |
| BoundedReader.Collect | scripts/windows-process-host.cs:1772-1778 | the copied array is the queue's bytes in order |
| BoundedReader.ReadBounded | scripts/windows-process-host.cs:1712-1787 | for every split into reads the result is the last limit bytes, with exact total, dropped and truncated |
| PersistentProcess.RunsAreSound | scripts/windows-process-host.cs:787-897 | in every run buffers stay within 1 MiB, the process runs exactly while the reason says so, a removed record is dead, and every end but the natural one has closed the input |
| PersistentProcess.OutputIsExactlyOnce | scripts/windows-process-host.cs:787-874 | over every interleaving, polled bytes then buffered bytes are the accepted chunks in order |
| PersistentProcess.ReasonIsFinal | scripts/windows-process-host.cs:876-897 | the reason leaves running at most once; reason and exit code then never change |
| PersistentProcess.StaysSilent | scripts/windows-process-host.cs:862-874 | after its stream has ended, a drained side accepts nothing more |
| PersistentProcess.LastPollDeliversAll | scripts/windows-process-host.cs:787-815 | a poll that reports the process not running has delivered everything ever accepted |
| PersistentProcess.FirstEndDecides | scripts/windows-process-host.cs:787-897 | in every run, reason and exit code are those of the first step that ended the process, read off the steps: the watcher's wait, a termination, or a chunk that no longer fits |
| PersistentProcess.LastPollTellsTheEnd | scripts/windows-process-host.cs:800-806 | a poll that finds the process gone finds that reason and exit code |
| PersistentProcess.Record.ClosePersistentState | scripts/windows-process-host.cs:876-889 | the first close decides, later ones change nothing |
| PersistentProcess.Record.AppendPersistent | scripts/windows-process-host.cs:852-860 | a chunk is stored whole or ends the process with the output limit |
| PersistentProcess.Record.EndRead | scripts/windows-process-host.cs:869-873 | the end of a stream closes that side once |
| PersistentProcess.Record.WatchProcess | scripts/windows-process-host.cs:1480-1492 | the watcher's one step after its wait |
| PersistentProcess.Record.PollPersistent | scripts/windows-process-host.cs:787-815 | a poll hands out and empties both buffers and tells the reason, and at the end the exit code, those of the first step that ended the process in every run leading here; the last one removes and disposes the record |
| PersistentProcess.Record.TerminatePersistent | scripts/windows-process-host.cs:843-850 | termination closes, removes and disposes |
| JsonScanner.Validate | scripts/windows-process-host.cs:1914-1968 | the one-index loop with its stack equals the recursive scan, with the same errors |
| JsonScanner.SpelledEnds | scripts/windows-process-host.cs:1921-1937 | the closing quote of a string written by section 7 of RFC 8259 is the first quote the scanner does not take for escaped |
| JsonScanner.CharsReadBack | scripts/windows-process-host.cs:1935-1938 | a string written by section 7 reads back as the text its characters, escapes and code units stand for |
| JsonScanner.DecoderExists | scripts/windows-process-host.cs:1935-1938 | there is a decoder that reads every string of every tree by section 7 |
| JsonScanner.StringScanned | scripts/windows-process-host.cs:1921-1949 | a written string is decoded, measured in code units and taken as a key exactly when a colon follows |
| JsonScanner.KeyErrors | scripts/windows-process-host.cs:1939-1949 | which error a string in front gives: too long, a key outside an object, a repeated key, one key too many, in this order |
| JsonScanner.BracketErrors | scripts/windows-process-host.cs:1951-1967 | which error a bracket gives: too deep an opening, a closing that fits no opening; and an opening never closed |
| JsonScanner.ValueScanned | scripts/windows-process-host.cs:1914-1968 | any spelled value is passed exactly when it fits the limits from the current depth and key count |
| JsonScanner.MembersScanned | scripts/windows-process-host.cs:1914-1968 | the members of an object are passed exactly when their decoded keys are new and their values fit |
| JsonScanner.ScannerAgreesWithTree | scripts/windows-process-host.cs:1914-1968 | any spelling of a JSON value, its strings written by section 7 of RFC 8259 and decoded so by the library, its objects by section 4, is accepted exactly when no object repeats a decoded key and depth, key count and string lengths are within limits |
| CommandLine.QuoteArgument | scripts/windows-process-host.cs:2091-2111 | the quoting loop with its held-back backslashes gives the specified quoted form |
| CommandLine.BuildCommandLine | scripts/windows-process-host.cs:2083-2089 | the line is the quoted executable and the quoted arguments behind blanks |
| CommandLine.QuotedExactly | scripts/windows-process-host.cs:2091-2093 | an argument stays unquoted exactly when it is nonempty and holds no blank, tab, line feed, vertical tab or quote |
| CommandLine.QuotedRestReads | scripts/windows-process-host.cs:2094-2110 | any backslash run before a quote or the end reads back unchanged |
| CommandLine.ArgumentReadsBack | scripts/windows-process-host.cs:2091-2111 | every argument, empty or with any quotes and backslashes, reads back as itself |
| CommandLine.CommandLineRoundTrip | scripts/windows-process-host.cs:2083-2111 | the line splits into exactly the executable and arguments if and only if the executable is plain |
| Transcript.OneMoreUnit | src/codexSessions.ts:731-741 | one more code unit adds its UTF-8 bytes, completing a surrogate pair adds one |
| Transcript.ByteLengthIsEncoded | src/codexSessions.ts:731-741 | the byte length of any text is the length of its UTF-8 encoding (section 3 of RFC 3629), with U+FFFD for every surrogate that is not part of a pair |
| Transcript.CharactersOfUnits | src/codexSessions.ts:731-741 | for texts of characters it is the length of the encoding of just those characters |
| Transcript.LongerTakesMore | src/codexSessions.ts:731-741 | every additional code unit takes at least one byte, so the search space is ordered |
| Transcript.LongestFittingPrefix | src/codexSessions.ts:729-748 | the binary search ends on the longest cut that fits and does not leave a high surrogate behind |
| Transcript.RepairCut | src/codexSessions.ts:749-752 | the repair loop leaves a fitting cut alone, so after the search it never shortens |
| Transcript.LongestOnWellFormed | src/codexSessions.ts:718-755 | on well-formed text no longer cut at a code-point boundary fits |
| Transcript.CappedTranscriptPrefix | src/codexSessions.ts:718-755 | the longest cut and the marker fit the budget, or there is no room for the marker |
| Transcript.CapProContextUtf8 | src/proContext.ts:359-384 | text that fits is kept; otherwise the longest cut and the marker fit the budget |
| Transcript.LoadSessionMessages | src/codexSessions.ts:797-853 | the loop loads the longest whole run of events and cuts the next one; it fails exactly on a foreign line met before that |
| Transcript.ForeignExactly | src/codexSessions.ts:799-806 | a line of another session is one that names a session, and not this one |
| Transcript.LoadingIsFaithful | src/codexSessions.ts:797-853 | both limits hold, only the last message may be cut, and the reason is absent exactly when every event is whole |
| SessionFiles.VisitOrderIsFixed | src/codexSessions.ts:162-164 | sorting by name makes the visit independent of the order a directory is read in |
| SessionFiles.JsonlExactly | src/codexSessions.ts:169 | session files are those whose name ends in .jsonl |
| SessionFiles.UnbarredMeetsAll | src/codexSessions.ts:147-192 | a walk barred nowhere meets every session file of the tree, in order |
| SessionFiles.MetOrBehind | src/codexSessions.ts:147-192 | every session file of a tree is either met by the walk or in a folder it is barred from, counted alike |
| SessionFiles.CollectingKeepsTheFirst | src/codexSessions.ts:166-191 | collecting keeps the first files that fit; truncation is reported exactly when barred or when the walk goes on once full |
| SessionFiles.GoesOnExactly | src/codexSessions.ts:168-174 | the walk goes on once full exactly when it meets more files than fit, or as many and then something else last |
| SessionFiles.NothingMissedExactly | src/codexSessions.ts:147-192 | every file is collected exactly when all fit and none is in a folder the walk is barred from |
| SessionFiles.ReportIsNeedlessExactly | src/codexSessions.ts:168-182 | when truncation is reported although every file was collected, for all trees and limits; without a report every file was |
| SessionFiles.MayReportWithoutMissing | src/codexSessions.ts:168-174 | a concrete tree for which truncation is reported although every session file was collected |
| SessionFiles.Collection.CollectJsonlFiles | src/codexSessions.ts:147-192 | the recursion over the shared collection, early returns included, equals collecting along the depth-limited sorted preorder |
| SessionFiles.CollectBothRoots | src/codexSessions.ts:424-434 | over both roots: the first maxFiles files, exact truncation, exactly when nothing is missed, nothing missed when not truncated, and exactly when truncation is reported needlessly |
| SessionIndex.RecencyIsOrder | src/tools/schemas/codexSessions.ts:102-124 | the session comparison is a total order, so sorting by it is meaningful |
| SessionIndex.RecencyDecides | src/tools/schemas/codexSessions.ts:102-124 | which of two sessions comes first: later activity, then later creation, active before archived, then id and path |
| SessionIndex.KeptWasSeenLast | src/codexSessions.ts:446-456 | the session kept of an id is the one heard of last |
| SessionIndex.KeepFirstOfEach | src/codexSessions.ts:446-456 | the loop keeps one session per id, the most recent, and counts the others |
| SessionIndex.CollectSessionMetas | src/codexSessions.ts:419-466 | scanned is indexed plus excluded plus duplicates, and the index lists the most recent session of every id in order |
| RepoTree.WalkListsTheFirst | src/fsOps.ts:527-560 | the limited walk lists the first lines of the full walk, is truncated exactly when there are more, and fails exactly on an unreadable folder met before |
| RepoTree.LinesAreDrawn | src/fsOps.ts:527-560 | the lines of the full walk are exactly those of the paths within the depth, each drawn by its path alone: trunks and blanks for the folders on the way, a branch, the name, a slash behind folders |
| RepoTree.VisibleExactly | src/fsOps.ts:537-543 | shown is exactly what is not blocked, and not hidden unless hidden entries are asked for |
| RepoTree.ListingOrdered | src/fsOps.ts:537-543 | folders are listed before everything else, each group in collation order |
| RepoTree.Walker.Walk | src/fsOps.ts:527-560 | the recursion with its shared counters, early returns included, equals walking along the full listing |
| RepoTree.RepoTreeBody | src/fsOps.ts:516-564 | the listing is the title and the first maxEntries lines of the depth-limited tree, truncated exactly when more exist |
| Workspaces.IssuedOnce | src/guard.ts:590-617 | until more handles have been revoked than there may be tombstones, an issued id is live or has had exactly one revocation event, never both |
| Workspaces.BuriedExactly | src/guard.ts:597-616 | an id is buried exactly while one of its revocations is among the last ones the cap keeps |
| Workspaces.ReissuableExactly | src/guard.ts:569-579 | an id can be drawn again exactly when it is dead and each of its revocations has been followed by at least as many others as the cap |
| Workspaces.RunThatReissues | src/guard.ts:257-315 | a run from a new registry, through opening and closing, that issues an id twice |
| Workspaces.ReissueBreaksTheCount | src/guard.ts:569-579 | issuing a dead and forgotten id breaks that law exactly when the id was issued before, which takes more revocations than there may be tombstones |
| Workspaces.RevokeEachReports | src/guard.ts:604-611 | revoking a list reports each handle once, in order |
| Workspaces.RevokeKeepsInv | src/guard.ts:590-617 | revoking keeps the maps inverse, live ids apart from tombstones, the tombstones those of the last revocations, and issues accounted for |
| Workspaces.RevokeSelected | src/guard.ts:581-588 | revoking the doomed records of a snapshot one by one leaves exactly the others, in order |
| Workspaces.PrunedFind | src/guard.ts:581-588 | a handle survives pruning exactly when it was live and unexpired |
| Workspaces.IssueKeepsInv | src/guard.ts:297-314 | issuing a fresh id for a root without a handle keeps the invariant |
| Workspaces.TouchKeepsInv | src/guard.ts:524-527 | renewing moves one expiry and keeps the invariant |
| Workspaces.HandleLasts | src/guard.ts:287-295 | until it expires a live handle goes on answering to its id and to its root's key |
| Workspaces.WorkspaceManager.constructor | src/guard.ts:225-251 | an empty registry; lifetime and tombstone cap clamped to their ranges |
| Workspaces.WorkspaceManager.RevokeRecord | src/guard.ts:590-617 | removal from both maps, burial, one event, and the loop that drops the oldest tombstones |
| Workspaces.WorkspaceManager.RevokeDoomed | src/guard.ts:581-588 | the snapshot loop shared by pruning, revoking all and policy changes |
| Workspaces.WorkspaceManager.PruneExpired | src/guard.ts:581-588 | exactly the expired records are revoked |
| Workspaces.WorkspaceManager.RevokeAll | src/guard.ts:415-421 | both maps are emptied, with one event per handle in insertion order |
| Workspaces.WorkspaceManager.RevokeForPolicyRevision | src/guard.ts:436-443 | exactly the records of the active revision remain |
| Workspaces.WorkspaceManager.NextWorkspaceId | src/guard.ts:569-579 | the outcome of drawing at most eight times |
| Workspaces.DrawnExactly | src/guard.ts:569-579 | behind taken draws, the first valid and free one is the id, the first invalid one fails, and eight taken ones fail |
| Workspaces.WorkspaceIdSpelled | src/guard.ts:574-576 | an id is ws_ and two lower-case hexadecimal digits for each of the sixteen bytes drawn |
| Workspaces.WorkspaceManager.IssueWorkspace | src/guard.ts:297-314 | a fresh handle recorded in both maps under the session, identity and policy revision of the call, exactly when an id is drawn and there is a session; otherwise the exact error, and nothing changes |
| Workspaces.WorkspaceManager.OpenWorkspace | src/guard.ts:257-315 | a bound handle of the root is renewed, a stale one revoked and replaced, a missing one issued exactly when an id is drawn and there is a session; the record then carries the session, identity, policy revision and expiry of the call; every error path leaves the stated registry |
| Workspaces.OpenThenUse | src/guard.ts:257-352 | a handle just opened serves a second call, before it expires and with its root allowed, if and only if session and policy revision are the same |
| Workspaces.WorkspaceManager.GetWorkspace | src/guard.ts:317-352 | succeeds exactly for live, unexpired, bound handles that may be used; a stale one is revoked on sight |
| Workspaces.WorkspaceManager.CloseWorkspace | src/guard.ts:358-399 | closes exactly the handles bound here and leaves them dead |
| Workspaces.WorkspaceManager.ListWorkspaces | src/guard.ts:401-413 | the unexpired handles of this binding, oldest first |
| CanonicalValues.EncodesExactly | src/configResolver.ts:512-536 | exactly plain values with finite numbers can be encoded, and failure names the key |
| CanonicalValues.EncodingSpells | src/configResolver.ts:512-532 | what the encoding is made of: a list of the name of the type and the value, arrays item by item, objects as key-value pairs with their keys in increasing order |
| CanonicalValues.EncodingIdentifies | src/configResolver.ts:512-536 | two values have equal encodings if and only if they are structurally the same up to key order; undefined, null, negative zero and arrays stay apart |
| CanonicalValues.CloneIsFaithful | src/configResolver.ts:209-228 | a value is copied whole exactly when it can be encoded |
| CodeUnits.IncreasingIsUnique | src/configResolver.ts:508-510 | keys sorted by code units are determined by which keys there are |
| CodeUnits.FirstDifferenceDecides | src/configResolver.ts:508-510 | texts are ordered by their first differing code unit, a prefix before its extensions |
| ConfigFingerprint.BuildFingerprint | src/configResolver.ts:559-603 | the loop over the sorted fields, with its three errors, gives the specified fingerprint list |
| ConfigFingerprint.FingerprintExists | src/configResolver.ts:571-600 | there is a fingerprint exactly when all fields are owned, no key repeats and every value can be encoded |
| ConfigFingerprint.OrderDoesNotMatter | src/configResolver.ts:559-603 | the order of the fields changes neither whether there is a fingerprint nor which one |
| ConfigFingerprint.SecretsDoNotShow | src/configResolver.ts:588-603 | swapping one nonempty secret for another leaves the fingerprint list as it was |
| ConfigFingerprint.SecretLine | src/configResolver.ts:588-597 | a secret contributes its key, its property and whether it is set or missing, missing meaning undefined, null or the empty text |
| ConfigFingerprint.FingerprintIdentifies | src/configResolver.ts:559-603 | fingerprint lists are equal if and only if the configurations have agreeing fields, secrets compared only by being missing |

## Left out

- Patch texts and file contents are sequences of Unicode characters, not bytes; reading and decoding files, size limits and the file checks of `prepareWorkspacePatch` are not part of this model.
- `normalizePatchPath` (src/patchOps.ts:111-121) is a parameter: it depends on path rules outside this model.
- Truncation and redaction of printed diffs; texts that mix line endings, or have carriage returns inside lines, in the diff round trip and in the laws on swapped patches: the diff printer drops carriage returns before line feeds.
- Single replacement in edits, because `$` patterns in the new text have a special meaning.
- FrameCodec: digests are an arbitrary function, so nothing is said about forged tags.
- FramedRequest: request JSON, the stream description and the dispatched operations are parameters; when the peer sends a frame matters only for whether a read can be found complete without waiting; an error inside a read made in the background comes wrapped, and the code the wrapping is reported under is not modelled; a worker that never finishes is not modelled, and whether a cancelled one stops within ten seconds is a parameter; an exhausted sequence number ends the session with its error.
- BoundedReader.ReadBounded: the branch that waits for a marker is left out, no shown caller passes one; counters are unbounded integers instead of 32 and 64 bits.
- PersistentProcess: writing input and the unsupported interrupt; waiting for changes; handles and jobs of the operating system. Terminating a process discards output not yet polled, in the program and here.
- JsonScanner: the JSON library's decoding of one literal is a parameter that has to agree with section 7 of RFC 8259 on the strings of the text, which the program's library need not do for strings spelled `"\/Date(0)\/"`; numbers and names are any characters numbers and names are made of; texts that are no JSON value are covered by `Validate` alone.
- CommandLine: characters are text without NUL; the reader follows "Parsing C command-line arguments", doubled quotes inside quotes included.
- Transcript.LoadSessionMessages: extraction, normalisation and redaction of an event from its JSON line happen before the loop and are given with the line.
- SessionFiles, RepoTree: directories are values that do not change during a walk; links count as other entries.
- RepoTree.RepoTreeBody: the closing note that names the number of entries, and joining the lines.
- Workspaces: records are values replaced in place in the map; revocation listeners neither fail nor call back; the session and policy revision do not change within one call; root resolution and the use check are parameters. Shared registries, confirmed roots and task worktrees are not part of this model.
- CanonicalValues: a reference back to an enclosing object is an unencodable leaf; sparse arrays and symbol keys are not modelled; finite numbers are reals.
- ConfigFingerprint: the hash of the list, origins, diagnostics and the effective values published beside it.
- Command-line and environment parsing, HTTP routes, tool schemas, audit and transactions: plumbing around the parts above.
