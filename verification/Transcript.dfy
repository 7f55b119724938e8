/** Cutting UTF-16 text to a UTF-8 byte budget, and loading a transcript within a budget of messages and bytes. */
module Transcript {
  import opened CodeUnits
  import GitPath
  import opened Results

  predicate High(u: Unit) {
    0xD800 <= u <= 0xDBFF
  }

  predicate Low(u: Unit) {
    0xDC00 <= u <= 0xDFFF
  }

  /** Bytes of a code unit on its own; a surrogate without its partner is written as the three-byte replacement. */
  function UnitBytes(u: Unit): nat {
    if u < 0x80 then 1 else if u < 0x800 then 2 else 3
  }

  /** Length of the UTF-8 encoding; a surrogate pair takes four bytes. */
  function ByteLength(text: Text): nat {
    if text == [] then 0
    else if |text| >= 2 && High(text[0]) && Low(text[1]) then 4 + ByteLength(text[2..])
    else UnitBytes(text[0]) + ByteLength(text[1..])
  }

  // ----- byte lengths are those of UTF-8, by section 3 of RFC 3629

  /** The character a pair of surrogates stands for. */
  function PairChar(high: Unit, low: Unit): char
    requires High(high) && Low(low)
  {
    (0x1_0000 + (high - 0xD800) * 0x400 + (low - 0xDC00)) as char
  }

  /** The characters of a text, with U+FFFD for every surrogate that is not part of a pair. */
  function Characters(text: Text): string {
    if text == [] then ""
    else if |text| >= 2 && High(text[0]) && Low(text[1]) then [PairChar(text[0], text[1])] + Characters(text[2..])
    else [if High(text[0]) || Low(text[0]) then '\U{FFFD}' else text[0] as char] + Characters(text[1..])
  }

  /** The byte length of any text is the length of its encoding, lone surrogates written as U+FFFD. */
  lemma {:induction false} ByteLengthIsEncoded(text: Text)
    ensures ByteLength(text) == |GitPath.Encode(Characters(text))|
  {
    if text == [] {
    } else if |text| >= 2 && High(text[0]) && Low(text[1]) {
      var c, rest := PairChar(text[0], text[1]), Characters(text[2..]);
      ByteLengthIsEncoded(text[2..]);
      assert ([c] + rest)[1..] == rest;
    } else {
      var c, rest := if High(text[0]) || Low(text[0]) then '\U{FFFD}' else text[0] as char, Characters(text[1..]);
      ByteLengthIsEncoded(text[1..]);
      assert ([c] + rest)[1..] == rest;
    }
  }

  /** The code units of characters stand for just those characters. */
  lemma {:induction false} CharactersOfUnits(s: string)
    ensures Characters(Units(s)) == s
    ensures ByteLength(Units(s)) == |GitPath.Encode(s)|
    ensures s != "" ==> !Low(Units(s)[0])
  {
    if s != "" {
      var units, rest := UnitsOf(s[0]), Units(s[1..]);
      CharactersOfUnits(s[1..]);
      assert s == [s[0]] + s[1..];
      if |units| == 1 {
        assert Units(s)[0] == units[0] && Units(s)[1..] == rest;
        if rest != [] { assert Units(s)[1] == rest[0]; }
      } else {
        assert Units(s)[0] == units[0] && Units(s)[1] == units[1] && Units(s)[2..] == rest;
      }
    }
    ByteLengthIsEncoded(Units(s));
  }

  /** Every surrogate is part of a pair. */
  predicate WellFormed(text: Text) {
    forall i :: 0 <= i < |text| ==>
      && (High(text[i]) ==> i + 1 < |text| && Low(text[i + 1]))
      && (Low(text[i]) ==> i > 0 && High(text[i - 1]))
  }

  /** A cut at k does not separate the halves of a pair. */
  predicate Boundary(text: Text, k: nat) {
    k <= |text| && !(0 < k < |text| && High(text[k - 1]) && Low(text[k]))
  }

  /** The cut actually tried for k: one unit earlier when k would come right after a high surrogate. */
  function Adjusted(text: Text, k: nat): (end: nat)
    requires k <= |text|
    ensures end <= k
  {
    if 0 < k < |text| && High(text[k - 1]) then k - 1 else k
  }

  // ----- byte lengths of growing prefixes

  lemma {:induction false} OneMoreUnit(text: Text, u: Unit)
    ensures ByteLength(text + [u]) == ByteLength(text) + if text != [] && High(text[|text| - 1]) && Low(u) then 1
            else UnitBytes(u)
    decreases |text|
  {
    var longer := text + [u];
    if text == [] {
      assert longer == [u] && [u][1..] == [];
    } else if |text| == 1 {
      assert longer[1..] == [u] && [u][1..] == [] && text[1..] == [];
      assert longer[2..] == [];
    } else if High(text[0]) && Low(text[1]) {
      assert longer[2..] == text[2..] + [u];
      OneMoreUnit(text[2..], u);
    } else {
      assert longer[1..] == text[1..] + [u] && longer[1] == text[1];
      OneMoreUnit(text[1..], u);
    }
  }

  lemma {:induction false} LongerTakesMore(text: Text, j: nat, k: nat)
    requires j <= k <= |text|
    ensures ByteLength(text[..j]) + (k - j) <= ByteLength(text[..k])
    decreases k - j
  {
    if j < k {
      LongerTakesMore(text, j, k - 1);
      OneMoreUnit(text[..k - 1], text[k - 1]);
      assert text[..k - 1] + [text[k - 1]] == text[..k];
    }
  }

  /** Text that does not start with a low surrogate takes the same bytes wherever it is appended. */
  lemma {:induction false} AppendedBytes(text: Text, tail: Text)
    requires tail == [] || !Low(tail[0])
    ensures ByteLength(text + tail) == ByteLength(text) + ByteLength(tail)
    decreases |text|
  {
    if text == [] {
      assert text + tail == tail;
    } else if |text| >= 2 && High(text[0]) && Low(text[1]) {
      assert (text + tail)[2..] == text[2..] + tail;
      AppendedBytes(text[2..], tail);
    } else {
      assert (text + tail)[1..] == text[1..] + tail;
      AppendedBytes(text[1..], tail);
    }
  }

  // ----- the cutter

  /** end fits, and no cut that leaves a high surrogate behind and fits is longer. */
  ghost predicate LongestCut(text: Text, budget: nat, end: nat) {
    && end <= |text| && ByteLength(text[..end]) <= budget
    && Boundary(text, end)
    && forall k :: 0 <= k <= |text| && Adjusted(text, k) == k && ByteLength(text[..k]) <= budget ==> k <= end
  }

  /** Whether the cut tried for middle fits. */
  ghost predicate Tried(text: Text, budget: nat, middle: nat)
    requires middle <= |text|
  {
    ByteLength(text[..Adjusted(text, middle)]) <= budget
  }

  lemma TriedIsMonotone(text: Text, budget: nat, j: nat, k: nat)
    requires j <= k <= |text| && Tried(text, budget, k)
    ensures Tried(text, budget, j)
  {
    LongerTakesMore(text, Adjusted(text, j), Adjusted(text, k));
  }

  /** The binary search over code units; the cut it settles on always fits, so the repair has nothing to do. */
  method LongestFittingPrefix(text: Text, budget: nat) returns (end: nat)
    ensures LongestCut(text, budget, end)
  {
    hide ByteLength;
    var low: nat, high: nat := 0, |text|;
    NothingFits(text, budget);
    while low < high
      invariant low <= high <= |text|
      invariant Tried(text, budget, low)
      invariant forall m :: high < m <= |text| ==> !Tried(text, budget, m)
    {
      var middle := (low + high + 1) / 2;
      var cut := middle;
      if cut > 0 && cut < |text| && High(text[cut - 1]) { cut := cut - 1; }
      if ByteLength(text[..cut]) <= budget {
        low := middle;
      } else {
        forall m | middle <= m <= |text| ensures !Tried(text, budget, m) {
          if Tried(text, budget, m) { TriedIsMonotone(text, budget, middle, m); }
        }
        high := middle - 1;
      }
    }
    end := low;
    if end > 0 && end < |text| && High(text[end - 1]) { end := end - 1; }
    CutIsLongest(text, budget, low, end);
    end := RepairCut(text, end, budget);
  }

  lemma NothingFits(text: Text, budget: nat)
    ensures Tried(text, budget, 0)
  {
    assert text[..0] == [];
  }

  lemma CutIsLongest(text: Text, budget: nat, low: nat, end: nat)
    requires low <= |text| && end == Adjusted(text, low) && Tried(text, budget, low)
    requires forall m :: low < m <= |text| ==> !Tried(text, budget, m)
    ensures LongestCut(text, budget, end)
  {
    hide ByteLength;
    forall k | 0 <= k <= |text| && Adjusted(text, k) == k && ByteLength(text[..k]) <= budget ensures k <= end {
      assert Tried(text, budget, k);
    }
  }

  /** The repair loop after the search: it would shorten a cut that does not fit, and leaves one that fits alone. */
  method RepairCut(text: Text, cut: nat, budget: nat) returns (end: nat)
    requires cut <= |text|
    ensures end <= cut && ByteLength(text[..end]) <= budget
    ensures ByteLength(text[..cut]) <= budget ==> end == cut
  {
    end := cut;
    while end > 0 && ByteLength(text[..end]) > budget
      invariant end <= cut
      invariant ByteLength(text[..cut]) <= budget ==> end == cut
    {
      end := end - 1;
      if end > 0 && Low(text[end]) { end := end - 1; }
    }
  }

  /** On well-formed text the cut is the longest one at a code-point boundary. */
  lemma LongestOnWellFormed(text: Text, budget: nat, end: nat, k: nat)
    requires WellFormed(text) && LongestCut(text, budget, end)
    requires Boundary(text, k) && ByteLength(text[..k]) <= budget
    ensures k <= end
  {
    hide ByteLength;
    assert Adjusted(text, k) == k;
  }

  /** A line feed and "...[message truncated]". */
  const MARKER: Text :=
    [10, 46, 46, 46, 91, 109, 101, 115, 115, 97, 103, 101, 32, 116, 114, 117, 110, 99, 97, 116, 101, 100, 93]

  lemma MarkerSpelled()
    ensures MARKER == Units("\n...[message truncated]")
  {
    UnitsSpelled("\n...[message truncated]", MARKER);
  }

  /** What is left of a text that has to fit maxBytes with its marker: nothing, or the longest cut and the marker. */
  ghost predicate Capped(text: Text, maxBytes: int, marker: Text, r: Option<Text>) {
    var budget := maxBytes - ByteLength(marker);
    if budget <= 0 then r.None?
    else exists end: nat :: LongestCut(text, budget, end) && r == if end == 0 then None else Some(text[..end] + marker)
  }

  method CappedTranscriptPrefix(text: Text, maxBytes: int) returns (r: Option<Text>)
    ensures Capped(text, maxBytes, MARKER, r) && Capped(text, maxBytes, Units("\n...[message truncated]"), r)
    ensures r.Some? ==> ByteLength(r.value) <= maxBytes
  {
    hide ByteLength, Units;
    MarkerSpelled();
    var budget := maxBytes - ByteLength(MARKER);
    if budget <= 0 { return None; }
    var end := LongestFittingPrefix(text, budget);
    if end <= 0 { return None; }
    AppendedBytes(text[..end], MARKER);
    return Some(text[..end] + MARKER);
  }

  datatype CapError = MarkerTooLong

  /** The same cutter for exported context: a text that fits is kept, otherwise the longest cut and the marker. */
  method CapProContextUtf8(text: Text, maxBytes: nat, marker: Text) returns (r: Result<(Text, bool), CapError>)
    ensures ByteLength(text) <= maxBytes ==> r == Ok((text, false))
    ensures ByteLength(text) > maxBytes ==> (r.Err? <==> ByteLength(marker) > maxBytes)
    ensures r.Ok? && (marker == [] || !Low(marker[0])) ==> ByteLength(r.value.0) <= maxBytes
    ensures r.Ok? && ByteLength(text) > maxBytes ==>
              r.value.1 && exists end: nat ::
              LongestCut(text, maxBytes - ByteLength(marker), end) && r.value.0 == text[..end] + marker
  {
    hide ByteLength;
    if ByteLength(text) <= maxBytes { return Ok((text, false)); }
    if ByteLength(marker) > maxBytes { return Err(MarkerTooLong); }
    var end := LongestFittingPrefix(text, maxBytes - ByteLength(marker));
    if marker == [] || !Low(marker[0]) { AppendedBytes(text[..end], marker); }
    return Ok((text[..end] + marker, true));
  }

  // ----- loading a transcript

  /** One transcript event; meta stands for its kind, role, timestamp and redaction mark. */
  datatype Event = Event(meta: nat, content: Text)

  /** One line of a session file: the session id it names, if any, and the event it holds, if any. */
  datatype Line = Line(sessionId: Option<string>, event: Option<Event>)

  datatype Message = Message(ordinal: nat, meta: nat, content: Text, bytes: nat, truncated: bool)

  datatype Reason = MessageLimit | ByteLimit

  datatype Loaded = Loaded(messages: seq<Message>, reason: Option<Reason>)

  datatype LoadError = SessionReadFailed

  predicate Foreign(line: Line, expected: string) {
    line.sessionId.Some? && line.sessionId.value != expected
  }

  /** A line of another session names one; a line that names none belongs to any. */
  lemma ForeignExactly(line: Line, expected: string)
    ensures Foreign(line, expected) <==> line.sessionId != None && line.sessionId != Some(expected)
  {
  }

  /** The events of a file, in order. */
  function Events(lines: seq<Line>): seq<Event> {
    if lines == [] then []
    else Events(lines[..|lines| - 1]) + if lines[|lines| - 1].event.Some? then [lines[|lines| - 1].event.value] else []
  }

  function TotalBytes(events: seq<Event>): nat {
    if events == [] then 0 else TotalBytes(events[..|events| - 1]) + ByteLength(events[|events| - 1].content)
  }

  /** These events can all be kept whole. */
  predicate FitsWhole(events: seq<Event>, maxMessages: nat, maxTotalBytes: nat) {
    |events| <= maxMessages && TotalBytes(events) <= maxTotalBytes
  }

  function BytesLeft(events: seq<Event>, maxTotalBytes: nat): int {
    maxTotalBytes - TotalBytes(events)
  }

  function Whole(e: Event, ordinal: nat): Message {
    Message(ordinal, e.meta, e.content, ByteLength(e.content), false)
  }

  /** All events as whole messages, numbered from one. */
  function Messages(events: seq<Event>): seq<Message> {
    if events == [] then [] else Messages(events[..|events| - 1]) + [Whole(events[|events| - 1], |events|)]
  }

  function Used(messages: seq<Message>): nat {
    if messages == [] then 0 else Used(messages[..|messages| - 1]) + messages[|messages| - 1].bytes
  }

  /**
   * What loading gives when kept of the events are whole: nothing more when that is all of them or the message limit
   * is reached, and otherwise whatever of the next one fits the bytes that are left.
   */
  ghost predicate LoadedAs(r: Loaded, events: seq<Event>, kept: nat, maxMessages: nat, maxTotalBytes: nat) {
    && kept <= |events| && FitsWhole(events[..kept], maxMessages, maxTotalBytes)
    && (kept < |events| ==> !FitsWhole(events[..kept + 1], maxMessages, maxTotalBytes))
    && if kept == |events| then r == Loaded(Messages(events), None)
       else if kept == maxMessages then r == Loaded(Messages(events[..kept]), Some(MessageLimit))
       else exists partial ::
            CutOff(r, Messages(events[..kept]), events[kept], BytesLeft(events[..kept], maxTotalBytes), partial)
  }

  /** The whole messages, then the next event capped to the bytes left, if anything of it fits. */
  ghost predicate CutOff(r: Loaded, whole: seq<Message>, next: Event, left: int, partial: Option<Text>) {
    && Capped(next.content, left, Units("\n...[message truncated]"), partial)
    && (partial.Some? ==> ByteLength(partial.value) <= left)
    && r.reason == Some(ByteLimit)
    && r.messages
       == if partial.None? then whole
          else whole + [Message(|whole| + 1, next.meta, partial.value, ByteLength(partial.value), true)]
  }

  function Cut(e: Event, ordinal: nat, partial: Option<Text>): seq<Message> {
    if partial.None? then [] else [Message(ordinal, e.meta, partial.value, ByteLength(partial.value), true)]
  }

  /**
   * The loading loop: stops at the first event that cannot be kept whole, and fails on a line of another session before
   * that.
   */
  method LoadSessionMessages(lines: seq<Line>, expected: string, maxMessages: nat, maxTotalBytes: nat)
    returns (r: Result<Loaded, LoadError>)
    ensures r.Err? <==>
            exists i ::
            0 <= i < |lines| && Foreign(lines[i], expected) && FitsWhole(Events(lines[..i]), maxMessages, maxTotalBytes)
    ensures r.Ok? ==> exists kept :: LoadedAs(r.value, Events(lines), kept, maxMessages, maxTotalBytes)
  {
    hide ByteLength, Capped, Events, Messages, TotalBytes, LoadedAs, Foreign, Units, Cut;
    var messages: seq<Message> := [];
    var usedBytes := 0;
    ghost var events: seq<Event> := [];
    NothingLoaded(lines);
    for i := 0 to |lines|
      invariant events == Events(lines[..i]) && FitsWhole(events, maxMessages, maxTotalBytes)
      invariant messages == Messages(events) && |messages| == |events| && usedBytes == TotalBytes(events)
      invariant forall j :: 0 <= j < i ==> !Foreign(lines[j], expected)
    {
      var line := lines[i];
      OneMoreLine(lines, i, events);
      if Foreign(line, expected) { return Err(SessionReadFailed); }
      if line.event.None? { continue; }
      var event := line.event.value;
      OneMoreMessage(events, event);
      if |messages| >= maxMessages {
        Stopped(lines, i, expected, maxMessages, maxTotalBytes);
        MessageLimitReached(Events(lines), events, event, maxMessages, maxTotalBytes);
        return Ok(Loaded(messages, Some(MessageLimit)));
      }
      var remainingBytes := maxTotalBytes - usedBytes;
      var completeBytes := ByteLength(event.content);
      if completeBytes <= remainingBytes {
        messages := messages + [Message(|messages| + 1, event.meta, event.content, completeBytes, false)];
        usedBytes := usedBytes + completeBytes;
        events := events + [event];
        continue;
      }
      Stopped(lines, i, expected, maxMessages, maxTotalBytes);
      var partial := CappedTranscriptPrefix(event.content, remainingBytes);
      ByteLimitReached(Events(lines), events, event, partial, maxMessages, maxTotalBytes);
      return Ok(Loaded(messages + Cut(event, |messages| + 1, partial), Some(ByteLimit)));
    }
    assert lines[..|lines|] == lines;
    AllLoaded(events, maxMessages, maxTotalBytes);
    return Ok(Loaded(messages, None));
  }

  lemma NothingLoaded(lines: seq<Line>)
    ensures Events(lines[..0]) == [] && Messages([]) == [] && TotalBytes([]) == 0
  {
  }

  lemma OneMoreLine(lines: seq<Line>, i: nat, events: seq<Event>)
    requires i < |lines| && events == Events(lines[..i])
    ensures Events(lines[..i + 1]) == events + if lines[i].event.Some? then [lines[i].event.value] else []
    ensures lines[i].event.Some? ==> events + [lines[i].event.value] <= Events(lines)
  {
    assert lines[..i + 1][..i] == lines[..i];
    EventsPrefix(lines, i + 1);
  }

  lemma OneMoreMessage(events: seq<Event>, event: Event)
    ensures Messages(events + [event]) == Messages(events) + [Whole(event, |events| + 1)]
    ensures TotalBytes(events + [event]) == TotalBytes(events) + ByteLength(event.content)
  {
    assert (events + [event])[..|events|] == events;
  }

  lemma MessageLimitReached(all: seq<Event>, events: seq<Event>, event: Event, maxMessages: nat, maxTotalBytes: nat)
    requires events + [event] <= all && FitsWhole(events, maxMessages, maxTotalBytes) && |events| == maxMessages
    ensures LoadedAs(Loaded(Messages(events), Some(MessageLimit)), all, |events|, maxMessages, maxTotalBytes)
  {
    hide Messages;
    hide TotalBytes;
    Front(all, events, event);
  }

  lemma ByteLimitReached(all: seq<Event>, events: seq<Event>, event: Event, partial: Option<Text>, maxMessages: nat,
                         maxTotalBytes: nat)
    requires events + [event] <= all && FitsWhole(events, maxMessages, maxTotalBytes) && |events| < maxMessages
    requires TotalBytes(events + [event]) > maxTotalBytes
    requires Capped(event.content, maxTotalBytes - TotalBytes(events), MARKER, partial)
    requires partial.Some? ==> ByteLength(partial.value) <= maxTotalBytes - TotalBytes(events)
    requires |Messages(events)| == |events|
    ensures LoadedAs(Loaded(Messages(events) + Cut(event, |events| + 1, partial), Some(ByteLimit)), all, |events|,
                     maxMessages, maxTotalBytes)
  {
    hide Messages;
    hide TotalBytes;
    hide Capped;
    hide ByteLength;
    hide CutOff;
    Front(all, events, event);
    CutOffHolds(Messages(events), event, BytesLeft(events, maxTotalBytes), partial);
    assert CutOff(Loaded(Messages(events) + Cut(event, |events| + 1, partial), Some(ByteLimit)),
                  Messages(all[..|events|]), all[|events|], BytesLeft(all[..|events|], maxTotalBytes), partial);
  }

  lemma CutOffHolds(whole: seq<Message>, next: Event, left: int, partial: Option<Text>)
    requires Capped(next.content, left, MARKER, partial) && (partial.Some? ==> ByteLength(partial.value) <= left)
    ensures CutOff(Loaded(whole + Cut(next, |whole| + 1, partial), Some(ByteLimit)), whole, next, left, partial)
  {
    hide Capped, ByteLength, Units;
    MarkerSpelled();
    assert whole + [] == whole;
  }

  lemma AllLoaded(events: seq<Event>, maxMessages: nat, maxTotalBytes: nat)
    requires FitsWhole(events, maxMessages, maxTotalBytes)
    ensures LoadedAs(Loaded(Messages(events), None), events, |events|, maxMessages, maxTotalBytes)
  {
    assert events[..|events|] == events;
  }

  lemma Front(all: seq<Event>, events: seq<Event>, event: Event)
    requires events + [event] <= all
    ensures |events| < |all| && all[..|events|] == events && all[..|events| + 1] == events + [event]
            && all[|events|] == event
  {
  }

  lemma {:induction false} EventsPrefix(lines: seq<Line>, i: nat)
    requires i <= |lines|
    ensures Events(lines[..i]) <= Events(lines)
    decreases |lines|
  {
    if i < |lines| {
      EventsPrefix(lines[..|lines| - 1], i);
      assert lines[..|lines| - 1][..i] == lines[..i];
    } else {
      assert lines[..i] == lines;
    }
  }

  lemma {:induction false} FitsPrefix(events: seq<Event>, k: nat, maxMessages: nat, maxTotalBytes: nat)
    requires k <= |events| && FitsWhole(events, maxMessages, maxTotalBytes)
    ensures FitsWhole(events[..k], maxMessages, maxTotalBytes)
    decreases |events|
  {
    hide ByteLength;
    if k < |events| {
      FitsPrefix(events[..|events| - 1], k, maxMessages, maxTotalBytes);
      assert events[..|events| - 1][..k] == events[..k];
    } else {
      assert events[..k] == events;
    }
  }

  /** Once the events up to a line do not all fit, no later line is looked at. */
  lemma Stopped(lines: seq<Line>, i: nat, expected: string, maxMessages: nat, maxTotalBytes: nat)
    requires i < |lines| && !FitsWhole(Events(lines[..i + 1]), maxMessages, maxTotalBytes)
    requires forall j :: 0 <= j <= i ==> !Foreign(lines[j], expected)
    ensures !exists j ::
            0 <= j < |lines| && Foreign(lines[j], expected) && FitsWhole(Events(lines[..j]), maxMessages, maxTotalBytes)
  {
    hide ByteLength;
    hide Foreign;
    hide FitsWhole;
    forall j | 0 <= j < |lines| && Foreign(lines[j], expected)
      ensures !FitsWhole(Events(lines[..j]), maxMessages, maxTotalBytes)
    {
      assert lines[..j][..i + 1] == lines[..i + 1];
      EventsPrefix(lines[..j], i + 1);
      assert Events(lines[..j])[..|Events(lines[..i + 1])|] == Events(lines[..i + 1]);
      if FitsWhole(Events(lines[..j]), maxMessages, maxTotalBytes) {
        FitsPrefix(Events(lines[..j]), |Events(lines[..i + 1])|, maxMessages, maxTotalBytes);
      }
    }
  }

  /**
   * Loaded messages are the events themselves, whole and in order, but for a cut last one; both limits hold; and the
   * reason is absent exactly when nothing was left out.
   */
  lemma LoadingIsFaithful(r: Loaded, events: seq<Event>, kept: nat, maxMessages: nat, maxTotalBytes: nat)
    requires LoadedAs(r, events, kept, maxMessages, maxTotalBytes)
    ensures |r.messages| <= maxMessages && Used(r.messages) <= maxTotalBytes
    ensures r.reason.None? <==> r.messages == Messages(events)
    ensures forall i :: 0 <= i < |r.messages| && r.messages[i].truncated ==>
            i == |r.messages| - 1 == kept && r.reason == Some(ByteLimit)
    ensures forall i :: 0 <= i < kept ==> i < |r.messages| && r.messages[i] == Whole(events[i], i + 1)
  {
    hide ByteLength, Capped, Messages, TotalBytes, Used, Units;
    MessagesAre(events[..kept]);
    MessagesAre(events);
    assert events[..|events|] == events;
    var whole := Messages(events[..kept]);
    assert whole + [] == whole;
    if kept < |events| && |r.messages| > kept {
      var last := r.messages[kept];
      assert last.truncated && r.messages == whole + [last];
      UsedAppend(whole, last);
      assert r.messages != Messages(events);
    }
  }

  lemma UsedAppend(messages: seq<Message>, m: Message)
    ensures Used(messages + [m]) == Used(messages) + m.bytes
  {
    assert (messages + [m])[..|messages|] == messages;
  }

  lemma {:induction false} MessagesAre(events: seq<Event>)
    ensures |Messages(events)| == |events| && Used(Messages(events)) == TotalBytes(events)
    ensures forall i :: 0 <= i < |events| ==> Messages(events)[i] == Whole(events[i], i + 1)
  {
    hide ByteLength;
    if events != [] {
      var front := events[..|events| - 1];
      MessagesAre(front);
      UsedAppend(Messages(front), Whole(events[|front|], |events|));
    }
  }
}
