/** The authenticated frames of the process-host protocol: writing, reading, and consecutive sequencing. */
module FrameCodec {
  import opened Results
  import opened Streams

  const HEADER_LENGTH := 64
  const TAG_OFFSET := 48
  const TAG_LENGTH := 16
  const MAX_PAYLOAD := 65536
  const MAX_HELLO_PAYLOAD := 4096
  const PROTOCOL_VERSION := 1
  const MAGIC: seq<Byte> := [0x43, 0x58, 0x50, 0x34]

  const HELLO := 0x01
  const HELLO_ACK := 0x02
  const REQUEST_JSON := 0x10
  const RESPONSE_JSON := 0x11
  const EVENT_JSON := 0x12
  const OUTPUT := 0x20
  const INPUT := 0x21
  const CREDIT := 0x22
  const CANCEL := 0x23
  const FATAL := 0x7f
  const FLAG_STDERR := 1
  const FLAG_EOF := 2

  datatype Frame = Frame(kind: nat, flags: nat, sequence: nat, requestId: seq<Byte>, generation: nat,
                         payload: seq<Byte>)

  datatype FrameError =
    | TruncatedFrame | BadMagic | BadVersion | BadHeaderLength | DuplicateSequence | OutOfOrderSequence
    | UnknownFrameKind | InvalidFlags | FrameTooLarge | HelloTooLarge | NonzeroReserved
    | InvalidCreditLength | InvalidCancelLength | BadAuthTag | SequenceExhausted

  /** The keyed digest is not looked into: any function will do. */
  type Digest = s: seq<Byte> | |s| == 32 witness seq(32, _ => 0)
  type Mac = seq<Byte> -> Digest

  // ----- integers

  function Pow256(width: nat): nat {
    if width == 0 then 1 else 256 * Pow256(width - 1)
  }

  function LittleEndian(width: nat, value: nat): (r: seq<Byte>)
    ensures |r| == width
  {
    if width == 0 then [] else [value % 256] + LittleEndian(width - 1, value / 256)
  }

  function Value(bytes: seq<Byte>): nat {
    if bytes == [] then 0 else bytes[0] + 256 * Value(bytes[1..])
  }

  lemma {:induction false} ValueOfLittleEndian(width: nat, value: nat)
    requires value < Pow256(width)
    ensures Value(LittleEndian(width, value)) == value
  {
    if width > 0 {
      ValueOfLittleEndian(width - 1, value / 256);
      assert LittleEndian(width, value)[1..] == LittleEndian(width - 1, value / 256);
    }
  }

  lemma {:induction false} LittleEndianOfValue(bytes: seq<Byte>)
    ensures LittleEndian(|bytes|, Value(bytes)) == bytes
    ensures Value(bytes) < Pow256(|bytes|)
  {
    if bytes != [] {
      LittleEndianOfValue(bytes[1..]);
      assert Value(bytes) % 256 == bytes[0] && Value(bytes) / 256 == Value(bytes[1..]);
    }
  }

  lemma Pow256Values()
    ensures Pow256(2) == 0x1_0000 && Pow256(4) == 0x1_0000_0000 && Pow256(8) == 0x1_0000_0000_0000_0000
  {
    assert Pow256(1) == 256;
    assert Pow256(3) == 0x100_0000;
    assert Pow256(5) == 0x100_0000_0000 && Pow256(6) == 0x1_0000_0000_0000 && Pow256(7) == 0x100_0000_0000_0000;
  }

  // ----- what a frame may be

  predicate IsKnownKind(kind: nat) {
    kind in {HELLO, HELLO_ACK, REQUEST_JSON, RESPONSE_JSON, EVENT_JSON, OUTPUT, INPUT, CREDIT, CANCEL, FATAL}
  }

  /** No flag set outside the ones the kind allows. */
  predicate FlagsAllowed(kind: nat, flags: nat) {
    flags == 0
    || (kind == OUTPUT && flags in {FLAG_STDERR, FLAG_EOF, FLAG_STDERR + FLAG_EOF})
    || (kind == INPUT && flags == FLAG_EOF)
  }

  /** The first failing check on the kind, flags and payload length of a frame. */
  function Objection(kind: nat, flags: nat, length: nat): Option<FrameError> {
    if !IsKnownKind(kind) then Some(UnknownFrameKind)
    else if !FlagsAllowed(kind, flags) then Some(InvalidFlags)
    else if length > MAX_PAYLOAD then Some(FrameTooLarge)
    else if (kind == HELLO || kind == HELLO_ACK) && length > MAX_HELLO_PAYLOAD then Some(HelloTooLarge)
    else if kind == CREDIT && length != 8 then Some(InvalidCreditLength)
    else if kind == CANCEL && length != 0 then Some(InvalidCancelLength)
    else None
  }

  /** Which kinds, flags and payload lengths there may be, and what is wrong with the others. */
  lemma FramesAllowed(kind: nat, flags: nat, length: nat)
    ensures Objection(kind, flags, length).None? <==>
            || (kind in {0x10, 0x11, 0x12, 0x7f} && flags == 0 && length <= 65536)
            || (kind in {0x01, 0x02} && flags == 0 && length <= 4096)
            || (kind == 0x20 && flags <= 3 && length <= 65536)
            || (kind == 0x21 && flags in {0, 2} && length <= 65536)
            || (kind == 0x22 && flags == 0 && length == 8)
            || (kind == 0x23 && flags == 0 && length == 0)
    ensures Objection(kind, flags, length) == Some(UnknownFrameKind) <==>
            kind !in {0x01, 0x02, 0x10, 0x11, 0x12, 0x20, 0x21, 0x22, 0x23, 0x7f}
    ensures Objection(kind, flags, length) == Some(InvalidFlags) <==>
            || (kind in {0x01, 0x02, 0x10, 0x11, 0x12, 0x22, 0x23, 0x7f} && flags != 0)
            || (kind == 0x20 && flags > 3)
            || (kind == 0x21 && flags !in {0, 2})
    ensures Objection(kind, flags, length) == Some(FrameTooLarge) ==> length > 65536
    ensures Objection(kind, flags, length) == Some(HelloTooLarge) ==> kind in {0x01, 0x02} && 4096 < length <= 65536
    ensures Objection(kind, flags, length) == Some(InvalidCreditLength) ==> kind == 0x22
    ensures Objection(kind, flags, length) == Some(InvalidCancelLength) ==> kind == 0x23
    ensures Objection(kind, flags, length).Some? ==>
            Objection(kind, flags, length).value in {UnknownFrameKind, InvalidFlags, FrameTooLarge, HelloTooLarge,
                                                     InvalidCreditLength, InvalidCancelLength}
  {
  }

  predicate Legal(f: Frame) {
    && Objection(f.kind, f.flags, |f.payload|).None?
    && |f.requestId| == 16
    && f.sequence < 0x1_0000_0000 && f.generation < 0x1_0000_0000_0000_0000
  }

  // ----- the wire form

  /** The authenticated part of the header. */
  function Prefix(f: Frame): seq<Byte> {
    MAGIC + LittleEndian(2, PROTOCOL_VERSION) + LittleEndian(2, HEADER_LENGTH) + LittleEndian(2, f.kind)
    + LittleEndian(2, f.flags)
    + LittleEndian(4, f.sequence) + f.requestId + LittleEndian(8, f.generation) + LittleEndian(4, |f.payload|)
    + LittleEndian(4, 0)
  }

  function Tag(mac: Mac, covered: seq<Byte>): seq<Byte> {
    mac(covered)[..TAG_LENGTH]
  }

  function Encode(mac: Mac, f: Frame): seq<Byte> {
    Prefix(f) + Tag(mac, Prefix(f) + f.payload) + f.payload
  }

  /** The frame a header announces, with its payload. */
  function FrameOf(header: seq<Byte>, payload: seq<Byte>): Frame
    requires |header| == HEADER_LENGTH
  {
    Frame(Value(header[8..10]), Value(header[10..12]), Value(header[12..16]), header[16..32], Value(header[32..40]),
          payload)
  }

  /** The first failing check on a header, in the order the reader makes them. */
  function HeaderError(header: seq<Byte>, expected: nat): Option<FrameError>
    requires |header| == HEADER_LENGTH
  {
    var sequence, length := Value(header[12..16]), Value(header[40..44]);
    var objection := Objection(Value(header[8..10]), Value(header[10..12]), length);
    if header[0..4] != MAGIC then Some(BadMagic)
    else if Value(header[4..6]) != PROTOCOL_VERSION then Some(BadVersion)
    else if Value(header[6..8]) != HEADER_LENGTH then Some(BadHeaderLength)
    else if sequence != expected then Some(if sequence < expected then DuplicateSequence else OutOfOrderSequence)
    else if objection.Some? && objection.value !in {InvalidCreditLength, InvalidCancelLength} then objection
    else if Value(header[44..48]) != 0 then Some(NonzeroReserved)
    else objection
  }

  /** The version and the header length that a header has to announce, and its reserved field. */
  predicate OpensFrame(header: seq<Byte>)
    requires |header| == 64
  {
    header[0..4] == [0x43, 0x58, 0x50, 0x34] && Value(header[4..6]) == 1 && Value(header[6..8]) == 64
  }

  /** Which check on a header fails first: magic, version, length, number, kind, flags, size, reserved, and the rest. */
  lemma HeaderFaults(header: seq<Byte>, expected: nat)
    requires |header| == 64
    ensures var e := HeaderError(header, expected);
            var sequence, kind, flags := Value(header[12..16]), Value(header[8..10]), Value(header[10..12]);
            var length, reserved := Value(header[40..44]), Value(header[44..48]);
            var objection := Objection(kind, flags, length);
            var late := objection == Some(InvalidCreditLength) || objection == Some(InvalidCancelLength);
            && (e == Some(BadMagic) <==> header[0..4] != [0x43, 0x58, 0x50, 0x34])
            && (e == Some(BadVersion) <==> header[0..4] == [0x43, 0x58, 0x50, 0x34] && Value(header[4..6]) != 1)
            && (e == Some(BadHeaderLength) <==> header[0..4] == [0x43, 0x58, 0x50, 0x34] && Value(header[4..6]) == 1
                                                && Value(header[6..8]) != 64)
            && (e == Some(DuplicateSequence) <==> OpensFrame(header) && sequence < expected)
            && (e == Some(OutOfOrderSequence) <==> OpensFrame(header) && sequence > expected)
            && (e == Some(NonzeroReserved) <==>
                OpensFrame(header) && sequence == expected && (objection.None? || late) && reserved != 0)
            && (OpensFrame(header) && sequence == expected && (reserved == 0 || (objection.Some? && !late)) ==>
                e == objection)
  {
  }

  /** One frame at the front of the data; None at a clean end. */
  function Decode(mac: Mac, data: seq<Byte>, expected: nat): (r: Result<Option<(Frame, seq<Byte>)>, FrameError>)
    ensures r.Ok? && r.value.Some? ==> |r.value.value.1| < |data|
  {
    if data == [] then Ok(None)
    else if |data| < HEADER_LENGTH then Err(TruncatedFrame)
    else
      var header := data[..HEADER_LENGTH];
      var error := HeaderError(header, expected);
      if error.Some? then Err(error.value)
      else
        var end := HEADER_LENGTH + Value(header[40..44]);
        if |data| < end then Err(TruncatedFrame)
        else
          var payload := data[HEADER_LENGTH..end];
          if Tag(mac, header[..TAG_OFFSET] + payload) != header[TAG_OFFSET..] then Err(BadAuthTag)
          else Ok(Some((FrameOf(header, payload), data[end..])))
  }

  lemma PartsOf(a: seq<Byte>, b: seq<Byte>, c: seq<Byte>, d: seq<Byte>, e: seq<Byte>,
                f: seq<Byte>, g: seq<Byte>, h: seq<Byte>, i: seq<Byte>, j: seq<Byte>, s: seq<Byte>)
    requires |a| == 4 && |b| == 2 && |c| == 2 && |d| == 2 && |e| == 2 && |f| == 4 && |g| == 16 && |h| == 8 && |i| == 4
             && |j| == 4
    requires s == a + b + c + d + e + f + g + h + i + j
    ensures |s| == 48
    ensures s[0..4] == a && s[4..6] == b && s[6..8] == c && s[8..10] == d && s[10..12] == e
    ensures s[12..16] == f && s[16..32] == g && s[32..40] == h && s[40..44] == i && s[44..48] == j
  {
    var s5 := a + b + c + d + e;
    assert s == s5 + (f + g + h + i + j);
    assert s[0..4] == a && s[4..6] == b && s[6..8] == c && s[8..10] == d && s[10..12] == e;
  }

  lemma WholeOf(s: seq<Byte>)
    requires |s| == 48
    ensures s == s[0..4] + s[4..6] + s[6..8] + s[8..10] + s[10..12] + s[12..16] + s[16..32] + s[32..40] + s[40..44]
            + s[44..48]
  {
    assert s[0..4] + s[4..6] == s[0..6];
    assert s[0..6] + s[6..8] == s[0..8];
    assert s[0..8] + s[8..10] == s[0..10];
    assert s[0..10] + s[10..12] == s[0..12];
    assert s[0..12] + s[12..16] == s[0..16];
    assert s[0..16] + s[16..32] == s[0..32];
    assert s[0..32] + s[32..40] == s[0..40];
    assert s[0..40] + s[40..44] == s[0..44];
  }

  /** A written header reads back field by field. */
  lemma PrefixFields(f: Frame, header: seq<Byte>)
    requires Legal(f) && |header| == HEADER_LENGTH && header[..TAG_OFFSET] == Prefix(f)
    ensures HeaderError(header, f.sequence) == None
    ensures Value(header[40..44]) == |f.payload|
    ensures FrameOf(header, f.payload) == f
  {
    var s := Prefix(f);
    PrefixParts(f);
    assert header[0..4] == s[0..4] && header[4..6] == s[4..6] && header[6..8] == s[6..8] && header[8..10] == s[8..10];
    assert header[10..12] == s[10..12] && header[12..16] == s[12..16] && header[16..32] == s[16..32];
    assert header[32..40] == s[32..40] && header[40..44] == s[40..44] && header[44..48] == s[44..48];
    hide Prefix;
    hide LittleEndian;
    hide Value;
    LegalValues(f);
  }

  lemma PrefixParts(f: Frame)
    requires |f.requestId| == 16
    ensures var s := Prefix(f);
            && |s| == TAG_OFFSET
            && s[0..4] == MAGIC && s[4..6] == LittleEndian(2, PROTOCOL_VERSION)
               && s[6..8] == LittleEndian(2, HEADER_LENGTH)
            && s[8..10] == LittleEndian(2, f.kind) && s[10..12] == LittleEndian(2, f.flags)
            && s[12..16] == LittleEndian(4, f.sequence) && s[16..32] == f.requestId
               && s[32..40] == LittleEndian(8, f.generation)
            && s[40..44] == LittleEndian(4, |f.payload|) && s[44..48] == LittleEndian(4, 0)
  {
    hide LittleEndian;
    PartsOf(MAGIC, LittleEndian(2, PROTOCOL_VERSION), LittleEndian(2, HEADER_LENGTH), LittleEndian(2, f.kind),
            LittleEndian(2, f.flags),
            LittleEndian(4, f.sequence), f.requestId, LittleEndian(8, f.generation), LittleEndian(4, |f.payload|),
            LittleEndian(4, 0),
            Prefix(f));
  }

  lemma LegalValues(f: Frame)
    requires Legal(f)
    ensures Value(LittleEndian(2, PROTOCOL_VERSION)) == PROTOCOL_VERSION
            && Value(LittleEndian(2, HEADER_LENGTH)) == HEADER_LENGTH
    ensures Value(LittleEndian(2, f.kind)) == f.kind && Value(LittleEndian(2, f.flags)) == f.flags
    ensures Value(LittleEndian(4, f.sequence)) == f.sequence && Value(LittleEndian(8, f.generation)) == f.generation
    ensures Value(LittleEndian(4, |f.payload|)) == |f.payload| && Value(LittleEndian(4, 0)) == 0
  {
    Pow256Values();
    hide Pow256;
    hide LittleEndian;
    hide Value;
    ValueOfLittleEndian(2, PROTOCOL_VERSION);
    ValueOfLittleEndian(2, HEADER_LENGTH);
    ValueOfLittleEndian(2, f.kind);
    ValueOfLittleEndian(2, f.flags);
    ValueOfLittleEndian(4, f.sequence);
    ValueOfLittleEndian(8, f.generation);
    ValueOfLittleEndian(4, |f.payload|);
    ValueOfLittleEndian(4, 0);
  }

  /** An accepted header is the one the writer would write. */
  lemma AcceptedPrefix(header: seq<Byte>, payload: seq<Byte>, expected: nat)
    requires |header| == HEADER_LENGTH && HeaderError(header, expected).None? && Value(header[40..44]) == |payload|
    ensures Legal(FrameOf(header, payload)) && FrameOf(header, payload).sequence == expected
    ensures Prefix(FrameOf(header, payload)) == header[..TAG_OFFSET]
  {
    hide LittleEndian;
    hide Value;
    var s := header[..TAG_OFFSET];
    assert header[0..4] == s[0..4] && header[4..6] == s[4..6] && header[6..8] == s[6..8] && header[8..10] == s[8..10];
    assert header[10..12] == s[10..12] && header[12..16] == s[12..16] && header[16..32] == s[16..32];
    assert header[32..40] == s[32..40] && header[40..44] == s[40..44] && header[44..48] == s[44..48];
    WholeOf(s);
    LittleEndianOfValue(s[4..6]);
    LittleEndianOfValue(s[6..8]);
    LittleEndianOfValue(s[8..10]);
    LittleEndianOfValue(s[10..12]);
    LittleEndianOfValue(s[12..16]);
    LittleEndianOfValue(s[32..40]);
    LittleEndianOfValue(s[40..44]);
    LittleEndianOfValue(s[44..48]);
    Pow256Values();
  }

  /**
   * A frame is read if and only if it is legal, carries the expected sequence, and its bytes are exactly the written
   * ones.
   */
  lemma DecodeIsExact(mac: Mac, data: seq<Byte>, expected: nat, f: Frame, rest: seq<Byte>)
    ensures Decode(mac, data, expected) == Ok(Some((f, rest)))
            <==> Legal(f) && f.sequence == expected && data == Encode(mac, f) + rest
  {
    if Legal(f) && f.sequence == expected && data == Encode(mac, f) + rest {
      WrittenIsRead(mac, f, rest);
    }
    if Decode(mac, data, expected) == Ok(Some((f, rest))) {
      ReadWasWritten(mac, data, expected);
    }
  }

  lemma WrittenIsRead(mac: Mac, f: Frame, rest: seq<Byte>)
    requires Legal(f)
    ensures Decode(mac, Encode(mac, f) + rest, f.sequence) == Ok(Some((f, rest)))
  {
    hide Value;
    hide HeaderError;
    hide FrameOf;
    var prefix := Prefix(f);
    PrefixParts(f);
    hide Prefix;
    var tag := Tag(mac, prefix + f.payload);
    var data := prefix + tag + f.payload + rest;
    var header := data[..HEADER_LENGTH];
    assert header == prefix + tag;
    assert header[..TAG_OFFSET] == prefix && header[TAG_OFFSET..] == tag;
    PrefixFields(f, header);
    var end := HEADER_LENGTH + |f.payload|;
    assert data[HEADER_LENGTH..end] == f.payload && data[end..] == rest;
  }

  lemma ReadWasWritten(mac: Mac, data: seq<Byte>, expected: nat)
    requires Decode(mac, data, expected).Ok? && Decode(mac, data, expected).value.Some?
    ensures var (f, rest) := Decode(mac, data, expected).value.value;
            Legal(f) && f.sequence == expected && data == Encode(mac, f) + rest
  {
    hide Value;
    hide HeaderError;
    hide FrameOf;
    hide Prefix;
    hide Legal;
    var header := data[..HEADER_LENGTH];
    var end := HEADER_LENGTH + Value(header[40..44]);
    var payload := data[HEADER_LENGTH..end];
    PayloadOf(header, payload);
    AcceptedPrefix(header, payload, expected);
    assert header == header[..TAG_OFFSET] + header[TAG_OFFSET..];
    assert data == header + payload + data[end..];
  }

  /**
   * Behind a faultless header the frame is read exactly when its payload is there and the first sixteen bytes of the
   * digest of the header's first 48 bytes and the payload are those the header ends with.
   */
  lemma TagDecides(mac: Mac, data: seq<Byte>, expected: nat)
    requires |data| >= 64 && HeaderError(data[..64], expected).None?
    ensures var end := 64 + Value(data[40..44]);
            && (Decode(mac, data, expected) == Err(TruncatedFrame) <==> |data| < end)
            && (|data| >= end ==>
                (Decode(mac, data, expected) == Err(BadAuthTag) <==>
                 data[48..64] != mac(data[..48] + data[64..end])[..16])
                && (Decode(mac, data, expected).Ok? <==>
                    data[48..64] == mac(data[..48] + data[64..end])[..16]))
  {
    hide Value, HeaderError, FrameOf;
    var header := data[..64];
    assert header[40..44] == data[40..44] && header[..48] == data[..48] && header[48..] == data[48..64];
  }

  lemma PayloadOf(header: seq<Byte>, payload: seq<Byte>)
    requires |header| == HEADER_LENGTH
    ensures FrameOf(header, payload).payload == payload
  {
  }

  // ----- the writer

  /** Copying a field into the header, everything else left alone. */
  method PutField(header: array<Byte>, offset: nat, bytes: seq<Byte>)
    requires offset + |bytes| <= header.Length
    modifies header
    ensures header[..offset + |bytes|] == old(header[..offset]) + bytes
    ensures forall k :: offset + |bytes| <= k < header.Length ==> header[k] == old(header[k])
  {
    for i := 0 to |bytes|
      invariant header[..offset + i] == old(header[..offset]) + bytes[..i]
      invariant forall k :: offset + i <= k < header.Length ==> header[k] == old(header[k])
    {
      header[offset + i] := bytes[i];
    }
  }

  method BuildPrefix(header: array<Byte>, f: Frame)
    requires header.Length == HEADER_LENGTH && |f.requestId| == 16 && forall k :: 44 <= k < 48 ==> header[k] == 0
    modifies header
    ensures header[..TAG_OFFSET] == Prefix(f)
  {
    hide LittleEndian;
    hide Prefix;
    PutField(header, 0, MAGIC);
    assert header[..4] == MAGIC;
    PutField(header, 4, LittleEndian(2, PROTOCOL_VERSION));
    PutField(header, 6, LittleEndian(2, HEADER_LENGTH));
    PutField(header, 8, LittleEndian(2, f.kind));
    PutField(header, 10, LittleEndian(2, f.flags));
    PutField(header, 12, LittleEndian(4, f.sequence));
    PutField(header, 16, f.requestId);
    PutField(header, 32, LittleEndian(8, f.generation));
    PutField(header, 40, LittleEndian(4, |f.payload|));
    ZeroField();
    assert header[..48] == header[..44] + LittleEndian(4, 0);
    PrefixIs(f);
  }

  lemma PrefixIs(f: Frame)
    ensures Prefix(f)
            == MAGIC + LittleEndian(2, PROTOCOL_VERSION) + LittleEndian(2, HEADER_LENGTH) + LittleEndian(2, f.kind)
                         + LittleEndian(2, f.flags) + LittleEndian(4, f.sequence) + f.requestId
                         + LittleEndian(8, f.generation)
                         + LittleEndian(4, |f.payload|) + LittleEndian(4, 0)
  {
  }

  /** The writer: the header is filled in place, tagged, and written before the payload. */
  method WriteFrame(output: OutputStream, mac: Mac, f: Frame) returns (error: Option<FrameError>)
    requires |f.requestId| == 16
    modifies output
    ensures error == if |f.payload| <= 65536 then None else Some(FrameTooLarge)
    ensures output.written == old(output.written) + if error.None? then Encode(mac, f) else []
  {
    hide Prefix;
    if |f.payload| > MAX_PAYLOAD { return Some(FrameTooLarge); }
    var header := new Byte[HEADER_LENGTH](_ => 0);
    BuildPrefix(header, f);
    PutField(header, TAG_OFFSET, Tag(mac, header[..TAG_OFFSET] + f.payload));
    assert header[..] == Prefix(f) + Tag(mac, Prefix(f) + f.payload);
    output.Write(header[..]);
    if |f.payload| > 0 { output.Write(f.payload); }
    return None;
  }

  lemma ZeroField()
    ensures LittleEndian(4, 0) == [0, 0, 0, 0]
  {
    assert LittleEndian(2, 0) == [0, 0];
  }

  // ----- the reader

  /** Exactly length bytes, over as many short reads as it takes; None at a clean end where that is allowed. */
  method ReadExact(stream: InputStream, length: nat, allowCleanEof: bool)
    returns (r: Result<Option<seq<Byte>>, FrameError>)
    requires stream.Valid()
    modifies stream
    ensures stream.Valid()
    ensures var left := old(stream.Left());
            if |left| >= length then r == Ok(Some(left[..length])) && stream.Left() == left[length..]
            else if left == [] && allowCleanEof then r == Ok(None) && stream.Left() == []
            else r == Err(TruncatedFrame)
  {
    var result := new Byte[length];
    var offset := 0;
    ghost var left := stream.Left();
    while offset < length
      invariant offset <= length && offset <= |left|
      invariant stream.Valid() && stream.Left() == left[offset..]
      invariant result[..offset] == left[..offset]
      decreases length - offset
    {
      ghost var before := result[..offset];
      var read := stream.Read(result, offset, length - offset);
      if read == 0 {
        if offset == 0 && allowCleanEof { return Ok(None); }
        return Err(TruncatedFrame);
      }
      assert result[..offset + read] == before + left[offset..][..read];
      assert left[offset..][read..] == left[offset + read..];
      offset := offset + read;
    }
    assert result[..] == result[..length];
    return Ok(Some(result[..]));
  }

  /** The reader: header first, every header check before the payload is read, the tag last. */
  method ReadFrame(stream: InputStream, mac: Mac, expected: nat) returns (r: Result<Option<Frame>, FrameError>)
    requires stream.Valid()
    modifies stream
    ensures stream.Valid()
    ensures match Decode(mac, old(stream.Left()), expected)
            case Err(e) => r == Err(e)
            case Ok(None) => r == Ok(None) && stream.Left() == []
            case Ok(Some((f, rest))) => r == Ok(Some(f)) && stream.Left() == rest
  {
    hide Value;
    hide HeaderError;
    hide FrameOf;
    ghost var data := stream.Left();
    var head := ReadExact(stream, HEADER_LENGTH, true);
    if head.Err? { return Err(head.error); }
    if head.value.None? { return Ok(None); }
    var header := head.value.value;
    var error := HeaderError(header, expected);
    if error.Some? { return Err(error.value); }
    var length := Value(header[40..44]);
    var body := ReadExact(stream, length, false);
    if body.Err? { return Err(body.error); }
    var payload := body.value.value;
    ghost var end := HEADER_LENGTH + length;
    assert data[HEADER_LENGTH..][..length] == data[HEADER_LENGTH..end];
    assert data[HEADER_LENGTH..][length..] == data[end..];
    if Tag(mac, header[..TAG_OFFSET] + payload) != header[TAG_OFFSET..] { return Err(BadAuthTag); }
    return Ok(Some(FrameOf(header, payload)));
  }

  // ----- sequences of frames

  function EncodeAll(mac: Mac, frames: seq<Frame>): seq<Byte> {
    if frames == [] then [] else Encode(mac, frames[0]) + EncodeAll(mac, frames[1..])
  }

  /** Numbered from first on, one by one, leaving a next number to use. */
  predicate Consecutive(frames: seq<Frame>, first: nat) {
    if frames == [] then true
    else Legal(frames[0]) && frames[0].sequence == first < 0xFFFF_FFFF && Consecutive(frames[1..], first + 1)
  }

  /** Frames until a clean end or the first error; the number after the last one is an error too. */
  function ReadAll(mac: Mac, data: seq<Byte>, next: nat): (seq<Frame>, Option<FrameError>)
    decreases |data|
  {
    match Decode(mac, data, next)
    case Err(e) => ([], Some(e))
    case Ok(None) => ([], None)
    case Ok(Some((f, rest))) =>
      if next >= 0xFFFF_FFFF then ([], Some(SequenceExhausted))
      else
        var (frames, error) := ReadAll(mac, rest, next + 1);
        ([f] + frames, error)
  }

  /** What was written is read, however the stream splits it. */
  lemma {:induction false} FramesReadBack(mac: Mac, frames: seq<Frame>, first: nat)
    requires Consecutive(frames, first)
    ensures ReadAll(mac, EncodeAll(mac, frames), first) == (frames, None)
    decreases |frames|
  {
    hide Decode;
    hide Encode;
    hide Legal;
    if frames == [] {
      NothingToDecode(mac, first);
    } else {
      var rest := EncodeAll(mac, frames[1..]);
      DecodeIsExact(mac, EncodeAll(mac, frames), first, frames[0], rest);
      FramesReadBack(mac, frames[1..], first + 1);
      assert [frames[0]] + frames[1..] == frames;
    }
  }

  lemma NothingToDecode(mac: Mac, expected: nat)
    ensures Decode(mac, [], expected) == Ok(None)
  {
  }

  lemma NothingLeft(mac: Mac, data: seq<Byte>, expected: nat)
    ensures Decode(mac, data, expected) == Ok(None) ==> data == []
  {
  }

  /**
   * The frames accepted are consecutive and are a prefix of the data; reading stops at the first frame that is not
   * next.
   */
  lemma {:induction false} OnlyConsecutiveFrames(mac: Mac, data: seq<Byte>, first: nat)
    ensures Consecutive(ReadAll(mac, data, first).0, first)
    ensures EncodeAll(mac, ReadAll(mac, data, first).0) <= data
    ensures ReadAll(mac, data, first).1 == None ==> EncodeAll(mac, ReadAll(mac, data, first).0) == data
    decreases |data|
  {
    NothingLeft(mac, data, first);
    hide Encode, Legal, Decode;
    var step := Decode(mac, data, first);
    if step.Ok? && step.value.Some? && first < 0xFFFF_FFFF {
      var (f, rest) := step.value.value;
      assert Legal(f) && f.sequence == first
             && data == Encode(mac, f) + rest by { DecodeIsExact(mac, data, first, f, rest); }
      OnlyConsecutiveFrames(mac, rest, first + 1);
      var frames := ReadAll(mac, rest, first + 1).0;
      assert ([f] + frames)[1..] == frames;
    }
  }

  /** How many of these frames are numbered from first on, one by one, leaving a next number to use. */
  function InOrder(frames: seq<Frame>, first: nat): (n: nat)
    ensures n <= |frames|
  {
    if frames == [] || frames[0].sequence != first || first >= 0xFFFF_FFFF then 0
      else 1 + InOrder(frames[1..], first + 1)
  }

  /** The run in order cannot be extended. */
  lemma {:induction false} InOrderIsLongest(frames: seq<Frame>, first: nat)
    requires forall f :: f in frames ==> Legal(f)
    ensures var n := InOrder(frames, first);
            && Consecutive(frames[..n], first)
            && (n < |frames| ==> frames[n].sequence != first + n || first + n >= 0xFFFF_FFFF)
  {
    hide Legal;
    var n := InOrder(frames, first);
    if n > 0 {
      InOrderIsLongest(frames[1..], first + 1);
      assert frames[..n][1..] == frames[1..][..n - 1];
    }
  }

  /**
   * What ends the reading behind the run in order: nothing, a number used before, one still to come, or no next number.
   */
  function WhyStopped(frames: seq<Frame>, first: nat): Option<FrameError> {
    var n := InOrder(frames, first);
    if n == |frames| then None
    else if frames[n].sequence < first + n then Some(DuplicateSequence)
    else if frames[n].sequence > first + n then Some(OutOfOrderSequence)
    else Some(SequenceExhausted)
  }

  /** A legal frame under another number than the expected one is refused, by comparison of the two. */
  lemma MisnumberedIsRefused(mac: Mac, f: Frame, rest: seq<Byte>, expected: nat)
    requires Legal(f) && f.sequence != expected
    ensures Decode(mac, Encode(mac, f) + rest, expected)
         == Err(if f.sequence < expected then DuplicateSequence else OutOfOrderSequence)
  {
    WrittenIsRead(mac, f, rest);
    hide Encode, Legal, Tag, Objection;
  }

  /**
   * Of legal frames under any numbers the longest run in order is read, and the first frame behind it says why no more.
   */
  lemma {:induction false} ReadStopsAtTheGap(mac: Mac, frames: seq<Frame>, first: nat)
    requires first < 0x1_0000_0000 && forall f :: f in frames ==> Legal(f)
    ensures ReadAll(mac, EncodeAll(mac, frames), first) == (frames[..InOrder(frames, first)], WhyStopped(frames, first))
    decreases |frames|
  {
    hide Decode, Encode, Legal;
    if frames == [] {
      NothingToDecode(mac, first);
    } else {
      var rest := EncodeAll(mac, frames[1..]);
      assert frames[0] in frames;
      if frames[0].sequence != first {
        MisnumberedIsRefused(mac, frames[0], rest, first);
      } else {
        DecodeIsExact(mac, EncodeAll(mac, frames), first, frames[0], rest);
        if first < 0xFFFF_FFFF {
          var n := InOrder(frames[1..], first + 1);
          ReadStopsAtTheGap(mac, frames[1..], first + 1);
          assert [frames[0]] + frames[1..][..n] == frames[..n + 1];
        }
      }
    }
  }

  /** The receive loop. */
  method ReadFrames(stream: InputStream, mac: Mac, first: nat) returns (frames: seq<Frame>, error: Option<FrameError>)
    requires stream.Valid() && first < 0x1_0000_0000
    modifies stream
    ensures (frames, error) == ReadAll(mac, old(stream.Left()), first)
  {
    hide Decode;
    frames := [];
    var sequence := first;
    ghost var goal := ReadAll(mac, stream.Left(), first);
    assert frames + goal.0 == goal.0;
    while true
      invariant stream.Valid() && sequence < 0x1_0000_0000
      invariant goal == (frames + ReadAll(mac, stream.Left(), sequence).0, ReadAll(mac, stream.Left(), sequence).1)
      decreases |stream.Left()|
    {
      ghost var data := stream.Left();
      assert frames + [] == frames;
      var r := ReadFrame(stream, mac, sequence);
      if r.Err? { return frames, Some(r.error); }
      if r.value.None? { return frames, None; }
      if sequence == 0xFFFF_FFFF { return frames, Some(SequenceExhausted); }
      sequence := sequence + 1;
      ghost var more := ReadAll(mac, stream.Left(), sequence).0;
      assert frames + ([r.value.value] + more) == (frames + [r.value.value]) + more;
      frames := frames + [r.value.value];
    }
  }
}
