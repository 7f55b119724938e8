/** Git's C-style quoting of paths, and the decoder that undoes it. */
module GitPath {
  import opened Results
  import opened Streams

  // ----- UTF-8, by section 3 of RFC 3629

  predicate IsScalar(n: int) {
    0 <= n < 0xD800 || 0xE000 <= n < 0x11_0000
  }

  function EncodeChar(c: char): (r: seq<Byte>)
    ensures 1 <= |r| <= 4
  {
    var n := c as int;
    if n < 0x80 then [n]
    else if n < 0x800 then [0xC0 + n / 64, 0x80 + n % 64]
    else if n < 0x1_0000 then [0xE0 + n / 4096, 0x80 + n / 64 % 64, 0x80 + n % 64]
    else [0xF0 + n / 262144, 0x80 + n / 4096 % 64, 0x80 + n / 64 % 64, 0x80 + n % 64]
  }

  function Encode(s: string): seq<Byte> {
    if s == "" then [] else EncodeChar(s[0]) + Encode(s[1..])
  }

  /** How many bytes the first one announces. */
  function Width(first: Byte): (n: nat)
    ensures 1 <= n <= 4
  {
    if first < 0xC0 then 1 else if first < 0xE0 then 2 else if first < 0xF0 then 3 else 4
  }

  /** The number spread over the first bytes of a sequence of the given width. */
  function Gather(bytes: seq<int>, width: nat): int
    requires 1 <= width <= 4 && width <= |bytes|
  {
    if width == 1 then bytes[0]
    else if width == 2 then 64 * (bytes[0] - 0xC0) + (bytes[1] - 0x80)
    else if width == 3 then 4096 * (bytes[0] - 0xE0) + 64 * (bytes[1] - 0x80) + (bytes[2] - 0x80)
    else 262144 * (bytes[0] - 0xF0) + 4096 * (bytes[1] - 0x80) + 64 * (bytes[2] - 0x80) + (bytes[3] - 0x80)
  }

  /** The first character, if writing it again gives the very same bytes. */
  function DecodeFirst(bytes: seq<Byte>): Option<char>
    requires bytes != []
  {
    var width := Width(bytes[0]);
    if width > |bytes| || !IsScalar(Gather(bytes, width)) then None
    else
      var c := Gather(bytes, width) as char;
      if EncodeChar(c) <= bytes then Some(c) else None
  }

  /** Strict decoding: the text that encodes to exactly these bytes, if there is one. */
  function Decode(bytes: seq<Byte>): Option<string> {
    if bytes == [] then Some("")
    else match DecodeFirst(bytes)
      case None => None
      case Some(c) =>
        match Decode(bytes[|EncodeChar(c)|..])
        case None => None
        case Some(rest) => Some([c] + rest)
  }

  lemma FirstOfEncoded(c: char, rest: seq<Byte>)
    ensures DecodeFirst(EncodeChar(c) + rest) == Some(c)
  {
    var bytes, n := EncodeChar(c), c as int;
    var all := bytes + rest;
    assert all[0] == bytes[0] && Width(all[0]) == |bytes|;
    assert Gather(all, |bytes|) == Gather(bytes, |bytes|);
    GatherEncoded(c);
  }

  lemma GatherEncoded(c: char)
    ensures Gather(EncodeChar(c), |EncodeChar(c)|) == c as int
  {
    var n := c as int;
    assert n == 64 * (n / 64) + n % 64;
    assert n / 64 == 64 * (n / 4096) + n / 64 % 64;
    assert n / 4096 == 64 * (n / 262144) + n / 4096 % 64;
  }

  /** Decoding gives back exactly the text whose encoding the bytes are, and nothing for other bytes. */
  lemma {:induction false} DecodeIsExact(bytes: seq<Byte>, s: string)
    ensures Decode(bytes) == Some(s) <==> bytes == Encode(s)
    decreases |bytes|, |s|
  {
    hide EncodeChar;
    hide DecodeFirst;
    if s != "" && bytes == Encode(s) {
      FirstOfEncoded(s[0], Encode(s[1..]));
      assert bytes[|EncodeChar(s[0])|..] == Encode(s[1..]);
      DecodeIsExact(bytes[|EncodeChar(s[0])|..], s[1..]);
      assert s == [s[0]] + s[1..];
    }
    if bytes != [] && Decode(bytes) == Some(s) {
      var c := DecodeFirst(bytes).value;
      DecodedIsPrefix(bytes);
      DecodeIsExact(bytes[|EncodeChar(c)|..], s[1..]);
      assert bytes == EncodeChar(c) + bytes[|EncodeChar(c)|..];
    }
  }

  lemma DecodedIsPrefix(bytes: seq<Byte>)
    requires bytes != [] && DecodeFirst(bytes).Some?
    ensures EncodeChar(DecodeFirst(bytes).value) <= bytes
  {
  }

  lemma {:induction false} EncodeAppend(a: string, b: string)
    ensures Encode(a + b) == Encode(a) + Encode(b)
  {
    hide EncodeChar;
    if a == "" {
      assert a + b == b;
    } else {
      EncodeAppend(a[1..], b);
      assert (a + b)[0] == a[0] && (a + b)[1..] == a[1..] + b;
    }
  }

  // ----- the decoder

  predicate IsOctal(c: char) {
    '0' <= c <= '7'
  }

  /** Number of octal digits at the front, three at most. */
  function OctalRun(input: string): (n: nat)
    ensures n <= |input| && n <= 3
    ensures forall i :: 0 <= i < n ==> IsOctal(input[i])
  {
    if input == "" || !IsOctal(input[0]) then 0
    else if |input| == 1 || !IsOctal(input[1]) then 1
    else if |input| == 2 || !IsOctal(input[2]) then 2
    else 3
  }

  function OctalValue(digits: string): nat
    requires forall i :: 0 <= i < |digits| ==> IsOctal(digits[i])
  {
    if digits == "" then 0 else 8 * OctalValue(digits[..|digits| - 1]) + OctalDigitValue(digits[|digits| - 1])
  }

  function OctalDigitValue(c: char): nat
    requires IsOctal(c)
  {
    c as int - '0' as int
  }

  /** The character a named escape stands for; any other character stands for itself. */
  function Named(c: char): char {
    match c
    case 'a' => '\U{07}'
    case 'b' => '\U{08}'
    case 'f' => '\U{0C}'
    case 'n' => '\n'
    case 'r' => '\r'
    case 't' => '\t'
    case 'v' => '\U{0B}'
    case _ => c
  }

  /** What is left of the input, behind a run of escaped bytes not yet decoded. */
  function DecodeRest(input: string, pending: seq<Byte>): Option<string> {
    if input == "" then Decode(pending)
    else if input[0] != '\\' then Join(Decode(pending), input[0], DecodeRest(input[1..], []))
    else if |input| == 1 then None
    else
      var n := OctalRun(input[1..]);
      if n > 0 then DecodeRest(input[1 + n..], pending + [OctalValue(input[1..][..n]) % 256])
      else Join(Decode(pending), Named(input[1]), DecodeRest(input[2..], []))
  }

  function Join(flushed: Option<string>, c: char, rest: Option<string>): Option<string> {
    if flushed.None? || rest.None? then None else Some(flushed.value + [c] + rest.value)
  }

  function Prepend(done: string, rest: Option<string>): Option<string> {
    if rest.None? then None else Some(done + rest.value)
  }

  /** Flushing the escaped bytes onto the decoded text. */
  method Flush(decoded: string, pending: seq<Byte>) returns (r: Option<string>)
    ensures r == Prepend(decoded, Decode(pending))
  {
    if pending == [] {
      assert decoded + "" == decoded;
      return Some(decoded);
    }
    var value := Decode(pending);
    return if value.None? then None else Some(decoded + value.value);
  }

  /** The decoding loop; None where it throws. */
  method DecodeGitQuotedPath(input: string) returns (r: Option<string>)
    ensures r == DecodeRest(input, [])
  {
    hide Decode;
    hide OctalValue;
    var decoded := "";
    var escapedBytes: seq<Byte> := [];
    var index := 0;
    ghost var goal := DecodeRest(input, []);
    assert input[0..] == input;
    if goal.Some? { assert "" + goal.value == goal.value; }
    while index < |input|
      invariant index <= |input|
      invariant goal == Prepend(decoded, DecodeRest(input[index..], escapedBytes))
    {
      ghost var rest := input[index..];
      var c := input[index];
      assert rest[0] == c && rest[1..] == input[index + 1..];
      if c != '\\' {
        PrependJoin(decoded, escapedBytes, c, input[index + 1..]);
        var flushed := Flush(decoded, escapedBytes);
        if flushed.None? { return None; }
        decoded := flushed.value + [c];
        escapedBytes := [];
        index := index + 1;
        continue;
      }
      index := index + 1;
      if index == |input| { return None; }
      var escaped := input[index];
      if IsOctal(escaped) {
        var octal := ReadOctal(input, index);
        assert rest[1..] == input[index..];
        assert rest[1 + |octal|..] == input[index + |octal|..];
        escapedBytes := escapedBytes + [OctalValue(octal) % 256];
        index := index + |octal| - 1;
      } else {
        assert rest[2..] == input[index + 1..];
        PrependJoin(decoded, escapedBytes, Named(escaped), input[index + 1..]);
        var flushed := Flush(decoded, escapedBytes);
        if flushed.None? { return None; }
        decoded := flushed.value + [Named(escaped)];
        escapedBytes := [];
      }
      index := index + 1;
    }
    assert input[index..] == "";
    r := Flush(decoded, escapedBytes);
  }

  /** One to three octal digits. */
  method ReadOctal(input: string, start: nat) returns (octal: string)
    requires start < |input| && IsOctal(input[start])
    ensures octal == input[start..][..OctalRun(input[start..])] && octal != ""
  {
    octal := [input[start]];
    var index := start;
    var count := 0;
    while count < 2 && index + 1 < |input| && IsOctal(input[index + 1])
      invariant 0 <= count <= 2 && index == start + count < |input|
      invariant octal == input[start..index + 1]
      invariant OctalRun(input[start..]) >= count + 1
    {
      count := count + 1;
      index := index + 1;
      octal := octal + [input[index]];
    }
    assert OctalRun(input[start..]) == count + 1;
    assert input[start..][..count + 1] == octal;
  }

  lemma PrependJoin(decoded: string, pending: seq<Byte>, c: char, rest: string)
    ensures Prepend(decoded, Join(Decode(pending), c, DecodeRest(rest, []))) ==
            match Prepend(decoded, Decode(pending))
            case None => None
            case Some(flushed) => Prepend(flushed + [c], DecodeRest(rest, []))
  {
    hide Decode;
    hide DecodeRest;
    var a, b := Decode(pending), DecodeRest(rest, []);
    if a.Some? && b.Some? { assert decoded + (a.value + [c] + b.value) == decoded + a.value + [c] + b.value; }
  }

  // ----- Git's quoting

  function OctalDigit(n: nat): char
    requires n < 8
  {
    "01234567"[n]
  }

  function OctalDigits(b: Byte): (digits: string)
    ensures |digits| == 3
  {
    [OctalDigit(b / 64), OctalDigit(b / 8 % 8), OctalDigit(b % 8)]
  }

  /** A byte as a backslash and three octal digits. */
  function OctalEscape(b: Byte): string {
    ['\\'] + OctalDigits(b)
  }

  function OctalEscapes(bytes: seq<Byte>): string {
    if bytes == [] then "" else OctalEscape(bytes[0]) + OctalEscapes(bytes[1..])
  }

  /**
   * One character quoted: named escapes, octal for other controls, and octal for everything beyond ASCII when asked to.
   */
  function QuoteChar(c: char, quoteAll: bool): string {
    match c
    case '\U{07}' => "\\a"
    case '\U{08}' => "\\b"
    case '\U{0C}' => "\\f"
    case '\n' => "\\n"
    case '\r' => "\\r"
    case '\t' => "\\t"
    case '\U{0B}' => "\\v"
    case '"' => "\\\""
    case '\\' => "\\\\"
    case _ =>
      if c < ' ' || c == '\U{7F}' || (quoteAll && c >= '\U{80}') then OctalEscapes(EncodeChar(c)) else [c]
  }

  function Quote(path: string, quoteAll: bool): string {
    if path == "" then "" else QuoteChar(path[0], quoteAll) + Quote(path[1..], quoteAll)
  }

  lemma OctalEscapeRead(b: Byte, rest: string, pending: seq<Byte>)
    ensures DecodeRest(OctalEscape(b) + rest, pending) == DecodeRest(rest, pending + [b])
  {
    hide OctalDigits, OctalRun, OctalValue, Decode, Join, DecodeRest;
    OctalDigitsValue(b);
    OctalDigitsRun(b, rest);
    assert OctalEscape(b) + rest == ['\\'] + (OctalDigits(b) + rest);
    ThreeDigitsRead(OctalDigits(b), rest, pending);
  }

  lemma ThreeDigitsRead(digits: string, rest: string, pending: seq<Byte>)
    requires |digits| == 3 && OctalRun(digits + rest) == 3 && forall i :: 0 <= i < 3 ==> IsOctal(digits[i])
    ensures DecodeRest(['\\'] + (digits + rest), pending) == DecodeRest(rest, pending + [OctalValue(digits) % 256])
  {
    hide OctalRun, OctalValue, Decode, Join;
    var text := ['\\'] + (digits + rest);
    assert text[1..] == digits + rest && text[4..] == rest;
    assert text[1..][..3] == digits;
  }

  lemma OctalDigitsRun(b: Byte, rest: string)
    ensures OctalRun(OctalDigits(b) + rest) == 3
  {
    var text := OctalDigits(b) + rest;
    IsOctalDigit(b / 64);
    IsOctalDigit(b / 8 % 8);
    IsOctalDigit(b % 8);
    hide OctalDigit;
    assert text[0] == OctalDigits(b)[0] && text[1] == OctalDigits(b)[1] && text[2] == OctalDigits(b)[2];
  }

  lemma IsOctalDigit(d: nat)
    requires d < 8
    ensures IsOctal(OctalDigit(d)) && OctalDigitValue(OctalDigit(d)) == d
  {
  }

  lemma OctalDigitsValue(b: Byte)
    ensures forall i :: 0 <= i < 3 ==> IsOctal(OctalDigits(b)[i])
    ensures OctalValue(OctalDigits(b)) == b
  {
    var x, y, z := b / 64, b / 8 % 8, b % 8;
    hide OctalValue, OctalDigit, IsOctal;
    OctalNothing();
    OneMoreDigit("", x);
    OneMoreDigit([OctalDigit(x)], y);
    OneMoreDigit([OctalDigit(x), OctalDigit(y)], z);
    assert "" + [OctalDigit(x)] == [OctalDigit(x)];
    assert [OctalDigit(x)] + [OctalDigit(y)] == [OctalDigit(x), OctalDigit(y)];
    assert [OctalDigit(x), OctalDigit(y)] + [OctalDigit(z)] == OctalDigits(b);
    ByteDigits(b);
  }

  lemma ByteDigits(b: Byte)
    ensures 8 * (8 * (b / 64) + b / 8 % 8) + b % 8 == b
  {
  }

  lemma OctalNothing()
    ensures OctalValue("") == 0
  {
  }

  lemma OneMoreDigit(digits: string, d: nat)
    requires d < 8 && forall i :: 0 <= i < |digits| ==> IsOctal(digits[i])
    ensures IsOctal(OctalDigit(d))
    ensures OctalValue(digits + [OctalDigit(d)]) == 8 * OctalValue(digits) + d
  {
    IsOctalDigit(d);
    hide OctalDigit, IsOctal, OctalDigitValue;
    assert (digits + [OctalDigit(d)])[..|digits|] == digits;
  }

  lemma {:induction false} OctalEscapesRead(bytes: seq<Byte>, rest: string, pending: seq<Byte>)
    ensures DecodeRest(OctalEscapes(bytes) + rest, pending) == DecodeRest(rest, pending + bytes)
    decreases |bytes|
  {
    hide DecodeRest;
    if bytes == [] {
      assert OctalEscapes(bytes) + rest == rest && pending + bytes == pending;
    } else {
      var more := OctalEscapes(bytes[1..]) + rest;
      assert OctalEscapes(bytes) + rest == OctalEscape(bytes[0]) + more;
      OctalEscapeRead(bytes[0], more, pending);
      OctalEscapesRead(bytes[1..], rest, pending + [bytes[0]]);
      assert pending + [bytes[0]] + bytes[1..] == pending + bytes;
    }
  }

  /** Quoted characters are read back one by one, a run of escaped bytes waiting until the run is over. */
  lemma {:induction false} QuoteReadsBack(path: string, quoteAll: bool, before: string)
    ensures DecodeRest(Quote(path, quoteAll), Encode(before)) == Some(before + path)
    decreases |path|
  {
    hide Decode;
    hide Encode;
    hide EncodeChar;
    hide OctalEscapes;
    hide QuoteChar;
    DecodeIsExact(Encode(before), before);
    if path == "" {
      assert before + path == before;
    } else {
      var c, rest := path[0], Quote(path[1..], quoteAll);
      if QuoteChar(c, quoteAll) == OctalEscapes(EncodeChar(c)) {
        OctalEscapesRead(EncodeChar(c), rest, Encode(before));
        EncodeAppend(before, [c]);
        EncodeOne(c);
        QuoteReadsBack(path[1..], quoteAll, before + [c]);
        assert before + [c] + path[1..] == before + path;
      } else {
        QuoteReadsBack(path[1..], quoteAll, "");
        EncodeNothing();
        assert "" + path[1..] == path[1..];
        PlainCharRead(c, quoteAll, rest, Encode(before));
        assert before + [c] + path[1..] == before + path;
      }
    }
  }

  lemma EncodeOne(c: char)
    ensures Encode([c]) == EncodeChar(c)
  {
    assert [c][1..] == "";
  }

  lemma EncodeNothing()
    ensures Encode("") == []
  {
  }

  lemma PlainCharRead(c: char, quoteAll: bool, rest: string, pending: seq<Byte>)
    requires QuoteChar(c, quoteAll) != OctalEscapes(EncodeChar(c))
    ensures DecodeRest(QuoteChar(c, quoteAll) + rest, pending) == Join(Decode(pending), c, DecodeRest(rest, []))
  {
    hide Decode;
    hide EncodeChar;
    hide OctalEscapes;
    var quoted := QuoteChar(c, quoteAll);
    var text := quoted + rest;
    if |quoted| == 1 {
      assert text[0] == c && text[1..] == rest;
    } else {
      assert text[0] == '\\' && text[1] == quoted[1] && text[2..] == rest;
    }
  }

  /** Git's quoting of any path is decoded back to the path, whether or not Git escapes what lies beyond ASCII. */
  lemma GitQuotingInverts(path: string, quoteAll: bool)
    ensures DecodeRest(Quote(path, quoteAll), []) == Some(path)
  {
    hide DecodeRest;
    hide Quote;
    EncodeNothing();
    QuoteReadsBack(path, quoteAll, "");
    assert "" + path == path;
  }
}
