/** The one-pass check of a JSON text for repeated keys, depth, key count and string length, against the JSON tree. */
module JsonScanner {
  import opened CodeUnits
  import opened Results

  datatype JsonError = InvalidJson | StringTooLong | DuplicateKey | TooManyKeys | TooDeep

  /** The limits, and the library's decoding of a quoted literal, which may refuse it. */
  datatype Limits = Limits(maxDepth: nat, maxKeys: nat, maxStringLength: nat, decode: string -> Option<Text>)

  // ----- the scanner

  /** What an open bracket means: an object with the keys seen so far, or an array. */
  datatype Context = InObject(keys: set<Text>) | InArray

  predicate IsWhiteSpace(c: char) {
    || '\t' <= c <= '\r' || c == ' ' || c == '\U{85}' || c == '\U{A0}' || c == '\U{1680}'
       || '\U{2000}' <= c <= '\U{200A}'
    || c == '\U{2028}' || c == '\U{2029}' || c == '\U{202F}' || c == '\U{205F}' || c == '\U{3000}'
  }

  /** Index of the quote that closes a string whose inside starts here, or the length when there is none. */
  function StringEnd(rest: string, escaped: bool): (n: nat)
    ensures n <= |rest|
  {
    if rest == "" || (!escaped && rest[0] == '"') then 0
    else 1 + StringEnd(rest[1..], !escaped && rest[0] == '\\')
  }

  /** The next character that is not white space is a colon. */
  predicate ColonNext(rest: string) {
    rest != "" && if IsWhiteSpace(rest[0]) then ColonNext(rest[1..]) else rest[0] == ':'
  }

  /** A string has been read in front of rest: as a key when a colon follows, as a value otherwise. */
  function AddKey(limits: Limits, value: Text, rest: string, stack: seq<Context>, total: nat)
    : Result<(seq<Context>, nat), JsonError> {
    if !ColonNext(rest) then Ok((stack, total))
    else if stack == [] || !stack[|stack| - 1].InObject? then Err(InvalidJson)
    else if value in stack[|stack| - 1].keys then Err(DuplicateKey)
    else if total + 1 > limits.maxKeys then Err(TooManyKeys)
    else Ok((stack[|stack| - 1 := InObject(stack[|stack| - 1].keys + {value})], total + 1))
  }

  function Scan(limits: Limits, text: string, stack: seq<Context>, total: nat): Result<(), JsonError>
    decreases |text|
  {
    if text == "" then if stack == [] then Ok(()) else Err(InvalidJson)
    else match text[0]
      case '"' =>
        var n := StringEnd(text[1..], false);
        if n == |text| - 1 then Err(InvalidJson)
        else
          var decoded, rest := limits.decode(text[..n + 2]), text[n + 2..];
          if decoded.None? then Err(InvalidJson)
          else if |decoded.value| > limits.maxStringLength then Err(StringTooLong)
          else (match AddKey(limits, decoded.value, rest, stack, total)
                case Err(e) => Err(e)
                case Ok((stack', total')) => Scan(limits, rest, stack', total'))
      case '{' =>
        if |stack| + 1 > limits.maxDepth then Err(TooDeep) else Scan(limits, text[1..], stack + [InObject({})], total)
      case '[' =>
        if |stack| + 1 > limits.maxDepth then Err(TooDeep) else Scan(limits, text[1..], stack + [InArray], total)
      case '}' => if stack == [] || !stack[|stack| - 1].InObject? then Err(InvalidJson)
                  else Scan(limits, text[1..], stack[..|stack| - 1], total)
      case ']' => if stack == [] || stack[|stack| - 1].InObject? then Err(InvalidJson)
                  else Scan(limits, text[1..], stack[..|stack| - 1], total)
      case _ => Scan(limits, text[1..], stack, total)
  }

  /** The scanning loop: one index, a stack of open brackets, and a count of keys. */
  method Validate(limits: Limits, text: string) returns (r: Result<(), JsonError>)
    ensures r == Scan(limits, text, [], 0)
  {
    hide StringEnd, ColonNext;
    var stack: seq<Context> := [];
    var totalKeys := 0;
    var index := 0;
    assert text[0..] == text;
    while index < |text|
      invariant index <= |text|
      invariant Scan(limits, text[index..], stack, totalKeys) == Scan(limits, text, [], 0)
    {
      var current := text[index];
      ghost var rest := text[index..];
      assert rest[0] == current && rest[1..] == text[index + 1..];
      if current == '"' {
        var start := index;
        index := FindStringEnd(text, index + 1);
        ghost var n := index - start - 1;
        if index >= |text| { return Err(InvalidJson); }
        assert rest[..n + 2] == text[start..index + 1] && rest[n + 2..] == text[index + 1..];
        var value := limits.decode(text[start..index + 1]);
        if value.None? { return Err(InvalidJson); }
        if |value.value| > limits.maxStringLength { return Err(StringTooLong); }
        var colon := LookForColon(text, index + 1);
        if colon {
          if stack == [] || !stack[|stack| - 1].InObject? { return Err(InvalidJson); }
          if value.value in stack[|stack| - 1].keys { return Err(DuplicateKey); }
          stack := stack[|stack| - 1 := InObject(stack[|stack| - 1].keys + {value.value})];
          totalKeys := totalKeys + 1;
          if totalKeys > limits.maxKeys { return Err(TooManyKeys); }
        }
      } else if current == '{' {
        stack := stack + [InObject({})];
        if |stack| > limits.maxDepth { return Err(TooDeep); }
      } else if current == '[' {
        stack := stack + [InArray];
        if |stack| > limits.maxDepth { return Err(TooDeep); }
      } else if current == '}' || current == ']' {
        if stack == [] { return Err(InvalidJson); }
        var context := stack[|stack| - 1];
        stack := stack[..|stack| - 1];
        if (current == '}') != context.InObject? { return Err(InvalidJson); }
      }
      index := index + 1;
    }
    return if stack == [] then Ok(()) else Err(InvalidJson);
  }

  method FindStringEnd(text: string, from: nat) returns (index: nat)
    requires from <= |text|
    ensures index == from + StringEnd(text[from..], false)
  {
    var escaped := false;
    index := from;
    while index < |text|
      invariant from <= index <= |text|
      invariant from + StringEnd(text[from..], false) == index + StringEnd(text[index..], escaped)
    {
      var character := text[index];
      assert text[index..][0] == character && text[index..][1..] == text[index + 1..];
      if escaped { escaped := false; }
      else if character == '\\' { escaped := true; }
      else if character == '"' { break; }
      index := index + 1;
    }
  }

  method LookForColon(text: string, from: nat) returns (colon: bool)
    requires from <= |text|
    ensures colon == ColonNext(text[from..])
  {
    var cursor := from;
    while cursor < |text| && IsWhiteSpace(text[cursor])
      invariant from <= cursor <= |text|
      invariant ColonNext(text[from..]) == ColonNext(text[cursor..])
    {
      assert text[cursor..][0] == text[cursor] && text[cursor..][1..] == text[cursor + 1..];
      cursor := cursor + 1;
    }
    return cursor < |text| && text[cursor] == ':';
  }

  // ----- strings, by section 7 of RFC 8259

  /**
   * A character of a string: written as itself, as a backslash and a mark, or as a code unit in four hexadecimal
   * digits.
   */
  datatype JsonChar = Plain(c: char) | Escape(mark: char) | CodeUnit(digits: string)

  predicate IsHex(c: char) {
    '0' <= c <= '9' || 'a' <= c <= 'f' || 'A' <= c <= 'F'
  }

  predicate WrittenChar(j: JsonChar) {
    match j
    case Plain(c) => c >= ' ' && c != '"' && c != '\\'
    case Escape(mark) => mark in "\"\\/bfnrt"
    case CodeUnit(digits) =>
      |digits| == 4 && IsHex(digits[0]) && IsHex(digits[1]) && IsHex(digits[2]) && IsHex(digits[3])
  }

  predicate Written(chars: seq<JsonChar>) {
    forall i :: 0 <= i < |chars| ==> WrittenChar(chars[i])
  }

  function SpellChar(j: JsonChar): string {
    match j
    case Plain(c) => [c]
    case Escape(mark) => ['\\', mark]
    case CodeUnit(digits) => ['\\', 'u'] + digits
  }

  function SpellChars(chars: seq<JsonChar>): string {
    if chars == [] then "" else SpellChar(chars[0]) + SpellChars(chars[1..])
  }

  function Spell(chars: seq<JsonChar>): string {
    "\"" + (SpellChars(chars) + "\"")
  }

  function HexValue(c: char): nat
    requires IsHex(c)
  {
    if c <= '9' then c as int - '0' as int else if c <= 'F' then c as int - 'A' as int + 10
      else c as int - 'a' as int + 10
  }

  function EscapedUnit(mark: char): Unit
    requires mark in "\"\\/bfnrt"
  {
    match mark
    case 'b' => 0x08
    case 'f' => 0x0C
    case 'n' => 0x0A
    case 'r' => 0x0D
    case 't' => 0x09
    case _ => mark as int
  }

  function DecodedChar(j: JsonChar): Text
    requires WrittenChar(j)
  {
    match j
    case Plain(c) => UnitsOf(c)
    case Escape(mark) => [EscapedUnit(mark)]
    case CodeUnit(digits) =>
      [HexValue(digits[0]) * 0x1000 + HexValue(digits[1]) * 0x100 + HexValue(digits[2]) * 0x10 + HexValue(digits[3])]
  }

  /** The text a string stands for; lone surrogates included. */
  function Decoded(chars: seq<JsonChar>): Text
    requires Written(chars)
  {
    if chars == [] then [] else DecodedChar(chars[0]) + Decoded(chars[1..])
  }

  /** The closing quote of a written string is the first one the scanner does not take for escaped. */
  lemma {:induction false} SpelledEnds(chars: seq<JsonChar>, tail: string)
    requires Written(chars)
    ensures StringEnd(SpellChars(chars) + ("\"" + tail), false) == |SpellChars(chars)|
  {
    if chars == [] {
      assert SpellChars(chars) + ("\"" + tail) == "\"" + tail;
    } else {
      var rest := SpellChars(chars[1..]) + ("\"" + tail);
      assert WrittenChar(chars[0]);
      SpelledEnds(chars[1..], tail);
      CharPassed(chars[0], rest);
      assert SpellChars(chars) + ("\"" + tail) == SpellChar(chars[0]) + rest;
    }
  }

  lemma CharPassed(j: JsonChar, rest: string)
    requires WrittenChar(j)
    ensures StringEnd(SpellChar(j) + rest, false) == |SpellChar(j)| + StringEnd(rest, false)
  {
    hide StringEnd;
    match j
    case Plain(c) => UnitPassed(c, rest, false);
    case Escape(mark) =>
      EscapePassed(mark, rest);
      assert SpellChar(j) + rest == ['\\'] + ([mark] + rest);
    case CodeUnit(digits) =>
      EscapePassed('u', digits + rest);
      HexPassed(digits, rest);
      assert SpellChar(j) + rest == ['\\'] + (['u'] + (digits + rest));
  }

  lemma EscapePassed(mark: char, rest: string)
    ensures StringEnd(['\\'] + ([mark] + rest), false) == 2 + StringEnd(rest, false)
  {
    hide StringEnd;
    UnitPassed('\\', [mark] + rest, false);
    UnitPassed(mark, rest, true);
  }

  lemma {:induction false} HexPassed(digits: string, rest: string)
    requires forall i :: 0 <= i < |digits| ==> IsHex(digits[i])
    ensures StringEnd(digits + rest, false) == |digits| + StringEnd(rest, false)
  {
    if digits == "" {
      assert digits + rest == rest;
    } else {
      HexPassed(digits[1..], rest);
      UnitPassed(digits[0], digits[1..] + rest, false);
      assert digits + rest == [digits[0]] + (digits[1..] + rest);
    }
  }

  lemma UnitPassed(c: char, rest: string, escaped: bool)
    requires escaped || c != '"'
    ensures StringEnd([c] + rest, escaped) == 1 + StringEnd(rest, !escaped && c == '\\')
  {
    assert ([c] + rest)[1..] == rest;
  }

  /**
   * The library decodes this written string to its text. The program's library may take a string that is spelled
   * "\/Date(0)\/" for a date instead.
   */
  predicate DecodesChars(limits: Limits, chars: seq<JsonChar>) {
    Written(chars) && limits.decode(Spell(chars)) == Some(Decoded(chars))
  }

  /** A reader of what is left of a string, its closing quote included. */
  function ReadChars(s: string): Option<Text> {
    if s == "\"" then Some([])
    else if s == "" || s[0] == '"' || s[0] < ' ' then None
    else if s[0] != '\\' then After(UnitsOf(s[0]), ReadChars(s[1..]))
    else if |s| >= 6 && s[1] == 'u' && WrittenChar(CodeUnit(s[2..6]))
         then After(DecodedChar(CodeUnit(s[2..6])), ReadChars(s[6..]))
    else if |s| >= 2 && s[1] in "\"\\/bfnrt" then After([EscapedUnit(s[1])], ReadChars(s[2..]))
    else None
  }

  function After(units: Text, rest: Option<Text>): Option<Text> {
    if rest.None? then None else Some(units + rest.value)
  }

  function ReadLiteral(s: string): Option<Text> {
    if s != "" && s[0] == '"' then ReadChars(s[1..]) else None
  }

  lemma CharReads(j: JsonChar, rest: string)
    requires WrittenChar(j) && rest != ""
    ensures ReadChars(SpellChar(j) + rest) == After(DecodedChar(j), ReadChars(rest))
  {
    var s := SpellChar(j) + rest;
    assert s[|SpellChar(j)|..] == rest;
    if j.CodeUnit? { assert s[2..6] == j.digits; }
  }

  lemma {:induction false} CharsReadBack(chars: seq<JsonChar>)
    requires Written(chars)
    ensures ReadChars(SpellChars(chars) + "\"") == Some(Decoded(chars))
  {
    if chars == [] {
      assert SpellChars(chars) + "\"" == "\"";
    } else {
      var rest := SpellChars(chars[1..]) + "\"";
      assert WrittenChar(chars[0]);
      CharsReadBack(chars[1..]);
      CharReads(chars[0], rest);
      hide SpellChar, ReadChars;
      assert SpellChars(chars) + "\"" == SpellChar(chars[0]) + rest;
    }
  }

  // ----- the tree, with its spelling

  /**
   * A JSON value as it is spelled: tokens and literals as written, and the blanks around every structural character.
   */
  datatype Value =
    | Scalar(token: string)
    | String(chars: seq<JsonChar>)
    | Array(blank: string, items: Items)
    | Object(blank: string, members: Members)

  datatype Items = NoItems | Item(before: string, value: Value, after: string, rest: Items)

  datatype Members =
    | NoMembers
    | Member(lead: string, key: seq<JsonChar>, gap: string, before: string, value: Value, after: string, rest: Members)

  function Print(v: Value): string {
    match v
    case Scalar(token) => token
    case String(chars) => Spell(chars)
    case Array(blank, items) => "[" + (blank + (PrintItems(items) + "]"))
    case Object(blank, members) => "{" + (blank + (PrintMembers(members) + "}"))
  }

  function PrintItems(items: Items): string {
    match items
    case NoItems => ""
    case Item(before, value, after, rest) =>
      before + (Print(value) + (after + (if rest.NoItems? then "" else "," + PrintItems(rest))))
  }

  function PrintMembers(members: Members): string {
    match members
    case NoMembers => ""
    case Member(lead, key, gap, before, value, after, rest) =>
      var more := if rest.NoMembers? then "" else "," + PrintMembers(rest);
      lead + (Spell(key) + (gap + (":" + (before + (Print(value) + (after + more))))))
  }

  predicate Blanks(s: string) {
    forall i :: 0 <= i < |s| ==> s[i] == ' ' || s[i] == '\t' || s[i] == '\n' || s[i] == '\r'
  }

  /** Characters of numbers and of true, false and null. */
  predicate TokenChars(s: string) {
    forall i :: 0 <= i < |s| ==>
      'a' <= s[i] <= 'z' || 'A' <= s[i] <= 'Z' || '0' <= s[i] <= '9' || s[i] == '+' || s[i] == '-' || s[i] == '.'
  }

  predicate Grammatical(v: Value) {
    match v
    case Scalar(token) => TokenChars(token)
    case String(chars) => Written(chars)
    case Array(blank, items) => Blanks(blank) && GrammaticalItems(items)
    case Object(blank, members) => Blanks(blank) && GrammaticalMembers(members)
  }

  predicate GrammaticalItems(items: Items) {
    match items
    case NoItems => true
    case Item(before, value, after, rest) =>
      Blanks(before) && Grammatical(value) && Blanks(after) && GrammaticalItems(rest)
  }

  predicate GrammaticalMembers(members: Members) {
    match members
    case NoMembers => true
    case Member(lead, key, gap, before, value, after, rest) =>
      && Blanks(lead) && Written(key) && Blanks(gap) && Blanks(before) && Grammatical(value) && Blanks(after)
      && GrammaticalMembers(rest)
  }

  /** The library decodes every string of the tree, keys included, to its text. */
  predicate Decodes(limits: Limits, v: Value) {
    match v
    case Scalar(_) => true
    case String(chars) => DecodesChars(limits, chars)
    case Array(_, items) => DecodesItems(limits, items)
    case Object(_, members) => DecodesMembers(limits, members)
  }

  predicate DecodesItems(limits: Limits, items: Items) {
    items.NoItems? || (Decodes(limits, items.value) && DecodesItems(limits, items.rest))
  }

  predicate DecodesMembers(limits: Limits, members: Members) {
    members.NoMembers?
    || (DecodesChars(limits, members.key) && Decodes(limits, members.value) && DecodesMembers(limits, members.rest))
  }

  /** The same limits with that reader as the decoder. */
  function Reading(limits: Limits): Limits {
    Limits(limits.maxDepth, limits.maxKeys, limits.maxStringLength, (literal: string) => ReadLiteral(literal))
  }

  lemma LiteralDecodes(limits: Limits, chars: seq<JsonChar>)
    requires Written(chars)
    ensures DecodesChars(Reading(limits), chars)
  {
    CharsReadBack(chars);
    assert Spell(chars)[1..] == SpellChars(chars) + "\"";
  }

  /** No text is spelled like another, so there is a decoder that reads every tree as the scanner needs it. */
  lemma {:induction false} DecoderExists(limits: Limits, v: Value)
    requires Grammatical(v)
    ensures Decodes(Reading(limits), v)
  {
    hide DecodesChars, ReadLiteral;
    match v
    case Scalar(_) =>
    case String(chars) => LiteralDecodes(limits, chars);
    case Array(_, items) => ItemsDecode(limits, items);
    case Object(_, members) => MembersDecode(limits, members);
  }

  lemma {:induction false} ItemsDecode(limits: Limits, items: Items)
    requires GrammaticalItems(items)
    ensures DecodesItems(Reading(limits), items)
  {
    hide DecodesChars, ReadLiteral;
    if items.Item? {
      DecoderExists(limits, items.value);
      ItemsDecode(limits, items.rest);
    }
  }

  lemma {:induction false} MembersDecode(limits: Limits, members: Members)
    requires GrammaticalMembers(members)
    ensures DecodesMembers(Reading(limits), members)
  {
    hide DecodesChars, ReadLiteral;
    if members.Member? {
      LiteralDecodes(limits, members.key);
      DecoderExists(limits, members.value);
      MembersDecode(limits, members.rest);
    }
  }

  // ----- what the tree has to satisfy

  function Max(a: nat, b: nat): nat { if a > b then a else b }

  /** Nesting depth of arrays and objects. */
  function Depth(v: Value): nat {
    match v
    case Scalar(_) => 0
    case String(_) => 0
    case Array(_, items) => 1 + ItemsDepth(items)
    case Object(_, members) => 1 + MembersDepth(members)
  }

  function ItemsDepth(items: Items): nat {
    if items.NoItems? then 0 else Max(Depth(items.value), ItemsDepth(items.rest))
  }

  function MembersDepth(members: Members): nat {
    if members.NoMembers? then 0 else Max(Depth(members.value), MembersDepth(members.rest))
  }

  /** Number of members at any depth. */
  function KeyCount(v: Value): nat {
    match v
    case Scalar(_) => 0
    case String(_) => 0
    case Array(_, items) => ItemsKeyCount(items)
    case Object(_, members) => MembersKeyCount(members)
  }

  function ItemsKeyCount(items: Items): nat {
    if items.NoItems? then 0 else KeyCount(items.value) + ItemsKeyCount(items.rest)
  }

  function MembersKeyCount(members: Members): nat {
    if members.NoMembers? then 0 else 1 + KeyCount(members.value) + MembersKeyCount(members.rest)
  }

  predicate StringFits(limits: Limits, chars: seq<JsonChar>) {
    Written(chars) && |Decoded(chars)| <= limits.maxStringLength
  }

  /** Every string, key or value, decodes to at most the allowed length. */
  predicate StringsFit(limits: Limits, v: Value) {
    match v
    case Scalar(_) => true
    case String(chars) => StringFits(limits, chars)
    case Array(_, items) => ItemsStringsFit(limits, items)
    case Object(_, members) => MembersStringsFit(limits, members)
  }

  predicate ItemsStringsFit(limits: Limits, items: Items) {
    items.NoItems? || (StringsFit(limits, items.value) && ItemsStringsFit(limits, items.rest))
  }

  predicate MembersStringsFit(limits: Limits, members: Members) {
    members.NoMembers?
    || (StringFits(limits, members.key) && StringsFit(limits, members.value) && MembersStringsFit(limits, members.rest))
  }

  /** The decoded keys of one object, in order. */
  function KeyList(members: Members): seq<Text>
    requires GrammaticalMembers(members)
  {
    if members.NoMembers? then [] else [Decoded(members.key)] + KeyList(members.rest)
  }

  predicate Distinct(keys: seq<Text>) {
    forall i, j :: 0 <= i < j < |keys| ==> keys[i] != keys[j]
  }

  /** No object at any depth repeats a decoded key. */
  predicate KeysDistinct(v: Value)
    requires Grammatical(v)
  {
    match v
    case Scalar(_) => true
    case String(_) => true
    case Array(_, items) => ItemsKeysDistinct(items)
    case Object(_, members) => Distinct(KeyList(members)) && MembersKeysDistinct(members)
  }

  predicate ItemsKeysDistinct(items: Items)
    requires GrammaticalItems(items)
  {
    items.NoItems? || (KeysDistinct(items.value) && ItemsKeysDistinct(items.rest))
  }

  predicate MembersKeysDistinct(members: Members)
    requires GrammaticalMembers(members)
  {
    members.NoMembers? || (KeysDistinct(members.value) && MembersKeysDistinct(members.rest))
  }

  // ----- one pass agrees with the tree

  predicate Accepts(limits: Limits, text: string, stack: seq<Context>, total: nat) {
    Scan(limits, text, stack, total).Ok?
  }

  /** Everything that can still go wrong inside a value met at this depth with this many keys counted. */
  predicate Fits(limits: Limits, v: Value, depth: nat, total: nat)
    requires Grammatical(v)
  {
    && depth + Depth(v) <= limits.maxDepth
    && total + KeyCount(v) <= limits.maxKeys
    && StringsFit(limits, v)
    && KeysDistinct(v)
  }

  predicate ItemsFit(limits: Limits, items: Items, depth: nat, total: nat)
    requires GrammaticalItems(items)
  {
    && depth + ItemsDepth(items) <= limits.maxDepth
    && total + ItemsKeyCount(items) <= limits.maxKeys
    && ItemsStringsFit(limits, items)
    && ItemsKeysDistinct(items)
  }

  /** The same for the members of an object whose earlier keys are seen. */
  predicate MembersFit(limits: Limits, members: Members, seen: set<Text>, depth: nat, total: nat)
    requires GrammaticalMembers(members)
  {
    && depth + MembersDepth(members) <= limits.maxDepth
    && total + MembersKeyCount(members) <= limits.maxKeys
    && MembersStringsFit(limits, members)
    && Distinct(KeyList(members))
    && (forall k :: k in KeyList(members) ==> k !in seen)
    && MembersKeysDistinct(members)
  }

  predicate Neutral(s: string) {
    forall i :: 0 <= i < |s| ==> s[i] != '"' && s[i] != '{' && s[i] != '}' && s[i] != '[' && s[i] != ']'
  }

  lemma {:induction false} NeutralSkipped(limits: Limits, s: string, tail: string, stack: seq<Context>, total: nat)
    requires Neutral(s)
    ensures Scan(limits, s + tail, stack, total) == Scan(limits, tail, stack, total)
    decreases |s|
  {
    if s == "" {
      assert s + tail == tail;
    } else {
      assert (s + tail)[0] == s[0] && (s + tail)[1..] == s[1..] + tail;
      assert Neutral(s[1..]) by { assert forall i :: 0 <= i < |s[1..]| ==> s[1..][i] == s[i + 1]; }
      NeutralSkipped(limits, s[1..], tail, stack, total);
    }
  }

  lemma {:induction false} ColonAfterBlanks(s: string, tail: string)
    requires Blanks(s)
    ensures ColonNext(s + tail) == ColonNext(tail)
    decreases |s|
  {
    if s == "" {
      assert s + tail == tail;
    } else {
      assert (s + tail)[0] == s[0] && (s + tail)[1..] == s[1..] + tail;
      assert Blanks(s[1..]) by { assert forall i :: 0 <= i < |s[1..]| ==> s[1..][i] == s[i + 1]; }
      ColonAfterBlanks(s[1..], tail);
    }
  }

  /** A string in front is decoded, measured, and taken as a key or a value by what follows. */
  lemma StringScanned(limits: Limits, chars: seq<JsonChar>, tail: string, stack: seq<Context>, total: nat)
    requires DecodesChars(limits, chars)
    ensures Accepts(limits, Spell(chars) + tail, stack, total) <==>
            && StringFits(limits, chars)
            && AddKey(limits, Decoded(chars), tail, stack, total).Ok?
            && var (stack', total') := AddKey(limits, Decoded(chars), tail, stack, total).value;
               Accepts(limits, tail, stack', total')
  {
    var literal := Spell(chars);
    var text := literal + tail;
    StringCut(chars, tail);
    hide ColonNext, AddKey, StringEnd, Spell, Decoded, Written;
  }

  /** Where the scanner finds the literal in front, and what is behind it. */
  lemma StringCut(chars: seq<JsonChar>, tail: string)
    requires Written(chars)
    ensures var (literal, text) := (Spell(chars), Spell(chars) + tail);
            && |literal| >= 2 && text[0] == '"' && text[..|literal|] == literal && text[|literal|..] == tail
            && StringEnd(text[1..], false) == |literal| - 2 && StringEnd(text[1..], false) < |text| - 1
  {
    var literal := Spell(chars);
    var text := literal + tail;
    SpelledEnds(chars, tail);
    hide StringEnd, SpellChars, Written;
    assert text[0] == '"' && text[1..] == SpellChars(chars) + ("\"" + tail);
  }

  /** Which error a string in front that a colon follows gives, in the order in which they are looked for. */
  lemma KeyErrors(limits: Limits, chars: seq<JsonChar>, tail: string, stack: seq<Context>, total: nat)
    requires DecodesChars(limits, chars)
    ensures var r := Scan(limits, Spell(chars) + tail, stack, total);
            var open := stack != [] && stack[|stack| - 1].InObject?;
            if |Decoded(chars)| > limits.maxStringLength then r == Err(StringTooLong)
            else if !ColonNext(tail) then r == Scan(limits, tail, stack, total)
            else if !open then r == Err(InvalidJson)
            else if Decoded(chars) in stack[|stack| - 1].keys then r == Err(DuplicateKey)
            else if total >= limits.maxKeys then r == Err(TooManyKeys)
            else r == Scan(limits, tail, stack[..|stack| - 1] + [InObject(stack[|stack| - 1].keys + {Decoded(chars)})],
                           total + 1)
  {
    StringCut(chars, tail);
    hide ColonNext, StringEnd, Spell, Decoded, Written;
    if stack != [] && stack[|stack| - 1].InObject? {
      var last := InObject(stack[|stack| - 1].keys + {Decoded(chars)});
      assert stack[|stack| - 1 := last] == stack[..|stack| - 1] + [last];
    }
  }

  /** Brackets: too deep an opening, a closing that fits no opening, and an opening never closed. */
  lemma BracketErrors(limits: Limits, bracket: char, tail: string, stack: seq<Context>, total: nat)
    requires bracket in "{[}]"
    ensures var r := Scan(limits, [bracket] + tail, stack, total);
            if bracket in "{[" then
              |stack| >= limits.maxDepth ==> r == Err(TooDeep)
            else
              stack == [] || (bracket == '}' <==> stack[|stack| - 1].InArray?) ==> r == Err(InvalidJson)
    ensures stack != [] ==> Scan(limits, "", stack, total) == Err(InvalidJson)
  {
    assert ([bracket] + tail)[1..] == tail;
  }

  lemma BlanksSkipped(limits: Limits, s: string, tail: string, stack: seq<Context>, total: nat)
    requires Blanks(s)
    ensures Accepts(limits, s + tail, stack, total) == Accepts(limits, tail, stack, total)
  {
    hide Scan;
    NeutralSkipped(limits, s, tail, stack, total);
  }

  lemma CharacterSkipped(limits: Limits, s: string, tail: string, stack: seq<Context>, total: nat)
    requires s == "," || s == ":"
    ensures Accepts(limits, s + tail, stack, total) == Accepts(limits, tail, stack, total)
  {
    hide Scan;
    NeutralSkipped(limits, s, tail, stack, total);
  }

  lemma Opened(limits: Limits, open: string, tail: string, stack: seq<Context>, total: nat)
    requires open == "[" || open == "{"
    ensures Accepts(limits, open + tail, stack, total) <==>
            |stack| + 1 <= limits.maxDepth
            && Accepts(limits, tail, stack + [if open == "{" then InObject({}) else InArray], total)
  {
    assert (open + tail)[0] == open[0] && (open + tail)[1..] == tail;
  }

  lemma Closed(limits: Limits, context: Context, tail: string, stack: seq<Context>, total: nat)
    ensures Accepts(limits, (if context.InObject? then "}" else "]") + tail, stack + [context], total)
            == Accepts(limits, tail, stack, total)
  {
    var close := if context.InObject? then "}" else "]";
    assert (close + tail)[0] == close[0] && (close + tail)[1..] == tail;
    assert (stack + [context])[..|stack|] == stack;
  }

  lemma NoColonAt(s: string, tail: string)
    requires s == "," || s == "]" || s == "}"
    ensures !ColonNext(s + tail)
  {
    assert (s + tail)[0] == s[0];
  }

  lemma ColonAt(tail: string)
    ensures ColonNext(":" + tail)
  {
    assert (":" + tail)[0] == ':';
  }

  lemma Assoc(a: string, b: string, c: string)
    ensures (a + b) + c == a + (b + c)
  {
  }

  /** A value is passed exactly when it fits, and the scan goes on behind it with its keys counted. */
  lemma {:induction false} ValueScanned(limits: Limits, v: Value, tail: string, stack: seq<Context>, total: nat)
    requires Grammatical(v) && Decodes(limits, v) && !ColonNext(tail) && |stack| <= limits.maxDepth
             && total <= limits.maxKeys
    ensures Accepts(limits, Print(v) + tail, stack, total) <==>
            Fits(limits, v, |stack|, total) && Accepts(limits, tail, stack, total + KeyCount(v))
    decreases v, 0
  {
    hide Accepts;
    hide Blanks;
    hide Written;
    hide DecodesChars;
    hide Spell;
    hide TokenChars;
    hide ColonNext;
    match v
    case Scalar(token) =>
      TokenSkipped(limits, token, tail, stack, total);
    case String(chars) =>
      StringScanned(limits, chars, tail, stack, total);
    case Array(blank, items) =>
      var inner := PrintItems(items) + ("]" + tail);
      Opened(limits, "[", blank + inner, stack, total);
      Assoc("[", blank + (PrintItems(items) + "]"), tail);
      Assoc(blank, PrintItems(items) + "]", tail);
      Assoc(PrintItems(items), "]", tail);
      if |stack| + 1 <= limits.maxDepth {
        BlanksSkipped(limits, blank, inner, stack + [InArray], total);
        NoColonAt("]", tail);
        ItemsScanned(limits, items, "]" + tail, stack + [InArray], total);
        Closed(limits, InArray, tail, stack, total + KeyCount(v));
      }
    case Object(blank, members) =>
      var inner := PrintMembers(members) + ("}" + tail);
      Opened(limits, "{", blank + inner, stack, total);
      Assoc("{", blank + (PrintMembers(members) + "}"), tail);
      Assoc(blank, PrintMembers(members) + "}", tail);
      Assoc(PrintMembers(members), "}", tail);
      if |stack| + 1 <= limits.maxDepth {
        BlanksSkipped(limits, blank, inner, stack + [InObject({})], total);
        MembersScanned(limits, members, {}, tail, stack, total);
      }
  }

  lemma TokenSkipped(limits: Limits, token: string, tail: string, stack: seq<Context>, total: nat)
    requires TokenChars(token)
    ensures Accepts(limits, token + tail, stack, total) == Accepts(limits, tail, stack, total)
  {
    hide Scan;
    NeutralSkipped(limits, token, tail, stack, total);
  }

  /** The items of an array, up to its closing bracket. */
  lemma {:induction false} ItemsScanned(limits: Limits, items: Items, tail: string, stack: seq<Context>, total: nat)
    requires GrammaticalItems(items) && DecodesItems(limits, items) && !ColonNext(tail) && |stack| <= limits.maxDepth
             && total <= limits.maxKeys
    ensures Accepts(limits, PrintItems(items) + tail, stack, total) <==>
            ItemsFit(limits, items, |stack|, total) && Accepts(limits, tail, stack, total + ItemsKeyCount(items))
    decreases items, 1
  {
    hide Accepts;
    hide Blanks;
    hide ColonNext;
    match items
    case NoItems =>
      assert "" + tail == tail;
    case Item(before, value, after, rest) =>
      var comma := if rest.NoItems? then "" else ",";
      var more := PrintItems(rest) + tail;
      var follow := after + (comma + more);
      ItemText(before, Print(value), after, comma, PrintItems(rest), tail);
      assert comma + PrintItems(rest) == if rest.NoItems? then "" else "," + PrintItems(rest);
      BlanksSkipped(limits, before, Print(value) + follow, stack, total);
      ColonAfterBlanks(after, comma + more);
      if rest.NoItems? { assert comma + more == tail; } else { NoColonAt(",", more); }
      ValueScanned(limits, value, follow, stack, total);
      var total' := total + KeyCount(value);
      if total' <= limits.maxKeys {
        BlanksSkipped(limits, after, comma + more, stack, total');
        if rest.Item? { CharacterSkipped(limits, ",", more, stack, total'); }
        ItemsScanned(limits, rest, tail, stack, total');
        if rest.NoItems? { assert more == tail; }
      }
  }

  lemma ItemText(before: string, value: string, after: string, comma: string, rest: string, tail: string)
    ensures before + (value + (after + (comma + rest))) + tail == before + (value + (after + (comma + (rest + tail))))
  {
    Assoc(before, value + (after + (comma + rest)), tail);
    Assoc(value, after + (comma + rest), tail);
    Assoc(after, comma + rest, tail);
    Assoc(comma, rest, tail);
  }

  /** The members of an object whose earlier keys are seen, its closing bracket included. */
  lemma {:induction false} MembersScanned(limits: Limits, members: Members, seen: set<Text>, tail: string,
                                          stack: seq<Context>, total: nat)
    requires GrammaticalMembers(members) && DecodesMembers(limits, members) && !ColonNext(tail)
             && |stack| + 1 <= limits.maxDepth && total <= limits.maxKeys
    ensures Accepts(limits, PrintMembers(members) + ("}" + tail), stack + [InObject(seen)], total) <==>
            MembersFit(limits, members, seen, |stack| + 1, total)
            && Accepts(limits, tail, stack, total + MembersKeyCount(members))
    decreases members, 1
  {
    hide Accepts;
    hide Blanks;
    hide ColonNext;
    hide Written;
    hide DecodesChars;
    hide Spell;
    hide MembersFit;
    var close := "}" + tail;
    match members
    case NoMembers =>
      assert "" + close == close;
      Closed(limits, InObject(seen), tail, stack, total);
      NoMembersFit(limits, seen, |stack| + 1, total);
    case Member(lead, key, gap, before, value, after, rest) =>
      var comma := if rest.NoMembers? then "" else ",";
      var more := PrintMembers(rest) + close;
      var follow := after + (comma + more);
      var inside := before + (Print(value) + follow);
      var open := stack + [InObject(seen)];
      MemberPrinted(members, close);
      hide PrintMembers, Print, StringFits, Fits;
      BlanksSkipped(limits, lead, Spell(key) + (gap + (":" + inside)), open, total);
      KeyScanned(limits, key, gap, inside, seen, stack, total);
      MembersFitStep(limits, members, seen, |stack| + 1, total);
      if StringFits(limits, key) && Decoded(key) !in seen && total + 1 <= limits.maxKeys {
        var seen' := seen + {Decoded(key)};
        var open' := stack + [InObject(seen')];
        BlanksSkipped(limits, before, Print(value) + follow, open', total + 1);
        ColonAfterBlanks(after, comma + more);
        if rest.NoMembers? { NoColonAt("}", tail); } else { NoColonAt(",", more); }
        ValueScanned(limits, value, follow, open', total + 1);
        var total' := total + 1 + KeyCount(value);
        if total' <= limits.maxKeys {
          BlanksSkipped(limits, after, comma + more, open', total');
          if rest.Member? { CharacterSkipped(limits, ",", more, open', total'); }
          MembersScanned(limits, rest, seen', tail, stack, total');
        }
      }
  }

  /** The text of members, its front spelled out. */
  lemma MemberPrinted(members: Members, close: string)
    requires members.Member?
    ensures var comma := if members.rest.NoMembers? then "" else ",";
            var more := PrintMembers(members.rest) + close;
            && PrintMembers(members) + close
               == members.lead + (Spell(members.key) + (members.gap + (":" + (members.before
                  + (Print(members.value) + (members.after + (comma + more)))))))
            && (members.rest.NoMembers? ==> comma + more == more == close)
  {
    hide Print, Spell;
    var comma := if members.rest.NoMembers? then "" else ",";
    assert comma + PrintMembers(members.rest)
           == if members.rest.NoMembers? then "" else "," + PrintMembers(members.rest);
    assert "" + close == close;
    MemberText(members.lead, Spell(members.key), members.gap, members.before, Print(members.value), members.after,
               comma, PrintMembers(members.rest), close);
  }

  lemma NoMembersFit(limits: Limits, seen: set<Text>, depth: nat, total: nat)
    requires depth <= limits.maxDepth && total <= limits.maxKeys
    ensures MembersFit(limits, NoMembers, seen, depth, total)
  {
  }

  lemma MemberText(lead: string, key: string, gap: string, before: string, value: string, after: string, comma: string,
                   rest: string, close: string)
    ensures lead + (key + (gap + (":" + (before + (value + (after + (comma + rest))))))) + close
            == lead + (key + (gap + (":" + (before + (value + (after + (comma + (rest + close))))))))
  {
    var inside := before + (value + (after + (comma + rest)));
    ItemText(before, value, after, comma, rest, close);
    Assoc(":", inside, close);
    Assoc(gap, ":" + inside, close);
    Assoc(key, gap + (":" + inside), close);
    Assoc(lead, key + (gap + (":" + inside)), close);
  }

  /**
   * A key in front: decoded, short enough, new in its object, and within the count; then the scan is behind the colon.
   */
  lemma KeyScanned(limits: Limits, key: seq<JsonChar>, gap: string, inside: string, seen: set<Text>,
                   stack: seq<Context>, total: nat)
    requires DecodesChars(limits, key) && Blanks(gap)
    ensures Accepts(limits, Spell(key) + (gap + (":" + inside)), stack + [InObject(seen)], total) <==>
            && StringFits(limits, key) && Decoded(key) !in seen && total + 1 <= limits.maxKeys
            && Accepts(limits, inside, stack + [InObject(seen + {Decoded(key)})], total + 1)
  {
    hide Accepts;
    hide Blanks;
    hide ColonNext;
    hide Written;
    hide DecodesChars;
    hide Spell;
    var open, tail := stack + [InObject(seen)], gap + (":" + inside);
    StringScanned(limits, key, tail, open, total);
    ColonAfterBlanks(gap, ":" + inside);
    ColonAt(inside);
    if StringFits(limits, key) {
      var open' := stack + [InObject(seen + {Decoded(key)})];
      assert open[|open| - 1 := InObject(seen + {Decoded(key)})] == open';
      BlanksSkipped(limits, gap, ":" + inside, open', total + 1);
      CharacterSkipped(limits, ":", inside, open', total + 1);
    }
  }

  lemma MembersFitStep(limits: Limits, members: Members, seen: set<Text>, depth: nat, total: nat)
    requires members.Member? && GrammaticalMembers(members)
    ensures MembersFit(limits, members, seen, depth, total) <==>
            && StringFits(limits, members.key) && Decoded(members.key) !in seen && total + 1 <= limits.maxKeys
            && Fits(limits, members.value, depth, total + 1)
            && MembersFit(limits, members.rest, seen + {Decoded(members.key)}, depth,
                          total + 1 + KeyCount(members.value))
  {
    hide Depth;
    hide KeyCount;
    hide StringsFit;
    hide KeysDistinct;
    var keys, rest := KeyList(members), KeyList(members.rest);
    assert keys == [Decoded(members.key)] + rest;
    DistinctCons(Decoded(members.key), rest);
    assert forall k :: k in keys <==> k == Decoded(members.key) || k in rest;
  }

  lemma DistinctCons(key: Text, rest: seq<Text>)
    ensures Distinct([key] + rest) <==> key !in rest && Distinct(rest)
  {
    var keys := [key] + rest;
    if Distinct(keys) {
      forall i | 0 <= i < |rest| ensures rest[i] != key { assert keys[i + 1] == rest[i] && keys[0] == key; }
      forall i, j | 0 <= i < j < |rest|
        ensures rest[i] != rest[j]
      {
        assert keys[i + 1] == rest[i] && keys[j + 1] == rest[j];
      }
    }
  }

  /**
   * A tree within the limits: no repeated key in any object, no nesting too deep, not too many keys, no string too
   * long.
   */
  predicate WithinLimits(limits: Limits, v: Value)
    requires Grammatical(v)
  {
    && KeysDistinct(v)
    && Depth(v) <= limits.maxDepth
    && KeyCount(v) <= limits.maxKeys
    && StringsFit(limits, v)
  }

  /** The scan of any spelling of a value accepts it exactly when its tree is within the limits. */
  lemma ScannerAgreesWithTree(limits: Limits, lead: string, v: Value, trail: string)
    requires Blanks(lead) && Grammatical(v) && Decodes(limits, v) && Blanks(trail)
    ensures Scan(limits, lead + (Print(v) + trail), [], 0).Ok? <==> WithinLimits(limits, v)
  {
    hide Accepts;
    hide Scan;
    ColonAfterBlanks(trail, "");
    assert trail + "" == trail;
    BlanksSkipped(limits, lead, Print(v) + trail, [], 0);
    ValueScanned(limits, v, trail, [], 0);
    BlanksSkipped(limits, trail, "", [], KeyCount(v));
    EndAccepted(limits, KeyCount(v));
    AcceptsIsScan(limits, lead + (Print(v) + trail));
  }

  lemma EndAccepted(limits: Limits, total: nat)
    ensures Accepts(limits, "", [], total)
  {
  }

  lemma AcceptsIsScan(limits: Limits, text: string)
    ensures Accepts(limits, text, [], 0) <==> Scan(limits, text, [], 0).Ok?
  {
    hide Scan;
  }
}
