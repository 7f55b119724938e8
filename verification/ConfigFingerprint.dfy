/** The list that a resolved configuration's public fingerprint is the hash of. */
module ConfigFingerprint {
  import opened CanonicalValues
  import opened CodeUnits
  import opened Results
  import opened Sorting

  /** A resolved value under a property name; owned when it came from the resolver. */
  datatype Field = Field(property: Text, key: Text, value: Value, secret: bool, owned: bool)

  const SECRET: Text := [0x73, 0x65, 0x63, 0x72, 0x65, 0x74]
  const MISSING: Text := [0x6D, 0x69, 0x73, 0x73, 0x69, 0x6E, 0x67]
  const SET: Text := [0x73, 0x65, 0x74]

  function FieldKey(): Field -> Text {
    (f: Field) => f.key
  }

  function Ranked(fields: seq<Field>): seq<Field> {
    Sort(fields, OnKeys(FieldKey()))
  }

  /** A secret that is absent or empty. */
  predicate Missing(v: Value) {
    v == Undefined || v == Null || v == Str([])
  }

  /** What a field contributes: its names, and either its encoding or, of a secret, only whether it is set. */
  function Line(f: Field): Result<Json, ConfigError> {
    match Clone(f.value, f.key)
    case Err(e) => Err(e)
    case Ok(value) =>
      if f.secret then
        Ok(JArr([JStr(f.key), JStr(f.property), JArr([JStr(SECRET), JStr(if Missing(value) then MISSING else SET)])]))
      else match Encode(value, f.key)
        case Err(e) => Err(e)
        case Ok(encoding) => Ok(JArr([JStr(f.key), JStr(f.property), encoding]))
  }

  /** A secret shows only whether it is missing: undefined, null or empty. */
  lemma SecretLine(f: Field)
    requires f.secret && Encodable(f.value)
    ensures Line(f)
            == Ok(JArr([JStr(f.key), JStr(f.property),
                        JArr([JStr(Units("secret")),
                              JStr(if f.value == Undefined || f.value == Null || f.value == Str([])
                                   then Units("missing") else Units("set"))])]))
  {
    LineExists(f);
    UnitsSpelled("secret", SECRET);
    UnitsSpelled("missing", MISSING);
    UnitsSpelled("set", SET);
    hide Units, Line;
  }

  function Lines(rest: seq<Field>, seen: set<Text>): Result<seq<Json>, ConfigError> {
    if rest == [] then Ok([])
    else if !rest[0].owned then Err(SourceInvalid(rest[0].key))
    else if rest[0].key in seen then Err(SourceConflict(rest[0].key))
    else match Line(rest[0])
      case Err(e) => Err(e)
      case Ok(line) =>
        match Lines(rest[1..], seen + {rest[0].key})
        case Err(e) => Err(e)
        case Ok(lines) => Ok([line] + lines)
  }

  function Fingerprint(fields: seq<Field>): Result<seq<Json>, ConfigError> {
    Lines(Ranked(fields), {})
  }

  /** The loop of the snapshot over the fields in code-unit order of their keys. */
  method BuildFingerprint(fields: seq<Field>) returns (r: Result<seq<Json>, ConfigError>)
    ensures r == Fingerprint(fields)
  {
    var ordered := Ranked(fields);
    var seenKeys: set<Text> := {};
    var values := [];
    assert ordered[0..] == ordered;
    hide Ranked, Line;
    ghost var whole := Lines(ordered, {});
    if whole.Ok? { assert [] + whole.value == whole.value; }
    for i := 0 to |ordered|
      invariant Fingerprint(fields) == match Lines(ordered[i..], seenKeys)
                                       case Ok(more) => Ok(values + more)
                                       case Err(e) => Err(e)
    {
      var field := ordered[i];
      assert ordered[i..][0] == field && ordered[i..][1..] == ordered[i + 1..];
      if !field.owned { return Err(SourceInvalid(field.key)); }
      if field.key in seenKeys { return Err(SourceConflict(field.key)); }
      seenKeys := seenKeys + {field.key};
      var line := Line(field);
      if line.Err? { return Err(line.error); }
      ghost var more := Lines(ordered[i + 1..], seenKeys);
      if more.Ok? { Regrouped(values, line.value, more.value); }
      values := values + [line.value];
    }
    assert values + [] == values;
    r := Ok(values);
  }

  lemma Regrouped(values: seq<Json>, line: Json, more: seq<Json>)
    ensures values + ([line] + more) == (values + [line]) + more
  {
  }

  // ----- when there is a fingerprint

  lemma LineExists(f: Field)
    ensures Line(f).Ok? <==> Encodable(f.value)
    ensures Line(f).Ok? ==> Line(f).value == JArr([JStr(f.key), JStr(f.property),
      if f.secret then JArr([JStr(SECRET), JStr(if Missing(f.value) then MISSING else SET)])
      else if Encode(f.value, f.key).Ok? then Encode(f.value, f.key).value else JArr([])])
  {
    CloneIsFaithful(f.value, f.key);
    EncodesExactly(f.value, f.key);
    hide Clone, Encode, Encodable;
  }

  predicate Acceptable(fields: seq<Field>) {
    DistinctBy(fields, FieldKey()) && forall f :: f in fields ==> f.owned && Encodable(f.value)
  }

  lemma {:induction false} LinesExist(rest: seq<Field>, seen: set<Text>)
    ensures Lines(rest, seen).Ok? <==> Acceptable(rest) && forall f :: f in rest ==> f.key !in seen
    ensures Lines(rest, seen).Ok? ==>
      |Lines(rest, seen).value| == |rest| && forall i :: 0 <= i < |rest| ==>
      Line(rest[i]) == Ok(Lines(rest, seen).value[i])
  {
    if rest != [] {
      LineExists(rest[0]);
      LinesExist(rest[1..], seen + {rest[0].key});
      AcceptableFirst(rest);
      hide Acceptable, Line, Encodable;
      assert forall f :: f in rest <==> f == rest[0] || f in rest[1..];
      assert forall i :: 0 < i < |rest| ==> rest[i] == rest[1..][i - 1];
    }
  }

  lemma AcceptableFirst(rest: seq<Field>)
    requires rest != []
    ensures Acceptable(rest) <==> rest[0].owned && Encodable(rest[0].value) && Acceptable(rest[1..])
                                  && forall f :: f in rest[1..] ==> f.key != rest[0].key
  {
    hide Encodable;
    assert forall f :: f in rest <==> f == rest[0] || f in rest[1..];
    assert forall i :: 0 < i < |rest| ==> rest[i] == rest[1..][i - 1];
    if forall f :: f in rest[1..] ==> f.key != rest[0].key {
      forall i, j | 0 <= i < j < |rest| && DistinctBy(rest[1..], FieldKey()) ensures rest[i].key != rest[j].key {
        assert rest[j] in rest[1..];
        if i > 0 { assert FieldKey()(rest[1..][i - 1]) != FieldKey()(rest[1..][j - 1]); }
      }
    }
    if DistinctBy(rest, FieldKey()) {
      forall f | f in rest[1..] ensures f.key != rest[0].key {
        var k :| 0 <= k < |rest[1..]| && rest[1..][k] == f;
        assert FieldKey()(rest[0]) != FieldKey()(rest[k + 1]);
      }
      forall i, j | 0 <= i < j < |rest[1..]| ensures rest[1..][i].key != rest[1..][j].key {
        assert FieldKey()(rest[i + 1]) != FieldKey()(rest[j + 1]);
      }
    }
  }

  lemma RankedKeeps(fields: seq<Field>)
    ensures multiset(Ranked(fields)) == multiset(fields) && forall f :: f in Ranked(fields) <==> f in fields
  {
    SortKeeps(fields, OnKeys(FieldKey()));
    forall f ensures f in Ranked(fields) <==> f in fields { SortedIn(fields, OnKeys(FieldKey()), f); }
  }

  lemma AcceptableEitherWay(a: seq<Field>, b: seq<Field>)
    requires multiset(a) == multiset(b) && Acceptable(a)
    ensures Acceptable(b)
  {
    hide Encodable;
    DistinctByKeeps(a, b, FieldKey());
    forall f | f in b ensures f in a { assert f in multiset(a); }
  }

  /** There is a fingerprint exactly when every field is owned, no key occurs twice and every value can be encoded. */
  lemma FingerprintExists(fields: seq<Field>)
    ensures Fingerprint(fields).Ok? <==> Acceptable(fields)
  {
    RankedKeeps(fields);
    LinesExist(Ranked(fields), {});
    hide Acceptable, Ranked, Lines;
    if Acceptable(fields) { AcceptableEitherWay(fields, Ranked(fields)); }
    if Acceptable(Ranked(fields)) { AcceptableEitherWay(Ranked(fields), fields); }
  }

  /** The order in which the fields are given does not matter. */
  lemma OrderDoesNotMatter(fields: seq<Field>, others: seq<Field>)
    requires multiset(fields) == multiset(others)
    ensures Fingerprint(fields).Ok? <==> Fingerprint(others).Ok?
    ensures Fingerprint(fields).Ok? || DistinctBy(fields, FieldKey()) ==> Fingerprint(fields) == Fingerprint(others)
  {
    FingerprintExists(fields);
    FingerprintExists(others);
    if Acceptable(fields) { AcceptableEitherWay(fields, others); }
    if Acceptable(others) { AcceptableEitherWay(others, fields); }
    if DistinctBy(fields, FieldKey()) { SortForgetsOrder(fields, others, FieldKey()); }
  }

  // ----- secrets stay out of the fingerprint

  predicate Present(v: Value) {
    Encodable(v) && !Missing(v)
  }

  function Masked(f: Field): Field {
    if f.secret && Present(f.value) then f.(value := Bool(true)) else f
  }

  function MaskEach(fields: seq<Field>): seq<Field> {
    seq(|fields|, i requires 0 <= i < |fields| => Masked(fields[i]))
  }

  lemma MaskedLine(f: Field)
    ensures Line(Masked(f)) == Line(f)
  {
    LineExists(f);
    LineExists(Masked(f));
    CloneIsFaithful(f.value, f.key);
    EncodesExactly(f.value, f.key);
    hide Clone, Encode;
  }

  lemma {:induction false} MaskedLines(rest: seq<Field>, seen: set<Text>)
    ensures Lines(MaskEach(rest), seen) == Lines(rest, seen)
  {
    if rest != [] {
      MaskedLine(rest[0]);
      MaskedLines(rest[1..], seen + {rest[0].key});
      hide Line, Present;
      assert MaskEach(rest)[1..] == MaskEach(rest[1..]);
    }
  }

  /** Masking leaves the order of fields alone. */
  lemma MaskedOrder(f: Field, g: Field)
    ensures OnKeys(FieldKey())(Masked(f), Masked(g)) == OnKeys(FieldKey())(f, g)
  {
    hide Present, AtMost;
  }

  lemma MaskedCons(f: Field, fields: seq<Field>)
    ensures MaskEach([f] + fields) == [Masked(f)] + MaskEach(fields)
  {
    hide Masked;
  }

  lemma {:induction false} MaskedInsert(f: Field, fields: seq<Field>)
    ensures Insert(Masked(f), MaskEach(fields), OnKeys(FieldKey())) == MaskEach(Insert(f, fields, OnKeys(FieldKey())))
  {
    hide Masked, OnKeys, FieldKey;
    MaskedCons(f, fields);
    if fields != [] {
      MaskedInsert(f, fields[1..]);
      MaskedOrder(f, fields[0]);
      MaskedCons(fields[0], fields[1..]);
      MaskedCons(fields[0], Insert(f, fields[1..], OnKeys(FieldKey())));
      assert [fields[0]] + fields[1..] == fields;
      hide MaskEach;
    }
  }

  lemma {:induction false} MaskedRanked(fields: seq<Field>)
    ensures Ranked(MaskEach(fields)) == MaskEach(Ranked(fields))
  {
    hide Insert, Masked;
    if fields != [] {
      MaskedRanked(fields[1..]);
      MaskedInsert(fields[0], Ranked(fields[1..]));
      assert MaskEach(fields)[1..] == MaskEach(fields[1..]);
    }
  }

  /** Swapping one secret that is present for another does not show. */
  lemma SecretsDoNotShow(fields: seq<Field>, i: nat, other: Value)
    requires i < |fields| && fields[i].secret && Present(fields[i].value) && Present(other)
    ensures Fingerprint(fields[i := fields[i].(value := other)]) == Fingerprint(fields)
  {
    var swapped := fields[i := fields[i].(value := other)];
    hide Present, Line;
    MaskedRanked(fields);
    MaskedRanked(swapped);
    MaskedLines(Ranked(fields), {});
    MaskedLines(Ranked(swapped), {});
    hide Ranked, Lines;
    assert MaskEach(swapped) == MaskEach(fields);
  }

  // ----- what the fingerprint tells apart

  /** The same names, and the same value; of secrets, only whether they are missing. */
  predicate Agree(f: Field, g: Field) {
    f.key == g.key && f.property == g.property && f.secret == g.secret
    && if f.secret
       then (f.value == Undefined || f.value == Null || f.value == Str([]))
            == (g.value == Undefined || g.value == Null || g.value == Str([]))
       else Same(f.value, g.value)
  }

  predicate Covered(fields: seq<Field>, others: seq<Field>) {
    forall f :: f in fields ==> exists g :: g in others && Agree(f, g)
  }

  lemma LinesTell(f: Field, g: Field)
    requires Line(f).Ok? && Line(g).Ok? && WellFormed(f.value) && WellFormed(g.value)
    ensures Line(f) == Line(g) <==> Agree(f, g)
  {
    LineExists(f);
    LineExists(g);
    hide Line;
    EncodesExactly(f.value, f.key);
    EncodesExactly(g.value, g.key);
    EncodesExactly(g.value, f.key);
    Tagged(f.value, f.key);
    Tagged(g.value, g.key);
    SecretIsNoTag(f.value);
    SecretIsNoTag(g.value);
    if f.key == g.key { EncodingIdentifies(f.value, g.value, f.key); }
    hide Encode, Encodable, WellFormed, Same;
    var x, y := Line(f).value.items, Line(g).value.items;
    assert x[0] == JStr(f.key) && y[0] == JStr(g.key) && x[1] == JStr(f.property) && y[1] == JStr(g.property);
    assert x[2].items[0] == (if f.secret then JStr(SECRET) else JStr(Tag(f.value)));
    assert y[2].items[0] == (if g.secret then JStr(SECRET) else JStr(Tag(g.value)));
    if f.secret && g.secret {
      assert x[2].items[1] == JStr(if Missing(f.value) then MISSING else SET);
      assert y[2].items[1] == JStr(if Missing(g.value) then MISSING else SET);
      assert |MISSING| != |SET|;
    }
    assert Line(f) == Line(g) <==> x == y;
  }

  lemma SecretIsNoTag(v: Value)
    requires !v.Alien?
    ensures Tag(v) != SECRET
  {
    assert |SECRET| == 6 && SECRET[0] == 0x73 && SECRET[1] == 0x65;
    assert STRING[1] == 0x74 && NUMBER[0] == 0x6E && OBJECT[0] == 0x6F;
  }

  /** Fingerprints are equal exactly when each configuration has an agreeing field for every field of the other. */
  lemma FingerprintIdentifies(fields: seq<Field>, others: seq<Field>)
    requires Fingerprint(fields).Ok? && Fingerprint(others).Ok?
    requires (forall f :: f in fields ==> WellFormed(f.value)) && (forall g :: g in others ==> WellFormed(g.value))
    ensures Fingerprint(fields) == Fingerprint(others) <==> Covered(fields, others) && Covered(others, fields)
  {
    var a, b := Ranked(fields), Ranked(others);
    FingerprintExists(fields);
    FingerprintExists(others);
    RankedKeeps(fields);
    RankedKeeps(others);
    LinesExist(a, {});
    LinesExist(b, {});
    SortedKeysIncrease(fields, FieldKey());
    SortedKeysIncrease(others, FieldKey());
    LinesPointwise(a, b);
    LinesPointwise(b, a);
    CoveredSame(fields, others, a, b);
    CoveredSame(others, fields, b, a);
    assert Fingerprint(fields) == Lines(a, {}) && Fingerprint(others) == Lines(b, {});
    hide *;
    if Covered(a, b) && Covered(b, a) { CoveredAgree(a, b); }
    if AgreeEach(a, b) && AgreeEach(b, a) {
      AgreeCovers(a, b);
      AgreeCovers(b, a);
    }
  }

  predicate AgreeEach(a: seq<Field>, b: seq<Field>) {
    |a| == |b| && forall i :: 0 <= i < |a| ==> Agree(a[i], b[i])
  }

  lemma LinesPointwise(a: seq<Field>, b: seq<Field>)
    requires Lines(a, {}).Ok? && Lines(b, {}).Ok?
    requires (forall f :: f in a ==> WellFormed(f.value)) && (forall g :: g in b ==> WellFormed(g.value))
    ensures Lines(a, {}) == Lines(b, {}) <==> AgreeEach(a, b)
  {
    LinesExist(a, {});
    LinesExist(b, {});
    hide Lines, Line, Agree, WellFormed, Acceptable;
    var x, y := Lines(a, {}).value, Lines(b, {}).value;
    forall i | 0 <= i < |a| && i < |b| ensures x[i] == y[i] <==> Agree(a[i], b[i]) { LinesTell(a[i], b[i]); }
    if AgreeEach(a, b) { assert x == y; }
  }

  lemma CoveredAgree(a: seq<Field>, b: seq<Field>)
    requires Covered(a, b) && Covered(b, a)
    requires Increasing(KeysOf(a, FieldKey())) && Increasing(KeysOf(b, FieldKey()))
    ensures AgreeEach(a, b)
  {
    CoveredKeys(a, b);
    CoveredKeys(b, a);
    hide Agree;
    IncreasingIsUnique(KeysOf(a, FieldKey()), KeysOf(b, FieldKey()));
    assert |a| == |KeysOf(a, FieldKey())| && |b| == |KeysOf(b, FieldKey())|;
    forall i | 0 <= i < |a| ensures Agree(a[i], b[i]) { CoveredAt(a, b, i); }
  }

  lemma CoveredAt(a: seq<Field>, b: seq<Field>, i: nat)
    requires Covered(a, b) && KeysOf(a, FieldKey()) == KeysOf(b, FieldKey()) && Increasing(KeysOf(b, FieldKey()))
    requires i < |a| == |b|
    ensures Agree(a[i], b[i])
  {
    assert a[i] in a;
    var g :| g in b && Agree(a[i], g);
    AgreeKeys(a[i], g);
    hide Agree, Covered;
    var k :| 0 <= k < |b| && b[k] == g;
    assert KeysOf(a, FieldKey())[i] == KeysOf(b, FieldKey())[i] == KeysOf(b, FieldKey())[k];
    assert k == i by { if k < i { } else if i < k { } }
  }

  lemma AgreeKeys(f: Field, g: Field)
    requires Agree(f, g)
    ensures f.key == g.key
  {
  }

  lemma CoveredSame(fields: seq<Field>, others: seq<Field>, a: seq<Field>, b: seq<Field>)
    requires (forall f :: f in a <==> f in fields) && (forall g :: g in b <==> g in others)
    ensures Covered(a, b) <==> Covered(fields, others)
  {
    hide Agree;
  }

  lemma CoveredKeys(a: seq<Field>, b: seq<Field>)
    requires Covered(a, b)
    ensures forall k :: k in KeysOf(a, FieldKey()) ==> k in KeysOf(b, FieldKey())
  {
    forall k | k in KeysOf(a, FieldKey()) ensures k in KeysOf(b, FieldKey()) {
      var m :| 0 <= m < |a| && a[m].key == k;
      assert a[m] in a;
      var g :| g in b && Agree(a[m], g);
      var n :| 0 <= n < |b| && b[n] == g;
      assert KeysOf(b, FieldKey())[n] == k;
    }
  }

  lemma AgreeCovers(a: seq<Field>, b: seq<Field>)
    requires AgreeEach(a, b)
    ensures Covered(a, b)
  {
    hide Agree;
    forall f | f in a ensures exists g :: g in b && Agree(f, g) {
      var i :| 0 <= i < |a| && a[i] == f;
      assert b[i] in b;
    }
  }
}
