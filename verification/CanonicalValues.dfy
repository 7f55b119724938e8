/** The canonical encoding of configuration values, which identifies a value up to the order of object keys. */
module CanonicalValues {
  import opened CodeUnits
  import opened Results
  import opened Sorting

  /** Finite numbers by value, with negative zero apart from zero. */
  datatype Number = Finite(value: real) | NegativeZero | NonFinite

  /**
   * Alien stands for what is not plain data: functions, instances of classes, references back to an enclosing object.
   */
  datatype Value = Undefined | Null | Str(text: Text) | Bool(truth: bool) | Num(number: Number)
                 | Arr(items: seq<Value>) | Obj(entries: seq<Entry>) | Alien

  datatype Entry = Entry(key: Text, value: Value)

  datatype Json = JStr(text: Text) | JBool(truth: bool) | JNum(value: real) | JArr(items: seq<Json>)

  datatype ConfigError = ValueInvalid(key: Text) | SourceInvalid(key: Text) | SourceConflict(key: Text)

  const UNDEFINED: Text := [0x75, 0x6E, 0x64, 0x65, 0x66, 0x69, 0x6E, 0x65, 0x64]
  const NULL: Text := [0x6E, 0x75, 0x6C, 0x6C]
  const STRING: Text := [0x73, 0x74, 0x72, 0x69, 0x6E, 0x67]
  const BOOLEAN: Text := [0x62, 0x6F, 0x6F, 0x6C, 0x65, 0x61, 0x6E]
  const NUMBER: Text := [0x6E, 0x75, 0x6D, 0x62, 0x65, 0x72]
  const ARRAY: Text := [0x61, 0x72, 0x72, 0x61, 0x79]
  const OBJECT: Text := [0x6F, 0x62, 0x6A, 0x65, 0x63, 0x74]
  const MINUS_ZERO: Text := [0x2D, 0x30]

  lemma TagNames()
    ensures UNDEFINED == Units("undefined") && NULL == Units("null") && STRING == Units("string")
    ensures BOOLEAN == Units("boolean") && NUMBER == Units("number") && MINUS_ZERO == Units("-0")
    ensures ARRAY == Units("array") && OBJECT == Units("object")
  {
    hide Units;
    UnitsSpelled("undefined", UNDEFINED);
    UnitsSpelled("null", NULL);
    UnitsSpelled("string", STRING);
    UnitsSpelled("boolean", BOOLEAN);
    UnitsSpelled("number", NUMBER);
    UnitsSpelled("-0", MINUS_ZERO);
    UnitsSpelled("array", ARRAY);
    UnitsSpelled("object", OBJECT);
  }

  function Key(): Entry -> Text {
    (e: Entry) => e.key
  }

  function ByKey(): (Entry, Entry) -> bool {
    OnKeys(Key())
  }

  predicate DistinctKeys(entries: seq<Entry>) {
    DistinctBy(entries, Key())
  }

  /** Objects have one value per key, at every depth. */
  predicate WellFormed(v: Value) {
    match v
    case Arr(items) => forall i :: 0 <= i < |items| ==> WellFormed(items[i])
    case Obj(entries) => DistinctKeys(entries) && forall i :: 0 <= i < |entries| ==> WellFormed(entries[i].value)
    case _ => true
  }

  /** Plain data with finite numbers only, at every depth. */
  predicate Encodable(v: Value) {
    match v
    case Num(n) => !n.NonFinite?
    case Arr(items) => forall i :: 0 <= i < |items| ==> Encodable(items[i])
    case Obj(entries) => forall i :: 0 <= i < |entries| ==> Encodable(entries[i].value)
    case Alien => false
    case _ => true
  }

  function Lookup(entries: seq<Entry>, key: Text): Option<Value> {
    if entries == [] then None
    else if entries[0].key == key then Some(entries[0].value)
    else Lookup(entries[1..], key)
  }

  lemma {:induction false} LookupMeans(entries: seq<Entry>, key: Text)
    ensures Lookup(entries, key).Some? ==> Entry(key, Lookup(entries, key).value) in entries
    ensures Lookup(entries, key).None? ==> forall e :: e in entries ==> e.key != key
  {
    if entries != [] {
      LookupMeans(entries[1..], key);
      assert forall e :: e in entries <==> e == entries[0] || e in entries[1..];
    }
  }

  lemma LookupOf(entries: seq<Entry>, e: Entry)
    requires DistinctKeys(entries) && e in entries
    ensures Lookup(entries, e.key) == Some(e.value)
  {
    LookupMeans(entries, e.key);
    KeyFinds(entries, Key(), e, Entry(e.key, Lookup(entries, e.key).value));
  }

  /** Structurally the same, up to the order of object keys. */
  predicate Same(v: Value, w: Value)
    decreases v
  {
    match (v, w)
    case (Arr(a), Arr(b)) => |a| == |b| && forall i :: 0 <= i < |a| ==> Same(a[i], b[i])
    case (Obj(a), Obj(b)) =>
      && (forall i :: 0 <= i < |a| ==> Lookup(b, a[i].key).Some? && Same(a[i].value, Lookup(b, a[i].key).value))
      && (forall j :: 0 <= j < |b| ==> Lookup(a, b[j].key).Some?)
    case _ => v == w
  }

  // ----- the encoding

  function Rank(v: Value): nat {
    if v.Arr? then |v.items| + 1 else if v.Obj? then |v.entries| + 1 else 0
  }

  predicate Within(rest: seq<Entry>, v: Value) {
    v.Obj? && |rest| <= |v.entries| && forall e :: e in rest ==> e in v.entries
  }

  lemma SortedWithin(v: Value)
    requires v.Obj?
    ensures Within(Sort(v.entries, ByKey()), v)
  {
    SortKeeps(v.entries, ByKey());
    forall e | e in Sort(v.entries, ByKey()) ensures e in v.entries { SortedIn(v.entries, ByKey(), e); }
  }

  /** Every value under a tag of its type, objects as key-value pairs in code-unit order of their keys. */
  function Encode(v: Value, key: Text): Result<Json, ConfigError>
    decreases v, Rank(v)
  {
    match v
    case Undefined => Ok(JArr([JStr(UNDEFINED)]))
    case Null => Ok(JArr([JStr(NULL)]))
    case Str(text) => Ok(JArr([JStr(STRING), JStr(text)]))
    case Bool(truth) => Ok(JArr([JStr(BOOLEAN), JBool(truth)]))
    case Num(Finite(x)) => Ok(JArr([JStr(NUMBER), JNum(x)]))
    case Num(NegativeZero) => Ok(JArr([JStr(NUMBER), JStr(MINUS_ZERO)]))
    case Num(NonFinite) => Err(ValueInvalid(key))
    case Alien => Err(ValueInvalid(key))
    case Arr(items) =>
      (match EncodeItems(v, 0, key)
       case Ok(js) => Ok(JArr([JStr(ARRAY), JArr(js)]))
       case Err(e) => Err(e))
    case Obj(entries) =>
      SortedWithin(v);
      match EncodeEntries(v, Sort(entries, ByKey()), key)
      case Ok(js) => Ok(JArr([JStr(OBJECT), JArr(js)]))
      case Err(e) => Err(e)
  }

  function EncodeItems(v: Value, from: nat, key: Text): Result<seq<Json>, ConfigError>
    requires v.Arr? && from <= |v.items|
    decreases v, |v.items| - from
  {
    if from == |v.items| then Ok([])
    else match Encode(v.items[from], key)
      case Err(e) => Err(e)
      case Ok(first) =>
        match EncodeItems(v, from + 1, key)
        case Err(e) => Err(e)
        case Ok(rest) => Ok([first] + rest)
  }

  function EncodeEntries(v: Value, rest: seq<Entry>, key: Text): Result<seq<Json>, ConfigError>
    requires Within(rest, v)
    decreases v, |rest|
  {
    if rest == [] then Ok([])
    else
      assert rest[0] in v.entries;
      match Encode(rest[0].value, key)
      case Err(e) => Err(e)
      case Ok(first) =>
        match EncodeEntries(v, rest[1..], key)
        case Err(e) => Err(e)
        case Ok(more) => Ok([JArr([JStr(rest[0].key), first])] + more)
  }

  lemma {:induction false} ItemsMean(v: Value, from: nat, key: Text)
    requires v.Arr? && from <= |v.items|
    ensures EncodeItems(v, from, key).Ok? <==> forall i :: from <= i < |v.items| ==> Encode(v.items[i], key).Ok?
    ensures EncodeItems(v, from, key).Err? ==> EncodeItems(v, from, key).error == ValueInvalid(key)
    ensures EncodeItems(v, from, key).Ok? ==>
      var js := EncodeItems(v, from, key).value;
      |js| == |v.items| - from && forall i :: 0 <= i < |js| ==> Encode(v.items[from + i], key) == Ok(js[i])
    decreases v, |v.items| - from
  {
    if from < |v.items| {
      ErrorsName(v.items[from], key);
      ItemsMean(v, from + 1, key);
    }
  }

  lemma {:induction false} EntriesMean(v: Value, rest: seq<Entry>, key: Text)
    requires Within(rest, v)
    ensures EncodeEntries(v, rest, key).Ok? <==> forall i :: 0 <= i < |rest| ==> Encode(rest[i].value, key).Ok?
    ensures EncodeEntries(v, rest, key).Err? ==> EncodeEntries(v, rest, key).error == ValueInvalid(key)
    ensures EncodeEntries(v, rest, key).Ok? ==>
      var js := EncodeEntries(v, rest, key).value;
      |js| == |rest| && forall i :: 0 <= i < |js| ==>
        Encode(rest[i].value, key).Ok? && js[i] == JArr([JStr(rest[i].key), Encode(rest[i].value, key).value])
    decreases v, |rest|
  {
    if rest != [] {
      assert rest[0] in v.entries;
      ErrorsName(rest[0].value, key);
      EntriesMean(v, rest[1..], key);
      assert forall i :: 0 < i < |rest| ==> rest[i] == rest[1..][i - 1];
    }
  }

  /** Encoding fails for one reason only. */
  lemma {:induction false} ErrorsName(v: Value, key: Text)
    ensures Encode(v, key).Err? ==> Encode(v, key).error == ValueInvalid(key)
    decreases v, Rank(v)
  {
    match v
    case Arr(items) => ItemsMean(v, 0, key);
    case Obj(entries) =>
      SortedWithin(v);
      EntriesMean(v, Sort(entries, ByKey()), key);
    case _ =>
  }

  /** Exactly the plain values with finite numbers can be encoded. */
  lemma {:induction false} EncodesExactly(v: Value, key: Text)
    ensures Encode(v, key) == Err(ValueInvalid(key)) || Encode(v, key).Ok?
    ensures Encode(v, key).Ok? <==> Encodable(v)
    decreases v
  {
    ErrorsName(v, key);
    match v
    case Arr(items) =>
      ItemsMean(v, 0, key);
      forall i | 0 <= i < |items|
        ensures Encode(items[i], key).Ok? <==> Encodable(items[i])
      {
        EncodesExactly(items[i], key);
      }
    case Obj(entries) =>
      var sorted := Sort(entries, ByKey());
      SortedWithin(v);
      EntriesMean(v, sorted, key);
      forall i | 0 <= i < |entries| ensures Encode(entries[i].value, key).Ok? <==> Encodable(entries[i].value) {
        EncodesExactly(entries[i].value, key);
      }
      SameElements(entries, sorted);
      assert (forall i :: 0 <= i < |sorted| ==> Encode(sorted[i].value, key).Ok?)
        <==> forall e :: e in entries ==> Encode(e.value, key).Ok?;
    case _ =>
  }

  lemma SameElements(entries: seq<Entry>, sorted: seq<Entry>)
    requires sorted == Sort(entries, ByKey())
    ensures forall e :: e in sorted <==> e in entries
  {
    forall e ensures e in sorted <==> e in entries { SortedIn(entries, ByKey(), e); }
  }

  // ----- the encoding identifies the value

  function Tag(v: Value): Text
    requires !v.Alien?
  {
    match v
    case Undefined => UNDEFINED
    case Null => NULL
    case Str(_) => STRING
    case Bool(_) => BOOLEAN
    case Num(_) => NUMBER
    case Arr(_) => ARRAY
    case Obj(_) => OBJECT
  }

  lemma TagsDiffer(v: Value, w: Value)
    requires !v.Alien? && !w.Alien? && Tag(v) == Tag(w)
    ensures v.Undefined? == w.Undefined? && v.Null? == w.Null? && v.Str? == w.Str? && v.Bool? == w.Bool?
    ensures v.Num? == w.Num? && v.Arr? == w.Arr? && v.Obj? == w.Obj?
  {
    assert |Tag(v)| == |Tag(w)| && Tag(v)[0] == Tag(w)[0];
  }

  lemma Tagged(v: Value, key: Text)
    requires Encode(v, key).Ok?
    ensures !v.Alien? && Encode(v, key).value.JArr? && Encode(v, key).value.items != []
    ensures Encode(v, key).value.items[0] == JStr(Tag(v))
  {
    hide Sort, EncodeItems, EncodeEntries;
  }

  /** Two values have equal encodings exactly when they are the same up to the order of object keys. */
  lemma {:induction false} EncodingIdentifies(v: Value, w: Value, key: Text)
    requires WellFormed(v) && WellFormed(w) && Encode(v, key).Ok? && Encode(w, key).Ok?
    ensures Encode(v, key) == Encode(w, key) <==> Same(v, w)
    decreases v
  {
    Tagged(v, key);
    Tagged(w, key);
    if Tag(v) == Tag(w) {
      TagsDiffer(v, w);
      match (v, w)
      case (Arr(a), Arr(b)) =>
        ItemsMean(v, 0, key);
        ItemsMean(w, 0, key);
        forall i | 0 <= i < |a| && i < |b| ensures Encode(a[i], key) == Encode(b[i], key) <==> Same(a[i], b[i]) {
          EncodingIdentifies(a[i], b[i], key);
        }
        ItemsIdentify(v, w, key);
      case (Obj(a), Obj(b)) =>
        SortedWithin(v);
        SortedWithin(w);
        EntriesMean(v, Sort(a, ByKey()), key);
        EntriesMean(w, Sort(b, ByKey()), key);
        SameElements(a, Sort(a, ByKey()));
        SameElements(b, Sort(b, ByKey()));
        forall x, y | x in a && y in b ensures SameEncoding(x.value, y.value, key) <==> Same(x.value, y.value) {
          EncodingIdentifies(x.value, y.value, key);
        }
        EntriesIdentify(v, w, key);
      case _ =>
    } else {
      TagsSeparate(v, w);
    }
  }

  predicate SameEncoding(v: Value, w: Value, key: Text) {
    Encode(v, key) == Encode(w, key)
  }

  lemma TagsSeparate(v: Value, w: Value)
    requires !v.Alien? && !w.Alien? && Tag(v) != Tag(w)
    ensures !Same(v, w)
  {
  }

  lemma ItemsIdentify(v: Value, w: Value, key: Text)
    requires v.Arr? && w.Arr? && EncodeItems(v, 0, key).Ok? && EncodeItems(w, 0, key).Ok?
    requires forall i :: 0 <= i < |v.items| && i < |w.items| ==>
             (Encode(v.items[i], key) == Encode(w.items[i], key) <==> Same(v.items[i], w.items[i]))
    ensures EncodeItems(v, 0, key) == EncodeItems(w, 0, key) <==> Same(v, w)
  {
    AllItemsMean(v, key);
    AllItemsMean(w, key);
    SameItems(v, w);
    hide *;
    var x, y := EncodeItems(v, 0, key).value, EncodeItems(w, 0, key).value;
    forall i | 0 <= i < |x| && i < |y|
      ensures x[i] == y[i] <==> Same(v.items[i], w.items[i])
    {
      assert Encode(v.items[i], key) == Ok(x[i]) && Encode(w.items[i], key) == Ok(y[i]);
    }
    assert x == y <==> |x| == |y| && forall i :: 0 <= i < |x| ==> x[i] == y[i];
  }

  lemma AllItemsMean(v: Value, key: Text)
    requires v.Arr? && EncodeItems(v, 0, key).Ok?
    ensures var js := EncodeItems(v, 0, key).value;
            |js| == |v.items| && forall i :: 0 <= i < |js| ==> Encode(v.items[i], key) == Ok(js[i])
  {
    ItemsMean(v, 0, key);
    hide EncodeItems, Encode;
    var js := EncodeItems(v, 0, key).value;
    forall i | 0 <= i < |js| ensures Encode(v.items[i], key) == Ok(js[i]) { assert v.items[0 + i] == v.items[i]; }
  }

  lemma SameItems(v: Value, w: Value)
    requires v.Arr? && w.Arr?
    ensures Same(v, w) <==>
            |v.items| == |w.items| && forall i :: 0 <= i < |v.items| ==> Same(v.items[i], w.items[i])
  {
  }

  lemma EntriesIdentify(v: Value, w: Value, key: Text)
    requires v.Obj? && w.Obj? && DistinctKeys(v.entries) && DistinctKeys(w.entries)
    requires Within(Sort(v.entries, ByKey()), v) && Within(Sort(w.entries, ByKey()), w)
    requires EncodeEntries(v, Sort(v.entries, ByKey()), key).Ok? && EncodeEntries(w, Sort(w.entries, ByKey()), key).Ok?
    requires forall x, y :: x in v.entries && y in w.entries ==>
             (SameEncoding(x.value, y.value, key) <==> Same(x.value, y.value))
    ensures EncodeEntries(v, Sort(v.entries, ByKey()), key) == EncodeEntries(w, Sort(w.entries, ByKey()), key) <==>
            Same(v, w)
  {
    var a, b := Sort(v.entries, ByKey()), Sort(w.entries, ByKey());
    PairsIdentify(v, w, a, b, key);
    SameElements(v.entries, a);
    SameElements(w.entries, b);
    if Same(v, w) {
      SameGivesPairs(v, w, a, b);
    }
    if SamePairs(a, b) {
      PairsGiveSame(v, w, a, b);
    }
  }

  /** Entry by entry the same key and the same value. */
  predicate SamePairs(a: seq<Entry>, b: seq<Entry>) {
    |a| == |b| && forall i :: 0 <= i < |a| ==> a[i].key == b[i].key && Same(a[i].value, b[i].value)
  }

  lemma PairsIdentify(v: Value, w: Value, a: seq<Entry>, b: seq<Entry>, key: Text)
    requires Within(a, v) && Within(b, w) && EncodeEntries(v, a, key).Ok? && EncodeEntries(w, b, key).Ok?
    requires forall x, y :: x in v.entries && y in w.entries ==>
             (SameEncoding(x.value, y.value, key) <==> Same(x.value, y.value))
    ensures EncodeEntries(v, a, key) == EncodeEntries(w, b, key) <==> SamePairs(a, b)
  {
    EntriesMean(v, a, key);
    EntriesMean(w, b, key);
    var x, y := EncodeEntries(v, a, key).value, EncodeEntries(w, b, key).value;
    hide EncodeEntries, Encode, Same;
    if SamePairs(a, b) {
      forall i | 0 <= i < |a|
        ensures x[i] == y[i]
      {
        assert a[i] in v.entries && b[i] in w.entries && SameEncoding(a[i].value, b[i].value, key);
      }
      assert x == y;
    }
    if x == y {
      forall i | 0 <= i < |a| ensures a[i].key == b[i].key && Same(a[i].value, b[i].value) {
        assert a[i] in v.entries && b[i] in w.entries && x[i] == y[i];
        assert x[i].items[0] == y[i].items[0] && x[i].items[1] == y[i].items[1];
        assert SameEncoding(a[i].value, b[i].value, key);
      }
    }
  }

  lemma KeysOfSame(entries: seq<Entry>, others: seq<Entry>, a: seq<Entry>, b: seq<Entry>)
    requires (forall e :: e in a <==> e in entries) && (forall e :: e in b <==> e in others)
    requires forall i :: 0 <= i < |entries| ==> Lookup(others, entries[i].key).Some?
    ensures forall k :: k in KeysOf(a, Key()) ==> k in KeysOf(b, Key())
  {
    forall k | k in KeysOf(a, Key()) ensures k in KeysOf(b, Key()) {
      var m :| 0 <= m < |a| && a[m].key == k;
      assert a[m] in entries;
      LookupMeans(others, k);
      var n :| 0 <= n < |b| && b[n] == Entry(k, Lookup(others, k).value);
      assert KeysOf(b, Key())[n] == k;
    }
  }

  lemma SameGivesPairs(v: Value, w: Value, a: seq<Entry>, b: seq<Entry>)
    requires v.Obj? && w.Obj? && DistinctKeys(v.entries) && DistinctKeys(w.entries) && Same(v, w)
    requires a == Sort(v.entries, ByKey()) && b == Sort(w.entries, ByKey())
    ensures SamePairs(a, b)
  {
    SameElements(v.entries, a);
    SameElements(w.entries, b);
    SortedKeysIncrease(v.entries, Key());
    SortedKeysIncrease(w.entries, Key());
    hide Sort;
    KeysOfSame(v.entries, w.entries, a, b);
    KeysOfSame(w.entries, v.entries, b, a);
    IncreasingIsUnique(KeysOf(a, Key()), KeysOf(b, Key()));
    hide Increasing;
    assert |a| == |KeysOf(a, Key())| && |b| == |KeysOf(b, Key())|;
    forall i | 0 <= i < |a| ensures a[i].key == b[i].key && Same(a[i].value, b[i].value) {
      assert KeysOf(a, Key())[i] == a[i].key && KeysOf(b, Key())[i] == b[i].key;
      assert a[i] in v.entries && b[i] in w.entries;
      var k :| 0 <= k < |v.entries| && v.entries[k] == a[i];
      LookupOf(w.entries, b[i]);
    }
  }

  lemma PairsGiveSame(v: Value, w: Value, a: seq<Entry>, b: seq<Entry>)
    requires v.Obj? && w.Obj? && DistinctKeys(v.entries) && DistinctKeys(w.entries) && SamePairs(a, b)
    requires (forall e :: e in a <==> e in v.entries) && (forall e :: e in b <==> e in w.entries)
    ensures Same(v, w)
  {
    forall i | 0 <= i < |v.entries|
      ensures Lookup(w.entries, v.entries[i].key).Some?
              && Same(v.entries[i].value, Lookup(w.entries, v.entries[i].key).value)
    {
      assert v.entries[i] in a;
      var k :| 0 <= k < |a| && a[k] == v.entries[i];
      assert b[k] in w.entries;
      LookupOf(w.entries, b[k]);
    }
    forall j | 0 <= j < |w.entries| ensures Lookup(v.entries, w.entries[j].key).Some? {
      assert w.entries[j] in b;
      var k :| 0 <= k < |b| && b[k] == w.entries[j];
      assert a[k] in v.entries;
      LookupOf(v.entries, a[k]);
    }
  }

  // ----- what the encoding is made of

  /** The list of a name and a list. */
  predicate Named(j: Json, name: string) {
    j.JArr? && |j.items| == 2 && j.items[0] == JStr(Units(name)) && j.items[1].JArr?
  }

  /** A list of a text and something else. */
  predicate Pair(j: Json) {
    j.JArr? && |j.items| == 2 && j.items[0].JStr?
  }

  /** The list spells the value: the name of its type, then what it is, objects with their keys in increasing order. */
  predicate Spells(j: Json, v: Value)
    decreases j
  {
    match v
    case Undefined => j == JArr([JStr(Units("undefined"))])
    case Null => j == JArr([JStr(Units("null"))])
    case Str(text) => j == JArr([JStr(Units("string")), JStr(text)])
    case Bool(truth) => j == JArr([JStr(Units("boolean")), JBool(truth)])
    case Num(Finite(x)) => j == JArr([JStr(Units("number")), JNum(x)])
    case Num(NegativeZero) => j == JArr([JStr(Units("number")), JStr(Units("-0"))])
    case Num(NonFinite) => false
    case Alien => false
    case Arr(items) =>
      Named(j, "array")
      && var js := j.items[1].items;
         |js| == |items| && forall i :: 0 <= i < |js| ==> Spells(js[i], items[i])
    case Obj(entries) =>
      Named(j, "object")
      && var js := j.items[1].items;
         && |js| == |entries|
         && (forall i :: 0 <= i < |js| ==> Pair(js[i]))
         && (forall i, k :: 0 <= i < k < |js| ==> Precedes(js[i].items[0].text, js[k].items[0].text))
         && (forall i :: 0 <= i < |js| ==>
               var value := Lookup(entries, js[i].items[0].text);
               value.Some? && Spells(js[i].items[1], value.value))
  }

  predicate Precedes(a: Text, b: Text) {
    AtMost(a, b) && a != b
  }

  /** The encoding of a value spells it. */
  lemma {:induction false} EncodingSpells(v: Value, key: Text)
    requires WellFormed(v) && Encode(v, key).Ok?
    ensures Spells(Encode(v, key).value, v)
    decreases v
  {
    TagNames();
    hide Units;
    match v
    case Arr(items) =>
      AllItemsMean(v, key);
      forall i | 0 <= i < |items| ensures Spells(Encode(items[i], key).value, items[i]) {
        EncodingSpells(items[i], key);
      }
    case Obj(entries) =>
      var sorted := Sort(entries, ByKey());
      SortedWithin(v);
      EntriesMean(v, sorted, key);
      SameElements(entries, sorted);
      SortKeeps(entries, ByKey());
      forall i | 0 <= i < |sorted|
        ensures Lookup(entries, sorted[i].key) == Some(sorted[i].value)
        ensures Spells(Encode(sorted[i].value, key).value, sorted[i].value)
      {
        assert sorted[i] in entries;
        LookupOf(entries, sorted[i]);
        EncodingSpells(sorted[i].value, key);
      }
      KeysPrecede(entries, sorted);
      PairsSpell(v, sorted, Encode(v, key).value, key);
    case _ =>
  }

  lemma KeysPrecede(entries: seq<Entry>, sorted: seq<Entry>)
    requires DistinctKeys(entries) && sorted == Sort(entries, ByKey())
    ensures forall i, k :: 0 <= i < k < |sorted| ==> Precedes(sorted[i].key, sorted[k].key)
  {
    SortedKeysIncrease(entries, Key());
    var keys := KeysOf(sorted, Key());
    forall i, k | 0 <= i < k < |sorted| ensures Precedes(sorted[i].key, sorted[k].key) {
      assert keys[i] == sorted[i].key && keys[k] == sorted[k].key;
    }
  }

  lemma PairsSpell(v: Value, sorted: seq<Entry>, j: Json, key: Text)
    requires v.Obj? && |sorted| == |v.entries| && Named(j, "object") && |j.items[1].items| == |sorted|
    requires forall i :: 0 <= i < |sorted| ==> Encode(sorted[i].value, key).Ok?
    requires forall i :: 0 <= i < |sorted| ==>
             j.items[1].items[i] == JArr([JStr(sorted[i].key), Encode(sorted[i].value, key).value])
    requires forall i :: 0 <= i < |sorted| ==> Lookup(v.entries, sorted[i].key) == Some(sorted[i].value)
    requires forall i :: 0 <= i < |sorted| ==> Spells(Encode(sorted[i].value, key).value, sorted[i].value)
    requires forall i, k :: 0 <= i < k < |sorted| ==> Precedes(sorted[i].key, sorted[k].key)
    ensures Spells(j, v)
  {
    hide Units, Encode, Lookup, Precedes;
  }

  // ----- the defensive copy

  /** The frozen copy taken of a value before it is published; it fails on what cannot be encoded. */
  function Clone(v: Value, key: Text): Result<Value, ConfigError>
    decreases v, Rank(v)
  {
    match v
    case Num(NonFinite) => Err(ValueInvalid(key))
    case Alien => Err(ValueInvalid(key))
    case Arr(items) =>
      (match CloneItems(v, 0, key) case Ok(copies) => Ok(Arr(copies)) case Err(e) => Err(e))
    case Obj(entries) =>
      (match CloneEntries(v, 0, key) case Ok(copies) => Ok(Obj(copies)) case Err(e) => Err(e))
    case _ => Ok(v)
  }

  function CloneItems(v: Value, from: nat, key: Text): Result<seq<Value>, ConfigError>
    requires v.Arr? && from <= |v.items|
    decreases v, |v.items| - from
  {
    if from == |v.items| then Ok([])
    else match Clone(v.items[from], key)
      case Err(e) => Err(e)
      case Ok(first) =>
        match CloneItems(v, from + 1, key)
        case Err(e) => Err(e)
        case Ok(rest) => Ok([first] + rest)
  }

  function CloneEntries(v: Value, from: nat, key: Text): Result<seq<Entry>, ConfigError>
    requires v.Obj? && from <= |v.entries|
    decreases v, |v.entries| - from
  {
    if from == |v.entries| then Ok([])
    else match Clone(v.entries[from].value, key)
      case Err(e) => Err(e)
      case Ok(first) =>
        match CloneEntries(v, from + 1, key)
        case Err(e) => Err(e)
        case Ok(rest) => Ok([Entry(v.entries[from].key, first)] + rest)
  }

  /** A value is copied whole, with its key order, exactly when it can be encoded. */
  lemma {:induction false} CloneIsFaithful(v: Value, key: Text)
    ensures Clone(v, key) == if Encodable(v) then Ok(v) else Err(ValueInvalid(key))
    decreases v, Rank(v)
  {
    match v
    case Arr(items) =>
      CloneItemsIsFaithful(v, 0, key);
      assert items[0..] == items;
    case Obj(entries) =>
      CloneEntriesIsFaithful(v, 0, key);
      assert entries[0..] == entries;
    case _ =>
  }

  lemma {:induction false} CloneItemsIsFaithful(v: Value, from: nat, key: Text)
    requires v.Arr? && from <= |v.items|
    ensures CloneItems(v, from, key)
            == if forall i :: from <= i < |v.items| ==> Encodable(v.items[i]) then Ok(v.items[from..])
                                        else Err(ValueInvalid(key))
    decreases v, |v.items| - from
  {
    if from < |v.items| {
      CloneIsFaithful(v.items[from], key);
      CloneItemsIsFaithful(v, from + 1, key);
      assert [v.items[from]] + v.items[from + 1..] == v.items[from..];
    }
  }

  lemma {:induction false} CloneEntriesIsFaithful(v: Value, from: nat, key: Text)
    requires v.Obj? && from <= |v.entries|
    ensures CloneEntries(v, from, key)
            == if forall i :: from <= i < |v.entries| ==> Encodable(v.entries[i].value) then Ok(v.entries[from..])
                                          else Err(ValueInvalid(key))
    decreases v, |v.entries| - from
  {
    if from < |v.entries| {
      CloneIsFaithful(v.entries[from].value, key);
      CloneEntriesIsFaithful(v, from + 1, key);
      assert [v.entries[from]] + v.entries[from + 1..] == v.entries[from..];
    }
  }
}
