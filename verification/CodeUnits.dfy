/** Texts as the program compares and measures them: sequences of UTF-16 code units. */
module CodeUnits {
  /** Surrogates included, paired or not. */
  type Unit = x: int | 0 <= x < 0x1_0000
  type Text = seq<Unit>

  /** A character beyond the first plane is a pair of surrogates. */
  function UnitsOf(c: char): Text {
    var n := c as int;
    if n < 0x1_0000 then [n] else [0xD800 + (n - 0x1_0000) / 0x400, 0xDC00 + (n - 0x1_0000) % 0x400]
  }

  function Units(s: string): Text {
    if s == "" then [] else UnitsOf(s[0]) + Units(s[1..])
  }

  /** Characters of the first plane are one code unit each. */
  lemma {:induction false} UnitsSpelled(s: string, text: Text)
    requires |text| == |s| && forall i :: 0 <= i < |s| ==> text[i] == s[i] as int
    ensures Units(s) == text
  {
    if s != "" {
      assert text[0] == s[0] as int;
      assert forall i :: 0 <= i < |s[1..]| ==> text[1..][i] == text[i + 1] && s[1..][i] == s[i + 1];
      UnitsSpelled(s[1..], text[1..]);
      assert text == [text[0]] + text[1..];
    }
  }

  /** The order of texts by code units, a prefix before its extensions. */
  predicate AtMost(a: Text, b: Text) {
    a == [] || (b != [] && (a[0] < b[0] || (a[0] == b[0] && AtMost(a[1..], b[1..]))))
  }

  /** The first differing code unit decides; with none, the shorter text comes first. */
  lemma {:induction false} FirstDifferenceDecides(prefix: Text, a: Text, b: Text)
    ensures AtMost(prefix, prefix + a)
    ensures a != [] ==> !AtMost(prefix + a, prefix)
    ensures a != [] && b != [] && a[0] < b[0] ==> AtMost(prefix + a, prefix + b) && !AtMost(prefix + b, prefix + a)
  {
    if prefix == [] {
      assert [] + a == a && [] + b == b;
    } else {
      FirstDifferenceDecides(prefix[1..], a, b);
      assert (prefix + a)[1..] == prefix[1..] + a && (prefix + b)[1..] == prefix[1..] + b;
    }
  }

  lemma {:induction false} AtMostIsTotal(a: Text, b: Text)
    ensures AtMost(a, b) || AtMost(b, a)
  {
    if a != [] && b != [] && a[0] == b[0] { AtMostIsTotal(a[1..], b[1..]); }
  }

  lemma {:induction false} AtMostIsTransitive(a: Text, b: Text, c: Text)
    requires AtMost(a, b) && AtMost(b, c)
    ensures AtMost(a, c)
  {
    if a != [] && a[0] == b[0] == c[0] { AtMostIsTransitive(a[1..], b[1..], c[1..]); }
  }

  lemma {:induction false} AtMostIsAntisymmetric(a: Text, b: Text)
    requires AtMost(a, b) && AtMost(b, a)
    ensures a == b
  {
    if a != [] {
      AtMostIsAntisymmetric(a[1..], b[1..]);
      assert a == [a[0]] + a[1..] && b == [b[0]] + b[1..];
    }
  }

  predicate Increasing(texts: seq<Text>) {
    forall i, j :: 0 <= i < j < |texts| ==> AtMost(texts[i], texts[j]) && texts[i] != texts[j]
  }

  /** Strictly increasing texts are determined by which texts there are. */
  lemma {:induction false} IncreasingIsUnique(a: seq<Text>, b: seq<Text>)
    requires Increasing(a) && Increasing(b) && forall t :: t in a <==> t in b
    ensures a == b
  {
    if a == [] {
      if b != [] { LeastText(b, b[0]); }
    } else {
      assert a[0] in b;
      LeastText(a, b[0]);
      LeastText(b, a[0]);
      AtMostIsAntisymmetric(a[0], b[0]);
      TailTexts(a);
      TailTexts(b);
      IncreasingIsUnique(a[1..], b[1..]);
      assert a == [a[0]] + a[1..] && b == [b[0]] + b[1..];
    }
  }

  lemma LeastText(a: seq<Text>, t: Text)
    requires Increasing(a)
    ensures t in a ==> AtMost(a[0], t)
  {
    AtMostIsTotal(t, t);
  }

  lemma TailTexts(a: seq<Text>)
    requires Increasing(a) && a != []
    ensures Increasing(a[1..]) && forall t :: t in a[1..] <==> t in a && t != a[0]
  {
    forall t | t in a && t != a[0] ensures t in a[1..] {
      var k :| 0 <= k < |a| && a[k] == t;
      assert a[1..][k - 1] == t;
    }
    forall t | t in a[1..] ensures t in a && t != a[0] {
      var k :| 0 <= k < |a[1..]| && a[1..][k] == t;
      assert a[k + 1] == t;
    }
    forall i, j | 0 <= i < j < |a[1..]| ensures AtMost(a[1..][i], a[1..][j]) && a[1..][i] != a[1..][j] {
      assert a[1..][i] == a[i + 1] && a[1..][j] == a[j + 1];
    }
  }
}
