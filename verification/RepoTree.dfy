/** The bounded tree listing of a repository: a depth- and count-limited walk that stops at the first line too many. */
module RepoTree {
  import opened CodeUnits
  import opened Directories
  import opened Results
  import opened Sorting

  /** The blocked-path rule and the collation of names belong to code outside this model. */
  datatype Options = Options(maxDepth: nat, maxEntries: nat, includeHidden: bool,
                             blocked: seq<Text> -> bool, collate: (Text, Text) -> bool)

  /** What the unbounded walk does, in order: show a line, or fail to read a folder. */
  datatype Mark = Shown(line: Text) | Unlisted

  datatype Listed = Listed(lines: seq<Text>, truncated: bool, failed: bool)

  datatype Tree = Tree(lines: seq<Text>, entries: nat, truncated: bool)

  datatype TreeError = ReadFailed

  const BRANCH: Text := [0x251C, 0x2500, 0x2500, 0x20]
  const LAST_BRANCH: Text := [0x2514, 0x2500, 0x2500, 0x20]
  const TRUNK: Text := [0x2502, 0x20, 0x20, 0x20]
  const NO_TRUNK: Text := [0x20, 0x20, 0x20, 0x20]
  const DOT := 0x2E
  const SLASH: Text := [0x2F]

  predicate IsHidden(name: Text) {
    name != [] && name[0] == DOT && name != [DOT] && name != [DOT, DOT]
  }

  /** Folders before everything else, each group in collation order. */
  function FoldersFirst(o: Options): (Entry, Entry) -> bool {
    (a: Entry, b: Entry) => if a.Folder? != b.Folder? then a.Folder? else o.collate(a.name, b.name)
  }

  function Visible(entries: seq<Entry>, rel: seq<Text>, o: Options): seq<Entry> {
    if entries == [] then []
    else (if (o.includeHidden || !IsHidden(entries[0].name)) && !o.blocked(rel + [entries[0].name]) then [entries[0]]
          else [])
         + Visible(entries[1..], rel, o)
  }

  function Listing(d: Directory, rel: seq<Text>, o: Options): seq<Entry> {
    Sort(Visible(d.entries, rel, o), FoldersFirst(o))
  }

  lemma {:induction false} VisibleIsPart(entries: seq<Entry>, rel: seq<Text>, o: Options)
    ensures |Visible(entries, rel, o)| <= |entries| && forall e :: e in Visible(entries, rel, o) ==> e in entries
  {
    if entries != [] { VisibleIsPart(entries[1..], rel, o); }
  }

  /** Shown is every entry that is not blocked, and hidden ones only when asked for; "." and ".." are not hidden. */
  lemma {:induction false} VisibleExactly(entries: seq<Entry>, rel: seq<Text>, o: Options, e: Entry)
    ensures e in Visible(entries, rel, o) <==>
            && e in entries
            && !o.blocked(rel + [e.name])
            && (o.includeHidden || e.name == [] || e.name[0] != 0x2E || e.name == [0x2E] || e.name == [0x2E, 0x2E])
  {
    if entries != [] { VisibleExactly(entries[1..], rel, o, e); }
  }

  /** What a folder lists is what is visible in it, each entry as often. */
  lemma ListingExactly(d: Directory, rel: seq<Text>, o: Options)
    ensures multiset(Listing(d, rel, o)) == multiset(Visible(d.entries, rel, o))
  {
    SortKeeps(Visible(d.entries, rel, o), FoldersFirst(o));
  }

  /** With a collation that is an order, folders come before everything else, each group in collation order. */
  lemma ListingOrdered(d: Directory, rel: seq<Text>, o: Options)
    requires forall a, b :: o.collate(a, b) || o.collate(b, a)
    requires forall a, b, c :: o.collate(a, b) && o.collate(b, c) ==> o.collate(a, c)
    ensures var listing := Listing(d, rel, o);
            forall i, j :: 0 <= i < j < |listing| ==>
              && (listing[j].Folder? ==> listing[i].Folder?)
              && ((listing[i].Folder? <==> listing[j].Folder?) ==> o.collate(listing[i].name, listing[j].name))
  {
    var listing := Listing(d, rel, o);
    SortIsOrdered(Visible(d.entries, rel, o), FoldersFirst(o));
    forall i, j | 0 <= i < j < |listing| ensures FoldersFirst(o)(listing[i], listing[j]) {}
  }

  lemma ListingWithin(d: Directory, rel: seq<Text>, o: Options)
    ensures Within(Listing(d, rel, o), d)
  {
    var visible := Visible(d.entries, rel, o);
    VisibleIsPart(d.entries, rel, o);
    SortKeeps(visible, FoldersFirst(o));
    forall e | e in Listing(d, rel, o) ensures e in d.entries { SortedIn(visible, FoldersFirst(o), e); }
  }

  function Line(entry: Entry, isLast: bool, prefix: Text): Text {
    prefix + (if isLast then LAST_BRANCH else BRANCH) + entry.name + if entry.Folder? then SLASH else []
  }

  function ChildPrefix(isLast: bool, prefix: Text): Text {
    prefix + if isLast then NO_TRUNK else TRUNK
  }

  // ----- the walk without the limit on entries

  function Marks(d: Directory, rel: seq<Text>, depth: nat, prefix: Text, o: Options): seq<Mark>
    decreases d, |d.entries| + 1
  {
    if depth >= o.maxDepth then []
    else if !d.access.Readable? then [Unlisted]
    else
      ListingWithin(d, rel, o);
      RestMarks(d, Listing(d, rel, o), rel, depth, prefix, o)
  }

  function RestMarks(d: Directory, rest: seq<Entry>, rel: seq<Text>, depth: nat, prefix: Text, o: Options): seq<Mark>
    requires Within(rest, d)
    decreases d, |rest|
  {
    if rest == [] then []
    else
      TailWithin(rest, d);
      [Shown(Line(rest[0], |rest| == 1, prefix))]
      + (if rest[0].Folder?
         then Marks(rest[0].contents, rel + [rest[0].name], depth + 1, ChildPrefix(|rest| == 1, prefix), o) else [])
      + RestMarks(d, rest[1..], rel, depth, prefix, o)
  }

  /**
   * The line of the entry at the end of a path, each step of which is a place in the listing of the folder before: a
   * trunk for every folder on the way that others follow, a branch, the name, and a slash behind folders.
   */
  function Drawn(d: Directory, rel: seq<Text>, path: seq<nat>, o: Options): Option<Text> {
    if path == [] || !d.access.Readable? then None
    else
      var entries := Listing(d, rel, o);
      if path[0] >= |entries| then None
      else
        var entry, isLast := entries[path[0]], path[0] == |entries| - 1;
        ListingWithin(d, rel, o);
        assert entry in entries;
        if |path| == 1 then
          Some(Units(if isLast then "\U{2514}\U{2500}\U{2500} " else "\U{251C}\U{2500}\U{2500} ") + entry.name
               + if entry.Folder? then Units("/") else [])
        else if !entry.Folder? then None
        else
          match Drawn(entry.contents, rel + [entry.name], path[1..], o)
          case None => None
          case Some(line) => Some(Units(if isLast then "    " else "\U{2502}   ") + line)
  }

  lemma GlyphsSpelled()
    ensures BRANCH == Units("\U{251C}\U{2500}\U{2500} ") && LAST_BRANCH == Units("\U{2514}\U{2500}\U{2500} ")
    ensures TRUNK == Units("\U{2502}   ") && NO_TRUNK == Units("    ") && SLASH == Units("/")
  {
    hide Units;
    UnitsSpelled("\U{251C}\U{2500}\U{2500} ", BRANCH);
    UnitsSpelled("\U{2514}\U{2500}\U{2500} ", LAST_BRANCH);
    UnitsSpelled("\U{2502}   ", TRUNK);
    UnitsSpelled("    ", NO_TRUNK);
    UnitsSpelled("/", SLASH);
  }

  /** The path has at most so many steps, the first one at least from, and leads to this line. */
  predicate Leads(d: Directory, rel: seq<Text>, from: nat, steps: int, prefix: Text, line: Text, path: seq<nat>,
                  o: Options)
  {
    && 0 < |path| <= steps && path[0] >= from
    && Drawn(d, rel, path, o).Some? && line == prefix + Drawn(d, rel, path, o).value
  }

  ghost predicate Reached(d: Directory, rel: seq<Text>, from: nat, steps: int, prefix: Text, line: Text, o: Options) {
    exists path :: Leads(d, rel, from, steps, prefix, line, path, o)
  }

  /** The line is drawn by the next entry alone, or reached through it, or behind it. */
  ghost predicate ByNext(d: Directory, rel: seq<Text>, from: nat, steps: int, prefix: Text, line: Text, o: Options)
    requires from < |Listing(d, rel, o)|
  {
    var entry, isLast := Listing(d, rel, o)[from], from == |Listing(d, rel, o)| - 1;
    || line == Line(entry, isLast, prefix)
    || (entry.Folder?
        && Reached(entry.contents, rel + [entry.name], 0, steps - 1, ChildPrefix(isLast, prefix), line, o))
    || Reached(d, rel, from + 1, steps, prefix, line, o)
  }

  lemma ReachedByNext(d: Directory, rel: seq<Text>, from: nat, steps: int, prefix: Text, line: Text, o: Options)
    requires d.access.Readable? && from < |Listing(d, rel, o)| && steps > 0
    ensures Reached(d, rel, from, steps, prefix, line, o) <==> ByNext(d, rel, from, steps, prefix, line, o)
  {
    hide Listing, Drawn, Line, ChildPrefix;
    if path :| Leads(d, rel, from, steps, prefix, line, path, o) {
      PathByNext(d, rel, from, steps, prefix, line, path, o);
    }
    if ByNext(d, rel, from, steps, prefix, line, o) { NextIsReached(d, rel, from, steps, prefix, line, o); }
  }

  lemma PathByNext(d: Directory, rel: seq<Text>, from: nat, steps: int, prefix: Text, line: Text, path: seq<nat>,
                   o: Options)
    requires d.access.Readable? && from < |Listing(d, rel, o)| && Leads(d, rel, from, steps, prefix, line, path, o)
    ensures ByNext(d, rel, from, steps, prefix, line, o)
  {
    hide Listing, Drawn, Line, ChildPrefix;
    var entry, isLast := Listing(d, rel, o)[from], from == |Listing(d, rel, o)| - 1;
    if path[0] != from {
      assert Leads(d, rel, from + 1, steps, prefix, line, path, o);
    } else if |path| == 1 {
      assert path == [from];
      DrawnAlone(d, rel, from, prefix, o);
    } else {
      DrawnThrough(d, rel, path, prefix, o);
      assert Leads(entry.contents, rel + [entry.name], 0, steps - 1, ChildPrefix(isLast, prefix), line, path[1..], o);
    }
  }

  lemma NextIsReached(d: Directory, rel: seq<Text>, from: nat, steps: int, prefix: Text, line: Text, o: Options)
    requires d.access.Readable? && from < |Listing(d, rel, o)| && steps > 0
    requires ByNext(d, rel, from, steps, prefix, line, o)
    ensures Reached(d, rel, from, steps, prefix, line, o)
  {
    hide Listing, Drawn, Line, ChildPrefix;
    var entry, isLast := Listing(d, rel, o)[from], from == |Listing(d, rel, o)| - 1;
    var inside, below, behind := ChildPrefix(isLast, prefix), steps - 1, from + 1;
    if line == Line(entry, isLast, prefix) {
      DrawnAlone(d, rel, from, prefix, o);
      assert Leads(d, rel, from, steps, prefix, line, [from], o);
    } else if path :| Leads(d, rel, behind, steps, prefix, line, path, o) {
      assert Leads(d, rel, from, steps, prefix, line, path, o);
    } else {
      var contents, rel' := entry.contents, rel + [entry.name];
      var path :| Leads(contents, rel', 0, below, inside, line, path, o);
      DrawnThrough(d, rel, [from] + path, prefix, o);
      assert ([from] + path)[1..] == path;
      assert Leads(d, rel, from, steps, prefix, line, [from] + path, o);
    }
  }

  lemma DrawnAlone(d: Directory, rel: seq<Text>, k: nat, prefix: Text, o: Options)
    requires d.access.Readable? && k < |Listing(d, rel, o)|
    ensures var entry, isLast := Listing(d, rel, o)[k], k == |Listing(d, rel, o)| - 1;
            Drawn(d, rel, [k], o).Some? && prefix + Drawn(d, rel, [k], o).value == Line(entry, isLast, prefix)
  {
    GlyphsSpelled();
    hide Units, Listing;
  }

  lemma DrawnThrough(d: Directory, rel: seq<Text>, path: seq<nat>, prefix: Text, o: Options)
    requires d.access.Readable? && |path| > 1 && path[0] < |Listing(d, rel, o)|
    ensures var entry, isLast := Listing(d, rel, o)[path[0]], path[0] == |Listing(d, rel, o)| - 1;
            if !entry.Folder? then Drawn(d, rel, path, o).None?
            else
              var inner := Drawn(entry.contents, rel + [entry.name], path[1..], o);
              && (Drawn(d, rel, path, o).Some? <==> inner.Some?)
              && (inner.Some? ==>
                  prefix + Drawn(d, rel, path, o).value == ChildPrefix(isLast, prefix) + inner.value)
  {
    var entry, isLast := Listing(d, rel, o)[path[0]], path[0] == |Listing(d, rel, o)| - 1;
    DrawnBelow(d, rel, path, o);
    if entry.Folder? && Drawn(entry.contents, rel + [entry.name], path[1..], o).Some? {
      hide Drawn, Listing;
      Regroup(prefix, if isLast then NO_TRUNK else TRUNK,
              Drawn(entry.contents, rel + [entry.name], path[1..], o).value);
    }
  }

  lemma DrawnBelow(d: Directory, rel: seq<Text>, path: seq<nat>, o: Options)
    requires d.access.Readable? && |path| > 1 && path[0] < |Listing(d, rel, o)|
    ensures var entry, isLast := Listing(d, rel, o)[path[0]], path[0] == |Listing(d, rel, o)| - 1;
            Drawn(d, rel, path, o) ==
            if !entry.Folder? then None
            else match Drawn(entry.contents, rel + [entry.name], path[1..], o)
              case None => None
              case Some(line) => Some((if isLast then NO_TRUNK else TRUNK) + line)
  {
    GlyphsSpelled();
    hide Units, Listing, Within;
  }

  /** The full walk shows exactly the lines of the paths within the depth, each drawn by its path alone. */
  lemma {:induction false} LinesAreDrawn(d: Directory, rel: seq<Text>, depth: nat, prefix: Text, line: Text, o: Options)
    ensures Shown(line) in Marks(d, rel, depth, prefix, o) <==>
            Reached(d, rel, 0, o.maxDepth - depth, prefix, line, o)
    decreases d, |d.entries| + 1
  {
    if depth < o.maxDepth && d.access.Readable? {
      ListingWithin(d, rel, o);
      RestIsDrawn(d, Listing(d, rel, o), rel, depth, prefix, line, o);
    }
  }

  lemma {:induction false} RestIsDrawn(d: Directory, rest: seq<Entry>, rel: seq<Text>, depth: nat, prefix: Text,
                                       line: Text, o: Options)
    requires d.access.Readable? && depth < o.maxDepth && Within(rest, d) && |rest| <= |Listing(d, rel, o)|
    requires rest == Listing(d, rel, o)[|Listing(d, rel, o)| - |rest|..]
    ensures Shown(line) in RestMarks(d, rest, rel, depth, prefix, o) <==>
            Reached(d, rel, |Listing(d, rel, o)| - |rest|, o.maxDepth - depth, prefix, line, o)
    decreases d, |rest|
  {
    hide Listing, Line, ChildPrefix;
    var from := |Listing(d, rel, o)| - |rest|;
    if rest != [] {
      TailWithin(rest, d);
      assert rest[0] == Listing(d, rel, o)[from] && rest[0] in d.entries;
      if rest[0].Folder? {
        LinesAreDrawn(rest[0].contents, rel + [rest[0].name], depth + 1, ChildPrefix(|rest| == 1, prefix), line, o);
      }
      RestIsDrawn(d, rest[1..], rel, depth, prefix, line, o);
      ReachedByNext(d, rel, from, o.maxDepth - depth, prefix, line, o);
    }
  }

  function LinesOf(marks: seq<Mark>): seq<Text> {
    if marks == [] then []
    else (if marks[0].Shown? then [marks[0].line] else []) + LinesOf(marks[1..])
  }

  /** What the walk does before the line that would be one too many. */
  function UpTo(marks: seq<Mark>, room: nat): seq<Mark> {
    if marks == [] || (marks[0].Shown? && room == 0) then []
    else [marks[0]] + UpTo(marks[1..], if marks[0].Shown? then room - 1 else room)
  }

  // ----- the walk with the limit

  function Note(t: Listed, mark: Mark, maxEntries: nat): Listed {
    if t.failed || t.truncated then t
    else match mark
      case Unlisted => t.(failed := true)
      case Shown(line) => if |t.lines| >= maxEntries then t.(truncated := true) else t.(lines := t.lines + [line])
  }

  function Noting(maxEntries: nat): (Listed, Mark) -> Listed {
    (t: Listed, mark: Mark) => Note(t, mark, maxEntries)
  }

  lemma StoppedStays(t: Listed, marks: seq<Mark>, maxEntries: nat)
    requires t.failed || t.truncated
    ensures Fold(t, marks, Noting(maxEntries)) == t
  {
    forall m ensures Noting(maxEntries)(t, m) == t {}
    FoldStays(t, marks, Noting(maxEntries));
  }

  /** Failed exactly when a folder met before the limit cannot be read, otherwise the first lines of the full walk. */
  predicate ListsTheFirst(r: Listed, lines: seq<Text>, marks: seq<Mark>, room: nat) {
    && (r.failed <==> Unlisted in UpTo(marks, room))
    && (!r.failed ==> r == Listed(lines + First(LinesOf(marks), room), |LinesOf(marks)| > room, false))
  }

  /**
   * The limited walk fails exactly when a folder met before the limit cannot be read; otherwise it lists the first
   * lines of the full walk and reports truncation exactly when the full walk has more.
   */
  lemma {:induction false} WalkListsTheFirst(t: Listed, marks: seq<Mark>, maxEntries: nat)
    requires !t.failed && !t.truncated && |t.lines| <= maxEntries
    ensures ListsTheFirst(Fold(t, marks, Noting(maxEntries)), t.lines, marks, maxEntries - |t.lines|)
    decreases |marks|
  {
    var room := maxEntries - |t.lines|;
    if marks == [] {
      assert t.lines + [] == t.lines;
    } else if marks[0].Unlisted? || room == 0 {
      WalkStops(t, marks, maxEntries);
    } else {
      WalkListsTheFirst(Note(t, marks[0], maxEntries), marks[1..], maxEntries);
      ShownIsListed(Fold(t, marks, Noting(maxEntries)), t.lines, marks, room);
      hide ListsTheFirst;
    }
  }

  lemma WalkStops(t: Listed, marks: seq<Mark>, maxEntries: nat)
    requires !t.failed && !t.truncated && |t.lines| <= maxEntries
    requires marks != [] && (marks[0].Unlisted? || |t.lines| == maxEntries)
    ensures ListsTheFirst(Fold(t, marks, Noting(maxEntries)), t.lines, marks, maxEntries - |t.lines|)
  {
    StoppedStays(Note(t, marks[0], maxEntries), marks[1..], maxEntries);
    assert t.lines + First(LinesOf(marks), 0) == t.lines;
  }

  /** A line that is shown comes before those of the rest. */
  lemma ShownIsListed(r: Listed, lines: seq<Text>, marks: seq<Mark>, room: nat)
    requires marks != [] && marks[0].Shown? && room > 0
    requires ListsTheFirst(r, lines + [marks[0].line], marks[1..], room - 1)
    ensures ListsTheFirst(r, lines, marks, room)
  {
    var rest := UpTo(marks[1..], room - 1);
    assert Unlisted in [marks[0]] + rest <==> Unlisted in rest;
    OneMoreFits(lines, marks[0].line, LinesOf(marks[1..]), room - 1);
  }

  lemma NotingIsNote(t: Listed, mark: Mark, maxEntries: nat)
    ensures Noting(maxEntries)(t, mark) == Note(t, mark, maxEntries)
  {
  }

  lemma RestMarksFirst(d: Directory, rest: seq<Entry>, rel: seq<Text>, depth: nat, prefix: Text, o: Options)
    requires Within(rest, d) && rest != []
    ensures Within(rest[1..], d)
    ensures
      var mark := Shown(Line(rest[0], |rest| == 1, prefix));
      var later := RestMarks(d, rest[1..], rel, depth, prefix, o);
      RestMarks(d, rest, rel, depth, prefix, o)
      == if rest[0].Folder? then
           [mark] + Marks(rest[0].contents, rel + [rest[0].name], depth + 1, ChildPrefix(|rest| == 1, prefix), o)
           + later
         else [mark] + later
  {
    var mark := Shown(Line(rest[0], |rest| == 1, prefix));
    assert [mark] + [] == [mark];
  }

  /** What one entry does to the listing before the rest of its folder is walked. */
  lemma OneEntry(t: Listed, d: Directory, rest: seq<Entry>, rel: seq<Text>, depth: nat, prefix: Text, o: Options)
    requires Within(rest, d) && rest != [] && !t.failed && !t.truncated
    ensures Within(rest[1..], d)
    ensures
      var note := Noting(o.maxEntries);
      var later := RestMarks(d, rest[1..], rel, depth, prefix, o);
      var shown := t.(lines := t.lines + [Line(rest[0], |rest| == 1, prefix)]);
      Fold(t, RestMarks(d, rest, rel, depth, prefix, o), note)
      == if |t.lines| >= o.maxEntries then t.(truncated := true)
         else if rest[0].Folder? then
           Fold(Fold(shown,
                     Marks(rest[0].contents, rel + [rest[0].name], depth + 1, ChildPrefix(|rest| == 1, prefix), o),
                     note), later, note)
         else Fold(shown, later, note)
  {
    var note := Noting(o.maxEntries);
    var later := RestMarks(d, rest[1..], rel, depth, prefix, o);
    var mark := Shown(Line(rest[0], |rest| == 1, prefix));
    RestMarksFirst(d, rest, rel, depth, prefix, o);
    NotingIsNote(t, mark, o.maxEntries);
    hide Line, Fold, Marks, RestMarks, ChildPrefix, Within, Noting;
    if rest[0].Folder? {
      var inner := Marks(rest[0].contents, rel + [rest[0].name], depth + 1, ChildPrefix(|rest| == 1, prefix), o);
      Regroup([mark], inner, later);
      FoldOne(t, mark, inner + later, note);
      if |t.lines| >= o.maxEntries {
        StoppedStays(t.(truncated := true), inner + later, o.maxEntries);
      } else {
        FoldConcat(t.(lines := t.lines + [mark.line]), inner, later, note);
      }
    } else {
      FoldOne(t, mark, later, note);
      if |t.lines| >= o.maxEntries { StoppedStays(t.(truncated := true), later, o.maxEntries); }
    }
  }

  lemma NothingToWalk(t: Listed, d: Directory, rel: seq<Text>, depth: nat, prefix: Text, o: Options)
    ensures Within([], d) && Fold(t, RestMarks(d, [], rel, depth, prefix, o), Noting(o.maxEntries)) == t
  {
  }

  /** The variables that the recursive walk shares. */
  class Walker {
    var lines: seq<Text>
    var entries: nat
    var truncated: bool

    constructor ()
      ensures Valid() && lines == [] && !truncated
    {
      lines, entries, truncated := [], 0, false;
    }

    predicate Valid()
      reads this
    {
      entries == |lines|
    }

    method Walk(d: Directory, rel: seq<Text>, depth: nat, prefix: Text, o: Options) returns (ok: bool)
      requires Valid()
      modifies this
      ensures Valid()
      ensures Listed(lines, truncated, !ok)
              == Fold(Listed(old(lines), old(truncated), false), Marks(d, rel, depth, prefix, o), Noting(o.maxEntries))
      decreases d
    {
      ghost var start := Listed(lines, truncated, false);
      if truncated { StoppedStays(start, Marks(d, rel, depth, prefix, o), o.maxEntries); }
      if depth >= o.maxDepth || truncated { return true; }
      if !d.access.Readable? { return false; }
      var dirents := Listing(d, rel, o);
      ListingWithin(d, rel, o);
      assert dirents[0..] == dirents;
      ghost var after := Fold(start, Marks(d, rel, depth, prefix, o), Noting(o.maxEntries));
      hide Listing, Noting, Fold, Marks, RestMarks, Within, Line, ChildPrefix;
      for i := 0 to |dirents|
        invariant Valid() && !truncated
        invariant Within(dirents[i..], d)
        invariant Fold(Listed(lines, truncated, false), RestMarks(d, dirents[i..], rel, depth, prefix, o),
                       Noting(o.maxEntries)) == after
      {
        assert dirents[i..][0] == dirents[i] && dirents[i..][1..] == dirents[i + 1..];
        TailWithin(dirents[i..], d);
        OneEntry(Listed(lines, truncated, false), d, dirents[i..], rel, depth, prefix, o);
        ghost var later := RestMarks(d, dirents[i + 1..], rel, depth, prefix, o);
        if entries >= o.maxEntries {
          truncated := true;
          return true;
        }
        var entry := dirents[i];
        var isLast := i == |dirents| - 1;
        lines := lines + [Line(entry, isLast, prefix)];
        entries := entries + 1;
        if entry.Folder? {
          ok := Walk(entry.contents, rel + [entry.name], depth + 1, ChildPrefix(isLast, prefix), o);
          if !ok || truncated { StoppedStays(Listed(lines, truncated, !ok), later, o.maxEntries); }
          if !ok { return false; }
        }
        if truncated { return true; }
      }
      NothingToWalk(Listed(lines, truncated, false), d, rel, depth, prefix, o);
      ok := true;
    }
  }

  /** Lists the first entries of the full walk under the title; truncated exactly when the full walk has more. */
  method RepoTreeBody(d: Directory, rel: seq<Text>, title: Text, o: Options) returns (r: Result<Tree, TreeError>)
    ensures r.Err? <==> Unlisted in UpTo(Marks(d, rel, 0, [], o), o.maxEntries)
    ensures r.Ok? ==>
      var full := LinesOf(Marks(d, rel, 0, [], o));
      r.value == Tree([title] + First(full, o.maxEntries), |First(full, o.maxEntries)|, |full| > o.maxEntries)
  {
    var walker := new Walker();
    var ok := walker.Walk(d, rel, 0, [], o);
    WalkListsTheFirst(Listed([], false, false), Marks(d, rel, 0, [], o), o.maxEntries);
    hide Fold, Marks, Noting, LinesOf, UpTo, First;
    if !ok { return Err(ReadFailed); }
    assert [] + First(LinesOf(Marks(d, rel, 0, [], o)), o.maxEntries)
           == First(LinesOf(Marks(d, rel, 0, [], o)), o.maxEntries);
    r := Ok(Tree([title] + walker.lines, walker.entries, walker.truncated));
  }
}
