/** Finding session files under the active and archived roots within limits, and indexing one session per id. */
module SessionFiles {
  import opened CodeUnits
  import opened Directories
  import opened Sorting

  datatype Storage = Active | Archived

  datatype Candidate = Candidate(path: seq<Text>, storage: Storage)

  datatype Collected = Collected(files: seq<Candidate>, truncated: bool)

  /** What the walk meets, in order: a session file, a folder it may enter, or a place it may not look into. */
  datatype Mark = Found(file: Candidate) | Entered | Barred

  const JSONL: Text := [0x2E, 0x6A, 0x73, 0x6F, 0x6E, 0x6C]

  predicate IsJsonl(name: Text) {
    |name| >= |JSONL| && name[|name| - |JSONL|..] == JSONL
  }

  /** Session files are those whose name ends in .jsonl, in lower case. */
  lemma JsonlExactly(name: Text)
    ensures IsJsonl(name) <==> exists stem: Text :: name == stem + Units(".jsonl")
  {
    hide Units;
    UnitsSpelled(".jsonl", JSONL);
    if IsJsonl(name) { assert name == name[..|name| - |JSONL|] + JSONL; }
  }

  function Name(): Entry -> Text {
    (e: Entry) => e.name
  }

  function ByName(): (Entry, Entry) -> bool {
    OnKeys(Name())
  }

  /** The order in which a directory is visited does not depend on the order in which it is read. */
  lemma VisitOrderIsFixed(entries: seq<Entry>, reread: seq<Entry>)
    requires DistinctBy(entries, Name()) && multiset(entries) == multiset(reread)
    ensures Sort(entries, ByName()) == Sort(reread, ByName())
  {
    SortForgetsOrder(entries, reread, Name());
  }

  // ----- the depth-limited preorder of a root

  lemma SortedWithin(d: Directory)
    ensures Within(Sort(d.entries, ByName()), d)
  {
    SortKeeps(d.entries, ByName());
    forall e | e in Sort(d.entries, ByName()) ensures e in d.entries { SortedIn(d.entries, ByName(), e); }
  }

  function Trace(d: Directory, path: seq<Text>, storage: Storage, maxDepth: nat, depth: nat): seq<Mark>
    decreases d, |d.entries| + 1
  {
    match d.access
    case Missing => []
    case Denied => [Barred]
    case Readable =>
      SortedWithin(d);
      TraceRest(d, Sort(d.entries, ByName()), path, storage, maxDepth, depth)
  }

  function TraceRest(d: Directory, rest: seq<Entry>, path: seq<Text>, storage: Storage, maxDepth: nat, depth: nat)
    : seq<Mark>
    requires Within(rest, d)
    decreases d, |rest|
  {
    if rest == [] then []
    else
      assert rest[0] in d.entries;
      (match rest[0]
       case File(name) => if IsJsonl(name) then [Found(Candidate(path + [name], storage))] else []
       case Folder(name, contents) =>
         if depth >= maxDepth then [Barred]
           else [Entered] + Trace(contents, path + [name], storage, maxDepth, depth + 1)
       case Other(_) => [])
      + TraceRest(d, rest[1..], path, storage, maxDepth, depth)
  }

  /** Every session file under a root, at any depth, whether or not the walk can read its folder. */
  function AllFiles(d: Directory, path: seq<Text>, storage: Storage): seq<Candidate>
    decreases d, |d.entries| + 1
  {
    if d.access.Missing? then []
    else
      SortedWithin(d);
      AllRest(d, Sort(d.entries, ByName()), path, storage)
  }

  function AllRest(d: Directory, rest: seq<Entry>, path: seq<Text>, storage: Storage): seq<Candidate>
    requires Within(rest, d)
    decreases d, |rest|
  {
    if rest == [] then []
    else
      assert rest[0] in d.entries;
      (match rest[0]
       case File(name) => if IsJsonl(name) then [Candidate(path + [name], storage)] else []
       case Folder(name, contents) => AllFiles(contents, path + [name], storage)
       case Other(_) => [])
      + AllRest(d, rest[1..], path, storage)
  }

  /** The session files the walk is kept from: those in folders that are unreadable or too deep. */
  function Behind(d: Directory, path: seq<Text>, storage: Storage, maxDepth: nat, depth: nat): seq<Candidate>
    decreases d, |d.entries| + 1
  {
    match d.access
    case Missing => []
    case Denied => AllFiles(d, path, storage)
    case Readable =>
      SortedWithin(d);
      BehindRest(d, Sort(d.entries, ByName()), path, storage, maxDepth, depth)
  }

  function BehindRest(d: Directory, rest: seq<Entry>, path: seq<Text>, storage: Storage, maxDepth: nat, depth: nat)
    : seq<Candidate>
    requires Within(rest, d)
    decreases d, |rest|
  {
    if rest == [] then []
    else
      assert rest[0] in d.entries;
      (match rest[0]
       case Folder(name, contents) =>
         if depth >= maxDepth then AllFiles(contents, path + [name], storage)
         else Behind(contents, path + [name], storage, maxDepth, depth + 1)
       case _ => [])
      + BehindRest(d, rest[1..], path, storage, maxDepth, depth)
  }

  function FilesOf(marks: seq<Mark>): seq<Candidate> {
    if marks == [] then []
    else (if marks[0].Found? then [marks[0].file] else []) + FilesOf(marks[1..])
  }

  lemma {:induction false} FilesOfConcat(a: seq<Mark>, b: seq<Mark>)
    ensures FilesOf(a + b) == FilesOf(a) + FilesOf(b)
  {
    if a == [] {
      assert a + b == b;
    } else {
      var first := if a[0].Found? then [a[0].file] else [];
      assert (a + b)[0] == a[0] && (a + b)[1..] == a[1..] + b;
      FilesOfConcat(a[1..], b);
      Regroup(first, FilesOf(a[1..]), FilesOf(b));
    }
  }

  /** Every session file is met by the walk or behind a place it may not look into; with none behind, all in order. */
  ghost predicate Accounts(met: seq<Candidate>, behind: seq<Candidate>, all: seq<Candidate>) {
    multiset(met) + multiset(behind) == multiset(all) && (behind == [] ==> met == all)
  }

  lemma {:induction false} MetOrBehind(d: Directory, path: seq<Text>, storage: Storage, maxDepth: nat, depth: nat)
    ensures Accounts(FilesOf(Trace(d, path, storage, maxDepth, depth)), Behind(d, path, storage, maxDepth, depth),
                     AllFiles(d, path, storage))
    decreases d, |d.entries| + 1
  {
    if d.access.Readable? {
      SortedWithin(d);
      RestMetOrBehind(d, Sort(d.entries, ByName()), path, storage, maxDepth, depth);
    } else {
      hide AllRest, IsJsonl, Within;
    }
  }

  lemma {:induction false} RestMetOrBehind(d: Directory, rest: seq<Entry>, path: seq<Text>, storage: Storage,
                                           maxDepth: nat, depth: nat)
    requires Within(rest, d)
    ensures Accounts(FilesOf(TraceRest(d, rest, path, storage, maxDepth, depth)),
                     BehindRest(d, rest, path, storage, maxDepth, depth), AllRest(d, rest, path, storage))
    decreases d, |rest|
  {
    if rest != [] {
      FirstVisited(d, rest, path, storage, maxDepth, depth);
      hide Within, IsJsonl, FilesOf, Accounts, Trace, TraceRest, Behind, BehindRest, AllFiles, AllRest;
      var met := FilesOf(TraceRest(d, rest[1..], path, storage, maxDepth, depth));
      var behind := BehindRest(d, rest[1..], path, storage, maxDepth, depth);
      var all := AllRest(d, rest[1..], path, storage);
      RestMetOrBehind(d, rest[1..], path, storage, maxDepth, depth);
      match rest[0] {
        case File(name) =>
          AccountsMet(if IsJsonl(name) then [Candidate(path + [name], storage)] else [], met, behind, all);
        case Other(_) =>
        case Folder(name, contents) =>
          if depth >= maxDepth {
            AccountsBehind(AllFiles(contents, path + [name], storage), met, behind, all);
          } else {
            MetOrBehind(contents, path + [name], storage, maxDepth, depth + 1);
            AccountsJoin(FilesOf(Trace(contents, path + [name], storage, maxDepth, depth + 1)),
                         Behind(contents, path + [name], storage, maxDepth, depth + 1),
                         AllFiles(contents, path + [name], storage), met, behind, all);
          }
      }
    }
  }

  /** What the first entry adds to the files that are met, that are behind, and that there are. */
  lemma FirstVisited(d: Directory, rest: seq<Entry>, path: seq<Text>, storage: Storage, maxDepth: nat, depth: nat)
    requires Within(rest, d) && rest != []
    ensures Within(rest[1..], d) && rest[0] in d.entries
    ensures
      var marks := FilesOf(TraceRest(d, rest, path, storage, maxDepth, depth));
      var hidden := BehindRest(d, rest, path, storage, maxDepth, depth);
      var files := AllRest(d, rest, path, storage);
      var met := FilesOf(TraceRest(d, rest[1..], path, storage, maxDepth, depth));
      var behind := BehindRest(d, rest[1..], path, storage, maxDepth, depth);
      var all := AllRest(d, rest[1..], path, storage);
      match rest[0]
      case File(name) =>
        var file := if IsJsonl(name) then [Candidate(path + [name], storage)] else [];
        marks == file + met && hidden == [] + behind && files == file + all
      case Other(_) => marks == met && hidden == behind && files == all
      case Folder(name, contents) =>
        && files == AllFiles(contents, path + [name], storage) + all
        && if depth >= maxDepth
           then marks == met && hidden == AllFiles(contents, path + [name], storage) + behind
           else marks == FilesOf(Trace(contents, path + [name], storage, maxDepth, depth + 1)) + met
                && hidden == Behind(contents, path + [name], storage, maxDepth, depth + 1) + behind
  {
    assert rest[0] in d.entries;
    var later := TraceRest(d, rest[1..], path, storage, maxDepth, depth);
    hide Within, IsJsonl, FilesOf, Trace, Behind, AllFiles;
    match rest[0]
    case File(name) => FilesOfFile(IsJsonl(name), Candidate(path + [name], storage), later);
    case Other(_) =>
      assert [] + later == later;
    case Folder(name, contents) =>
      if depth >= maxDepth {
        FilesOfBarred(later);
      } else {
        FilesOfEntered(Trace(contents, path + [name], storage, maxDepth, depth + 1), later);
      }
  }

  lemma AccountsJoin(met: seq<Candidate>, behind: seq<Candidate>, all: seq<Candidate>,
                     met': seq<Candidate>, behind': seq<Candidate>, all': seq<Candidate>)
    requires Accounts(met, behind, all) && Accounts(met', behind', all')
    ensures Accounts(met + met', behind + behind', all + all')
  {
  }

  lemma AccountsMet(met: seq<Candidate>, met': seq<Candidate>, behind: seq<Candidate>, all: seq<Candidate>)
    requires Accounts(met', behind, all)
    ensures Accounts(met + met', [] + behind, met + all)
  {
    AccountsJoin(met, [], met, met', behind, all);
  }

  lemma AccountsBehind(hidden: seq<Candidate>, met: seq<Candidate>, behind: seq<Candidate>, all: seq<Candidate>)
    requires Accounts(met, behind, all)
    ensures Accounts(met, hidden + behind, hidden + all)
  {
    AccountsJoin([], hidden, hidden, met, behind, all);
    assert [] + met == met;
  }

  /** Nothing is behind a walk that is never barred. */
  lemma {:induction false} UnbarredHidesNothing(d: Directory, path: seq<Text>, storage: Storage, maxDepth: nat,
                                                depth: nat)
    requires Barred !in Trace(d, path, storage, maxDepth, depth)
    ensures Behind(d, path, storage, maxDepth, depth) == []
    decreases d, |d.entries| + 1
  {
    if d.access.Readable? {
      SortedWithin(d);
      UnbarredRestHidesNothing(d, Sort(d.entries, ByName()), path, storage, maxDepth, depth);
    }
  }

  lemma {:induction false} UnbarredRestHidesNothing(d: Directory, rest: seq<Entry>, path: seq<Text>, storage: Storage,
                                                    maxDepth: nat, depth: nat)
    requires Within(rest, d)
    requires Barred !in TraceRest(d, rest, path, storage, maxDepth, depth)
    ensures BehindRest(d, rest, path, storage, maxDepth, depth) == []
    decreases d, |rest|
  {
    if rest != [] {
      assert rest[0] in d.entries;
      UnbarredRestHidesNothing(d, rest[1..], path, storage, maxDepth, depth);
      hide Within, Sort, ByName, IsJsonl;
      if rest[0].Folder? {
        UnbarredHidesNothing(rest[0].contents, path + [rest[0].name], storage, maxDepth, depth + 1);
      }
    }
  }

  /** Where the walk is never barred, it meets every session file there is. */
  lemma UnbarredMeetsAll(d: Directory, path: seq<Text>, storage: Storage, maxDepth: nat, depth: nat)
    requires Barred !in Trace(d, path, storage, maxDepth, depth)
    ensures FilesOf(Trace(d, path, storage, maxDepth, depth)) == AllFiles(d, path, storage)
  {
    UnbarredHidesNothing(d, path, storage, maxDepth, depth);
    MetOrBehind(d, path, storage, maxDepth, depth);
    hide Trace, Behind, AllFiles, FilesOf;
  }

  lemma FilesOfBarred(later: seq<Mark>)
    ensures FilesOf([Barred] + later) == FilesOf(later)
  {
    assert ([Barred] + later)[1..] == later;
  }

  lemma FilesOfEntered(inner: seq<Mark>, later: seq<Mark>)
    ensures FilesOf([Entered] + inner + later) == FilesOf(inner) + FilesOf(later)
  {
    FilesOfConcat([Entered] + inner, later);
    assert ([Entered] + inner)[1..] == inner;
    assert [] + FilesOf(inner) == FilesOf(inner);
  }

  lemma FilesOfFile(found: bool, file: Candidate, later: seq<Mark>)
    ensures FilesOf((if found then [Found(file)] else []) + later) == (if found then [file] else []) + FilesOf(later)
  {
    if found {
      assert ([Found(file)] + later)[1..] == later;
    } else {
      assert [] + later == later;
    }
  }

  // ----- collecting within a limit

  function Note(c: Collected, mark: Mark, maxFiles: nat): Collected {
    if |c.files| >= maxFiles then c.(truncated := true)
    else match mark
      case Found(file) => c.(files := c.files + [file])
      case Entered => c
      case Barred => c.(truncated := true)
  }

  function Noting(maxFiles: nat): (Collected, Mark) -> Collected {
    (c: Collected, mark: Mark) => Note(c, mark, maxFiles)
  }

  /** The walk goes on after the file that fills the remaining room. */
  predicate GoesOn(marks: seq<Mark>, room: nat) {
    marks != [] && (room == 0 || GoesOn(marks[1..], if marks[0].Found? then room - 1 else room))
  }

  function FilesThatFit(c: Collected, marks: seq<Mark>, maxFiles: nat): Collected
    requires |c.files| <= maxFiles
  {
    Collected(c.files + First(FilesOf(marks), maxFiles - |c.files|),
              c.truncated || Barred in marks || GoesOn(marks, maxFiles - |c.files|))
  }

  /**
   * Collecting keeps the first files that fit; it is truncated exactly when barred somewhere or when the walk goes on
   * once full.
   */
  lemma {:induction false} CollectingKeepsTheFirst(c: Collected, marks: seq<Mark>, maxFiles: nat)
    requires |c.files| <= maxFiles
    ensures Fold(c, marks, Noting(maxFiles)) == FilesThatFit(c, marks, maxFiles)
    decreases |marks|
  {
    if marks == [] {
      assert c.files + [] == c.files;
    } else if |c.files| == maxFiles {
      FullStays(c.(truncated := true), marks[1..], maxFiles);
      assert c.files + First(FilesOf(marks), 0) == c.files;
    } else {
      CollectingKeepsTheFirst(Note(c, marks[0], maxFiles), marks[1..], maxFiles);
      OneMarkFits(c, marks, maxFiles);
      hide FilesThatFit;
    }
  }

  lemma FullStays(c: Collected, marks: seq<Mark>, maxFiles: nat)
    requires |c.files| >= maxFiles && c.truncated
    ensures Fold(c, marks, Noting(maxFiles)) == c
  {
    forall m ensures Noting(maxFiles)(c, m) == c {}
    FoldStays(c, marks, Noting(maxFiles));
  }

  lemma OneMarkFits(c: Collected, marks: seq<Mark>, maxFiles: nat)
    requires |c.files| < maxFiles && marks != []
    ensures FilesThatFit(Note(c, marks[0], maxFiles), marks[1..], maxFiles) == FilesThatFit(c, marks, maxFiles)
  {
    var room := maxFiles - |c.files| - 1;
    var more := FilesOf(marks[1..]);
    assert Barred in marks <==> marks[0] == Barred || Barred in marks[1..];
    if marks[0].Found? {
      OneMoreFits(c.files, marks[0].file, more, room);
    } else {
      assert [] + more == more;
    }
  }

  /**
   * The walk goes on once full exactly when it meets more files than fit, or just as many and something behind them.
   */
  lemma {:induction false} GoesOnExactly(marks: seq<Mark>, room: nat)
    ensures GoesOn(marks, room) <==>
            |FilesOf(marks)| > room
            || (|FilesOf(marks)| == room && marks != [] && !marks[|marks| - 1].Found?)
  {
    if marks == [] {
    } else if room == 0 {
      if marks[|marks| - 1].Found? { LastIsFound(marks); }
    } else {
      GoesOnExactly(marks[1..], if marks[0].Found? then room - 1 else room);
    }
  }

  lemma {:induction false} LastIsFound(marks: seq<Mark>)
    requires marks != [] && marks[|marks| - 1].Found?
    ensures FilesOf(marks) != []
  {
    if |marks| > 1 { LastIsFound(marks[1..]); }
  }

  /** The list that the recursion over both roots shares and fills. */
  class Collection {
    var files: seq<Candidate>
    var truncated: bool

    constructor ()
      ensures View() == Collected([], false)
    {
      files, truncated := [], false;
    }

    function View(): Collected
      reads this
    {
      Collected(files, truncated)
    }

    method CollectJsonlFiles(d: Directory, path: seq<Text>, storage: Storage, maxDepth: nat, maxFiles: nat, depth: nat)
      modifies this
      ensures View() == Fold(old(View()), Trace(d, path, storage, maxDepth, depth), Noting(maxFiles))
      decreases d
    {
      if d.access.Missing? { return; }
      if d.access.Denied? {
        truncated := true;
        return;
      }
      var entries := Sort(d.entries, ByName());
      SortedWithin(d);
      assert entries[0..] == entries;
      ghost var after := Fold(View(), Trace(d, path, storage, maxDepth, depth), Noting(maxFiles));
      hide Sort, Noting, Fold, Trace, TraceRest, Within, IsJsonl;
      for i := 0 to |entries|
        invariant Within(entries[i..], d)
        invariant Fold(View(), TraceRest(d, entries[i..], path, storage, maxDepth, depth), Noting(maxFiles)) == after
      {
        assert entries[i..][0] == entries[i] && entries[i..][1..] == entries[i + 1..];
        var entry := entries[i];
        TailWithin(entries[i..], d);
        OneEntry(View(), d, entries[i..], path, storage, maxDepth, maxFiles, depth);
        if |files| >= maxFiles {
          if entry.Folder? || (entry.File? && IsJsonl(entry.name)) {
            truncated := true;
            return;
          }
        } else if entry.Folder? {
          if depth >= maxDepth {
            truncated := true;
          } else {
            CollectJsonlFiles(entry.contents, path + [entry.name], storage, maxDepth, maxFiles, depth + 1);
          }
        } else if entry.File? && IsJsonl(entry.name) {
          files := files + [Candidate(path + [entry.name], storage)];
        }
      }
      NothingToVisit(View(), d, path, storage, maxDepth, maxFiles, depth);
    }
  }

  lemma NothingToVisit(c: Collected, d: Directory, path: seq<Text>, storage: Storage, maxDepth: nat, maxFiles: nat,
                       depth: nat)
    ensures Within([], d) && Fold(c, TraceRest(d, [], path, storage, maxDepth, depth), Noting(maxFiles)) == c
  {
  }

  /** What one entry contributes to the collection before the rest of its directory is visited. */
  lemma OneEntry(c: Collected, d: Directory, rest: seq<Entry>, path: seq<Text>, storage: Storage,
                 maxDepth: nat, maxFiles: nat, depth: nat)
    requires Within(rest, d) && rest != []
    ensures Within(rest[1..], d)
    ensures
      var all := TraceRest(d, rest, path, storage, maxDepth, depth);
      var later := TraceRest(d, rest[1..], path, storage, maxDepth, depth);
      var note := Noting(maxFiles);
      match rest[0]
      case Other(_) => all == later
      case File(name) =>
        if !IsJsonl(name) then all == later
        else Fold(c, all, note) == if |c.files| >= maxFiles then c.(truncated := true)
                                   else Fold(c.(files := c.files + [Candidate(path + [name], storage)]), later, note)
      case Folder(name, contents) =>
        Fold(c, all, note) == if |c.files| >= maxFiles then c.(truncated := true)
                              else if depth >= maxDepth then Fold(c.(truncated := true), later, note)
                              else Fold(Fold(c, Trace(contents, path + [name], storage, maxDepth, depth + 1), note),
                                        later, note)
  {
    var later := TraceRest(d, rest[1..], path, storage, maxDepth, depth);
    if |c.files| >= maxFiles && (rest[0].Folder? || (rest[0].File? && IsJsonl(rest[0].name))) {
      FullFromHere(c, d, rest, path, storage, maxDepth, maxFiles, depth);
    }
    hide Fold;
    match rest[0]
    case Other(_) => assert [] + later == later;
    case File(name) =>
      if !IsJsonl(name) { assert [] + later == later; }
      FoldOne(c, Found(Candidate(path + [name], storage)), later, Noting(maxFiles));
    case Folder(name, contents) =>
      var inner := Trace(contents, path + [name], storage, maxDepth, depth + 1);
      FoldOne(c, Barred, later, Noting(maxFiles));
      FoldConcat(c, [Entered] + inner, later, Noting(maxFiles));
      FoldOne(c, Entered, inner, Noting(maxFiles));
  }

  /** Once full, the next thing met settles the outcome. */
  lemma FullFromHere(c: Collected, d: Directory, rest: seq<Entry>, path: seq<Text>, storage: Storage,
                     maxDepth: nat, maxFiles: nat, depth: nat)
    requires Within(rest, d)
    requires rest != [] && |c.files| >= maxFiles && (rest[0].Folder? || (rest[0].File? && IsJsonl(rest[0].name)))
    ensures Fold(c, TraceRest(d, rest, path, storage, maxDepth, depth), Noting(maxFiles)) == c.(truncated := true)
  {
    var marks := TraceRest(d, rest, path, storage, maxDepth, depth);
    assert marks != [];
    FullStays(c.(truncated := true), marks[1..], maxFiles);
  }

  // ----- both roots

  function BothRoots(sessions: Directory, archived: Directory, roots: (seq<Text>, seq<Text>), maxDepth: nat)
    : seq<Mark> {
    Trace(sessions, roots.0, Active, maxDepth, 0) + Trace(archived, roots.1, Archived, maxDepth, 0)
  }

  function AllInBoth(sessions: Directory, archived: Directory, roots: (seq<Text>, seq<Text>)): seq<Candidate> {
    AllFiles(sessions, roots.0, Active) + AllFiles(archived, roots.1, Archived)
  }

  function BehindBoth(sessions: Directory, archived: Directory, roots: (seq<Text>, seq<Text>), maxDepth: nat)
    : seq<Candidate> {
    Behind(sessions, roots.0, Active, maxDepth, 0) + Behind(archived, roots.1, Archived, maxDepth, 0)
  }

  /**
   * The active root before the archived one: the first files that fit are collected, truncation is reported exactly
   * when the walk was barred or went on once full, and a report without truncation misses no file.
   */
  method CollectBothRoots(sessions: Directory, archived: Directory, roots: (seq<Text>, seq<Text>), maxDepth: nat,
                          maxFiles: nat)
    returns (c: Collected)
    ensures c.files == First(FilesOf(BothRoots(sessions, archived, roots, maxDepth)), maxFiles)
    ensures c.truncated <==> Barred in BothRoots(sessions, archived, roots, maxDepth)
                             || GoesOn(BothRoots(sessions, archived, roots, maxDepth), maxFiles)
    ensures c.files == AllInBoth(sessions, archived, roots) <==>
            Complete(sessions, archived, roots, maxDepth, maxFiles)
    ensures !c.truncated ==> c.files == AllInBoth(sessions, archived, roots)
    ensures c.truncated && c.files == AllInBoth(sessions, archived, roots) <==>
            Needless(sessions, archived, roots, maxDepth, maxFiles)
  {
    var collection := new Collection();
    collection.CollectJsonlFiles(sessions, roots.0, Active, maxDepth, maxFiles, 0);
    collection.CollectJsonlFiles(archived, roots.1, Archived, maxDepth, maxFiles, 0);
    c := collection.View();
    BothCollected(sessions, archived, roots, maxDepth, maxFiles);
    NothingMissedExactly(sessions, archived, roots, maxDepth, maxFiles);
    ReportIsNeedlessExactly(sessions, archived, roots, maxDepth, maxFiles);
    hide *;
  }

  /** Collecting along one root after the other. */
  lemma BothCollected(sessions: Directory, archived: Directory, roots: (seq<Text>, seq<Text>), maxDepth: nat,
                      maxFiles: nat)
    ensures
      var marks := BothRoots(sessions, archived, roots, maxDepth);
      Fold(Fold(Collected([], false), Trace(sessions, roots.0, Active, maxDepth, 0), Noting(maxFiles)),
           Trace(archived, roots.1, Archived, maxDepth, 0), Noting(maxFiles))
      == Collected(First(FilesOf(marks), maxFiles), Barred in marks || GoesOn(marks, maxFiles))
  {
    hide Trace, FilesOf, GoesOn, First, Fold, Noting;
    var marks := BothRoots(sessions, archived, roots, maxDepth);
    FoldConcat(Collected([], false), Trace(sessions, roots.0, Active, maxDepth, 0),
               Trace(archived, roots.1, Archived, maxDepth, 0), Noting(maxFiles));
    CollectingKeepsTheFirst(Collected([], false), marks, maxFiles);
    assert [] + First(FilesOf(marks), maxFiles) == First(FilesOf(marks), maxFiles);
  }

  /** Nothing is behind a place the walk may not look into, and all files fit. */
  predicate Complete(sessions: Directory, archived: Directory, roots: (seq<Text>, seq<Text>), maxDepth: nat,
                     maxFiles: nat)
  {
    |AllInBoth(sessions, archived, roots)| <= maxFiles && BehindBoth(sessions, archived, roots, maxDepth) == []
  }

  /** Nothing is missed, but a place was barred, or exactly all files fit and the last thing met is no file. */
  predicate Needless(sessions: Directory, archived: Directory, roots: (seq<Text>, seq<Text>), maxDepth: nat,
                     maxFiles: nat)
  {
    var marks := BothRoots(sessions, archived, roots, maxDepth);
    && Complete(sessions, archived, roots, maxDepth, maxFiles)
    && (Barred in marks || (|AllInBoth(sessions, archived, roots)| == maxFiles
                            && marks != [] && marks[|marks| - 1].Entered?))
  }

  /** What the walk of both roots meets and what it is kept from are all files, in order when it is kept from none. */
  lemma BothMetOrBehind(sessions: Directory, archived: Directory, roots: (seq<Text>, seq<Text>), maxDepth: nat)
    ensures Accounts(FilesOf(BothRoots(sessions, archived, roots, maxDepth)),
                     BehindBoth(sessions, archived, roots, maxDepth), AllInBoth(sessions, archived, roots))
  {
    MetOrBehind(sessions, roots.0, Active, maxDepth, 0);
    MetOrBehind(archived, roots.1, Archived, maxDepth, 0);
    hide Trace, Behind, AllFiles, FilesOf, Accounts;
    FilesOfConcat(Trace(sessions, roots.0, Active, maxDepth, 0), Trace(archived, roots.1, Archived, maxDepth, 0));
    AccountsJoin(FilesOf(Trace(sessions, roots.0, Active, maxDepth, 0)), Behind(sessions, roots.0, Active, maxDepth, 0),
                 AllFiles(sessions, roots.0, Active),
                 FilesOf(Trace(archived, roots.1, Archived, maxDepth, 0)),
                 Behind(archived, roots.1, Archived, maxDepth, 0), AllFiles(archived, roots.1, Archived));
  }

  lemma AccountsSizes(met: seq<Candidate>, behind: seq<Candidate>, all: seq<Candidate>)
    requires Accounts(met, behind, all)
    ensures |met| + |behind| == |all|
  {
    assert |multiset(met) + multiset(behind)| == |multiset(all)|;
  }

  /** The first files met are all files exactly when none is behind a barred place and all fit. */
  lemma NothingMissedExactly(sessions: Directory, archived: Directory, roots: (seq<Text>, seq<Text>), maxDepth: nat,
                             maxFiles: nat)
    ensures var kept := First(FilesOf(BothRoots(sessions, archived, roots, maxDepth)), maxFiles);
            kept == AllInBoth(sessions, archived, roots) <==> Complete(sessions, archived, roots, maxDepth, maxFiles)
  {
    var met := FilesOf(BothRoots(sessions, archived, roots, maxDepth));
    BothMetOrBehind(sessions, archived, roots, maxDepth);
    AccountsSizes(met, BehindBoth(sessions, archived, roots, maxDepth), AllInBoth(sessions, archived, roots));
    hide FilesOf, BothRoots, AllInBoth, BehindBoth;
  }

  /** Nothing is behind a walk of both roots that is barred nowhere. */
  lemma UnbarredHidesNothingInBoth(sessions: Directory, archived: Directory, roots: (seq<Text>, seq<Text>),
                                   maxDepth: nat)
    requires Barred !in BothRoots(sessions, archived, roots, maxDepth)
    ensures BehindBoth(sessions, archived, roots, maxDepth) == []
  {
    UnbarredHidesNothing(sessions, roots.0, Active, maxDepth, 0);
    UnbarredHidesNothing(archived, roots.1, Archived, maxDepth, 0);
    hide Trace, Behind;
  }

  /**
   * When truncation is reported although nothing was missed: exactly for needless reports. Without truncation nothing
   * was missed.
   */
  lemma ReportIsNeedlessExactly(sessions: Directory, archived: Directory, roots: (seq<Text>, seq<Text>), maxDepth: nat,
                                maxFiles: nat)
    ensures var marks := BothRoots(sessions, archived, roots, maxDepth);
            var truncated := Barred in marks || GoesOn(marks, maxFiles);
            var complete := First(FilesOf(marks), maxFiles) == AllInBoth(sessions, archived, roots);
            && (!truncated ==> complete)
            && (truncated && complete <==> Needless(sessions, archived, roots, maxDepth, maxFiles))
  {
    var marks := BothRoots(sessions, archived, roots, maxDepth);
    hide FilesOf, BothRoots, AllInBoth, BehindBoth, GoesOn, First;
    BothCounted(sessions, archived, roots, maxDepth);
    NothingMissedExactly(sessions, archived, roots, maxDepth, maxFiles);
    GoesOnExactly(marks, maxFiles);
  }

  /** How many files there are in both roots, and that none is behind a walk barred nowhere. */
  lemma BothCounted(sessions: Directory, archived: Directory, roots: (seq<Text>, seq<Text>), maxDepth: nat)
    ensures var marks := BothRoots(sessions, archived, roots, maxDepth);
            var behind := BehindBoth(sessions, archived, roots, maxDepth);
            && |FilesOf(marks)| + |behind| == |AllInBoth(sessions, archived, roots)|
            && (Barred !in marks ==> behind == [])
  {
    var marks := BothRoots(sessions, archived, roots, maxDepth);
    hide FilesOf, BothRoots, AllInBoth, BehindBoth, Accounts;
    BothMetOrBehind(sessions, archived, roots, maxDepth);
    AccountsSizes(FilesOf(marks), BehindBoth(sessions, archived, roots, maxDepth),
                  AllInBoth(sessions, archived, roots));
    if Barred !in marks { UnbarredHidesNothingInBoth(sessions, archived, roots, maxDepth); }
  }

  /** An empty folder met once full is enough for a needless report. */
  lemma MayReportWithoutMissing(name: Text, folder: Text, roots: (seq<Text>, seq<Text>), maxDepth: nat)
    requires IsJsonl(name) && maxDepth > 0
    ensures
      var sessions := Directory(Readable, [File(name)]);
      var archived := Directory(Readable, [Folder(folder, Directory(Readable, []))]);
      && Barred !in BothRoots(sessions, archived, roots, maxDepth)
      && Needless(sessions, archived, roots, maxDepth, 1)
  {
    var sessions := Directory(Readable, [File(name)]);
    var archived := Directory(Readable, [Folder(folder, Directory(Readable, []))]);
    var found := Candidate(roots.0 + [name], Active);
    LoneFile(name, roots.0, Active, maxDepth);
    LoneEmptyFolder(folder, roots.1, Archived, maxDepth);
    hide Trace, AllFiles, BehindBoth;
    assert [Found(found)] + [Entered] == [Found(found), Entered];
    UnbarredHidesNothingInBoth(sessions, archived, roots, maxDepth);
  }

  lemma LoneFile(name: Text, path: seq<Text>, storage: Storage, maxDepth: nat)
    requires IsJsonl(name)
    ensures var d := Directory(Readable, [File(name)]);
            && Trace(d, path, storage, maxDepth, 0) == [Found(Candidate(path + [name], storage))]
            && AllFiles(d, path, storage) == [Candidate(path + [name], storage)]
  {
    var d := Directory(Readable, [File(name)]);
    SortedOne(File(name));
    SortedWithin(d);
    assert Within([], d) && [File(name)][1..] == [];
    assert TraceRest(d, [File(name)], path, storage, maxDepth, 0) == [Found(Candidate(path + [name], storage))] + [];
    assert AllRest(d, [File(name)], path, storage) == [Candidate(path + [name], storage)] + [];
  }

  lemma LoneEmptyFolder(folder: Text, path: seq<Text>, storage: Storage, maxDepth: nat)
    requires maxDepth > 0
    ensures var d := Directory(Readable, [Folder(folder, Directory(Readable, []))]);
            Trace(d, path, storage, maxDepth, 0) == [Entered] && AllFiles(d, path, storage) == []
  {
    var empty := Directory(Readable, []);
    var entry := Folder(folder, empty);
    var d := Directory(Readable, [entry]);
    SortedOne(entry);
    SortedWithin(d);
    assert Within([], d) && Within([], empty) && [entry][1..] == [];
    assert Trace(empty, path + [folder], storage, maxDepth, 1) == [] && AllFiles(empty, path + [folder], storage) == [];
    assert TraceRest(d, [entry], path, storage, maxDepth, 0) == ([Entered] + []) + [];
    assert AllRest(d, [entry], path, storage) == [] + [];
  }

  lemma SortedOne(entry: Entry)
    ensures Sort([entry], ByName()) == [entry]
  {
    assert [entry][1..] == [];
  }
}
