/** Indexing session files: one session per id, the most recent kept, every file accounted for. */
module SessionIndex {
  import opened CodeUnits
  import opened Results
  import opened SessionFiles
  import opened Sorting

  datatype Meta = Meta(id: Text, lastActiveAt: Option<int>, createdAt: Option<int>, storage: Storage, path: Text)

  datatype Index = Index(sessions: seq<Meta>, scanned: nat, indexed: nat, excluded: nat, duplicates: nat,
                         truncated: bool)

  function OrElse(x: Option<int>, y: int): int {
    if x.Some? then x.value else y
  }

  function Activity(m: Meta): int {
    OrElse(m.lastActiveAt, OrElse(m.createdAt, 0))
  }

  function StorageRank(m: Meta): int {
    if m.storage.Active? then 0 else 1
  }

  /** Latest activity first, then latest creation, active before archived, then by id and by path. */
  predicate ComesFirst(a: Meta, b: Meta) {
    if Activity(a) != Activity(b) then Activity(a) > Activity(b)
    else if OrElse(a.createdAt, 0) != OrElse(b.createdAt, 0) then OrElse(a.createdAt, 0) > OrElse(b.createdAt, 0)
    else if StorageRank(a) != StorageRank(b) then StorageRank(a) < StorageRank(b)
    else if a.id != b.id then AtMost(a.id, b.id)
    else AtMost(a.path, b.path)
  }

  /** When a session was last heard of: its last activity, else its creation, else the beginning of time. */
  function LastSeen(m: Meta): int {
    match (m.lastActiveAt, m.createdAt)
    case (Some(at), _) => at
    case (None, Some(at)) => at
    case (None, None) => 0
  }

  function Created(m: Meta): int {
    match m.createdAt
    case Some(at) => at
    case None => 0
  }

  predicate Before(a: Meta, b: Meta) {
    ComesFirst(a, b) && !ComesFirst(b, a)
  }

  /** Which of two sessions comes first: the one heard of later, then created later, then active, then by id, path. */
  lemma RecencyDecides(a: Meta, b: Meta)
    ensures LastSeen(a) > LastSeen(b) ==> Before(a, b)
    ensures LastSeen(a) == LastSeen(b) && Created(a) > Created(b) ==> Before(a, b)
    ensures LastSeen(a) == LastSeen(b) && Created(a) == Created(b) ==>
              && (a.storage == Active && b.storage == Archived ==> Before(a, b))
              && (a.storage == b.storage && a.id != b.id ==> (Before(a, b) <==> AtMost(a.id, b.id)))
              && (a.storage == b.storage && a.id == b.id && a.path != b.path ==>
                  (Before(a, b) <==> AtMost(a.path, b.path)))
  {
    AtMostIsTotal(a.id, b.id);
    AtMostIsTotal(a.path, b.path);
    if AtMost(a.id, b.id) && AtMost(b.id, a.id) { AtMostIsAntisymmetric(a.id, b.id); }
    if AtMost(a.path, b.path) && AtMost(b.path, a.path) { AtMostIsAntisymmetric(a.path, b.path); }
    hide AtMost;
  }

  /** The session kept of an id was heard of last of all files with that id. */
  lemma KeptWasSeenLast(sessions: seq<Meta>, all: seq<Meta>)
    requires MostRecent(sessions, all)
    ensures forall s, m :: s in sessions && m in all && s.id == m.id ==> LastSeen(m) <= LastSeen(s)
  {
    forall s, m | s in sessions && m in all && s.id == m.id ensures LastSeen(m) <= LastSeen(s) {
      RecencyDecides(m, s);
      hide ComesFirst;
    }
  }

  function Recency(): (Meta, Meta) -> bool {
    (a: Meta, b: Meta) => ComesFirst(a, b)
  }

  lemma RecencyIsOrder()
    ensures IsOrder(Recency())
  {
    forall a: Meta, b: Meta ensures Recency()(a, b) || Recency()(b, a) {
      AtMostIsTotal(a.id, b.id);
      AtMostIsTotal(a.path, b.path);
    }
    forall a: Meta, b: Meta, c: Meta | Recency()(a, b) && Recency()(b, c) ensures Recency()(a, c) {
      ComesFirstIsTransitive(a, b, c);
    }
  }

  lemma ComesFirstIsTransitive(a: Meta, b: Meta, c: Meta)
    requires ComesFirst(a, b) && ComesFirst(b, c)
    ensures ComesFirst(a, c)
  {
    hide AtMost;
    if AtMost(a.id, b.id) && AtMost(b.id, c.id) {
      AtMostIsTransitive(a.id, b.id, c.id);
      if a.id == c.id { AtMostIsAntisymmetric(a.id, b.id); }
    }
    if AtMost(a.path, b.path) && AtMost(b.path, c.path) { AtMostIsTransitive(a.path, b.path, c.path); }
  }

  /** The files that describe a session, in the order found. */
  function Parsed(files: seq<Candidate>, parse: Candidate -> Option<Meta>): seq<Meta> {
    if files == [] then []
    else
      var last := |files| - 1;
      Parsed(files[..last], parse) + (match parse(files[last]) case Some(m) => [m] case None => [])
  }

  predicate HasId(sessions: seq<Meta>, id: Text) {
    exists i :: 0 <= i < |sessions| && sessions[i].id == id
  }

  predicate OnePerId(sessions: seq<Meta>) {
    forall i, j :: 0 <= i < j < |sessions| ==> sessions[i].id != sessions[j].id
  }

  /** No session of another file with the same id would come before the one kept. */
  predicate MostRecent(sessions: seq<Meta>, all: seq<Meta>) {
    forall s, m :: s in sessions && m in all && s.id == m.id ==> ComesFirst(s, m)
  }

  /** What the index must say about the sessions found: which are kept follows from this. */
  predicate Indexes(sessions: seq<Meta>, all: seq<Meta>) {
    && OnePerId(sessions)
    && Ordered(sessions, Recency())
    && (forall s :: s in sessions ==> s in all)
    && (forall m :: m in all ==> HasId(sessions, m.id))
    && MostRecent(sessions, all)
  }

  /** Drops every session whose id was seen before, in order of recency. */
  method KeepFirstOfEach(sorted: seq<Meta>) returns (sessions: seq<Meta>, duplicates: nat)
    requires Ordered(sorted, Recency())
    ensures Indexes(sessions, sorted)
    ensures |sessions| + duplicates == |sorted|
  {
    sessions, duplicates := [], 0;
    var seenIds: set<Text> := {};
    assert sorted[..0] == [];
    for i := 0 to |sorted|
      invariant |sessions| + duplicates == i
      invariant forall id :: id in seenIds <==> HasId(sessions, id)
      invariant Indexes(sessions, sorted[..i])
    {
      var session := sorted[i];
      assert sorted[..i + 1] == sorted[..i] + [session];
      if session.id in seenIds {
        DuplicateDropped(sorted, i, sessions);
        duplicates := duplicates + 1;
      } else {
        FirstKept(sorted, i, sessions);
        HasIdAppended(sessions, session);
        sessions, seenIds := sessions + [session], seenIds + {session.id};
      }
    }
    assert sorted[..|sorted|] == sorted;
  }

  lemma InPrefixComesFirst(sorted: seq<Meta>, i: nat, s: Meta)
    requires Ordered(sorted, Recency()) && i < |sorted| && s in sorted[..i]
    ensures ComesFirst(s, sorted[i])
  {
    var k :| 0 <= k < i && sorted[k] == s;
    assert Recency()(sorted[k], sorted[i]);
  }

  lemma DuplicateDropped(sorted: seq<Meta>, i: nat, sessions: seq<Meta>)
    requires Ordered(sorted, Recency()) && i < |sorted| && Indexes(sessions, sorted[..i])
             && HasId(sessions, sorted[i].id)
    ensures Indexes(sessions, sorted[..i] + [sorted[i]])
  {
    hide ComesFirst;
    forall s | s in sessions && s.id == sorted[i].id
      ensures ComesFirst(s, sorted[i])
    {
      InPrefixComesFirst(sorted, i, s);
    }
  }

  lemma HasIdAppended(sessions: seq<Meta>, session: Meta)
    ensures forall id :: HasId(sessions + [session], id) <==> HasId(sessions, id) || session.id == id
  {
    forall id ensures HasId(sessions + [session], id) <==> HasId(sessions, id) || session.id == id {
      if HasId(sessions, id) {
        var k :| 0 <= k < |sessions| && sessions[k].id == id;
        assert (sessions + [session])[k].id == id;
      }
      if session.id == id { assert (sessions + [session])[|sessions|].id == id; }
    }
  }

  lemma FirstKept(sorted: seq<Meta>, i: nat, sessions: seq<Meta>)
    requires Ordered(sorted, Recency()) && i < |sorted| && Indexes(sessions, sorted[..i])
             && !HasId(sessions, sorted[i].id)
    ensures Indexes(sessions + [sorted[i]], sorted[..i] + [sorted[i]])
  {
    var session := sorted[i];
    var more := sessions + [session];
    HasIdAppended(sessions, session);
    RecencyIsOrder();
    assert Recency()(session, session);
    hide ComesFirst, HasId;
    forall k | 0 <= k < |sessions| ensures ComesFirst(sessions[k], session) && sessions[k].id != session.id {
      assert sessions[k] in sessions;
      InPrefixComesFirst(sorted, i, sessions[k]);
      IdIsThere(sessions, k);
    }
    assert OnePerId(more);
    assert Ordered(more, Recency());
    forall s, m | s in more && m in sorted[..i] + [session] && s.id == m.id ensures ComesFirst(s, m) {}
  }

  lemma IdIsThere(sessions: seq<Meta>, k: nat)
    requires k < |sessions|
    ensures HasId(sessions, sessions[k].id)
  {
  }

  /** Every scanned file is indexed, excluded or a duplicate; each id has one session, the most recent. */
  method CollectSessionMetas(collected: Collected, parse: Candidate -> Option<Meta>) returns (index: Index)
    ensures index.scanned == |collected.files| == index.indexed + index.excluded + index.duplicates
    ensures index.indexed == |index.sessions| && index.truncated == collected.truncated
    ensures index.excluded == |collected.files| - |Parsed(collected.files, parse)|
    ensures Indexes(index.sessions, Parsed(collected.files, parse))
  {
    var files := collected.files;
    var parsed, excluded := [], 0;
    for i := 0 to |files|
      invariant parsed == Parsed(files[..i], parse) && excluded + |parsed| == i
    {
      assert files[..i + 1][..i] == files[..i];
      var meta := parse(files[i]);
      if meta.Some? { parsed := parsed + [meta.value]; } else { excluded := excluded + 1; }
    }
    assert files[..|files|] == files;
    var sorted := Sort(parsed, Recency());
    RecencyIsOrder();
    SortIsOrdered(parsed, Recency());
    SortKeeps(parsed, Recency());
    var sessions, duplicates := KeepFirstOfEach(sorted);
    forall m ensures m in sorted <==> m in parsed { SortedIn(parsed, Recency(), m); }
    IndexesSame(sessions, sorted, parsed);
    index := Index(sessions, |files|, |sessions|, excluded, duplicates, collected.truncated);
  }

  lemma IndexesSame(sessions: seq<Meta>, a: seq<Meta>, b: seq<Meta>)
    requires Indexes(sessions, a) && forall m :: m in a <==> m in b
    ensures Indexes(sessions, b)
  {
  }
}
