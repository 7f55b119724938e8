/** The registry of workspace handles of one session, in local mode. */
module Workspaces {
  import opened Results
  import opened Streams

  datatype Reason = Closed | Expired | TransportClosed | PolicyRevisionChanged

  datatype Workspace = Workspace(id: string, root: string, openedAt: int)

  datatype Record = Record(workspace: Workspace, key: string, expiresAtMs: int, session: string, identity: string,
                           policy: Option<string>)

  datatype Tombstone = Tombstone(id: string, revokedAt: int, reason: Reason)

  datatype Event = Event(id: string, key: string, reason: Reason)

  datatype ManagerError =
    | IdRequired | RootRefused | UseRefused | SessionUnavailable | UnknownWorkspace
    | InvalidGenerator | GenerationFailed

  /**
   * What a call sees of the outside: the clock each time it is read (to prune, to revoke a stale binding, to serve),
   * the transport session if there is one, and the active policy revision.
   */
  datatype Env = Env(pruneAt: int, revokeAt: int, now: int, session: Option<string>, policy: Option<string>)

  /**
   * The three maps, records and tombstones in insertion order, with the history of what was ever issued and revoked.
   */
  datatype State = State(records: seq<Record>, idsByKey: map<string, string>, tombstones: seq<Tombstone>,
                         issued: seq<string>, revoked: seq<Event>)

  // ----- maps in insertion order

  function Find(records: seq<Record>, id: string): Option<Record> {
    if records == [] then None
    else if records[0].workspace.id == id then Some(records[0])
    else Find(records[1..], id)
  }

  function Without(records: seq<Record>, id: string): seq<Record> {
    if records == [] then []
    else (if records[0].workspace.id == id then [] else [records[0]]) + Without(records[1..], id)
  }

  /** The same record under the same id, renewed in place. */
  function Renewed(records: seq<Record>, id: string, expiresAtMs: int): seq<Record> {
    if records == [] then []
    else [if records[0].workspace.id == id then records[0].(expiresAtMs := expiresAtMs) else records[0]]
         + Renewed(records[1..], id, expiresAtMs)
  }

  predicate Buried(tombstones: seq<Tombstone>, id: string) {
    exists i :: 0 <= i < |tombstones| && tombstones[i].id == id
  }

  function CountIssued(issued: seq<string>, id: string): nat {
    if issued == [] then 0 else CountIssued(issued[..|issued| - 1], id) + if issued[|issued| - 1] == id then 1 else 0
  }

  function CountRevoked(revoked: seq<Event>, id: string): nat {
    if revoked == [] then 0
    else CountRevoked(revoked[..|revoked| - 1], id) + if revoked[|revoked| - 1].id == id then 1 else 0
  }

  // ----- the invariant

  predicate Live(s: State, id: string) {
    Find(s.records, id).Some?
  }

  predicate OneHandlePerRoot(records: seq<Record>) {
    forall i, j :: 0 <= i < j < |records| ==>
      records[i].workspace.id != records[j].workspace.id && records[i].key != records[j].key
  }

  /** The two maps are inverse to each other. */
  predicate Inverse(records: seq<Record>, idsByKey: map<string, string>) {
    && (forall i :: 0 <= i < |records| ==>
        records[i].key in idsByKey && idsByKey[records[i].key] == records[i].workspace.id)
    && (forall key :: key in idsByKey ==>
        Find(records, idsByKey[key]).Some? && Find(records, idsByKey[key]).value.key == key)
  }

  predicate TombstonesApart(s: State) {
    && (forall i, j :: 0 <= i < j < |s.tombstones| ==> s.tombstones[i].id != s.tombstones[j].id)
    && (forall i :: 0 <= i < |s.tombstones| ==> !Live(s, s.tombstones[i].id))
  }

  /** Every issue of an id is matched by one revocation event, or by the handle still being live. */
  ghost predicate Accounted(s: State) {
    forall id :: CountIssued(s.issued, id) == CountRevoked(s.revoked, id) + if Live(s, id) then 1 else 0
  }

  function Min(a: nat, b: nat): nat {
    if a < b then a else b
  }

  /** The tombstones are those of the last revocations, as many as the cap allows, in order. */
  predicate Remembered(s: State, cap: nat) {
    && |s.tombstones| == Min(cap, |s.revoked|)
    && forall i :: 0 <= i < |s.tombstones| ==> BuriedFor(s.tombstones[i], s.revoked[|s.revoked| - |s.tombstones| + i])
  }

  predicate BuriedFor(t: Tombstone, e: Event) {
    t.id == e.id && t.reason == e.reason
  }

  /** Two revocations of one id are more than cap revocations apart. */
  predicate Spaced(revoked: seq<Event>, cap: nat) {
    forall i, j :: 0 <= i < j < |revoked| && revoked[i].id == revoked[j].id ==> j - i > cap
  }

  ghost predicate Inv(s: State, cap: nat) {
    && OneHandlePerRoot(s.records)
    && Inverse(s.records, s.idsByKey)
    && TombstonesApart(s)
    && Remembered(s, cap)
    && Spaced(s.revoked, cap)
    && Accounted(s)
  }

  /** Live with no revocation event, or dead with exactly one. */
  ghost predicate LiveOrRevokedOnce(s: State, id: string) {
    CountRevoked(s.revoked, id) == if Live(s, id) then 0 else 1
  }

  /** An id is buried exactly while one of its revocations is among the last cap ones. */
  lemma BuriedExactly(s: State, cap: nat, id: string)
    requires Inv(s, cap)
    ensures Buried(s.tombstones, id) <==>
            exists i :: |s.revoked| - cap <= i < |s.revoked| && 0 <= i && s.revoked[i].id == id
  {
    hide OneHandlePerRoot, Inverse, TombstonesApart, Spaced, Accounted;
    var first := |s.revoked| - |s.tombstones|;
    if Buried(s.tombstones, id) {
      var k :| 0 <= k < |s.tombstones| && s.tombstones[k].id == id;
      assert s.revoked[first + k].id == id;
    }
    if i :| |s.revoked| - cap <= i < |s.revoked| && 0 <= i && s.revoked[i].id == id {
      assert s.tombstones[i - first].id == id;
    }
  }

  /**
   * Until more handles have been revoked than there is room for tombstones, every issued id is live
   * or has had exactly one revocation event, and not both.
   */
  lemma IssuedOnce(s: State, cap: nat, id: string)
    requires Inv(s, cap) && id in s.issued && |s.revoked| <= cap
    ensures LiveOrRevokedOnce(s, id)
  {
    BuriedExactly(s, cap, id);
    IssuedCounts(s.issued, id);
    hide OneHandlePerRoot, Inverse, Remembered;
    assert Live(s, id) ==> !Buried(s.tombstones, id);
    RevokedAtMostOnce(s.revoked, cap, id);
  }

  lemma {:induction false} RevokedAtMostOnce(revoked: seq<Event>, cap: nat, id: string)
    requires Spaced(revoked, cap) && |revoked| <= cap
    ensures CountRevoked(revoked, id) <= 1
    ensures CountRevoked(revoked, id) == 0 <==> forall i :: 0 <= i < |revoked| ==> revoked[i].id != id
  {
    if revoked != [] {
      var last := |revoked| - 1;
      RevokedAtMostOnce(revoked[..last], cap, id);
      if revoked[last].id == id {
        assert forall i :: 0 <= i < last ==> revoked[..last][i].id != id;
      }
    }
  }

  /**
   * An id that was issued before can be drawn and issued again exactly when it is dead and each of its revocations
   * has been followed by at least cap others.
   */
  lemma ReissuableExactly(s: State, cap: nat, id: string)
    requires Inv(s, cap)
    ensures !Live(s, id) && !Buried(s.tombstones, id)
       <==> !Live(s, id) && forall i :: 0 <= i < |s.revoked| && s.revoked[i].id == id ==> |s.revoked| - 1 - i >= cap
  {
    BuriedExactly(s, cap, id);
    hide Inv, Buried, Live;
  }

  lemma {:induction false} IssuedCounts(issued: seq<string>, id: string)
    requires id in issued
    ensures CountIssued(issued, id) > 0
  {
    var last := |issued| - 1;
    if issued[last] != id {
      assert id in issued[..last];
      IssuedCounts(issued[..last], id);
    }
  }

  // ----- revoking

  function LastOf(tombstones: seq<Tombstone>, cap: nat): seq<Tombstone> {
    if |tombstones| <= cap then tombstones else tombstones[|tombstones| - cap..]
  }

  /** One handle revoked: out of both maps, a tombstone at the end, the oldest tombstones dropped, one event. */
  function Revoke(s: State, r: Record, reason: Reason, at: int, cap: nat): State {
    State(Without(s.records, r.workspace.id),
          if r.key in s.idsByKey && s.idsByKey[r.key] == r.workspace.id then s.idsByKey - {r.key} else s.idsByKey,
          LastOf(s.tombstones + [Tombstone(r.workspace.id, at, reason)], cap),
          s.issued,
          s.revoked + [Event(r.workspace.id, r.key, reason)])
  }

  function RevokeEach(s: State, rs: seq<Record>, reason: Reason, at: int, cap: nat): State
    decreases |rs|
  {
    if rs == [] then s else RevokeEach(Revoke(s, rs[0], reason, at, cap), rs[1..], reason, at, cap)
  }

  lemma {:induction false} FindMeans(records: seq<Record>, id: string)
    ensures Find(records, id).Some? ==> Find(records, id).value in records && Find(records, id).value.workspace.id == id
    ensures Find(records, id).None? ==> forall i :: 0 <= i < |records| ==> records[i].workspace.id != id
  {
    if records != [] {
      FindMeans(records[1..], id);
      if Find(records, id).None? {
        assert forall i :: 0 < i < |records| ==> records[i] == records[1..][i - 1];
      }
    }
  }

  lemma {:induction false} FindUnique(records: seq<Record>, i: nat)
    requires OneHandlePerRoot(records) && i < |records|
    ensures Find(records, records[i].workspace.id) == Some(records[i])
  {
    if i > 0 {
      OneHandleTail(records);
      FindUnique(records[1..], i - 1);
    }
  }

  lemma OneHandleTail(records: seq<Record>)
    requires OneHandlePerRoot(records) && records != []
    ensures OneHandlePerRoot(records[1..])
  {
    forall i, j | 0 <= i < j < |records[1..]|
      ensures records[1..][i].workspace.id != records[1..][j].workspace.id && records[1..][i].key != records[1..][j].key
    {
      assert records[1..][i] == records[i + 1] && records[1..][j] == records[j + 1];
    }
  }

  lemma {:induction false} FindWithout(records: seq<Record>, id: string, other: string)
    ensures Find(Without(records, id), other) == if other == id then None else Find(records, other)
  {
    if records != [] {
      FindWithout(records[1..], id, other);
      if records[0].workspace.id != id {
        assert ([records[0]] + Without(records[1..], id))[1..] == Without(records[1..], id);
      } else {
        assert [] + Without(records[1..], id) == Without(records[1..], id);
      }
    }
  }

  lemma {:induction false} WithoutIsSubset(records: seq<Record>, id: string)
    ensures forall r :: r in Without(records, id) <==> r in records && r.workspace.id != id
  {
    if records != [] { WithoutIsSubset(records[1..], id); }
  }

  lemma {:induction false} WithoutKeepsOrder(records: seq<Record>, id: string)
    requires OneHandlePerRoot(records)
    ensures OneHandlePerRoot(Without(records, id))
  {
    if records != [] {
      OneHandleTail(records);
      WithoutKeepsOrder(records[1..], id);
      WithoutIsSubset(records[1..], id);
      var rest := Without(records[1..], id);
      if records[0].workspace.id != id {
        var all := [records[0]] + rest;
        forall i, j | 0 <= i < j < |all|
          ensures all[i].workspace.id != all[j].workspace.id && all[i].key != all[j].key
        {
          assert all[j] == rest[j - 1];
          if i == 0 { TailDiffers(records, all[j]); } else { assert all[i] == rest[i - 1]; }
        }
      }
    }
  }

  lemma TailDiffers(records: seq<Record>, r: Record)
    requires OneHandlePerRoot(records) && records != [] && r in records[1..]
    ensures records[0].workspace.id != r.workspace.id && records[0].key != r.key
  {
    var k :| 0 <= k < |records[1..]| && records[1..][k] == r;
    assert records[k + 1] == r;
  }

  /** Revoking a live handle keeps the invariant. */
  lemma RevokeKeepsInv(s: State, r: Record, reason: Reason, at: int, cap: nat)
    requires Inv(s, cap) && r in s.records && cap > 0
    ensures Inv(Revoke(s, r, reason, at, cap), cap)
    ensures !Live(Revoke(s, r, reason, at, cap), r.workspace.id)
  {
    var id := r.workspace.id;
    var t := Revoke(s, r, reason, at, cap);
    assert OneHandlePerRoot(t.records) by { WithoutKeepsOrder(s.records, id); }
    assert Inverse(t.records, t.idsByKey) by { RevokeKeepsInverse(s, r); }
    assert TombstonesApart(t) by { RevokeKeepsTombstones(s, r, reason, at, cap); }
    assert Remembered(t, cap) && Spaced(t.revoked, cap) by {
      RevokeIsRemembered(s, r, reason, at, cap);
      RevokeIsSpaced(s, r, reason, at, cap);
    }
    assert Accounted(t) by { RevokeIsAccounted(s, r, reason, at, cap); }
    FindWithout(s.records, id, id);
  }

  lemma RevokeKeepsInverse(s: State, r: Record)
    requires OneHandlePerRoot(s.records) && Inverse(s.records, s.idsByKey) && r in s.records
    ensures r.key in s.idsByKey && s.idsByKey[r.key] == r.workspace.id
    ensures Inverse(Without(s.records, r.workspace.id), s.idsByKey - {r.key})
  {
    hide OneHandlePerRoot;
    var id := r.workspace.id;
    var rest, ids := Without(s.records, id), s.idsByKey - {r.key};
    WithoutIsSubset(s.records, id);
    hide Without;
    forall i | 0 <= i < |rest| ensures rest[i].key in ids && ids[rest[i].key] == rest[i].workspace.id {
      assert rest[i] in s.records;
    }
    forall key | key in ids ensures Find(rest, ids[key]).Some? && Find(rest, ids[key]).value.key == key {
      FindWithout(s.records, id, ids[key]);
    }
  }

  lemma RevokeKeepsTombstones(s: State, r: Record, reason: Reason, at: int, cap: nat)
    requires OneHandlePerRoot(s.records) && TombstonesApart(s) && r in s.records && cap > 0
    ensures TombstonesApart(Revoke(s, r, reason, at, cap))
  {
    var id := r.workspace.id;
    var t := Revoke(s, r, reason, at, cap);
    var all := s.tombstones + [Tombstone(id, at, reason)];
    var k :| 0 <= k < |s.records| && s.records[k] == r;
    FindUnique(s.records, k);
    hide Find;
    hide Without;
    hide OneHandlePerRoot;
    forall i | 0 <= i < |all| ensures !Live(t, all[i].id) { FindWithout(s.records, id, all[i].id); }
    forall i, j | 0 <= i < j < |all| ensures all[i].id != all[j].id {}
  }

  lemma RevokeIsRemembered(s: State, r: Record, reason: Reason, at: int, cap: nat)
    requires Remembered(s, cap) && cap > 0
    ensures Remembered(Revoke(s, r, reason, at, cap), cap)
  {
    hide Find, Without;
  }

  lemma RevokeIsSpaced(s: State, r: Record, reason: Reason, at: int, cap: nat)
    requires Inv(s, cap) && r in s.records
    ensures Spaced(Revoke(s, r, reason, at, cap).revoked, cap)
  {
    var id := r.workspace.id;
    var k :| 0 <= k < |s.records| && s.records[k] == r;
    FindUnique(s.records, k);
    BuriedExactly(s, cap, id);
    assert !Buried(s.tombstones, id);
    hide Find, Without, OneHandlePerRoot, Inverse, TombstonesApart, Accounted, Buried, Remembered, LastOf;
  }

  lemma RevokeIsAccounted(s: State, r: Record, reason: Reason, at: int, cap: nat)
    requires OneHandlePerRoot(s.records) && Accounted(s) && r in s.records
    ensures Accounted(Revoke(s, r, reason, at, cap))
  {
    var t := Revoke(s, r, reason, at, cap);
    var k :| 0 <= k < |s.records| && s.records[k] == r;
    FindUnique(s.records, k);
    hide OneHandlePerRoot;
    hide Find;
    hide Without;
    hide LastOf;
    forall id ensures CountIssued(t.issued, id) == CountRevoked(t.revoked, id) + if Live(t, id) then 1 else 0 {
      FindWithout(s.records, r.workspace.id, id);
      assert CountIssued(s.issued, id) == CountRevoked(s.revoked, id) + if Live(s, id) then 1 else 0;
      assert t.revoked[..|s.revoked|] == s.revoked;
    }
  }

  // ----- revoking every record of a kind

  function Selected(records: seq<Record>, wanted: Record -> bool): seq<Record> {
    if records == [] then []
    else (if wanted(records[0]) then [records[0]] else []) + Selected(records[1..], wanted)
  }

  function Spared(records: seq<Record>, doomed: Record -> bool): seq<Record> {
    Selected(records, (r: Record) => !doomed(r))
  }

  function ExpiredAt(at: int): Record -> bool {
    (r: Record) => r.expiresAtMs <= at
  }

  function Pruned(s: State, at: int, cap: nat): State {
    RevokeEach(s, Selected(s.records, ExpiredAt(at)), Expired, at, cap)
  }

  lemma {:induction false} SelectedIsSubset(records: seq<Record>, wanted: Record -> bool)
    ensures forall r :: r in Selected(records, wanted) <==> r in records && wanted(r)
  {
    if records != [] { SelectedIsSubset(records[1..], wanted); }
  }

  lemma {:induction false} WithoutSomeone(records: seq<Record>, id: string)
    requires forall i :: 0 <= i < |records| ==> records[i].workspace.id != id
    ensures Without(records, id) == records
  {
    if records != [] {
      assert forall i :: 0 <= i < |records[1..]| ==> records[1..][i] == records[i + 1];
      WithoutSomeone(records[1..], id);
    }
  }

  lemma {:induction false} WithoutAt(records: seq<Record>, i: nat)
    requires OneHandlePerRoot(records) && i < |records|
    ensures Without(records, records[i].workspace.id) == records[..i] + records[i + 1..]
  {
    if i == 0 {
      WithoutSomeone(records[1..], records[0].workspace.id);
      assert [] + records[1..] == records[..0] + records[1..];
    } else {
      OneHandleTail(records);
      WithoutAt(records[1..], i - 1);
      assert [records[0]] + (records[1..][..i - 1] + records[1..][i..]) == records[..i] + records[i + 1..];
    }
  }

  /** Revoking what is doomed among the records not yet visited keeps the invariant and takes out exactly those. */
  lemma {:induction false} RevokeSelected(s: State, done: seq<Record>, rest: seq<Record>, doomed: Record -> bool,
                                          reason: Reason, at: int, cap: nat)
    requires Inv(s, cap) && cap > 0 && s.records == done + rest
    ensures var t := RevokeEach(s, Selected(rest, doomed), reason, at, cap);
            Inv(t, cap) && t.records == done + Spared(rest, doomed)
    decreases |rest|
  {
    hide *;
    if rest == [] {
      RevokeNone(s, doomed, reason, at, cap);
      assert done + [] == done;
    } else {
      SelectedFirst(rest, doomed);
      RevokeEachFirst(s, rest[0], Selected(rest[1..], doomed), reason, at, cap);
      if doomed(rest[0]) {
        RevokeNext(s, done, rest, reason, at, cap);
        RevokeSelected(Revoke(s, rest[0], reason, at, cap), done, rest[1..], doomed, reason, at, cap);
      } else {
        assert s.records == (done + [rest[0]]) + rest[1..];
        RevokeSelected(s, done + [rest[0]], rest[1..], doomed, reason, at, cap);
        assert (done + [rest[0]]) + Spared(rest[1..], doomed) == done + ([rest[0]] + Spared(rest[1..], doomed));
      }
    }
  }

  function EventsOf(rs: seq<Record>, reason: Reason): seq<Event> {
    seq(|rs|, i requires 0 <= i < |rs| => Event(rs[i].workspace.id, rs[i].key, reason))
  }

  /** Revoking a list reports each of its handles once, in order, and issues nothing. */
  lemma {:induction false} RevokeEachReports(s: State, rs: seq<Record>, reason: Reason, at: int, cap: nat)
    ensures RevokeEach(s, rs, reason, at, cap).revoked == s.revoked + EventsOf(rs, reason)
    ensures RevokeEach(s, rs, reason, at, cap).issued == s.issued
    decreases |rs|
  {
    if rs != [] {
      RevokeEachReports(Revoke(s, rs[0], reason, at, cap), rs[1..], reason, at, cap);
      assert EventsOf(rs, reason) == [Event(rs[0].workspace.id, rs[0].key, reason)] + EventsOf(rs[1..], reason);
    }
  }

  lemma RevokeNone(s: State, doomed: Record -> bool, reason: Reason, at: int, cap: nat)
    ensures Selected([], doomed) == [] && Spared([], doomed) == [] && RevokeEach(s, [], reason, at, cap) == s
  {
  }

  lemma SelectedFirst(rest: seq<Record>, doomed: Record -> bool)
    requires rest != []
    ensures Selected(rest, doomed)
            == if doomed(rest[0]) then [rest[0]] + Selected(rest[1..], doomed) else Selected(rest[1..], doomed)
    ensures Spared(rest, doomed)
            == if doomed(rest[0]) then Spared(rest[1..], doomed) else [rest[0]] + Spared(rest[1..], doomed)
  {
    assert [] + Selected(rest[1..], doomed) == Selected(rest[1..], doomed);
    assert [] + Spared(rest[1..], doomed) == Spared(rest[1..], doomed);
  }

  lemma RevokeEachFirst(s: State, r: Record, rs: seq<Record>, reason: Reason, at: int, cap: nat)
    ensures RevokeEach(s, [r] + rs, reason, at, cap) == RevokeEach(Revoke(s, r, reason, at, cap), rs, reason, at, cap)
  {
    hide Revoke;
    assert ([r] + rs)[1..] == rs;
  }

  lemma RevokeNext(s: State, done: seq<Record>, rest: seq<Record>, reason: Reason, at: int, cap: nat)
    requires Inv(s, cap) && cap > 0 && s.records == done + rest && rest != []
    ensures rest[0] in s.records
    ensures Inv(Revoke(s, rest[0], reason, at, cap), cap)
    ensures Revoke(s, rest[0], reason, at, cap).records == done + rest[1..]
  {
    assert s.records[|done|] == rest[0];
    RevokeKeepsInv(s, rest[0], reason, at, cap);
    WithoutAt(s.records, |done|);
    assert s.records[..|done|] + s.records[|done| + 1..] == done + rest[1..];
  }

  /** One visit of the loop: what remains to be revoked afterwards gives the same end state. */
  lemma SelectedStep(s: State, done: seq<Record>, rest: seq<Record>, doomed: Record -> bool, reason: Reason, at: int,
                     cap: nat)
    requires Inv(s, cap) && cap > 0 && s.records == done + rest && rest != []
    ensures rest[0] in s.records
    ensures doomed(rest[0]) ==>
      var t := Revoke(s, rest[0], reason, at, cap);
      t.records == done + rest[1..]
      && RevokeEach(t, Selected(rest[1..], doomed), reason, at, cap)
         == RevokeEach(s, Selected(rest, doomed), reason, at, cap)
    ensures !doomed(rest[0]) ==>
      s.records == (done + [rest[0]]) + rest[1..] && Selected(rest[1..], doomed) == Selected(rest, doomed)
  {
    hide *;
    SelectedFirst(rest, doomed);
    RevokeEachFirst(s, rest[0], Selected(rest[1..], doomed), reason, at, cap);
    RevokeNext(s, done, rest, reason, at, cap);
    assert s.records == (done + [rest[0]]) + rest[1..];
  }

  /** Pruning leaves exactly the unexpired records, in order. */
  lemma PruneKeepsInv(s: State, at: int, cap: nat)
    requires Inv(s, cap) && cap > 0
    ensures Inv(Pruned(s, at, cap), cap)
    ensures Pruned(s, at, cap).records == Spared(s.records, ExpiredAt(at))
  {
    assert s.records == [] + s.records;
    RevokeSelected(s, [], s.records, ExpiredAt(at), Expired, at, cap);
    assert [] + Spared(s.records, ExpiredAt(at)) == Spared(s.records, ExpiredAt(at));
  }

  /** A handle survives pruning exactly when it was live and unexpired. */
  lemma PrunedFind(s: State, at: int, cap: nat, id: string)
    requires Inv(s, cap) && cap > 0
    ensures Find(Pruned(s, at, cap).records, id)
         == if Live(s, id) && Find(s.records, id).value.expiresAtMs > at then Find(s.records, id) else None
  {
    PruneKeepsInv(s, at, cap);
    FindSpared(s.records, at, id);
  }

  lemma {:induction false} FindSpared(records: seq<Record>, at: int, id: string)
    requires OneHandlePerRoot(records)
    ensures Find(Spared(records, ExpiredAt(at)), id)
         == if Find(records, id).Some? && Find(records, id).value.expiresAtMs > at then Find(records, id) else None
  {
    if records != [] {
      var rest := Spared(records[1..], ExpiredAt(at));
      OneHandleTail(records);
      FindSpared(records[1..], at, id);
      if records[0].expiresAtMs > at {
        assert ([records[0]] + rest)[1..] == rest;
      } else {
        assert [] + rest == rest;
        if records[0].workspace.id == id {
          FindMeans(records[1..], id);
          if Find(records[1..], id).Some? { TailDiffers(records, Find(records[1..], id).value); }
        }
      }
    }
  }

  // ----- issuing and renewing

  function Issued(s: State, r: Record): State {
    State(s.records + [r], s.idsByKey[r.key := r.workspace.id], s.tombstones, s.issued + [r.workspace.id], s.revoked)
  }

  function Touched(s: State, id: string, expiresAtMs: int): State {
    s.(records := Renewed(s.records, id, expiresAtMs))
  }

  lemma {:induction false} FindAppended(records: seq<Record>, r: Record, id: string)
    ensures Find(records + [r], id)
         == if Find(records, id).Some? then Find(records, id) else if r.workspace.id == id then Some(r) else None
  {
    if records == [] {
      assert [] + [r] == [r];
    } else {
      assert (records + [r])[1..] == records[1..] + [r];
      FindAppended(records[1..], r, id);
    }
  }

  /** Issuing a handle under an id neither live nor buried, for a root with no live handle, keeps the invariant. */
  lemma IssueKeepsInv(s: State, r: Record, cap: nat)
    requires Inv(s, cap) && !Live(s, r.workspace.id) && !Buried(s.tombstones, r.workspace.id) && r.key !in s.idsByKey
    ensures Inv(Issued(s, r), cap)
    ensures Find(Issued(s, r).records, r.workspace.id) == Some(r)
  {
    var t := Issued(s, r);
    var id := r.workspace.id;
    FindMeans(s.records, id);
    FindAppended(s.records, r, id);
    assert OneHandlePerRoot(t.records);
    assert Inverse(t.records, t.idsByKey) by { IssueKeepsInverse(s, r); }
    forall i | 0 <= i < |s.tombstones| ensures !Live(t, s.tombstones[i].id) {
      FindAppended(s.records, r, s.tombstones[i].id);
    }
    forall other
      ensures CountIssued(t.issued, other) == CountRevoked(t.revoked, other) + if Live(t, other) then 1 else 0
    {
      FindAppended(s.records, r, other);
      assert t.issued[..|s.issued|] == s.issued;
      assert CountIssued(s.issued, other) == CountRevoked(s.revoked, other) + if Live(s, other) then 1 else 0;
    }
  }

  /** Issuing an id that is dead and forgotten breaks its count exactly when it was issued before. */
  lemma ReissueBreaksTheCount(s: State, r: Record, cap: nat)
    requires Inv(s, cap) && !Live(s, r.workspace.id) && !Buried(s.tombstones, r.workspace.id) && r.key !in s.idsByKey
    ensures Inv(Issued(s, r), cap)
    ensures LiveOrRevokedOnce(Issued(s, r), r.workspace.id) <==> r.workspace.id !in s.issued
    ensures r.workspace.id in s.issued ==> |s.revoked| > cap
  {
    var t := Issued(s, r);
    var id := r.workspace.id;
    IssueKeepsInv(s, r, cap);
    if id in s.issued {
      IssuedCounts(s.issued, id);
      BuriedExactly(s, cap, id);
      if |s.revoked| <= cap { RevokedAtMostOnce(s.revoked, cap, id); }
    } else {
      NeverIssued(s.issued, id);
    }
  }

  lemma {:induction false} NeverIssued(issued: seq<string>, id: string)
    requires id !in issued
    ensures CountIssued(issued, id) == 0
  {
    if issued != [] { NeverIssued(issued[..|issued| - 1], id); }
  }

  lemma IssueKeepsInverse(s: State, r: Record)
    requires Inverse(s.records, s.idsByKey) && !Live(s, r.workspace.id) && r.key !in s.idsByKey
    ensures Inverse(Issued(s, r).records, Issued(s, r).idsByKey)
  {
    var t := Issued(s, r);
    forall key | key in t.idsByKey
      ensures Find(t.records, t.idsByKey[key]).Some? && Find(t.records, t.idsByKey[key]).value.key == key
    {
      FindAppended(s.records, r, t.idsByKey[key]);
    }
  }

  lemma {:induction false} RenewedAt(records: seq<Record>, id: string, expiresAtMs: int)
    ensures |Renewed(records, id, expiresAtMs)| == |records|
    ensures forall i :: 0 <= i < |records| ==>
      Renewed(records, id, expiresAtMs)[i]
      == if records[i].workspace.id == id then records[i].(expiresAtMs := expiresAtMs) else records[i]
  {
    if records != [] { RenewedAt(records[1..], id, expiresAtMs); }
  }

  lemma {:induction false} FindRenewed(records: seq<Record>, id: string, expiresAtMs: int, other: string)
    ensures Find(Renewed(records, id, expiresAtMs), other).Some? == Find(records, other).Some?
    ensures Find(records, other).Some? ==>
      Find(Renewed(records, id, expiresAtMs), other)
      == Some(if other == id then Find(records, other).value.(expiresAtMs := expiresAtMs)
              else Find(records, other).value)
  {
    if records != [] {
      FindRenewed(records[1..], id, expiresAtMs, other);
      var first := if records[0].workspace.id == id then records[0].(expiresAtMs := expiresAtMs) else records[0];
      assert ([first] + Renewed(records[1..], id, expiresAtMs))[1..] == Renewed(records[1..], id, expiresAtMs);
    }
  }

  /** Renewing a handle moves its expiry and nothing else. */
  lemma TouchKeepsInv(s: State, id: string, expiresAtMs: int, cap: nat)
    requires Inv(s, cap)
    ensures Inv(Touched(s, id, expiresAtMs), cap)
  {
    var t := Touched(s, id, expiresAtMs);
    RenewedAt(s.records, id, expiresAtMs);
    hide Renewed, Find;
    assert OneHandlePerRoot(t.records);
    forall key | key in t.idsByKey
      ensures Find(t.records, t.idsByKey[key]).Some? && Find(t.records, t.idsByKey[key]).value.key == key
    {
      FindRenewed(s.records, id, expiresAtMs, t.idsByKey[key]);
    }
    forall i | 0 <= i < |s.tombstones| ensures !Live(t, s.tombstones[i].id) {
      FindRenewed(s.records, id, expiresAtMs, s.tombstones[i].id);
    }
    forall other
      ensures CountIssued(t.issued, other) == CountRevoked(t.revoked, other) + if Live(t, other) then 1 else 0
    {
      FindRenewed(s.records, id, expiresAtMs, other);
      assert CountIssued(s.issued, other) == CountRevoked(s.revoked, other) + if Live(s, other) then 1 else 0;
    }
  }

  // ----- what a caller may expect of a handle

  predicate IsSpace(c: char) {
    c in "\t\n\r " || c in [0x0B as char, 0x0C as char, 0xA0 as char, 0x1680 as char, 0x2028 as char, 0x2029 as char,
                             0x202F as char, 0x205F as char, 0x3000 as char, 0xFEFF as char]
    || 0x2000 <= c as int <= 0x200A
  }

  predicate Blank(id: string) {
    forall i :: 0 <= i < |id| ==> IsSpace(id[i])
  }

  /** The record belongs to this session, identity and policy revision. */
  predicate Bound(r: Record, env: Env, identity: string) {
    Some(r.session) == env.session && r.identity == identity && r.policy == env.policy
  }

  /** The live, unexpired record of a handle. */
  function Current(s: State, id: string, env: Env): Option<Record> {
    if Live(s, id) && Find(s.records, id).value.expiresAtMs > env.pruneAt then Find(s.records, id) else None
  }

  /** The record that a root key leads to. */
  function Handle(s: State, key: string): Option<Record> {
    if key in s.idsByKey then Find(s.records, s.idsByKey[key]) else None
  }

  lemma BoundMeans(r: Record, env: Env, identity: string)
    ensures Bound(r, env, identity) <==>
            env.session == Some(r.session) && identity == r.identity && env.policy == r.policy
  {
  }

  lemma NotLive(s: State, id: string)
    ensures Live(s, id) <==> Find(s.records, id).Some?
  {
  }

  lemma PrunedIssuesNothing(s: State, at: int, cap: nat)
    ensures Pruned(s, at, cap).issued == s.issued
  {
    RevokingIssuesNothing(s, Selected(s.records, ExpiredAt(at)), Expired, at, cap);
  }

  lemma {:induction false} RevokingIssuesNothing(s: State, rs: seq<Record>, reason: Reason, at: int, cap: nat)
    ensures RevokeEach(s, rs, reason, at, cap).issued == s.issued
    decreases |rs|
  {
    if rs != [] { RevokingIssuesNothing(Revoke(s, rs[0], reason, at, cap), rs[1..], reason, at, cap); }
  }

  lemma TouchedFind(s: State, r: Record, expiresAtMs: int, cap: nat)
    requires Inv(s, cap) && r in s.records
    ensures Find(Renewed(s.records, r.workspace.id, expiresAtMs), r.workspace.id)
            == Some(r.(expiresAtMs := expiresAtMs))
  {
    var k :| 0 <= k < |s.records| && s.records[k] == r;
    FindUnique(s.records, k);
    FindRenewed(s.records, r.workspace.id, expiresAtMs, r.workspace.id);
  }

  /** A live handle keeps its root until it expires: its id and its root's key go on leading to the same record. */
  lemma HandleLasts(s: State, r: Record, env: Env, cap: nat)
    requires Inv(s, cap) && cap > 0 && r in s.records
    ensures Current(s, r.workspace.id, env) == if r.expiresAtMs > env.pruneAt then Some(r) else None
    ensures Handle(Pruned(s, env.pruneAt, cap), r.key) == if r.expiresAtMs > env.pruneAt then Some(r) else None
  {
    var k :| 0 <= k < |s.records| && s.records[k] == r;
    FindUnique(s.records, k);
    var t := Pruned(s, env.pruneAt, cap);
    PruneKeepsInv(s, env.pruneAt, cap);
    PrunedFind(s, env.pruneAt, cap, r.workspace.id);
    SelectedIsSubset(s.records, (q: Record) => !ExpiredAt(env.pruneAt)(q));
    if r.key in t.idsByKey {
      HandleIsLive(t, r.key, cap);
      var q := Handle(t, r.key).value;
      var j :| 0 <= j < |s.records| && s.records[j] == q;
      assert j == k by { if j < k { } else if k < j { } }
    }
    hide Pruned, Selected, Find, Accounted;
    if r.expiresAtMs > env.pruneAt { FindMeans(t.records, r.workspace.id); }
  }

  function HexDigit(n: nat): char
    requires n < 16
  {
    "0123456789abcdef"[n]
  }

  function Hex(bytes: seq<Byte>): string {
    if bytes == [] then "" else [HexDigit(bytes[0] / 16), HexDigit(bytes[0] % 16)] + Hex(bytes[1..])
  }

  function WorkspaceId(bytes: seq<Byte>): string {
    "ws_" + Hex(bytes)
  }

  /** The character is the lower-case hexadecimal digit of this value. */
  predicate HexDigitOf(c: char, n: int) {
    if n < 10 then 0 <= n && c as int == '0' as int + n else n < 16 && c as int == 'a' as int + (n - 10)
  }

  lemma HexDigitSpelled(n: nat)
    requires n < 16
    ensures HexDigitOf(HexDigit(n), n)
  {
  }

  lemma {:induction false} HexSpelled(bytes: seq<Byte>, k: nat)
    requires k < |bytes|
    ensures |Hex(bytes)| == 2 * |bytes|
    ensures HexDigitOf(Hex(bytes)[2 * k], bytes[k] / 16) && HexDigitOf(Hex(bytes)[2 * k + 1], bytes[k] % 16)
  {
    hide HexDigit, HexDigitOf;
    HexDigitSpelled(bytes[0] / 16);
    HexDigitSpelled(bytes[0] % 16);
    if k > 0 { HexSpelled(bytes[1..], k - 1); } else if |bytes| > 1 { HexSpelled(bytes[1..], 0); }
  }

  /** An id is made of ws_ and two lower-case hexadecimal digits for each of the drawn bytes. */
  lemma WorkspaceIdSpelled(bytes: seq<Byte>, k: nat)
    requires k < |bytes|
    ensures |WorkspaceId(bytes)| == 3 + 2 * |bytes| && WorkspaceId(bytes)[..3] == ['w', 's', '_']
    ensures HexDigitOf(WorkspaceId(bytes)[3 + 2 * k], bytes[k] / 16)
    ensures HexDigitOf(WorkspaceId(bytes)[4 + 2 * k], bytes[k] % 16)
  {
    HexSpelled(bytes, k);
    hide Hex, HexDigitOf;
  }

  predicate Taken(s: State, bytes: seq<Byte>) {
    Live(s, WorkspaceId(bytes)) || Buried(s.tombstones, WorkspaceId(bytes))
  }

  /**
   * What drawing ids comes to: the first one not taken, unless the generator fails before it or the attempts run out.
   */
  function Drawn(s: State, draws: seq<seq<Byte>>, from: nat): Result<string, ManagerError>
    requires |draws| >= ID_ATTEMPTS && from <= ID_ATTEMPTS
    decreases ID_ATTEMPTS - from
  {
    if from == ID_ATTEMPTS then Err(GenerationFailed)
    else if |draws[from]| != ID_BYTES then Err(InvalidGenerator)
    else if Taken(s, draws[from]) then Drawn(s, draws, from + 1)
    else Ok(WorkspaceId(draws[from]))
  }

  /** The draws before n are all sixteen bytes and all taken. */
  predicate AllTaken(s: State, draws: seq<seq<Byte>>, n: nat)
    requires n <= |draws|
  {
    forall k :: 0 <= k < n ==> |draws[k]| == ID_BYTES && Taken(s, draws[k])
  }

  /**
   * Behind n taken draws, the next one settles the outcome unless it is taken as well; eight taken draws are a failure.
   */
  lemma DrawnExactly(s: State, draws: seq<seq<Byte>>, n: nat)
    requires |draws| >= ID_ATTEMPTS && n <= ID_ATTEMPTS && AllTaken(s, draws, n)
    ensures n == 8 ==> Drawn(s, draws, 0) == Err(GenerationFailed)
    ensures n < 8 && |draws[n]| != 16 ==> Drawn(s, draws, 0) == Err(InvalidGenerator)
    ensures n < 8 && |draws[n]| == 16 && !Taken(s, draws[n]) ==>
            Drawn(s, draws, 0) == Ok(WorkspaceId(draws[n]))
  {
    DrawnFrom(s, draws, n);
  }

  lemma {:induction false} DrawnFrom(s: State, draws: seq<seq<Byte>>, n: nat)
    requires |draws| >= ID_ATTEMPTS && n <= ID_ATTEMPTS && AllTaken(s, draws, n)
    ensures Drawn(s, draws, 0) == Drawn(s, draws, n)
  {
    if n > 0 { DrawnFrom(s, draws, n - 1); }
  }

  /** The outcome of issuing a handle: the id drawn, or the draw's error, or no session to issue it to. */
  function Issue(s: State, root: string, env: Env, draws: seq<seq<Byte>>): Result<Workspace, ManagerError>
    requires |draws| >= ID_ATTEMPTS
  {
    match Drawn(s, draws, 0)
    case Err(e) => Err(e)
    case Ok(id) => if env.session.None? then Err(SessionUnavailable) else Ok(Workspace(id, root, env.now))
  }

  function BoundIn(env: Env, identity: string): Record -> bool {
    (r: Record) => Bound(r, env, identity)
  }

  function WorkspacesOf(records: seq<Record>): seq<Workspace> {
    seq(|records|, i requires 0 <= i < |records| => records[i].workspace)
  }

  const MIN_TTL_MS := 60_000
  const MAX_TTL_MS := 86_400_000
  const MIN_TOMBSTONES := 16
  const MAX_TOMBSTONES := 4096
  const ID_ATTEMPTS := 8
  const ID_BYTES := 16

  function Clamped(x: int, low: int, high: int): (y: int)
    requires low <= high
    ensures low <= y <= high && (low <= x <= high ==> y == x) && (x < low ==> y == low) && (x > high ==> y == high)
  {
    if x > high then high else if x < low then low else x
  }

  class WorkspaceManager {
    const ttlMs: int
    const cap: nat
    const identity: string
    var records: seq<Record>
    var idsByKey: map<string, string>
    var tombstones: seq<Tombstone>
    ghost var issued: seq<string>
    ghost var revoked: seq<Event>

    ghost function View(): State
      reads this
    {
      State(records, idsByKey, tombstones, issued, revoked)
    }

    ghost predicate Valid()
      reads this
    {
      cap > 0 && Inv(View(), cap)
    }

    constructor (identity: string, ttlMs: int, maxTombstones: int)
      ensures Valid() && View() == State([], map[], [], [], [])
      ensures this.identity == identity
      ensures this.ttlMs == if ttlMs < 60_000 then 60_000 else if ttlMs > 86_400_000 then 86_400_000 else ttlMs
      ensures this.cap == if maxTombstones < 16 then 16 else if maxTombstones > 4096 then 4096 else maxTombstones
    {
      this.identity := identity;
      this.ttlMs := Clamped(ttlMs, MIN_TTL_MS, MAX_TTL_MS);
      this.cap := Clamped(maxTombstones, MIN_TOMBSTONES, MAX_TOMBSTONES);
      records, idsByKey, tombstones, issued, revoked := [], map[], [], [], [];
    }

    /**
     * Takes one live record out of both maps and buries its id; the id is new to the tombstones, so it goes to the end.
     */
    method RevokeRecord(r: Record, reason: Reason, at: int)
      requires Valid() && r in records
      modifies this
      ensures Valid()
      ensures View() == Revoke(old(View()), r, reason, at, cap)
    {
      hide Inv, Without;
      RevokeKeepsInv(View(), r, reason, at, cap);
      records := Without(records, r.workspace.id);
      if r.key in idsByKey && idsByKey[r.key] == r.workspace.id {
        idsByKey := idsByKey - {r.key};
      }
      tombstones := tombstones + [Tombstone(r.workspace.id, at, reason)];
      revoked := revoked + [Event(r.workspace.id, r.key, reason)];
      ghost var all := tombstones;
      while |tombstones| > cap
        invariant |tombstones| <= |all| && tombstones == all[|all| - |tombstones|..]
        invariant |all| <= cap ==> tombstones == all
        invariant |all| > cap ==> |tombstones| >= cap
        invariant View() == Revoke(old(View()), r, reason, at, cap).(tombstones := tombstones)
      {
        tombstones := tombstones[1..];
      }
    }

    /** Revokes, in insertion order, every record of a snapshot that is doomed. */
    method RevokeDoomed(doomed: Record -> bool, reason: Reason, at: int)
      requires Valid()
      modifies this
      ensures Valid()
      ensures View() == RevokeEach(old(View()), Selected(old(records), doomed), reason, at, cap)
      ensures records == Spared(old(records), doomed)
    {
      ghost var before := View();
      var snapshot := records;
      ghost var done := [];
      assert records == [] + snapshot[0..] && snapshot[0..] == snapshot;
      RevokeSelected(before, [], snapshot, doomed, reason, at, cap);
      assert [] + Spared(snapshot, doomed) == Spared(snapshot, doomed);
      hide Inv, Selected, Spared, RevokeEach, Revoke, ExpiredAt, Find, Without;
      for i := 0 to |snapshot|
        invariant Valid() && records == done + snapshot[i..]
        invariant RevokeEach(View(), Selected(snapshot[i..], doomed), reason, at, cap)
               == RevokeEach(before, Selected(snapshot, doomed), reason, at, cap)
      {
        assert snapshot[i..][0] == snapshot[i] && snapshot[i..][1..] == snapshot[i + 1..];
        SelectedStep(View(), done, snapshot[i..], doomed, reason, at, cap);
        if doomed(snapshot[i]) {
          RevokeRecord(snapshot[i], reason, at);
        } else {
          done := done + [snapshot[i]];
        }
      }
      assert snapshot[|snapshot|..] == [];
      RevokeNone(View(), doomed, reason, at, cap);
    }

    method PruneExpired(at: int)
      requires Valid()
      modifies this
      ensures Valid()
      ensures View() == Pruned(old(View()), at, cap)
      ensures records == Spared(old(records), ExpiredAt(at))
    {
      RevokeDoomed(ExpiredAt(at), Expired, at);
    }

    /** Ends every handle, with one event each, oldest first. */
    method RevokeAll(reason: Reason, at: int)
      requires Valid()
      modifies this
      ensures Valid() && records == [] && idsByKey == map[]
      ensures View() == RevokeEach(old(View()), old(records), reason, at, cap)
      ensures revoked == old(revoked) + EventsOf(old(records), reason)
    {
      RevokeEachReports(View(), records, reason, at, cap);
      AllSelected(records);
      RevokeDoomed((r: Record) => true, reason, at);
      NothingLeft(View(), cap);
    }

    /** Keeps exactly the records of the active revision. */
    method RevokeForPolicyRevision(active: string, at: int)
      requires Valid()
      modifies this
      ensures Valid()
      ensures View()
              == RevokeEach(old(View()), Selected(old(records), (r: Record) => r.policy != Some(active)),
                            PolicyRevisionChanged, at, cap)
      ensures forall r :: r in records <==> r in old(records) && r.policy == Some(active)
    {
      RevokeDoomed((r: Record) => r.policy != Some(active), PolicyRevisionChanged, at);
      SelectedIsSubset(old(records), (r: Record) => !((q: Record) => q.policy != Some(active))(r));
    }

    method Touch(r: Record, now: int) returns (w: Workspace)
      requires Valid() && r in records
      modifies this
      ensures Valid() && w == r.workspace
      ensures View() == Touched(old(View()), r.workspace.id, now + ttlMs) && issued == old(issued)
      ensures Find(records, r.workspace.id) == Some(r.(expiresAtMs := now + ttlMs))
    {
      TouchKeepsInv(View(), r.workspace.id, now + ttlMs, cap);
      TouchedFind(View(), r, now + ttlMs, cap);
      records := Renewed(records, r.workspace.id, now + ttlMs);
      w := r.workspace;
    }

    /** Draws at most eight times; the first id that is neither live nor buried is used. */
    method NextWorkspaceId(draws: seq<seq<Byte>>) returns (r: Result<string, ManagerError>)
      requires |draws| >= ID_ATTEMPTS
      ensures r == Drawn(View(), draws, 0)
      ensures r.Ok? ==> !Live(View(), r.value) && !Buried(tombstones, r.value) && !Blank(r.value)
    {
      for attempt := 0 to ID_ATTEMPTS
        invariant AllTaken(View(), draws, attempt)
        invariant Drawn(View(), draws, 0) == Drawn(View(), draws, attempt)
      {
        var bytes := draws[attempt];
        if |bytes| != ID_BYTES { return Err(InvalidGenerator); }
        var id := WorkspaceId(bytes);
        NotBlank(id);
        if Find(records, id).None? && !Buried(tombstones, id) { return Ok(id); }
      }
      r := Err(GenerationFailed);
    }

    /**
     * Issues a handle for a root that has none, exactly when an id is drawn and there is a session; otherwise nothing
     * changes.
     */
    method IssueWorkspace(root: string, key: string, env: Env, draws: seq<seq<Byte>>)
      returns (r: Result<Workspace, ManagerError>)
      requires Valid() && |draws| >= ID_ATTEMPTS && key !in idsByKey
      modifies this
      ensures Valid()
      ensures r == Issue(old(View()), root, env, draws)
      ensures r.Err? ==> View() == old(View())
      ensures r.Ok? ==> env.session.Some? && !Live(old(View()), r.value.id) && !Buried(old(tombstones), r.value.id)
      ensures r.Ok? ==> View() == Issued(old(View()), Record(r.value, key, env.now + ttlMs, env.session.value, identity,
                                                             env.policy))
      ensures r.Ok? ==> r.value == Workspace(r.value.id, root, env.now) && !Blank(r.value.id)
      ensures r.Ok? ==> Find(records, r.value.id)
                        == Some(Record(r.value, key, env.now + ttlMs, env.session.value, identity, env.policy))
    {
      hide Inv, Find, Issued, Buried, Live, Taken, WorkspaceId, Drawn;
      var id := NextWorkspaceId(draws);
      if id.Err? { return Err(id.error); }
      if env.session.None? { return Err(SessionUnavailable); }
      var w := Workspace(id.value, root, env.now);
      var record := Record(w, key, env.now + ttlMs, env.session.value, identity, env.policy);
      IssueKeepsInv(View(), record, cap);
      IssuedMeans(View(), record);
      NotLive(View(), id.value);
      FindAppended(records, record, id.value);
      records := records + [record];
      idsByKey := idsByKey[key := id.value];
      issued := issued + [id.value];
      r := Ok(w);
    }

    /**
     * A root has at most one handle. One that is still bound is renewed; one that is not is revoked and replaced.
     * A failed call prunes, and may have revoked the stale handle, but issues nothing.
     */
    method OpenWorkspace(resolved: Result<(string, string), ManagerError>, useAllowed: bool, env: Env,
                         draws: seq<seq<Byte>>)
      returns (r: Result<Workspace, ManagerError>)
      requires Valid() && |draws| >= ID_ATTEMPTS
      modifies this
      ensures Valid()
      ensures resolved.Err? ==> r == Err(resolved.error)
      ensures resolved.Ok? && !useAllowed ==> r == Err(UseRefused)
      ensures resolved.Err? || !useAllowed ==> View() == Pruned(old(View()), env.pruneAt, cap)
      ensures resolved.Ok? && useAllowed ==>
        var pruned := Pruned(old(View()), env.pruneAt, cap);
        var existing := Handle(pruned, resolved.value.1);
        if existing.Some? && env.session.None? then r == Err(SessionUnavailable) && View() == pruned
        else if existing.Some? && Bound(existing.value, env, identity) then
          r == Ok(existing.value.workspace) && View() == Touched(pruned, existing.value.workspace.id, env.now + ttlMs)
        else
          var base := if existing.Some? then Revoke(pruned, existing.value, PolicyRevisionChanged, env.revokeAt, cap)
            else pruned;
          && r == Issue(base, resolved.value.0, env, draws)
          && (r.Err? ==> View() == base)
          && (r.Ok? ==> env.session.Some? && !Live(base, r.value.id) && !Buried(base.tombstones, r.value.id)
                        && View() == Issued(base, Record(r.value, resolved.value.1, env.now + ttlMs, env.session.value,
                                                         identity, env.policy)))
      ensures r.Ok? ==> resolved.Ok? && useAllowed && env.session.Some?
      ensures r.Ok? && |issued| > |old(issued)| ==> !Blank(r.value.id)
      ensures r.Ok? ==> Find(records, r.value.id) == Some(Record(r.value, resolved.value.1, env.now + ttlMs,
                                                                 env.session.value, identity, env.policy))
    {
      PrunedIssuesNothing(View(), env.pruneAt, cap);
      PruneExpired(env.pruneAt);
      if resolved.Err? { return Err(resolved.error); }
      if !useAllowed { return Err(UseRefused); }
      var (root, key) := resolved.value;
      hide Inv, Pruned, Find, Revoke, Touched, Issued, Buried, Live, Bound, Taken, WorkspaceId, RevokeEach;
      hide Selected, Spared, Drawn, Issue;
      if key in idsByKey {
        HandleIsLive(View(), key, cap);
        var existing := Find(records, idsByKey[key]).value;
        if env.session.None? { return Err(SessionUnavailable); }
        BoundMeans(existing, env, identity);
        if Bound(existing, env, identity) {
          var w := Touch(existing, env.now);
          return Ok(w);
        }
        RevokedKey(View(), existing, PolicyRevisionChanged, env.revokeAt, cap);
        RevokeRecord(existing, PolicyRevisionChanged, env.revokeAt);
      }
      r := IssueWorkspace(root, key, env, draws);
    }

    /** Serves exactly the live, unexpired handles of this binding, and renews them; a stale one is revoked on sight. */
    method GetWorkspace(id: string, useAllowed: bool, env: Env) returns (r: Result<Workspace, ManagerError>)
      requires Valid()
      modifies this
      ensures Valid()
      ensures r.Ok? <==> !Blank(id) && Current(old(View()), id, env).Some? && useAllowed
                         && Bound(Current(old(View()), id, env).value, env, identity)
      ensures Blank(id) ==> r == Err(IdRequired) && View() == old(View())
      ensures !Blank(id) ==>
        var pruned := Pruned(old(View()), env.pruneAt, cap);
        match Current(old(View()), id, env)
        case None => r == Err(UnknownWorkspace) && View() == pruned
        case Some(record) =>
          if env.session.None? then r == Err(SessionUnavailable) && View() == pruned
          else if !Bound(record, env, identity) then
            r == Err(UnknownWorkspace) && View() == Revoke(pruned, record, PolicyRevisionChanged, env.revokeAt, cap)
          else if !useAllowed then r == Err(UseRefused) && View() == pruned
          else r == Ok(record.workspace) && View() == Touched(pruned, id, env.now + ttlMs)
      ensures r.Ok? ==> Find(records, id).Some? && Find(records, id).value.expiresAtMs == env.now + ttlMs
    {
      if Blank(id) { return Err(IdRequired); }
      PrunedFind(View(), env.pruneAt, cap, id);
      PruneExpired(env.pruneAt);
      FindMeans(records, id);
      hide Inv, Pruned, Find, Revoke, Touched, Blank, Bound, RevokeEach, Selected, Spared;
      var record := Find(records, id);
      if record.None? { return Err(UnknownWorkspace); }
      if env.session.None? { return Err(SessionUnavailable); }
      if !Bound(record.value, env, identity) {
        RevokeRecord(record.value, PolicyRevisionChanged, env.revokeAt);
        return Err(UnknownWorkspace);
      }
      if !useAllowed { return Err(UseRefused); }
      var w := Touch(record.value, env.now);
      r := Ok(w);
    }

    /** Closes exactly the handles that could have been served, and tells when. */
    method CloseWorkspace(id: string, env: Env) returns (r: Result<int, ManagerError>)
      requires Valid()
      modifies this
      ensures Valid()
      ensures Blank(id) ==> r == Err(IdRequired) && View() == old(View())
      ensures r.Ok? ==> !Live(View(), id)
      ensures !Blank(id) ==>
        var pruned := Pruned(old(View()), env.pruneAt, cap);
        match Current(old(View()), id, env)
        case None => r == Err(UnknownWorkspace) && View() == pruned
        case Some(record) =>
          if env.session.None? then r == Err(SessionUnavailable) && View() == pruned
          else if !Bound(record, env, identity) then
            r == Err(UnknownWorkspace) && View() == Revoke(pruned, record, PolicyRevisionChanged, env.revokeAt, cap)
          else r == Ok(env.now) && View() == Revoke(pruned, record, Closed, env.now, cap)
    {
      if Blank(id) { return Err(IdRequired); }
      PrunedFind(View(), env.pruneAt, cap, id);
      PruneExpired(env.pruneAt);
      FindMeans(records, id);
      hide Inv, Pruned, Find, Revoke, Touched, Blank, Bound, RevokeEach, Selected, Spared;
      var record := Find(records, id);
      if record.None? { return Err(UnknownWorkspace); }
      if env.session.None? { return Err(SessionUnavailable); }
      if !Bound(record.value, env, identity) {
        RevokeRecord(record.value, PolicyRevisionChanged, env.revokeAt);
        return Err(UnknownWorkspace);
      }
      RevokeKeepsInv(View(), record.value, Closed, env.now, cap);
      RevokeRecord(record.value, Closed, env.now);
      r := Ok(env.now);
    }

    /** Lists the unexpired handles of this binding, oldest first. */
    method ListWorkspaces(env: Env) returns (r: Result<seq<Workspace>, ManagerError>)
      requires Valid()
      modifies this
      ensures Valid()
      ensures View() == Pruned(old(View()), env.pruneAt, cap)
      ensures r == if env.session.None? && records != [] then Err(SessionUnavailable)
                   else Ok(WorkspacesOf(Selected(Spared(old(records), ExpiredAt(env.pruneAt)), BoundIn(env, identity))))
    {
      PruneExpired(env.pruneAt);
      if env.session.None? && records != [] { return Err(SessionUnavailable); }
      r := Ok(WorkspacesOf(Selected(records, BoundIn(env, identity))));
    }
  }

  lemma {:induction false} AllSelected(records: seq<Record>)
    ensures Selected(records, (r: Record) => true) == records
    ensures Spared(records, (r: Record) => true) == []
  {
    if records != [] { AllSelected(records[1..]); SelectedFirst(records, (r: Record) => true); }
  }

  lemma NothingLeft(s: State, cap: nat)
    requires Inv(s, cap) && s.records == []
    ensures s.idsByKey == map[]
  {
  }

  lemma HandleIsLive(s: State, key: string, cap: nat)
    requires Inv(s, cap) && key in s.idsByKey
    ensures Handle(s, key).Some? && Handle(s, key).value in s.records
    ensures Handle(s, key).value.key == key && Handle(s, key).value.workspace.id == s.idsByKey[key]
  {
    FindMeans(s.records, s.idsByKey[key]);
  }

  lemma RevokedKey(s: State, r: Record, reason: Reason, at: int, cap: nat)
    requires Inv(s, cap) && r in s.records
    ensures r.key !in Revoke(s, r, reason, at, cap).idsByKey
  {
  }

  lemma IssuedMeans(s: State, r: Record)
    ensures Issued(s, r) == State(s.records + [r], s.idsByKey[r.key := r.workspace.id], s.tombstones,
                                  s.issued + [r.workspace.id], s.revoked)
  {
  }

  // ----- open, then use

  /**
   * A handle just opened serves a second call, before it expires and when its root may be used, exactly in the same
   * session under the same policy revision. A handle just issued has an id that can be asked for.
   */
  method OpenThenUse(m: WorkspaceManager, resolved: Result<(string, string), ManagerError>, first: Env,
                     draws: seq<seq<Byte>>, second: Env)
    returns (handle: Result<Workspace, ManagerError>, used: Result<Workspace, ManagerError>)
    requires m.Valid() && |draws| >= ID_ATTEMPTS
    modifies m
    ensures m.Valid()
    ensures handle.Ok? && !Blank(handle.value.id) ==>
            (used.Ok? <==> second.pruneAt < first.now + m.ttlMs
                           && second.session == first.session && second.policy == first.policy)
    ensures handle.Ok? && used.Ok? ==> used == handle
    ensures handle.Ok? && |m.issued| > |old(m.issued)| ==> !Blank(handle.value.id)
  {
    hide Inv, Pruned, Find, Revoke, Touched, Blank, Issued, WorkspaceId, Bound, Current, Issue;
    handle := m.OpenWorkspace(resolved, true, first, draws);
    used := Err(UnknownWorkspace);
    if handle.Ok? {
      var record := Record(handle.value, resolved.value.1, first.now + m.ttlMs, first.session.value, m.identity,
                           first.policy);
      CurrentFound(m.View(), record, second);
      BoundMeans(record, second, m.identity);
      used := m.GetWorkspace(handle.value.id, true, second);
    }
  }

  lemma CurrentFound(s: State, r: Record, env: Env)
    requires Find(s.records, r.workspace.id) == Some(r)
    ensures Current(s, r.workspace.id, env) == if env.pruneAt < r.expiresAtMs then Some(r) else None
  {
    NotLive(s, r.workspace.id);
  }

  // ----- an id issued twice

  const RUN_ENV := Env(0, 0, 0, Some("session"), None)

  /** Sixteen bytes, the first of which is n. */
  function Bytes(n: Byte): seq<Byte> {
    [n] + seq(ID_BYTES - 1, _ => 0)
  }

  lemma BytesDiffer(m: Byte, n: Byte)
    requires m != n
    ensures WorkspaceId(Bytes(m)) != WorkspaceId(Bytes(n))
  {
    assert WorkspaceId(Bytes(m))[3..5] == [HexDigit(m / 16), HexDigit(m % 16)];
    assert WorkspaceId(Bytes(n))[3..5] == [HexDigit(n / 16), HexDigit(n % 16)];
    HexDigitsDiffer(m / 16, n / 16);
    HexDigitsDiffer(m % 16, n % 16);
  }

  lemma HexDigitsDiffer(m: nat, n: nat)
    requires m < 16 && n < 16
    ensures HexDigit(m) == HexDigit(n) <==> m == n
  {
  }

  /** Nothing live, and these events and issues so far. */
  ghost predicate AllClosed(m: WorkspaceManager, n: nat)
    reads m
    requires n <= 0x100
  {
    m.Valid() && ClosedRounds(m.View(), n)
  }

  predicate ClosedRounds(s: State, n: nat)
    requires n <= 0x100
  {
    && s.records == [] && s.idsByKey == map[]
    && |s.revoked| == |s.issued| == n
    && forall k :: 0 <= k < n ==> s.issued[k] == s.revoked[k].id == WorkspaceId(Bytes(k))
  }

  lemma NothingToPrune(s: State, at: int, cap: nat)
    requires s.records == []
    ensures Pruned(s, at, cap) == s
  {
  }

  /** Opening a root when nothing is live and the drawn id is not buried issues exactly that id. */
  method OpenOne(m: WorkspaceManager, bytes: seq<Byte>) returns (w: Workspace)
    requires m.Valid() && m.records == [] && m.idsByKey == map[] && |bytes| == ID_BYTES
    requires !Buried(m.tombstones, WorkspaceId(bytes))
    modifies m
    ensures m.Valid() && w.id == WorkspaceId(bytes)
    ensures m.View() == Issued(old(m.View()), Record(w, "key", m.ttlMs, "session", m.identity, None))
  {
    var draws := [bytes, bytes, bytes, bytes, bytes, bytes, bytes, bytes];
    NothingToPrune(m.View(), 0, m.cap);
    DrawnExactly(m.View(), draws, 0);
    hide Inv, Drawn, Pruned, Issued, Buried;
    var r := m.OpenWorkspace(Ok(("root", "key")), true, RUN_ENV, draws);
    w := r.value;
  }

  /** One round: a handle opened and closed. */
  method OpenAndClose(m: WorkspaceManager, n: Byte)
    requires AllClosed(m, n) && !Buried(m.tombstones, WorkspaceId(Bytes(n))) && m.ttlMs > 0
    modifies m
    ensures AllClosed(m, n + 1)
  {
    hide *;
    ghost var before := m.View();
    RoundStarts(m, n);
    var w := OpenOne(m, Bytes(n));
    ghost var r := Record(w, "key", m.ttlMs, "session", m.identity, None);
    RoundCloses(m, before, r, n);
    var closed := m.CloseWorkspace(w.id, RUN_ENV);
    RoundEnds(m, n + 1);
  }

  lemma RoundStarts(m: WorkspaceManager, n: Byte)
    requires AllClosed(m, n)
    ensures m.Valid() && m.records == [] && m.idsByKey == map[] && |Bytes(n)| == ID_BYTES
    ensures ClosedRounds(m.View(), n)
  {
  }

  lemma RoundEnds(m: WorkspaceManager, n: nat)
    requires n <= 0x100 && m.Valid() && ClosedRounds(m.View(), n)
    ensures AllClosed(m, n)
  {
  }

  /** The handle just opened is current, and closing it leaves one more round behind. */
  lemma RoundCloses(m: WorkspaceManager, before: State, r: Record, n: Byte)
    requires m.Valid() && ClosedRounds(before, n) && m.View() == Issued(before, r)
    requires r.workspace.id == WorkspaceId(Bytes(n)) && r.expiresAtMs > 0
    requires r.session == "session" && r.policy == None && r.identity == m.identity
    ensures !Blank(r.workspace.id) && Bound(r, RUN_ENV, m.identity) && RUN_ENV.session.Some?
    ensures Current(m.View(), r.workspace.id, RUN_ENV) == Some(r)
    ensures ClosedRounds(Revoke(Pruned(m.View(), RUN_ENV.pruneAt, m.cap), r, Closed, RUN_ENV.now, m.cap), n + 1)
  {
    hide Inv, Find, Without, Pruned, Revoke, Blank, WorkspaceId, Bytes, Hex, ClosedRounds;
    HandleOpened(m, before, r, n);
    NothingExpired(m.View(), r, m.cap);
    ClosedRecord(m.View(), r, m.cap);
    RoundCounted(before, Revoke(m.View(), r, Closed, RUN_ENV.now, m.cap), r, n);
  }

  lemma HandleOpened(m: WorkspaceManager, before: State, r: Record, n: Byte)
    requires m.Valid() && ClosedRounds(before, n) && m.View() == Issued(before, r)
    requires r.workspace.id == WorkspaceId(Bytes(n))
    ensures !Blank(r.workspace.id) && m.View().records == [r] && Inv(m.View(), m.cap) && m.cap > 0
  {
    NotBlank(r.workspace.id);
    hide Inv, Blank, Bytes, Hex;
  }

  lemma RoundCounted(before: State, after: State, r: Record, n: Byte)
    requires ClosedRounds(before, n) && r.workspace.id == WorkspaceId(Bytes(n))
    requires after.records == [] && after.idsByKey == map[]
    requires after.issued == before.issued + [r.workspace.id]
    requires after.revoked == before.revoked + [Event(r.workspace.id, r.key, Closed)]
    ensures ClosedRounds(after, n + 1)
  {
    hide WorkspaceId, Bytes;
  }

  lemma NothingExpired(s: State, r: Record, cap: nat)
    requires s.records == [r] && r.expiresAtMs > 0
    ensures Pruned(s, 0, cap) == s && Find(s.records, r.workspace.id) == Some(r)
            && Without(s.records, r.workspace.id) == []
  {
    assert [r][1..] == [];
    assert Selected([r], ExpiredAt(0)) == [] + Selected([], ExpiredAt(0));
  }

  lemma ClosedRecord(s: State, r: Record, cap: nat)
    requires Inv(s, cap) && cap > 0 && s.records == [r]
    ensures var t := Revoke(s, r, Closed, 0, cap);
            t.records == Without([r], r.workspace.id) && t.idsByKey == map[] && t.issued == s.issued
            && t.revoked == s.revoked + [Event(r.workspace.id, r.key, Closed)]
  {
    RevokeKeepsInv(s, r, Closed, 0, cap);
    WithoutAt([r], 0);
    NothingLeft(Revoke(s, r, Closed, 0, cap), cap);
  }

  lemma NotBlank(id: string)
    requires id != "" && id[0] == 'w'
    ensures !Blank(id)
  {
    assert !IsSpace(id[0]);
  }

  /**
   * A run from a new registry that issues an id twice: once the sixteen tombstones of the smallest cap have all been
   * taken by later handles, the generator may repeat the first id, which is then live although it has been revoked.
   */
  method RunThatReissues() returns (m: WorkspaceManager, w: Workspace)
    ensures m.Valid() && fresh(m) && m.cap == MIN_TOMBSTONES && |m.revoked| == MIN_TOMBSTONES + 1 < |m.issued|
    ensures w.id == m.issued[0] == m.revoked[0].id && Live(m.View(), w.id) && !LiveOrRevokedOnce(m.View(), w.id)
  {
    m := new WorkspaceManager("identity", MIN_TTL_MS, MIN_TOMBSTONES);
    for n := 0 to MIN_TOMBSTONES + 1
      invariant fresh(m) && AllClosed(m, n) && m.cap == MIN_TOMBSTONES
    {
      NotYetBuried(m, n, n);
      OpenAndClose(m, n);
    }
    NotYetBuried(m, MIN_TOMBSTONES + 1, 0);
    ghost var before := m.View();
    w := OpenOne(m, Bytes(0));
    assert m.issued[0] == before.issued[0] && m.revoked == before.revoked;
    FindAppended(before.records, Record(w, "key", m.ttlMs, "session", m.identity, None), w.id);
    RevokedBefore(m.revoked, 0);
  }

  /** An id is not buried when none of the last events is for it. */
  lemma NotYetBuried(m: WorkspaceManager, n: nat, id: Byte)
    requires n <= MIN_TOMBSTONES + 1 && AllClosed(m, n) && m.cap == MIN_TOMBSTONES
    requires id == n || (id == 0 && n == MIN_TOMBSTONES + 1)
    ensures !Buried(m.tombstones, WorkspaceId(Bytes(id)))
  {
    BuriedExactly(m.View(), m.cap, WorkspaceId(Bytes(id)));
    forall k | n - m.cap <= k < n && 0 <= k ensures m.revoked[k].id != WorkspaceId(Bytes(id)) { BytesDiffer(k, id); }
  }

  lemma {:induction false} RevokedBefore(revoked: seq<Event>, i: nat)
    requires i < |revoked|
    ensures CountRevoked(revoked, revoked[i].id) > 0
  {
    if i < |revoked| - 1 { RevokedBefore(revoked[..|revoked| - 1], i); }
  }
}
