/** Directory trees as inductive values, and running a walk's marks through a state. */
module Directories {
  import opened CodeUnits

  /** What reading a directory does: give its entries, fail, or find that it is not there. */
  datatype Access = Readable | Denied | Missing

  datatype Directory = Directory(access: Access, entries: seq<Entry>)

  /** Neither files nor folders: links, sockets, devices. */
  datatype Entry = File(name: Text) | Folder(name: Text, contents: Directory) | Other(name: Text)

  function Fold<S, M>(s: S, marks: seq<M>, note: (S, M) -> S): S {
    if marks == [] then s else Fold(note(s, marks[0]), marks[1..], note)
  }

  lemma {:induction false} FoldConcat<S, M>(s: S, a: seq<M>, b: seq<M>, note: (S, M) -> S)
    ensures Fold(s, a + b, note) == Fold(Fold(s, a, note), b, note)
  {
    if a == [] {
      assert a + b == b;
    } else {
      assert (a + b)[1..] == a[1..] + b;
      FoldConcat(note(s, a[0]), a[1..], b, note);
    }
  }

  lemma FoldOne<S, M>(s: S, mark: M, rest: seq<M>, note: (S, M) -> S)
    ensures Fold(s, [mark] + rest, note) == Fold(note(s, mark), rest, note)
  {
    assert ([mark] + rest)[1..] == rest;
  }

  /** A state that no mark changes is not changed by any run of marks. */
  lemma {:induction false} FoldStays<S, M(!new)>(s: S, marks: seq<M>, note: (S, M) -> S)
    requires forall m :: note(s, m) == s
    ensures Fold(s, marks, note) == s
  {
    if marks != [] { FoldStays(s, marks[1..], note); }
  }

  /** The entries still to be visited are entries of the directory. */
  predicate Within(rest: seq<Entry>, d: Directory) {
    |rest| <= |d.entries| && forall e :: e in rest ==> e in d.entries
  }

  lemma TailWithin(rest: seq<Entry>, d: Directory)
    requires Within(rest, d) && rest != []
    ensures Within(rest[1..], d) && rest[0] in d.entries
  {
  }

  function First<T>(xs: seq<T>, n: nat): seq<T> {
    if |xs| <= n then xs else xs[..n]
  }

  lemma OneMoreFits<T>(kept: seq<T>, x: T, more: seq<T>, room: nat)
    ensures (kept + [x]) + First(more, room) == kept + First([x] + more, room + 1)
  {
  }

  lemma Regroup<T>(a: seq<T>, b: seq<T>, c: seq<T>)
    ensures a + b + c == a + (b + c)
  {
  }
}
