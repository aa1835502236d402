/** The in-memory task store of the todo tracker (main.go).

    The Go program keeps its state in two globals, the task slice and the
    identifier counter. Here the state is an explicit immutable `Store`
    value, and every mutating operation is a pure function returning the new
    store together with the status the Go function reports. */
module Tasks {

  datatype Option<T> = None | Some(value: T)

  /** The creation time of a task. It is taken as a parameter wherever the
      program reads the clock, and it is never inspected or compared. */
  datatype Timestamp = Timestamp(unixNanos: int)

  datatype Task = Task(id: int, title: string, done: bool, createdAt: Timestamp)

  /** The tasks in insertion order and the identifier the next `Add` hands out. */
  datatype Store = Store(tasks: seq<Task>, nextID: int)

  /** `Ok` is Go's nil error; `NotFound` is the "task not found" error. */
  datatype Status = Ok | NotFound

  datatype Reply = Reply(store: Store, status: Status)

  /** The store before anything is loaded: no tasks, counter at 1. */
  const Empty := Store([], 1)

  ghost predicate HasId(ts: seq<Task>, id: int) {
    exists i :: 0 <= i < |ts| && ts[i].id == id
  }

  ghost predicate UniqueIds(ts: seq<Task>) {
    forall i, j :: 0 <= i < j < |ts| ==> ts[i].id != ts[j].id
  }

  ghost predicate IdsBelow(ts: seq<Task>, n: int) {
    forall i :: 0 <= i < |ts| ==> ts[i].id < n
  }

  /** The store invariant: identifiers are pairwise distinct and all of them
      are below the counter, so the next `Add` cannot collide; the counter
      is at least its initial value 1. */
  ghost predicate Valid(s: Store) {
    UniqueIds(s.tasks) && IdsBelow(s.tasks, s.nextID) && 1 <= s.nextID
  }

  /** `i` is the position of the first task carrying `id`. */
  ghost predicate FirstWithId(ts: seq<Task>, id: int, i: int) {
    0 <= i < |ts| && ts[i].id == id && forall j :: 0 <= j < i ==> ts[j].id != id
  }

  /** The scan shared by `suppr` and `markDone`: the position of the first
      task whose identifier is `id`, if any. */
  function Locate(ts: seq<Task>, id: int): (r: Option<nat>)
    ensures r.None? <==> !HasId(ts, id)
    ensures r.Some? ==> FirstWithId(ts, id, r.value)
  {
    if ts == [] then None
    else if ts[0].id == id then Some(0)
    else
      match Locate(ts[1..], id)
      case None =>
        assert forall j :: 1 <= j < |ts| ==> ts[j] == ts[1..][j - 1];
        None
      case Some(i) =>
        assert forall j :: 1 <= j <= i + 1 ==> ts[j] == ts[1..][j - 1];
        Some(i + 1)
  }

  /** The first match is unique: two positions that are both "first" agree. */
  lemma FirstWithIdUnique(ts: seq<Task>, id: int, i: int, k: int)
    requires FirstWithId(ts, id, i) && FirstWithId(ts, id, k)
    ensures i == k
  {
  }

  /** `add`: appends one task carrying the counter's identifier, the given
      title, not done, and the given creation time; the counter moves on by one. */
  function Add(s: Store, title: string, now: Timestamp): (r: Store)
    ensures |r.tasks| == |s.tasks| + 1
    ensures r.tasks[..|s.tasks|] == s.tasks
    ensures r.tasks[|s.tasks|] == Task(s.nextID, title, false, now)
    ensures r.nextID == s.nextID + 1
  {
    Store(s.tasks + [Task(s.nextID, title, false, now)], s.nextID + 1)
  }

  /** `suppr`: removes the first task carrying `id`, keeping the others in
      order; without such a task it reports `NotFound` and changes nothing. */
  function Suppr(s: Store, id: int): (r: Reply)
    ensures r.status == Ok <==> HasId(s.tasks, id)
    ensures r.status == NotFound ==> r.store == s
    ensures r.store.nextID == s.nextID
    ensures r.status == Ok ==>
      |r.store.tasks| == |s.tasks| - 1 &&
      exists i :: FirstWithId(s.tasks, id, i) &&
        r.store.tasks[..i] == s.tasks[..i] && r.store.tasks[i..] == s.tasks[i + 1..]
  {
    match Locate(s.tasks, id)
    case None => Reply(s, NotFound)
    case Some(i) =>
      var rest := s.tasks[..i] + s.tasks[i + 1..];
      assert rest[..i] == s.tasks[..i] && rest[i..] == s.tasks[i + 1..];
      Reply(Store(rest, s.nextID), Ok)
  }

  /** `markDone`: sets `done` on the first task carrying `id` and on nothing
      else; without such a task it reports `NotFound` and changes nothing. */
  function MarkDone(s: Store, id: int): (r: Reply)
    ensures r.status == Ok <==> HasId(s.tasks, id)
    ensures r.status == NotFound ==> r.store == s
    ensures r.store.nextID == s.nextID
    ensures |r.store.tasks| == |s.tasks|
    ensures r.status == Ok ==>
      exists i :: FirstWithId(s.tasks, id, i) &&
        r.store.tasks[i] == s.tasks[i].(done := true) &&
        forall j :: 0 <= j < |s.tasks| && j != i ==> r.store.tasks[j] == s.tasks[j]
  {
    match Locate(s.tasks, id)
    case None => Reply(s, NotFound)
    case Some(i) => Reply(Store(s.tasks[i := s.tasks[i].(done := true)], s.nextID), Ok)
  }

  /** Every task done in `a` is still done wherever its identifier appears in `b`. */
  ghost predicate DoneKept(a: seq<Task>, b: seq<Task>) {
    forall i, j :: 0 <= i < |a| && 0 <= j < |b| && a[i].id == b[j].id && a[i].done ==> b[j].done
  }

  /** `add` keeps the invariant: the new identifier exceeds every identifier
      in the store, and the counter stays ahead of it. No task loses `done`,
      and the only identifier not already present is the new one. */
  lemma AddKeepsValid(s: Store, title: string, now: Timestamp)
    requires Valid(s)
    ensures Valid(Add(s, title, now))
    ensures forall i :: 0 <= i < |s.tasks| ==> s.tasks[i].id < Add(s, title, now).tasks[|s.tasks|].id
    ensures DoneKept(s.tasks, Add(s, title, now).tasks)
    ensures forall j :: 0 <= j < |Add(s, title, now).tasks| ==>
      HasId(s.tasks, Add(s, title, now).tasks[j].id) || Add(s, title, now).tasks[j].id == s.nextID
  {
    var ts := Add(s, title, now).tasks;
    assert forall j :: 0 <= j < |s.tasks| ==> ts[j] == s.tasks[j] by {
      forall j | 0 <= j < |s.tasks| ensures ts[j] == s.tasks[j] {
        assert ts[j] == ts[..|s.tasks|][j];
      }
    }
  }

  /** After removing position `i`, the task now at position `k` came from
      this position of the old sequence. */
  function Origin(i: int, k: int): int {
    if k < i then k else k + 1
  }

  /** A successful `suppr` closes the gap left at the first match: every
      later task moves one position forward, every earlier one stays. */
  lemma SupprPositions(s: Store, id: int, i: int)
    requires FirstWithId(s.tasks, id, i)
    ensures Suppr(s, id).status == Ok
    ensures forall k :: 0 <= k < |Suppr(s, id).store.tasks| ==>
      Suppr(s, id).store.tasks[k] == s.tasks[Origin(i, k)]
  {
    var ts := Suppr(s, id).store.tasks;
    var i' :| FirstWithId(s.tasks, id, i') && ts[..i'] == s.tasks[..i'] && ts[i'..] == s.tasks[i' + 1..];
    FirstWithIdUnique(s.tasks, id, i, i');
    forall k | 0 <= k < |ts| ensures ts[k] == s.tasks[Origin(i, k)] {
      if k < i {
        assert ts[k] == ts[..i][k];
      } else {
        assert ts[k] == ts[i..][k - i];
      }
    }
  }

  /** `suppr` keeps the invariant, and after a successful call no task with
      the removed identifier is left. */
  lemma SupprKeepsValid(s: Store, id: int)
    requires Valid(s)
    ensures Valid(Suppr(s, id).store)
    ensures Suppr(s, id).status == Ok ==> !HasId(Suppr(s, id).store.tasks, id)
  {
    if HasId(s.tasks, id) {
      var i := Locate(s.tasks, id).value;
      SupprPositions(s, id, i);
      var ts := Suppr(s, id).store.tasks;
      forall a, b | 0 <= a < b < |ts| ensures ts[a].id != ts[b].id {
        assert Origin(i, a) < Origin(i, b);
      }
      forall k | 0 <= k < |ts| ensures ts[k].id != id {
        assert Origin(i, k) != i;
      }
    }
  }

  /** Every task left by `suppr` was in the store before, unchanged; so no
      task loses `done` and no identifier appears that was not there. */
  lemma SupprKeepsDone(s: Store, id: int)
    requires Valid(s)
    ensures forall j :: 0 <= j < |Suppr(s, id).store.tasks| ==> Suppr(s, id).store.tasks[j] in s.tasks
    ensures forall j :: 0 <= j < |Suppr(s, id).store.tasks| ==> HasId(s.tasks, Suppr(s, id).store.tasks[j].id)
    ensures DoneKept(s.tasks, Suppr(s, id).store.tasks)
  {
    if HasId(s.tasks, id) {
      var i := Locate(s.tasks, id).value;
      SupprPositions(s, id, i);
      var ts := Suppr(s, id).store.tasks;
      forall j | 0 <= j < |ts| ensures ts[j] in s.tasks && HasId(s.tasks, ts[j].id) {
        assert ts[j] == s.tasks[Origin(i, j)];
      }
      forall a, b | 0 <= a < |s.tasks| && 0 <= b < |ts| && s.tasks[a].id == ts[b].id && s.tasks[a].done
        ensures ts[b].done
      {
        assert s.tasks[Origin(i, b)] == ts[b];
      }
    }
  }

  /** `markDone` keeps the invariant: no identifier changes, and no task
      loses `done`. */
  lemma MarkDoneKeepsValid(s: Store, id: int)
    requires Valid(s)
    ensures Valid(MarkDone(s, id).store)
    ensures DoneKept(s.tasks, MarkDone(s, id).store.tasks)
    ensures forall j :: 0 <= j < |s.tasks| ==> MarkDone(s, id).store.tasks[j].id == s.tasks[j].id
    ensures forall j :: 0 <= j < |MarkDone(s, id).store.tasks| ==> HasId(s.tasks, MarkDone(s, id).store.tasks[j].id)
  {
    var ts := MarkDone(s, id).store.tasks;
    // position by position, the identifier is kept and `done` can only be set
    assert forall j :: 0 <= j < |ts| ==> ts[j].id == s.tasks[j].id && (s.tasks[j].done ==> ts[j].done) by {
      if HasId(s.tasks, id) {
        var k := Locate(s.tasks, id).value;
        assert ts == s.tasks[k := s.tasks[k].(done := true)];
      }
    }
    forall j | 0 <= j < |ts| ensures HasId(s.tasks, ts[j].id) {
      assert ts[j].id == s.tasks[j].id;
    }
  }

  /** Marking a task done twice leaves the same store, and the same status,
      as marking it once. */
  lemma {:induction false} MarkDoneIdempotent(s: Store, id: int)
    ensures MarkDone(MarkDone(s, id).store, id) == MarkDone(s, id)
  {
    var r := MarkDone(s, id);
    if r.status == Ok {
      var i :| FirstWithId(s.tasks, id, i) &&
        r.store.tasks[i] == s.tasks[i].(done := true) &&
        forall j :: 0 <= j < |s.tasks| && j != i ==> r.store.tasks[j] == s.tasks[j];
      // the identifiers are untouched, so the second scan stops at `i` again
      assert FirstWithId(r.store.tasks, id, i);
      var r2 := MarkDone(r.store, id);
      var i2 :| FirstWithId(r.store.tasks, id, i2) &&
        r2.store.tasks[i2] == r.store.tasks[i2].(done := true) &&
        forall j :: 0 <= j < |r.store.tasks| && j != i2 ==> r2.store.tasks[j] == r.store.tasks[j];
      FirstWithIdUnique(r.store.tasks, id, i, i2);
      assert r2.store.tasks == r.store.tasks;
    }
  }
}
