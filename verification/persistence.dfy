/** The logical outcome of `load` and `save` (main.go): how the store is
    rebuilt from the backing file, and in particular how the identifier
    counter is recomputed from the identifiers that survive on disk.
    The JSON encoding and the file system calls are not modelled: the file
    is seen as the task sequence it holds. */
module Persistence {
  import opened Tasks

  /** What reading the backing file yields: no file at all, a read or decode
      failure, or the stored task sequence. */
  datatype FileState = Missing | Unreadable | Present(tasks: seq<Task>)

  /** `load`'s scan for the largest identifier, starting from 0 so that an
      empty or all-non-positive collection gives 0. */
  function MaxId(ts: seq<Task>): (m: int)
    ensures m >= 0
    ensures forall i :: 0 <= i < |ts| ==> ts[i].id <= m
    ensures m == 0 || exists i :: 0 <= i < |ts| && ts[i].id == m
  {
    if ts == [] then 0
    else
      var front := ts[..|ts| - 1];
      var t := ts[|ts| - 1];
      var m := MaxId(front);
      assert forall i :: 0 <= i < |front| ==> ts[i] == front[i];
      if t.id > m then t.id else m
  }

  /** `load`: a missing file leaves the initial empty store; an unreadable
      file is an error; otherwise the tasks are taken as stored and the
      counter is one more than the largest identifier (or than 0). */
  function Load(f: FileState): (r: Option<Store>)
    ensures r.None? <==> f.Unreadable?
    ensures f.Missing? ==> r == Some(Empty)
    ensures f.Present? ==> r.Some? && r.value.tasks == f.tasks
    ensures r.Some? ==> r.value.nextID >= 1 && IdsBelow(r.value.tasks, r.value.nextID)
    ensures r.Some? ==>
      r.value.nextID == 1 || exists i :: 0 <= i < |r.value.tasks| && r.value.tasks[i].id == r.value.nextID - 1
  {
    match f
    case Missing => Some(Empty)
    case Unreadable => None
    case Present(ts) => Some(Store(ts, MaxId(ts) + 1))
  }

  /** `save`: the whole task sequence is written back; the counter is not,
      so loading the file recomputes the counter from the saved identifiers. */
  function Save(s: Store): (f: FileState)
    ensures f.Present?
    ensures Load(f).Some? && Load(f).value.tasks == s.tasks
    ensures Load(f).value.nextID == MaxId(s.tasks) + 1
  {
    Present(s.tasks)
  }

  /** A file whose identifiers are distinct loads into a valid store. */
  lemma LoadValid(ts: seq<Task>)
    requires UniqueIds(ts)
    ensures Load(Present(ts)).Some? && Valid(Load(Present(ts)).value)
  {
  }

  /** Saving and reloading a valid store gives back its tasks unchanged,
      with a counter that may be lower than before but never lower than
      needed to keep the invariant. */
  lemma SaveThenLoad(s: Store)
    requires Valid(s)
    ensures Load(Save(s)).Some?
    ensures Load(Save(s)).value.tasks == s.tasks
    ensures Valid(Load(Save(s)).value)
    ensures Load(Save(s)).value.nextID <= s.nextID
  {
    var r := Load(Save(s)).value;
    if r.nextID != 1 {
      var i :| 0 <= i < |r.tasks| && r.tasks[i].id == r.nextID - 1;
      assert s.tasks[i].id < s.nextID;
    }
  }

  /** Identifiers are reused across runs: after the task with the largest
      identifier is deleted and the store is saved and reloaded, the next
      `add` hands that identifier out again. */
  lemma DeletedIdReissuedAfterReload(t1: Timestamp, t2: Timestamp, t3: Timestamp)
    ensures
      var s := Add(Add(Empty, "a", t1), "b", t2);
      var gone := s.tasks[1].id;
      var r := Suppr(s, gone);
      var s' := Load(Save(r.store)).value;
      r.status == Ok && Add(s', "c", t3).tasks[|s'.tasks|].id == gone
  {
    var s := Add(Add(Empty, "a", t1), "b", t2);
    assert s.tasks == [Task(1, "a", false, t1), Task(2, "b", false, t2)];
    var r := Suppr(s, 2);
    assert r.store.tasks == [Task(1, "a", false, t1)];
    assert MaxId(r.store.tasks) == 1;
  }
}
