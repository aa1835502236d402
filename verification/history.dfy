/** Sequences of store operations that follow one `load`: the invariant
    holds throughout, identifiers handed out are strictly increasing and
    never collide with an identifier held before, and no task is ever
    marked not done again. */
module History {
  import opened Tasks
  import opened Persistence

  /** The operations that change the store; `list` and `find` only read it. */
  datatype Command =
    | AddTask(title: string, now: Timestamp)
    | Delete(id: int)
    | Complete(id: int)

  function Apply(s: Store, c: Command): Reply {
    match c
    case AddTask(title, now) => Reply(Add(s, title, now), Ok)
    case Delete(id) => Suppr(s, id)
    case Complete(id) => MarkDone(s, id)
  }

  /** The store after running `cs` in order; a failed command leaves the
      store as it was and the run goes on. */
  function Run(s: Store, cs: seq<Command>): Store
    decreases |cs|
  {
    if cs == [] then s else Run(Apply(s, cs[0]).store, cs[1..])
  }

  /** The identifiers handed out by the `AddTask` commands of a run, in order. */
  function Issued(s: Store, cs: seq<Command>): seq<int>
    decreases |cs|
  {
    if cs == [] then []
    else (if cs[0].AddTask? then [s.nextID] else []) + Issued(Apply(s, cs[0]).store, cs[1..])
  }

  /** Every operation keeps the store invariant, never resets `done`, and
      introduces no identifier other than the counter's. */
  lemma ApplyKeepsValid(s: Store, c: Command)
    requires Valid(s)
    ensures Valid(Apply(s, c).store)
    ensures Apply(s, c).store.nextID == s.nextID + (if c.AddTask? then 1 else 0)
    ensures DoneKept(s.tasks, Apply(s, c).store.tasks)
    ensures forall j :: 0 <= j < |Apply(s, c).store.tasks| ==>
      HasId(s.tasks, Apply(s, c).store.tasks[j].id) || Apply(s, c).store.tasks[j].id == s.nextID
  {
    match c
    case AddTask(title, now) =>
      AddKeepsValid(s, title, now);
    case Delete(id) =>
      SupprKeepsValid(s, id);
      SupprKeepsDone(s, id);
    case Complete(id) =>
      MarkDoneKeepsValid(s, id);
  }

  /** The counter never moves backwards during a run. */
  lemma {:induction false} RunCounterGrows(s: Store, cs: seq<Command>)
    ensures s.nextID <= Run(s, cs).nextID
    decreases |cs|
  {
    if cs != [] {
      var s' := Apply(s, cs[0]).store;
      assert s.nextID <= s'.nextID;
      RunCounterGrows(s', cs[1..]);
    }
  }

  /** A run that starts from a valid store ends in one, and no task marked
      done at the start is anything but done at the end. */
  lemma {:induction false} RunKeepsValid(s: Store, cs: seq<Command>)
    requires Valid(s)
    ensures Valid(Run(s, cs))
    ensures DoneKept(s.tasks, Run(s, cs).tasks)
    decreases |cs|
  {
    if cs != [] {
      var s' := Apply(s, cs[0]).store;
      ApplyKeepsValid(s, cs[0]);
      RunKeepsValid(s', cs[1..]);
      var e := Run(s, cs);
      assert e == Run(s', cs[1..]);
      forall i, j | 0 <= i < |s.tasks| && 0 <= j < |e.tasks| && s.tasks[i].id == e.tasks[j].id && s.tasks[i].done
        ensures e.tasks[j].done
      {
        // the task either survives the first command, and then keeps `done`,
        // or it was deleted, and then its identifier cannot come back
        if k :| 0 <= k < |s'.tasks| && s'.tasks[k].id == s.tasks[i].id {
          assert s'.tasks[k].done;
        } else {
          IdNeverReturns(s', cs[1..], s.tasks[i].id);
        }
      }
    }
  }

  /** An identifier below the counter that is absent from the store never
      reappears later in the run. */
  lemma {:induction false} IdNeverReturns(s: Store, cs: seq<Command>, id: int)
    requires Valid(s)
    requires id < s.nextID && !HasId(s.tasks, id)
    ensures !HasId(Run(s, cs).tasks, id)
    decreases |cs|
  {
    if cs != [] {
      var r := Apply(s, cs[0]);
      var s' := r.store;
      ApplyKeepsValid(s, cs[0]);
      IdNeverReturns(s', cs[1..], id);
    }
  }

  /** Within one run the identifiers handed out are strictly increasing,
      differ from every identifier in the starting store, and stay below
      the final counter. */
  lemma {:induction false} IssuedFresh(s: Store, cs: seq<Command>)
    requires Valid(s)
    ensures forall k :: 0 <= k < |Issued(s, cs)| ==> s.nextID <= Issued(s, cs)[k] < Run(s, cs).nextID
    ensures forall k, l :: 0 <= k < l < |Issued(s, cs)| ==> Issued(s, cs)[k] < Issued(s, cs)[l]
    ensures forall k, i :: 0 <= k < |Issued(s, cs)| && 0 <= i < |s.tasks| ==> s.tasks[i].id < Issued(s, cs)[k]
    decreases |cs|
  {
    if cs != [] {
      var s' := Apply(s, cs[0]).store;
      ApplyKeepsValid(s, cs[0]);
      IssuedFresh(s', cs[1..]);
      RunCounterGrows(s', cs[1..]);
      var head := if cs[0].AddTask? then [s.nextID] else [];
      var tail := Issued(s', cs[1..]);
      assert Issued(s, cs) == head + tail;
      assert Run(s, cs) == Run(s', cs[1..]);
    }
  }

  /** From a missing file, two adds and a delete: "Write report" gets
      identifier 1 and "Buy milk" identifier 2; deleting 1 leaves only the
      second task, not done, and saving and reloading gives it back. */
  lemma WriteReportBuyMilkScenario(t1: Timestamp, t2: Timestamp)
    ensures
      var s0 := Load(Missing).value;
      var s1 := Add(s0, "Write report", t1);
      var s2 := Add(s1, "Buy milk", t2);
      var r := Suppr(s2, 1);
      && s1.tasks == [Task(1, "Write report", false, t1)]
      && s2.tasks == [Task(1, "Write report", false, t1), Task(2, "Buy milk", false, t2)]
      && r.status == Ok
      && r.store.tasks == [Task(2, "Buy milk", false, t2)]
      && Load(Save(r.store)).value.tasks == r.store.tasks
  {
    var s1 := Add(Empty, "Write report", t1);
    assert s1.tasks == [Task(1, "Write report", false, t1)];
    var s2 := Add(s1, "Buy milk", t2);
    assert s2.tasks == [Task(1, "Write report", false, t1), Task(2, "Buy milk", false, t2)];
    SupprPositions(s2, 1, 0);
    var r := Suppr(s2, 1);
    assert r.store.tasks == [Task(2, "Buy milk", false, t2)];
  }

  /** Loading a file that holds only the not-done task 2, marking it done,
      then saving and reloading shows it as done. */
  lemma MarkDoneSurvivesReload(t2: Timestamp)
    ensures
      var loaded := Load(Present([Task(2, "Buy milk", false, t2)])).value;
      var m := MarkDone(loaded, 2);
      && m.status == Ok
      && Load(Save(m.store)).value.tasks == [Task(2, "Buy milk", true, t2)]
  {
    var loaded := Load(Present([Task(2, "Buy milk", false, t2)])).value;
    assert FirstWithId(loaded.tasks, 2, 0);
    var m := MarkDone(loaded, 2);
    var i :| FirstWithId(loaded.tasks, 2, i) &&
      m.store.tasks[i] == loaded.tasks[i].(done := true) &&
      forall j :: 0 <= j < |loaded.tasks| && j != i ==> m.store.tasks[j] == loaded.tasks[j];
    assert m.store.tasks == [Task(2, "Buy milk", true, t2)];
  }
}
