# todo-go task store, modelled in Dafny

todo-go is a small command-line task tracker. Each invocation loads a JSON
file of tasks, runs one command (`add`, `list`, `done`, `suppr`, `find`) and,
if the command changed something, writes the file back. This project models
the in-memory store behind those commands and proves its properties:

- `Tasks` (tasks.dfy) holds the `Task` record, the store and its three
  mutating operations. The store is the task sequence plus the identifier
  counter `nextID`. The operations are `add`, `suppr` (delete) and
  `markDone`. The Go globals `tasks` and `nextID` become an immutable
  `Store` value. Each operation returns the new store and a status
  (`Ok` or `NotFound`).
- `Text` (text.dfy) holds the string primitives that `find` uses:
  `strings.Contains`, proved equal to a reference definition of "substring",
  and `strings.ToLower`, kept abstract as a per-character mapping `lower`
  applied pointwise.
- `Search` (search.dfy) holds `find`'s selection rule. It is a reference
  filter with its meaning stated: order-preserving subsequence, exactly the
  matching tasks with their multiplicities. It also holds the loop of `find`,
  proved to compute that filter.
- `Persistence` (persistence.dfy) holds the logical outcome of `load` and
  `save`. A missing file gives the empty store. On reload the counter is
  recomputed as `max(0, largest id) + 1`.
- `History` (history.dfy) covers runs of operations that follow one `load`.
  The invariant holds throughout: ids are distinct and all below the counter.
  The ids a run hands out are strictly increasing and fresh. No task is ever
  marked not done again.

Identifiers are unique within one run but not across runs. `load` rebuilds
the counter from the ids still on disk. So deleting the task with the
largest id, saving and reloading hands that id out again
(`Persistence.DeletedIdReissuedAfterReload`). One might expect ids never
to be reused after deletion. The code does not guarantee that, and the
model follows the code. "Never reused" is proved only within a run
(`History.IssuedFresh`, `History.IdNeverReturns`).

One might also expect delete and mark-done to act on "the" task with a
given id. The code acts on the first match and stops. The model does the
same, and uniqueness is a separate invariant (`Tasks.Valid`).

The clock is a parameter. `time.Now()` becomes a `Timestamp` argument of
`Add`, and timestamps are never inspected. The backing file is a parameter
too: it is the `FileState` argument of `Load`.

## Model

| member | source | states |
|---|---|---|
| Tasks.Locate | main.go:37-43 | the scan used by `suppr` and `markDone` finds a position exactly when some task has the id, and it finds the first such position |
| Tasks.Add | main.go:25-33 | `add` appends exactly one task at the end, with id = old counter, the given title, not done and the given time; earlier tasks are unchanged and the counter grows by exactly one |
| Tasks.Suppr | main.go:36-43 | `suppr` succeeds iff some task has the id; on success exactly the first such task is removed, the others keep their order and the length drops by one; on NotFound the store is unchanged; the counter never changes |
| Tasks.MarkDone | main.go:46-53 | `markDone` succeeds iff some task has the id; on success only the first such task gets done = true and all its other fields and all other tasks stay the same; on NotFound the store is unchanged |
| Tasks.SupprPositions | main.go:39 | after a successful delete, tasks before the removed position keep their index and later tasks move forward by one |
| Tasks.AddKeepsValid | main.go:25-33 | from a valid store, `add` gives a valid store; the new id exceeds every existing id; no task loses done; the only new id is the old counter |
| Tasks.SupprKeepsValid | main.go:36-43 | from a valid store, `suppr` gives a valid store, and after a success no task with that id remains |
| Tasks.SupprKeepsDone | main.go:36-43 | every task left by `suppr` was in the store before, unchanged, so no task loses done |
| Tasks.MarkDoneKeepsValid | main.go:46-53 | `markDone` keeps the invariant, changes no id and never clears done |
| Tasks.MarkDoneIdempotent | main.go:46-53 | marking the same id done twice gives the same store and status as marking it once |
| Text.Fold | main.go:71 | case folding keeps the length of a string and lowers each character independently |
| Text.Contains | main.go:71 | `strings.Contains(hay, needle)` is true exactly when the needle occurs at some position of the haystack |
| Search.Select | main.go:68-79 | the result of `find` is no longer than the task list and every task in it matches the query |
| Search.SelectSpec | main.go:68-79 | the result of `find` is a subsequence of the tasks in their order, and each task occurs in it exactly as often as in the store if it matches and not at all otherwise |
| Search.Find | main.go:68-79 | `find`'s loop, which appends every match in turn, produces exactly the reference selection |
| Search.SelectConcat | main.go:70-72 | searching a concatenation gives the concatenation of the two searches |
| Search.SelectAllMatching | main.go:70-72 | when every task matches, the search returns the whole task list in order |
| Search.SelectEmptyQuery | main.go:183-188 | an empty query selects every task in order, and the command line still calls `find` with an empty title |
| Search.SelectFoldedQuery | main.go:71 | two queries that fold to the same string select the same tasks, so the search is case-insensitive in the query |
| Search.BuyMilkFoundByMilk | main.go:71 | with ASCII folding, a task titled "Buy Milk" is found by the query "milk" |
| Persistence.MaxId | main.go:104-109 | the scan gives a value that is at least 0, at least every loaded id, and either 0 or one of the loaded ids |
| Persistence.Load | main.go:92-112 | a missing file gives no tasks and counter 1; an unreadable file is an error; otherwise the tasks are kept as stored and the counter is at least 1, above every loaded id and exactly one above the largest id (or 1) |
| Persistence.Save | main.go:84-90 | saving writes a file, not a read error; it holds exactly the store's tasks and no counter, so loading it gives back those tasks with the counter recomputed from their ids, which is why a reload can lower `nextID` |
| Persistence.LoadValid | main.go:104-110 | a file with distinct ids loads into a store satisfying the invariant |
| Persistence.SaveThenLoad | main.go:84-110 | saving and reloading a valid store gives back the same tasks in a valid store, and the counter can only go down |
| Persistence.DeletedIdReissuedAfterReload | main.go:104-110 | when the task with the largest id is deleted and the store is saved and reloaded, the next `add` hands out the deleted id again |
| History.ApplyKeepsValid | main.go:25-53 | every mutating operation keeps the invariant, raises the counter by one only for `add`, never clears done, and introduces no id except the old counter |
| History.RunCounterGrows | main.go:33 | the counter never decreases during a run |
| History.RunKeepsValid | main.go:25-53 | a run from a valid store ends in a valid store, and every task done at the start is still done wherever its id still appears |
| History.IdNeverReturns | main.go:36-43 | an id below the counter that is absent from the store is never present again later in the same run |
| History.IssuedFresh | main.go:25-33 | within a run the ids handed out are strictly increasing, at least the starting counter, below the final counter and above every id held at the start |
| History.WriteReportBuyMilkScenario | main.go:25-112 | from a missing file, "Write report" gets id 1 and "Buy milk" gets id 2; deleting 1 leaves only the not-done "Buy milk", and a save and reload gives the same tasks back |
| History.MarkDoneSurvivesReload | main.go:46-53 | marking the remaining task 2 done succeeds, and a save and reload shows it as done |

## Left out

- JSON encoding and decoding (`json.MarshalIndent`, `json.Unmarshal`) is not modelled. The file is seen as the task sequence it holds, so `save` followed by `load` is the identity on tasks by construction, not a proved property of the encoder.
- File I/O (`os.ReadFile`, `os.WriteFile`, `os.IsNotExist`) is left out. Only the logical outcome is kept: the file is missing, it cannot be read or decoded (`Unreadable`), or it holds tasks.
- `time.Now()` and the timestamp formatting in `list` and `find` are left out. The creation time is an opaque parameter.
- `list` only prints the tasks, so it has no model beyond `Store.tasks`. All console output of `add`, `list` and `find` is left out, including the "no task" and "no match" messages.
- `main`'s command dispatch is left out: flag parsing, usage messages, the `id == 0` guards, exit codes, and the rule that a mutating command saves once.
- Tasks.Add: does not model Go's 64-bit `int` wrap-around of `nextID++` (main.go:33). Ids and the counter are unbounded integers. The wrap is reachable without 2^63 additions. A file holding the id 9223372036854775806 makes `load` set the counter to the largest int. The next `add` then issues that id and wraps the counter to -9223372036854775808. From there the model's `AddKeepsValid` no longer describes the program.
- Persistence.Load: does not model the 64-bit wrap-around of `max + 1` (main.go:110). For a file holding the id 9223372036854775807, Go sets `nextID` to -9223372036854775808, while the model gives 9223372036854775808. For such a file the source meets neither `Load`'s promise that the counter is at least 1 and above every loaded id nor `LoadValid`. If the file also holds -9223372036854775808, the next `add` issues a duplicate id. All model properties hold for files whose ids are all below 9223372036854775807, and for the counter only while it stays in Go's `int` range.
- Text.Fold: Go's Unicode case tables are not reproduced. The lowering function is a parameter applied per character, which also means the model assumes folding never changes a string's length.
