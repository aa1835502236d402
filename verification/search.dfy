/** The selection rule of `find` (main.go): keep, in their original order,
    the tasks whose folded title contains the folded query. */
module Search {
  import opened Text
  import opened Tasks

  /** The test `find` applies to one task. */
  predicate Matches(lower: char -> char, query: string, t: Task) {
    Contains(Fold(lower, t.title), Fold(lower, query))
  }

  /** `a` can be obtained from `b` by deleting elements (matching from the
      back, which decides subsequence-hood as well as any other order). */
  ghost predicate IsSubseq(a: seq<Task>, b: seq<Task>)
    decreases |b|
  {
    if a == [] then true
    else if b == [] then false
    else if a[|a| - 1] == b[|b| - 1] then IsSubseq(a[..|a| - 1], b[..|b| - 1])
    else IsSubseq(a, b[..|b| - 1])
  }

  /** The reference selection, built the way `find` builds its results:
      the matching tasks, appended in order. */
  function Select(lower: char -> char, query: string, ts: seq<Task>): (r: seq<Task>)
    ensures |r| <= |ts|
    ensures forall k :: 0 <= k < |r| ==> Matches(lower, query, r[k])
  {
    if ts == [] then []
    else
      var rest := Select(lower, query, ts[..|ts| - 1]);
      if Matches(lower, query, ts[|ts| - 1]) then rest + [ts[|ts| - 1]] else rest
  }

  /** What the selection means: it is an order-preserving subsequence of
      `ts`, and it holds every matching task exactly as often as `ts` does
      and no other task. */
  lemma {:induction false} SelectSpec(lower: char -> char, query: string, ts: seq<Task>)
    ensures IsSubseq(Select(lower, query, ts), ts)
    ensures forall t :: Matches(lower, query, t) ==> multiset(Select(lower, query, ts))[t] == multiset(ts)[t]
    ensures forall t :: !Matches(lower, query, t) ==> multiset(Select(lower, query, ts))[t] == 0
    decreases |ts|
  {
    if ts != [] {
      var front := ts[..|ts| - 1];
      var t := ts[|ts| - 1];
      assert ts == front + [t];
      SelectSpec(lower, query, front);
      var rest := Select(lower, query, front);
      if Matches(lower, query, t) {
        var r := rest + [t];
        assert r[..|r| - 1] == rest;
      }
    }
  }

  /** `find`'s loop: walks the tasks in order and appends every match to
      the results, which end up being exactly the reference selection. */
  method Find(lower: char -> char, query: string, s: Store) returns (results: seq<Task>)
    ensures results == Select(lower, query, s.tasks)
  {
    results := [];
    var i := 0;
    while i < |s.tasks|
      invariant 0 <= i <= |s.tasks|
      invariant results == Select(lower, query, s.tasks[..i])
    {
      var t := s.tasks[i];
      assert s.tasks[..i + 1][..i] == s.tasks[..i];
      if Contains(Fold(lower, t.title), Fold(lower, query)) {
        results := results + [t];
      }
      i := i + 1;
    }
    assert s.tasks[..i] == s.tasks;
  }

  /** Selection distributes over concatenation: searching two halves and
      joining the results is searching the whole. */
  lemma {:induction false} SelectConcat(lower: char -> char, query: string, a: seq<Task>, b: seq<Task>)
    ensures Select(lower, query, a + b) == Select(lower, query, a) + Select(lower, query, b)
    decreases |b|
  {
    if b == [] {
      assert a + b == a;
    } else {
      var b' := b[..|b| - 1];
      assert (a + b)[..|a + b| - 1] == a + b';
      assert (a + b)[|a + b| - 1] == b[|b| - 1];
      SelectConcat(lower, query, a, b');
    }
  }

  /** When every task matches, selection keeps the whole sequence. */
  lemma {:induction false} SelectAllMatching(lower: char -> char, query: string, ts: seq<Task>)
    requires forall k :: 0 <= k < |ts| ==> Matches(lower, query, ts[k])
    ensures Select(lower, query, ts) == ts
    decreases |ts|
  {
    if ts != [] {
      var front := ts[..|ts| - 1];
      SelectAllMatching(lower, query, front);
      assert ts == front + [ts[|ts| - 1]];
    }
  }

  /** An empty query selects every task (the command line still calls
      `find` when the title flag is empty). */
  lemma SelectEmptyQuery(lower: char -> char, ts: seq<Task>)
    ensures Select(lower, "", ts) == ts
  {
    forall k | 0 <= k < |ts| ensures Matches(lower, "", ts[k]) {
      EmptyQueryMatches(lower, ts[k]);
    }
    SelectAllMatching(lower, "", ts);
  }

  /** Every task matches the empty query. */
  lemma EmptyQueryMatches(lower: char -> char, t: Task)
    ensures Matches(lower, "", t)
  {
    assert Fold(lower, "") == "";
    ContainsEmpty(Fold(lower, t.title));
  }

  /** Selection looks at the query only through its folded form: two queries
      that fold alike select the same tasks. */
  lemma {:induction false} SelectFoldedQuery(lower: char -> char, q1: string, q2: string, ts: seq<Task>)
    requires Fold(lower, q1) == Fold(lower, q2)
    ensures Select(lower, q1, ts) == Select(lower, q2, ts)
    decreases |ts|
  {
    if ts != [] {
      SelectFoldedQuery(lower, q1, q2, ts[..|ts| - 1]);
    }
  }

  /** ASCII case folding, one concrete instance of `lower`. */
  function AsciiLower(c: char): char {
    if 'A' <= c <= 'Z' then (c as int + 32) as char else c
  }

  /** A task titled "Buy Milk" is found by the query "milk". */
  lemma BuyMilkFoundByMilk(t: Task)
    requires t.title == "Buy Milk"
    ensures Select(AsciiLower, "milk", [t]) == [t]
  {
    var folded := Fold(AsciiLower, t.title);
    assert folded == "buy milk";
    assert Fold(AsciiLower, "milk") == "milk";
    assert OccursAt("milk", folded, 4);
    assert Matches(AsciiLower, "milk", t);
  }
}
