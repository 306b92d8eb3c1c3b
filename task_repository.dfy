/** The task store: create, update and delete tasks, and list them all or
    by a date range. */
module TaskRepo {
  import opened Wrappers
  import opened Sequences
  import opened Tables
  import opened TaskModels

  const NoTasksFound := "No tasks found"

  /** No id occurs twice. */
  ghost predicate DistinctIds(s: seq<Task>)
  {
    forall i, j :: 0 <= i < j < |s| ==> s[i].id != s[j].id
  }

  /** Every element is the record of the stored document with its id. */
  ghost predicate RecordsOf(s: seq<Task>, tasks: map<Id, TaskDoc>)
  {
    forall i :: 0 <= i < |s| ==> s[i].id in tasks && s[i] == TaskOf(s[i].id, tasks[s[i].id])
  }

  function DateFromKey(t: Task): int
  {
    t.dateFrom
  }

  function DateToKey(t: Task): int
  {
    t.dateTo
  }

  /** The `$gte`/`$lte` test on the start date. */
  function StartsIn(from: Date, to: Date): (p: Task -> bool)
    ensures forall t :: p(t) <==> from <= t.dateFrom && t.dateFrom <= to
    ensures to < from ==> forall t :: !p(t)
  {
    (t: Task) => from <= t.dateFrom <= to
  }

  /** The `$gte`/`$lte` test on the end date. */
  function EndsIn(from: Date, to: Date): (p: Task -> bool)
    ensures forall t :: p(t) <==> from <= t.dateTo && t.dateTo <= to
    ensures to < from ==> forall t :: !p(t)
  {
    (t: Task) => from <= t.dateTo <= to
  }

  /** `findIndex` by id: the first position holding that id, or -1. */
  function FindIndex(a: seq<Task>, id: Id): (r: int)
    ensures -1 <= r < |a|
    ensures r >= 0 ==> a[r].id == id && forall j :: 0 <= j < r ==> a[j].id != id
    ensures r == -1 ==> forall j :: 0 <= j < |a| ==> a[j].id != id
  {
    if |a| == 0 then -1
    else if a[0].id == id then 0
    else
      var k := FindIndex(a[1..], id);
      if k == -1 then -1 else k + 1
  }

  /** The task is not listed in `s`. */
  function Unlisted(s: seq<Task>): Task -> bool
  {
    (t: Task) => FindIndex(s, t.id) == -1
  }

  /** Among the first `n` elements, those at the first position of their id:
      the `filter` whose callback compares `findIndex` with the index. */
  function KeepFirstUpTo(a: seq<Task>, n: nat): seq<Task>
    requires n <= |a|
  {
    if n == 0 then []
    else KeepFirstUpTo(a, n - 1) + (if FindIndex(a, a[n - 1].id) == n - 1 then [a[n - 1]] else [])
  }

  /** The same `filter` over the whole list. */
  function KeepFirst(a: seq<Task>): seq<Task>
  {
    KeepFirstUpTo(a, |a|)
  }

  /** Keeping first occurrences among the first `n` elements (all of them
      for `KeepFirst`) keeps only elements of that prefix. */
  lemma {:induction false} KeepFirstInPrefix(a: seq<Task>, n: nat)
    requires n <= |a|
    ensures forall i :: 0 <= i < |KeepFirstUpTo(a, n)| ==> KeepFirstUpTo(a, n)[i] in a[..n]
  {
    if n > 0 {
      KeepFirstInPrefix(a, n - 1);
      var prev := KeepFirstUpTo(a, n - 1);
      var r := KeepFirstUpTo(a, n);
      forall i | 0 <= i < |r| ensures r[i] in a[..n] {
        if i < |prev| {
          assert r[i] == prev[i];
          var j :| 0 <= j < n - 1 && a[..n - 1][j] == prev[i];
          assert a[..n][j] == prev[i];
        } else {
          assert r[i] == a[n - 1] == a[..n][n - 1];
        }
      }
    }
  }

  /** Keeping first occurrences among the first `n` elements leaves no id
      twice. */
  lemma {:induction false} KeepFirstDistinct(a: seq<Task>, n: nat)
    requires n <= |a|
    ensures DistinctIds(KeepFirstUpTo(a, n))
  {
    if n > 0 {
      KeepFirstDistinct(a, n - 1);
      KeepFirstInPrefix(a, n - 1);
      var prev := KeepFirstUpTo(a, n - 1);
      var x := a[n - 1];
      if FindIndex(a, x.id) == n - 1 {
        forall i | 0 <= i < |prev| ensures prev[i].id != x.id {
          var j :| 0 <= j < n - 1 && a[..n - 1][j] == prev[i];
          assert a[j] == prev[i];
        }
      }
    }
  }

  /** Keeping first occurrences among the first `n` elements keeps the
      first occurrence of every id that prefix holds. */
  lemma {:induction false} KeepFirstComplete(a: seq<Task>, n: nat)
    requires n <= |a|
    ensures forall j :: 0 <= j < n ==> a[FindIndex(a, a[j].id)] in KeepFirstUpTo(a, n)
  {
    if n > 0 {
      KeepFirstComplete(a, n - 1);
      var prev := KeepFirstUpTo(a, n - 1);
      var r := KeepFirstUpTo(a, n);
      var f := FindIndex(a, a[n - 1].id);
      assert r == prev + (if f == n - 1 then [a[n - 1]] else []);
      forall j | 0 <= j < n ensures a[FindIndex(a, a[j].id)] in r {
        if j < n - 1 {
          assert a[FindIndex(a, a[j].id)] in prev;
        } else if f < n - 1 {
          assert FindIndex(a, a[f].id) == f;
          assert a[f] in prev;
        } else {
          assert r[|prev|] == a[n - 1];
        }
      }
    }
  }

  /** Without repeated ids within `s` and within `e`, keeping first
      occurrences of `s + e` leaves `s` whole, followed by the elements of
      `e` whose id `s` does not hold, in their order. */
  lemma {:induction false} KeepFirstOfConcat(s: seq<Task>, e: seq<Task>)
    requires DistinctIds(s) && DistinctIds(e)
    ensures KeepFirst(s + e) == s + Filter(e, Unlisted(s))
  {
    KeepFirstPrefix(s, e, |s|);
    KeepFirstSuffix(s, e, |e|);
    assert e[..|e|] == e;
  }

  lemma {:induction false} KeepFirstPrefix(s: seq<Task>, e: seq<Task>, n: nat)
    requires DistinctIds(s) && n <= |s|
    ensures KeepFirstUpTo(s + e, n) == s[..n]
  {
    if n > 0 {
      KeepFirstPrefix(s, e, n - 1);
      var a := s + e;
      assert a[n - 1] == s[n - 1];
      forall j | 0 <= j < n - 1 ensures a[j].id != s[n - 1].id {
        assert a[j] == s[j];
      }
      assert FindIndex(a, s[n - 1].id) == n - 1;
      assert s[..n] == s[..n - 1] + [s[n - 1]];
    }
  }

  lemma {:induction false} KeepFirstSuffix(s: seq<Task>, e: seq<Task>, m: nat)
    requires DistinctIds(s) && DistinctIds(e) && m <= |e|
    ensures KeepFirstUpTo(s + e, |s| + m) == s + Filter(e[..m], Unlisted(s))
  {
    if m == 0 {
      KeepFirstPrefix(s, e, |s|);
      assert s[..|s|] == s;
    } else {
      KeepFirstSuffix(s, e, m - 1);
      var a := s + e;
      var x := e[m - 1];
      assert a[|s| + m - 1] == x;
      FirstIndexInSuffix(s, e, m);
      var step := if Unlisted(s)(x) then [x] else [];
      assert KeepFirstUpTo(a, |s| + m) == KeepFirstUpTo(a, |s| + m - 1) + step;
      FilterPrefixStep(e, Unlisted(s), m);
      assert s + Filter(e[..m], Unlisted(s)) == (s + Filter(e[..m - 1], Unlisted(s))) + step;
    }
  }

  /** An element of `e` sits at the first position of its id in `s + e`
      exactly when `s` does not hold its id. */
  lemma FirstIndexInSuffix(s: seq<Task>, e: seq<Task>, m: nat)
    requires DistinctIds(e) && 0 < m <= |e|
    ensures FindIndex(s + e, e[m - 1].id) == |s| + m - 1 <==> FindIndex(s, e[m - 1].id) == -1
  {
    var a := s + e;
    var x := e[m - 1];
    assert a[|s| + m - 1] == x;
    var ks := FindIndex(s, x.id);
    if ks == -1 {
      forall j | 0 <= j < |s| + m - 1 ensures a[j].id != x.id {
        if j < |s| {
          assert a[j] == s[j];
        } else {
          assert a[j] == e[j - |s|];
        }
      }
    } else {
      assert a[ks].id == x.id;
    }
  }

  /** `s` followed by the elements of `e` whose id it does not hold has no
      id twice. */
  lemma {:induction false} UnlistedFilterDistinctIds(s: seq<Task>, e: seq<Task>)
    requires DistinctIds(s) && DistinctIds(e)
    ensures DistinctIds(s + Filter(e, Unlisted(s)))
  {
    var f := Filter(e, Unlisted(s));
    var r := s + f;
    FilterDistinctBy(e, Unlisted(s), (t: Task) => t.id);
    forall i, j | 0 <= i < j < |r| ensures r[i].id != r[j].id {
      if j >= |s| {
        assert r[j] == f[j - |s|];
        if i < |s| {
          assert FindIndex(s, f[j - |s|].id) == -1;
          assert r[i] == s[i];
        } else {
          assert r[i] == f[i - |s|];
        }
      }
    }
  }

  /** Distinct records of one collection have distinct ids. */
  lemma RecordsDistinctIds(s: seq<Task>, tasks: map<Id, TaskDoc>)
    requires RecordsOf(s, tasks) && Distinct(s)
    ensures DistinctIds(s)
  {
  }

  /** The ids occurring in `s`. */
  function IdSet(s: seq<Task>): set<Id>
  {
    set i | 0 <= i < |s| :: s[i].id
  }

  /** Without repeated ids there are as many ids as elements. */
  lemma {:induction false} IdSetSize(s: seq<Task>)
    requires DistinctIds(s)
    ensures |IdSet(s)| == |s|
  {
    if |s| > 0 {
      var init := s[..|s| - 1];
      IdSetSize(init);
      assert IdSet(s) == IdSet(init) + {s[|s| - 1].id} by {
        forall k ensures k in IdSet(s) <==> k in IdSet(init) + {s[|s| - 1].id} {
          if k in IdSet(s) {
            var i :| 0 <= i < |s| && s[i].id == k;
            if i < |s| - 1 {
              assert init[i].id == k;
            }
          }
          if k in IdSet(init) {
            var i :| 0 <= i < |init| && init[i].id == k;
            assert s[i].id == k;
          }
        }
      }
      assert s[|s| - 1].id !in IdSet(init);
    }
  }

  /** A listing of records without repeated ids that holds the record of a
      key exactly when the key is in `ks` has one element per key of `ks`. */
  lemma ListingSize(s: seq<Task>, tasks: map<Id, TaskDoc>, ks: set<Id>)
    requires DistinctIds(s) && RecordsOf(s, tasks)
    requires forall k :: k in ks ==> k in tasks
    requires forall k :: k in tasks ==> (TaskOf(k, tasks[k]) in s <==> k in ks)
    ensures |s| == |ks|
  {
    assert IdSet(s) == ks by {
      forall k ensures k in IdSet(s) <==> k in ks {
        if k in IdSet(s) {
          var i :| 0 <= i < |s| && s[i].id == k;
          assert TaskOf(k, tasks[k]) in s;
        }
        if k in ks {
          var i :| 0 <= i < |s| && s[i] == TaskOf(k, tasks[k]);
          assert s[i].id == k;
        }
      }
    }
    IdSetSize(s);
  }

  /** The ids of the tasks starting or ending within [from, to]. */
  function InRangeIds(tasks: map<Id, TaskDoc>, from: Date, to: Date): set<Id>
  {
    set k | k in tasks && (from <= tasks[k].dateFrom <= to || from <= tasks[k].dateTo <= to)
  }

  /** One record per stored task, in key order. */
  function TaskRecords(tasks: map<Id, TaskDoc>, bound: nat): (r: seq<Task>)
    requires Bounded(tasks, bound)
    ensures RecordsOf(r, tasks)
    ensures forall k :: k in tasks ==> TaskOf(k, tasks[k]) in r
    ensures Distinct(r) && DistinctIds(r)
  {
    var rows := Rows(tasks, bound);
    var r := seq(|rows|, i requires 0 <= i < |rows| => TaskOf(rows[i].0, rows[i].1));
    RowsRecords(tasks, rows, TaskOf, (t: Task) => t.id, r);
    r
  }

  /** The stored tasks satisfying `p`, sorted by `key` descending: each such
      task exactly once. */
  function Matches(tasks: map<Id, TaskDoc>, bound: nat, p: Task -> bool, key: Task -> int): (r: seq<Task>)
    requires Bounded(tasks, bound)
    ensures SortedDesc(r, key)
    ensures RecordsOf(r, tasks) && DistinctIds(r)
    ensures forall i :: 0 <= i < |r| ==> p(r[i])
    ensures forall k :: k in tasks && p(TaskOf(k, tasks[k])) ==> TaskOf(k, tasks[k]) in r
  {
    var all := TaskRecords(tasks, bound);
    var chosen := Filter(all, p);
    var r := SortDesc(chosen, key);
    MatchesFacts(tasks, all, p, chosen, r);
    r
  }

  lemma MatchesFacts(tasks: map<Id, TaskDoc>, all: seq<Task>, p: Task -> bool, chosen: seq<Task>, r: seq<Task>)
    requires RecordsOf(all, tasks) && Distinct(all)
    requires forall k :: k in tasks ==> TaskOf(k, tasks[k]) in all
    requires chosen == Filter(all, p) && multiset(r) == multiset(chosen)
    ensures RecordsOf(r, tasks) && DistinctIds(r)
    ensures forall i :: 0 <= i < |r| ==> p(r[i])
    ensures forall k :: k in tasks && p(TaskOf(k, tasks[k])) ==> TaskOf(k, tasks[k]) in r
  {
    var self := (t: Task) => t;
    assert DistinctBy(all, self);
    FilterDistinctBy(all, p, self);
    assert Distinct(chosen) by {
      forall i, j | 0 <= i < j < |chosen| ensures chosen[i] != chosen[j] {
        assert self(chosen[i]) != self(chosen[j]);
      }
    }
    PermutationDistinct(chosen, r);
    forall i | 0 <= i < |r| ensures r[i] in chosen {
      PermutationMember(chosen, r, r[i]);
    }
    forall i | 0 <= i < |r| ensures p(r[i]) && r[i].id in tasks && r[i] == TaskOf(r[i].id, tasks[r[i].id]) {
      var j :| 0 <= j < |chosen| && chosen[j] == r[i];
      var l :| 0 <= l < |all| && all[l] == r[i];
    }
    RecordsDistinctIds(r, tasks);
    forall k | k in tasks && p(TaskOf(k, tasks[k])) ensures TaskOf(k, tasks[k]) in r {
      FilterKeeps(all, p, TaskOf(k, tasks[k]));
      PermutationMember(chosen, r, TaskOf(k, tasks[k]));
    }
  }

  /** `getTasksByDateRange`: the tasks starting within [from, to] by start
      date descending, then those ending within it by end date descending
      and not already listed; rejected when neither kind exists. */
  function DateRangeQuery(tasks: map<Id, TaskDoc>, bound: nat, from: Date, to: Date): (r: Result<seq<Task>>)
    requires Bounded(tasks, bound)
    ensures r.Err? <==> forall k :: k in tasks ==> !(from <= tasks[k].dateFrom <= to) && !(from <= tasks[k].dateTo <= to)
    ensures r.Err? ==> r.error == NoTasksFound
    ensures r.Ok? ==>
      var starts := Matches(tasks, bound, StartsIn(from, to), DateFromKey);
      r.value == starts + Filter(Matches(tasks, bound, EndsIn(from, to), DateToKey), Unlisted(starts))
    ensures r.Ok? ==> DistinctIds(r.value) && RecordsOf(r.value, tasks)
    ensures r.Ok? ==> forall k :: k in tasks ==>
      (TaskOf(k, tasks[k]) in r.value <==> from <= tasks[k].dateFrom <= to || from <= tasks[k].dateTo <= to)
    ensures r.Ok? ==> |r.value| == |InRangeIds(tasks, from, to)|
  {
    var starts := Matches(tasks, bound, StartsIn(from, to), DateFromKey);
    var ends := Matches(tasks, bound, EndsIn(from, to), DateToKey);
    RangeEmptiness(tasks, from, to, starts, ends);
    if |starts| == 0 && |ends| == 0 then
      Err(NoTasksFound)
    else
      RangeResult(tasks, from, to, starts, ends);
      Ok(KeepFirst(starts + ends))
  }

  /** The merged listing of two match lists: the start matches followed by
      the unlisted end matches, no id twice, exactly the tasks starting or
      ending in the range, one per such task. */
  lemma RangeResult(tasks: map<Id, TaskDoc>, from: Date, to: Date, starts: seq<Task>, ends: seq<Task>)
    requires RecordsOf(starts, tasks) && RecordsOf(ends, tasks) && DistinctIds(starts) && DistinctIds(ends)
    requires forall k :: k in tasks && StartsIn(from, to)(TaskOf(k, tasks[k])) ==> TaskOf(k, tasks[k]) in starts
    requires forall k :: k in tasks && EndsIn(from, to)(TaskOf(k, tasks[k])) ==> TaskOf(k, tasks[k]) in ends
    requires forall i :: 0 <= i < |starts| ==> StartsIn(from, to)(starts[i])
    requires forall i :: 0 <= i < |ends| ==> EndsIn(from, to)(ends[i])
    ensures var r := KeepFirst(starts + ends);
      && r == starts + Filter(ends, Unlisted(starts))
      && DistinctIds(r) && RecordsOf(r, tasks)
      && (forall k :: k in tasks ==>
           (TaskOf(k, tasks[k]) in r <==> from <= tasks[k].dateFrom <= to || from <= tasks[k].dateTo <= to))
      && |r| == |InRangeIds(tasks, from, to)|
  {
    KeepFirstOfConcat(starts, ends);
    RangeListing(tasks, from, to, starts, ends);
    ListingSize(KeepFirst(starts + ends), tasks, InRangeIds(tasks, from, to));
  }

  /** Both match lists are empty exactly when no task starts or ends in the
      range. */
  lemma RangeEmptiness(tasks: map<Id, TaskDoc>, from: Date, to: Date, starts: seq<Task>, ends: seq<Task>)
    requires RecordsOf(starts, tasks) && RecordsOf(ends, tasks)
    requires forall k :: k in tasks && StartsIn(from, to)(TaskOf(k, tasks[k])) ==> TaskOf(k, tasks[k]) in starts
    requires forall k :: k in tasks && EndsIn(from, to)(TaskOf(k, tasks[k])) ==> TaskOf(k, tasks[k]) in ends
    requires forall i :: 0 <= i < |starts| ==> StartsIn(from, to)(starts[i])
    requires forall i :: 0 <= i < |ends| ==> EndsIn(from, to)(ends[i])
    ensures (|starts| == 0 && |ends| == 0) <==>
      forall k :: k in tasks ==> !(from <= tasks[k].dateFrom <= to) && !(from <= tasks[k].dateTo <= to)
  {
    if |starts| == 0 && |ends| == 0 {
      forall k | k in tasks ensures !(from <= tasks[k].dateFrom <= to) && !(from <= tasks[k].dateTo <= to) {
        assert TaskOf(k, tasks[k]) !in starts && TaskOf(k, tasks[k]) !in ends;
      }
    } else if |starts| > 0 {
      assert starts[0].id in tasks && StartsIn(from, to)(starts[0]);
    } else {
      assert ends[0].id in tasks && EndsIn(from, to)(ends[0]);
    }
  }

  /** The merged list holds records of the collection, no id twice, and
      exactly the tasks starting or ending in the range. */
  lemma RangeListing(tasks: map<Id, TaskDoc>, from: Date, to: Date, starts: seq<Task>, ends: seq<Task>)
    requires RecordsOf(starts, tasks) && RecordsOf(ends, tasks) && DistinctIds(starts) && DistinctIds(ends)
    requires forall k :: k in tasks && StartsIn(from, to)(TaskOf(k, tasks[k])) ==> TaskOf(k, tasks[k]) in starts
    requires forall k :: k in tasks && EndsIn(from, to)(TaskOf(k, tasks[k])) ==> TaskOf(k, tasks[k]) in ends
    requires forall i :: 0 <= i < |starts| ==> StartsIn(from, to)(starts[i])
    requires forall i :: 0 <= i < |ends| ==> EndsIn(from, to)(ends[i])
    ensures var listed := starts + Filter(ends, Unlisted(starts));
      && DistinctIds(listed) && RecordsOf(listed, tasks)
      && forall k :: k in tasks ==>
           (TaskOf(k, tasks[k]) in listed <==> from <= tasks[k].dateFrom <= to || from <= tasks[k].dateTo <= to)
  {
    var later := Filter(ends, Unlisted(starts));
    var listed := starts + later;
    UnlistedFilterDistinctIds(starts, ends);
    forall i | 0 <= i < |listed| ensures listed[i].id in tasks && listed[i] == TaskOf(listed[i].id, tasks[listed[i].id]) {
      if i >= |starts| {
        assert listed[i] == later[i - |starts|];
        var j :| 0 <= j < |ends| && ends[j] == listed[i];
      }
    }
    forall k | k in tasks
      ensures TaskOf(k, tasks[k]) in listed <==> from <= tasks[k].dateFrom <= to || from <= tasks[k].dateTo <= to
    {
      ListedIsMatch(tasks, from, to, starts, ends, k);
      MatchIsListed(tasks, from, to, starts, ends, k);
    }
  }

  lemma ListedIsMatch(tasks: map<Id, TaskDoc>, from: Date, to: Date, starts: seq<Task>, ends: seq<Task>, k: Id)
    requires k in tasks
    requires forall i :: 0 <= i < |starts| ==> StartsIn(from, to)(starts[i])
    requires forall i :: 0 <= i < |ends| ==> EndsIn(from, to)(ends[i])
    ensures TaskOf(k, tasks[k]) in starts + Filter(ends, Unlisted(starts)) ==>
      from <= tasks[k].dateFrom <= to || from <= tasks[k].dateTo <= to
  {
    var t := TaskOf(k, tasks[k]);
    var later := Filter(ends, Unlisted(starts));
    if t in starts {
      var i :| 0 <= i < |starts| && starts[i] == t;
      assert StartsIn(from, to)(starts[i]);
    } else if t in later {
      var i :| 0 <= i < |later| && later[i] == t;
      var j :| 0 <= j < |ends| && ends[j] == t;
      assert EndsIn(from, to)(ends[j]);
    }
  }

  lemma MatchIsListed(tasks: map<Id, TaskDoc>, from: Date, to: Date, starts: seq<Task>, ends: seq<Task>, k: Id)
    requires k in tasks
    requires RecordsOf(starts, tasks)
    requires forall k :: k in tasks && StartsIn(from, to)(TaskOf(k, tasks[k])) ==> TaskOf(k, tasks[k]) in starts
    requires forall k :: k in tasks && EndsIn(from, to)(TaskOf(k, tasks[k])) ==> TaskOf(k, tasks[k]) in ends
    requires forall i :: 0 <= i < |starts| ==> StartsIn(from, to)(starts[i])
    ensures from <= tasks[k].dateFrom <= to || from <= tasks[k].dateTo <= to ==>
      TaskOf(k, tasks[k]) in starts + Filter(ends, Unlisted(starts))
  {
    var t := TaskOf(k, tasks[k]);
    if from <= t.dateFrom <= to {
      assert StartsIn(from, to)(t);
    } else if from <= t.dateTo <= to {
      assert EndsIn(from, to)(t);
      forall i | 0 <= i < |starts| ensures starts[i].id != k {
        assert StartsIn(from, to)(starts[i]);
        assert starts[i].dateFrom != tasks[k].dateFrom;
      }
      assert Unlisted(starts)(t);
      FilterKeeps(ends, Unlisted(starts), t);
    }
  }

  /** `getAllTasks`: every task once, by start date descending; rejected
      when the collection is empty. */
  function AllTasks(tasks: map<Id, TaskDoc>, bound: nat): (r: Result<seq<Task>>)
    requires Bounded(tasks, bound)
    ensures r.Err? <==> tasks == map[]
    ensures r.Err? ==> r.error == NoTasksFound
    ensures r.Ok? ==> SortedDesc(r.value, DateFromKey) && DistinctIds(r.value) && RecordsOf(r.value, tasks)
    ensures r.Ok? ==> forall k :: k in tasks ==> TaskOf(k, tasks[k]) in r.value
    ensures r.Ok? ==> |r.value| == |tasks|
  {
    var all := Matches(tasks, bound, (t: Task) => true, DateFromKey);
    ListingSize(all, tasks, tasks.Keys);
    assert tasks != map[] ==> |all| > 0 by {
      if tasks != map[] {
        var k :| k in tasks;
        assert TaskOf(k, tasks[k]) in all;
      }
    }
    if |all| == 0 then Err(NoTasksFound) else Ok(all)
  }

  /** A task whose span strictly contains the range neither starts nor ends
      in it, so the range query leaves it out. */
  lemma SpanningTaskNotListed(tasks: map<Id, TaskDoc>, bound: nat, from: Date, to: Date, k: Id)
    requires Bounded(tasks, bound) && k in tasks
    requires tasks[k].dateFrom < from && to < tasks[k].dateTo
    ensures DateRangeQuery(tasks, bound, from, to).Ok? ==>
      TaskOf(k, tasks[k]) !in DateRangeQuery(tasks, bound, from, to).value
  {
  }

  /** The store: tasks by id and the source of fresh ids. */
  class TaskRepository {
    var tasks: map<Id, TaskDoc>
    var nextId: Id

    ghost predicate Valid()
      reads this
    {
      Bounded(tasks, nextId)
    }

    constructor ()
      ensures Valid() && tasks == map[]
    {
      tasks, nextId := map[], 0;
    }

    /** `addTask`: saves the task under a fresh id, unless validation
        rejects it. */
    method AddTask(name: string, description: string, status: string, dateFrom: Date, dateTo: Date,
                   color: int, members: seq<string>) returns (r: Result<Id>)
      requires Valid()
      modifies this
      ensures Valid()
      ensures name == "" || description == "" || status == "" ==>
        r == Err(TaskValidationFailed) && tasks == old(tasks)
      ensures name != "" && description != "" && status != "" ==>
        r.Ok? && r.value !in old(tasks)
        && tasks == old(tasks)[r.value := TaskDoc(name, description, status, dateFrom, dateTo, color, members)]
    {
      var made := NewTaskDoc(name, description, status, dateFrom, dateTo, color, members);
      if made.Err? {
        return Err(made.error);
      }
      tasks := tasks[nextId := made.value];
      r := Ok(nextId);
      nextId := nextId + 1;
    }

    /** `updateTask`: overwrites all seven fields of the task with that id,
        without validation; an absent id changes nothing. */
    method UpdateTask(id: Id, name: string, description: string, status: string, dateFrom: Date, dateTo: Date,
                      color: int, members: seq<string>) returns (r: Id)
      requires Valid()
      modifies this
      ensures Valid() && nextId == old(nextId)
      ensures r == id
      ensures tasks == if id in old(tasks)
                       then old(tasks)[id := TaskDoc(name, description, status, dateFrom, dateTo, color, members)]
                       else old(tasks)
    {
      if id in tasks {
        tasks := tasks[id := TaskDoc(name, description, status, dateFrom, dateTo, color, members)];
      }
      r := id;
    }

    /** `updateTaskStatus`: overwrites only the status. */
    method UpdateTaskStatus(id: Id, status: string) returns (r: Id)
      requires Valid()
      modifies this
      ensures Valid() && nextId == old(nextId)
      ensures r == id
      ensures tasks == if id in old(tasks) then old(tasks)[id := old(tasks)[id].(status := status)] else old(tasks)
    {
      if id in tasks {
        tasks := tasks[id := tasks[id].(status := status)];
      }
      r := id;
    }

    /** `deleteTask`: removes the task if present and answers the id. */
    method DeleteTask(id: Id) returns (r: Id)
      requires Valid()
      modifies this
      ensures Valid() && nextId == old(nextId)
      ensures r == id && tasks == old(tasks) - {id}
    {
      tasks := tasks - {id};
      r := id;
    }

    /** `getTasksByDateRange` on the current collection. */
    function GetTasksByDateRange(from: Date, to: Date): (r: Result<seq<Task>>)
      reads this
      requires Valid()
      ensures r == DateRangeQuery(tasks, nextId, from, to)
      ensures r.Err? <==> forall k :: k in tasks ==> !(from <= tasks[k].dateFrom <= to) && !(from <= tasks[k].dateTo <= to)
      ensures r.Ok? ==> DistinctIds(r.value) && forall k :: k in tasks ==>
        (TaskOf(k, tasks[k]) in r.value <==> from <= tasks[k].dateFrom <= to || from <= tasks[k].dateTo <= to)
    {
      DateRangeQuery(tasks, nextId, from, to)
    }

    /** `getAllTasks` on the current collection. */
    function GetAllTasks(): (r: Result<seq<Task>>)
      reads this
      requires Valid()
      ensures r == AllTasks(tasks, nextId)
      ensures r.Err? <==> tasks == map[]
      ensures r.Ok? ==> SortedDesc(r.value, DateFromKey) && |r.value| == |tasks|
      ensures r.Ok? ==> forall k :: k in tasks ==> TaskOf(k, tasks[k]) in r.value
    {
      AllTasks(tasks, nextId)
    }
  }
}
