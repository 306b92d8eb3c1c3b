/** The three tasks the repository's tests seed, and what the queries return
    on them. */
module TaskSeeds {
  import opened Wrappers
  import opened Tables
  import opened TaskModels
  import opened TaskRepo

  /** Midnight UTC of the days the seeds use, in milliseconds. */
  const Dec01: Date := 1638316800000
  const Dec06: Date := 1638748800000
  const Dec07: Date := 1638835200000
  const Dec13: Date := 1639353600000
  const Dec15: Date := 1639526400000

  function SeededTasks(): map<Id, TaskDoc>
  {
    map[
      0 := TaskDoc("Task name 1", "Task description 1", "todo", Dec01, Dec01, 4294924066, ["John", "Jack"]),
      1 := TaskDoc("Task name 2", "Task description 2", "todo", Dec06, Dec07, 4294951175, ["John", "Jack"]),
      2 := TaskDoc("Task name 3", "Task description 3", "todo", Dec13, Dec15, 4293467747, ["John", "Jack"])
    ]
  }

  /** What the queries below need to know of the seeds. */
  lemma SeededShape(seeded: map<Id, TaskDoc>)
    requires seeded == SeededTasks()
    ensures seeded.Keys == {0, 1, 2} && |seeded| == 3
    ensures seeded[0].dateFrom == Dec01 && seeded[0].dateTo == Dec01
    ensures seeded[1].dateFrom == Dec06 && seeded[1].dateTo == Dec07
    ensures seeded[2].dateFrom == Dec13 && seeded[2].dateTo == Dec15
  {
    assert |seeded.Keys| == 3;
  }

  /** A range query lists one task per id in range. */
  lemma RangeCount(tasks: map<Id, TaskDoc>, bound: nat, from: Date, to: Date, ks: set<Id>)
    requires Bounded(tasks, bound) && InRangeIds(tasks, from, to) == ks && ks != {}
    ensures DateRangeQuery(tasks, bound, from, to).Ok?
    ensures |DateRangeQuery(tasks, bound, from, to).value| == |ks|
  {
    var k :| k in ks;
  }

  /** A range query with no id in range is rejected. */
  lemma RangeEmpty(tasks: map<Id, TaskDoc>, bound: nat, from: Date, to: Date)
    requires Bounded(tasks, bound) && InRangeIds(tasks, from, to) == {}
    ensures DateRangeQuery(tasks, bound, from, to) == Err(NoTasksFound)
  {
    forall k | k in tasks ensures !(from <= tasks[k].dateFrom <= to) && !(from <= tasks[k].dateTo <= to) {
      assert k !in InRangeIds(tasks, from, to);
    }
  }

  /** Any range from 2021-12-01 or earlier to between 2021-12-07 and
      2021-12-12 lists exactly the first two tasks; the tests query
      2021-12-01 to 2021-12-07. */
  lemma SeededFirstWeekListsTwo(seeded: map<Id, TaskDoc>, bound: nat, from: Date, to: Date)
    requires seeded == SeededTasks() && Bounded(seeded, bound)
    requires from <= Dec01 && Dec07 <= to < Dec13
    ensures DateRangeQuery(seeded, bound, from, to).Ok?
    ensures |DateRangeQuery(seeded, bound, from, to).value| == 2
  {
    SeededShape(seeded);
    assert InRangeIds(seeded, from, to) == {0, 1};
    RangeCount(seeded, bound, from, to, {0, 1});
  }

  /** A range ending before 2021-12-01, such as 2021-11-01 to 2021-11-07,
      holds no task. */
  lemma SeededBeforeDecemberIsEmpty(seeded: map<Id, TaskDoc>, bound: nat, from: Date, to: Date)
    requires seeded == SeededTasks() && Bounded(seeded, bound)
    requires to < Dec01
    ensures DateRangeQuery(seeded, bound, from, to) == Err(NoTasksFound)
  {
    SeededShape(seeded);
    assert InRangeIds(seeded, from, to) == {};
    RangeEmpty(seeded, bound, from, to);
  }

  /** All three seeded tasks are listed. */
  lemma SeededAllListsThree(seeded: map<Id, TaskDoc>, bound: nat)
    requires seeded == SeededTasks() && Bounded(seeded, bound)
    ensures AllTasks(seeded, bound).Ok? && |AllTasks(seeded, bound).value| == 3
  {
    SeededShape(seeded);
  }
}
