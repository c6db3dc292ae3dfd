/** The read-only queries of the task board: the tasks that depend on a
    task (`getDependentTasks`), the tasks with a status
    (`getTasksByStatus`), the criteria filter of the board's search panel
    (`filterTasks`) and the completion percentage
    (`calculateTaskProgress`). */
module Queries {
  import opened Options
  import opened Tasks
  import opened DependencyGraph

  /** `getDependentTasks(taskId, allTasks)`: the tasks that list `taskId`
      among their dependencies, in list order. */
  function GetDependentTasks(taskId: TaskId, allTasks: seq<Task>): (r: seq<Task>)
    ensures forall t :: t in r <==> t in allTasks && taskId in Deps(t)
  {
    Filter((t: Task) => taskId in Deps(t), allTasks)
  }

  /** The dependents of a task are exactly the targets of its links in the
      dependency graph: `getDependentTasks` walks the edges of
      `buildDependencyGraph` backwards. */
  lemma DependentsAreLinkTargets(taskId: TaskId, allTasks: seq<Task>, t: Task)
    requires UniqueIds(allTasks) && taskId in Ids(allTasks) && t in allTasks
    ensures t in GetDependentTasks(taskId, allTasks) <==> Link(taskId, t.id) in Links(allTasks)
  {
    FindOwnId(allTasks, t);
    LinkMeansDependency(allTasks, taskId, t.id);
  }

  /** `getTasksByStatus(tasks, status)`. */
  function TasksByStatus(tasks: seq<Task>, status: int): (r: seq<Task>)
    ensures forall t :: t in r <==> t in tasks && t.status == status
  {
    Filter((t: Task) => t.status == status, tasks)
  }

  /** The number of tasks with a status, counted from the back. */
  function StatusCount(tasks: seq<Task>, status: int): nat {
    if tasks == [] then 0
    else StatusCount(tasks[..|tasks| - 1], status) + (if tasks[|tasks| - 1].status == status then 1 else 0)
  }

  /** `getTasksByStatus` returns as many tasks as carry the status. */
  lemma {:induction false} TasksByStatusCount(tasks: seq<Task>, status: int)
    ensures |TasksByStatus(tasks, status)| == StatusCount(tasks, status)
  {
    if tasks != [] {
      var init, last := tasks[..|tasks| - 1], tasks[|tasks| - 1];
      assert tasks == init + [last];
      FilterAppend((t: Task) => t.status == status, init, [last]);
      TasksByStatusCount(init, status);
    }
  }

  /** When every status is a valid code, the five status groups partition
      the list. */
  lemma {:induction false} StatusGroupsPartition(tasks: seq<Task>)
    requires forall t :: t in tasks ==> IsStatus(t.status)
    ensures StatusCount(tasks, TODO) + StatusCount(tasks, IN_PROGRESS) + StatusCount(tasks, DONE) +
      StatusCount(tasks, REVIEW) + StatusCount(tasks, BLOCKED) == |tasks|
  {
    if tasks != [] {
      var init := tasks[..|tasks| - 1];
      assert forall t :: t in init ==> t in tasks;
      assert tasks[|tasks| - 1] in tasks;
      StatusGroupsPartition(init);
    }
  }

  /** `calculateTaskProgress(tasks)`: the percentage of done tasks, rounded
      half up as `Math.round` does, and 0 for no tasks. */
  function CalculateTaskProgress(tasks: seq<Task>): (r: int)
    ensures tasks == [] ==> r == 0
    ensures tasks != [] ==> RoundsPercentage(StatusCount(tasks, DONE), |tasks|, r)
  {
    if |tasks| == 0 then 0
    else
      var done := |TasksByStatus(tasks, DONE)|;
      TasksByStatusCount(tasks, DONE);
      DivBounds(200 * done + |tasks|, 2 * |tasks|);
      (200 * done + |tasks|) / (2 * |tasks|)
  }

  /** `r` is `100 * part / whole` rounded to the nearest integer, halves
      rounded up. */
  ghost predicate RoundsPercentage(part: int, whole: int, r: int) {
    (2 * whole) * r <= 200 * part + whole < (2 * whole) * r + 2 * whole
  }

  lemma DivBounds(a: int, b: int)
    requires b > 0
    ensures b * (a / b) <= a < b * (a / b) + b
  {
  }

  /** A rounded percentage of a part of the whole lies in 0..100, is 100
      for the whole and 0 for nothing. */
  lemma RoundedPercentageRange(part: int, whole: int, r: int)
    requires 0 <= part <= whole && whole > 0 && RoundsPercentage(part, whole, r)
    ensures 0 <= r <= 100
    ensures part == whole ==> r == 100
    ensures part == 0 ==> r == 0
  {
    var w2 := 2 * whole;
    if r < 0 {
      MulMono(w2, r, -1);
    }
    if r > 100 {
      MulMono(w2, 101, r);
    }
    if part == whole && r < 100 {
      MulMono(w2, r, 99);
    }
    if part == 0 && r > 0 {
      MulMono(w2, 1, r);
    }
  }

  lemma MulMono(a: int, b: int, c: int)
    requires a >= 0 && b <= c
    ensures a * b <= a * c
  {
    assert a * c - a * b == a * (c - b);
  }

  /** StatusCount never exceeds the length of the list. */
  lemma {:induction false} StatusCountBound(tasks: seq<Task>, status: int)
    ensures StatusCount(tasks, status) <= |tasks|
    ensures StatusCount(tasks, status) == |tasks| <==> forall t :: t in tasks ==> t.status == status
    ensures StatusCount(tasks, status) == 0 <==> forall t :: t in tasks ==> t.status != status
  {
    if tasks != [] {
      var init, last := tasks[..|tasks| - 1], tasks[|tasks| - 1];
      assert tasks == init + [last];
      StatusCountBound(init, status);
    }
  }

  /** Progress is a percentage; it is 100 when every task is done and 0
      when none is. */
  lemma ProgressIsPercentage(tasks: seq<Task>)
    ensures 0 <= CalculateTaskProgress(tasks) <= 100
    ensures tasks != [] && (forall t :: t in tasks ==> t.status == DONE) ==> CalculateTaskProgress(tasks) == 100
    ensures (forall t :: t in tasks ==> t.status != DONE) ==> CalculateTaskProgress(tasks) == 0
  {
    StatusCountBound(tasks, DONE);
    if tasks != [] {
      RoundedPercentageRange(StatusCount(tasks, DONE), |tasks|, CalculateTaskProgress(tasks));
    }
  }

  // ----- filterTasks -----

  /** The criteria object of `filterTasks`. An absent or empty `user`,
      `tag` or `search` is the empty string; an absent status is `None`. */
  datatype Criteria = Criteria(status: Option<int>, user: string, tag: string, search: string)

  const NoCriteria: Criteria := Criteria(None, "", "", "")

  /** `toLowerCase`, on ASCII letters only. */
  function LowerChar(c: char): char {
    if 'A' <= c <= 'Z' then (c as int + 32) as char else c
  }

  function Lower(s: string): (r: string)
    ensures |r| == |s| && forall i :: 0 <= i < |s| ==> r[i] == LowerChar(s[i])
  {
    seq(|s|, i requires 0 <= i < |s| => LowerChar(s[i]))
  }

  /** Lower-casing twice is lower-casing once. */
  lemma LowerIdempotent(s: string)
    ensures Lower(Lower(s)) == Lower(s)
  {
  }

  /** `t` occurs in `s` at offset `i`. */
  ghost predicate OccursAt(s: string, t: string, i: int) {
    0 <= i <= |s| - |t| && s[i..i + |t|] == t
  }

  /** `t` occurs somewhere in `s`. */
  ghost predicate Occurs(s: string, t: string) {
    exists i :: OccursAt(s, t, i)
  }

  /** `s.includes(t)`: it holds exactly when `t` occurs in `s` at some
      offset. */
  function Includes(s: string, t: string): (r: bool)
    ensures r <==> Occurs(s, t)
    decreases |s|
  {
    if |t| > |s| then
      assert forall i :: !OccursAt(s, t, i);
      false
    else if s[..|t|] == t then
      assert OccursAt(s, t, 0);
      true
    else
      ShiftOccurrence(s, t);
      Includes(s[1..], t)
  }

  /** When `t` is not a prefix of `s`, it occurs in `s` exactly when it
      occurs in `s` without its first character. */
  lemma ShiftOccurrence(s: string, t: string)
    requires |t| <= |s| && s[..|t|] != t
    ensures Occurs(s, t) <==> Occurs(s[1..], t)
  {
    if Occurs(s, t) {
      var i :| OccursAt(s, t, i);
      assert i != 0;
      assert s[1..][i - 1..i - 1 + |t|] == s[i..i + |t|];
      assert OccursAt(s[1..], t, i - 1);
    }
    if Occurs(s[1..], t) {
      var i :| OccursAt(s[1..], t, i);
      assert s[i + 1..i + 1 + |t|] == s[1..][i..i + |t|];
      assert OccursAt(s, t, i + 1);
    }
  }

  /** The search clause read as occurrences: `term` occurs in the
      lower-cased name, in a non-empty lower-cased description or in one
      of the lower-cased tags. */
  ghost predicate TextOccurs(task: Task, term: string) {
    Occurs(Lower(task.name), term) ||
    (task.description != "" && Occurs(Lower(task.description), term)) ||
    (task.tags.Some? && exists tag :: tag in task.tags.value && Occurs(Lower(tag), term))
  }

  /** The search clause: `term` (already lower-cased) occurs in the name, in
      a non-empty description or in one of the tags, ignoring ASCII case. */
  predicate TextMatches(task: Task, term: string): (r: bool)
    ensures r <==> TextOccurs(task, term)
  {
    Includes(Lower(task.name), term) ||
    (task.description != "" && Includes(Lower(task.description), term)) ||
    (task.tags.Some? && exists tag :: tag in task.tags.value && Includes(Lower(tag), term))
  }

  /** The callback of `filterTasks`: every given criterion is met, the
      search term occurring in the task's text. */
  predicate Matches(task: Task, c: Criteria): (r: bool)
    ensures r <==>
      (c.status.Some? ==> task.status == c.status.value) &&
      (c.user != "" ==> task.users.Some? && c.user in task.users.value) &&
      (c.tag != "" ==> task.tags.Some? && c.tag in task.tags.value) &&
      (c.search != "" ==> TextOccurs(task, Lower(c.search)))
  {
    (c.status.Some? ==> task.status == c.status.value) &&
    (c.user != "" ==> task.users.Some? && c.user in task.users.value) &&
    (c.tag != "" ==> task.tags.Some? && c.tag in task.tags.value) &&
    (c.search != "" ==> TextMatches(task, Lower(c.search)))
  }

  /** `filterTasks(tasks, criteria)`. */
  function FilterTasks(tasks: seq<Task>, c: Criteria): (r: seq<Task>)
    ensures |r| <= |tasks|
    ensures forall t :: t in r <==> t in tasks && Matches(t, c)
  {
    Filter(MatchesFn(c), tasks)
  }

  function MatchesFn(c: Criteria): Task -> bool {
    (t: Task) => Matches(t, c)
  }

  /** Filtering twice is filtering by the conjunction of the predicates. */
  lemma {:induction false} FilterFilter<T(!new)>(p: T -> bool, q: T -> bool, both: T -> bool, s: seq<T>)
    requires forall x :: both(x) == (p(x) && q(x))
    ensures Filter(q, Filter(p, s)) == Filter(both, s)
  {
    if s != [] {
      FilterFilter(p, q, both, s[1..]);
      var rest := Filter(p, s[1..]);
      if p(s[0]) {
        var ps := [s[0]] + rest;
        assert Filter(p, s) == ps;
        assert ps[0] == s[0] && ps[1..] == rest;
      } else {
        assert Filter(p, s) == rest;
      }
    }
  }

  /** With no criterion every task is kept, in order. */
  lemma NoCriteriaKeepsAll(tasks: seq<Task>)
    ensures FilterTasks(tasks, NoCriteria) == tasks
  {
    FilterAll(MatchesFn(NoCriteria), tasks);
  }

  /** A status-only filter is `getTasksByStatus`. */
  lemma StatusCriterionIsTasksByStatus(tasks: seq<Task>, status: int)
    ensures FilterTasks(tasks, Criteria(Some(status), "", "", "")) == TasksByStatus(tasks, status)
  {
    FilterCongruent(MatchesFn(Criteria(Some(status), "", "", "")), (t: Task) => t.status == status, tasks);
  }

  /** Filtering is idempotent: a second pass with the same criteria keeps
      everything the first pass kept. */
  lemma FilterTasksIdempotent(tasks: seq<Task>, c: Criteria)
    ensures FilterTasks(FilterTasks(tasks, c), c) == FilterTasks(tasks, c)
  {
    FilterAll(MatchesFn(c), FilterTasks(tasks, c));
  }

  /** The criteria combine as a conjunction: filtering by the status and the
      user alone, then by the tag and the search alone, is filtering by all
      four. */
  lemma CriteriaCompose(tasks: seq<Task>, c: Criteria)
    ensures FilterTasks(FilterTasks(tasks, Criteria(c.status, c.user, "", "")), Criteria(None, "", c.tag, c.search)) ==
      FilterTasks(tasks, c)
  {
    FilterFilter(MatchesFn(Criteria(c.status, c.user, "", "")), MatchesFn(Criteria(None, "", c.tag, c.search)),
      MatchesFn(c), tasks);
  }

  /** The search term is compared after lower-casing, so its case does not
      matter. */
  lemma SearchIgnoresCase(tasks: seq<Task>, c: Criteria)
    ensures FilterTasks(tasks, c.(search := Lower(c.search))) == FilterTasks(tasks, c)
  {
    LowerIdempotent(c.search);
    FilterCongruent(MatchesFn(c.(search := Lower(c.search))), MatchesFn(c), tasks);
  }

  /** A user-only filter keeps exactly the tasks assigned to that user (all
      tasks when the user is empty). */
  lemma UserCriterionSelects(tasks: seq<Task>, user: string)
    ensures forall t :: t in FilterTasks(tasks, Criteria(None, user, "", "")) <==>
      t in tasks && (user != "" ==> t.users.Some? && user in t.users.value)
  {
  }

  /** A tag-only filter keeps exactly the tasks carrying that tag (all
      tasks when the tag is empty). */
  lemma TagCriterionSelects(tasks: seq<Task>, tag: string)
    ensures forall t :: t in FilterTasks(tasks, Criteria(None, "", tag, "")) <==>
      t in tasks && (tag != "" ==> t.tags.Some? && tag in t.tags.value)
  {
  }

  /** A search-only filter keeps exactly the tasks in whose lower-cased
      name, description or tags the lower-cased term occurs (all tasks when
      the term is empty). */
  lemma SearchCriterionSelects(tasks: seq<Task>, term: string)
    ensures forall t :: t in FilterTasks(tasks, Criteria(None, "", "", term)) <==>
      t in tasks && (term != "" ==> TextOccurs(t, Lower(term)))
  {
  }
}
