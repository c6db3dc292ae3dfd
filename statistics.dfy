/** The board summary `getTaskStatistics`: the number of tasks, the number
    per status, the completion percentage, and per user and per tag how
    often they are assigned. */
module Statistics {
  import opened Options
  import opened Tasks
  import opened Queries

  /** Per user: the assignments, and those on done tasks. */
  datatype UserStat = UserStat(total: nat, completed: nat)

  /** The object `getTaskStatistics` returns. */
  datatype TaskStatistics = TaskStatistics(
    total: nat,
    byStatus: map<int, nat>,
    completion: int,
    userStats: map<string, UserStat>,
    tagStats: map<string, nat>)

  function UsersOf(t: Task): seq<string> {
    t.users.GetOr([])
  }

  function TagsOf(t: Task): seq<string> {
    t.tags.GetOr([])
  }

  /** How often `u` is assigned across the tasks (a user listed twice on one
      task counts twice). */
  function UserCount(tasks: seq<Task>, u: string): nat {
    if tasks == [] then 0
    else UserCount(tasks[..|tasks| - 1], u) + Count(UsersOf(tasks[|tasks| - 1]), u)
  }

  /** One more task adds its own assignments to both counts. */
  lemma UserCountStep(tasks: seq<Task>, i: nat)
    requires i < |tasks|
    ensures forall u :: UserCount(tasks[..i + 1], u) == UserCount(tasks[..i], u) + Count(UsersOf(tasks[i]), u)
    ensures forall u :: (UserDoneCount(tasks[..i + 1], u) ==
      UserDoneCount(tasks[..i], u) + (if tasks[i].status == DONE then Count(UsersOf(tasks[i]), u) else 0))
  {
    assert tasks[..i + 1][..i] == tasks[..i];
  }

  /** The same, on done tasks only. */
  function UserDoneCount(tasks: seq<Task>, u: string): nat {
    if tasks == [] then 0
    else
      var last := tasks[|tasks| - 1];
      UserDoneCount(tasks[..|tasks| - 1], u) + (if last.status == DONE then Count(UsersOf(last), u) else 0)
  }

  /** How often `tag` is attached across the tasks. */
  function TagCount(tasks: seq<Task>, tag: string): nat {
    if tasks == [] then 0
    else TagCount(tasks[..|tasks| - 1], tag) + Count(TagsOf(tasks[|tasks| - 1]), tag)
  }

  /** The entry of a user, zero when the user has none yet. */
  function StatOf(m: map<string, UserStat>, u: string): UserStat {
    if u in m then m[u] else UserStat(0, 0)
  }

  function TagOf(m: map<string, nat>, tag: string): nat {
    if tag in m then m[tag] else 0
  }

  /** An entry after `n` more assignments on a task that is or is not
      done. */
  function Bumped(s: UserStat, n: nat, done: bool): UserStat {
    UserStat(s.total + n, s.completed + if done then n else 0)
  }

  /** The inner `task.users.forEach`: one more assignment for each listed
      user, and one more completed one when the task is done. */
  method AddUsers(acc: map<string, UserStat>, users: seq<string>, done: bool)
    returns (out: map<string, UserStat>)
    ensures forall u :: u in out <==> u in acc || u in users
    ensures forall u :: StatOf(out, u) == Bumped(StatOf(acc, u), Count(users, u), done)
  {
    out := acc;
    var j := 0;
    while j < |users|
      invariant 0 <= j <= |users|
      invariant forall u :: u in out <==> u in acc || u in users[..j]
      invariant forall u :: StatOf(out, u) == Bumped(StatOf(acc, u), Count(users[..j], u), done)
    {
      out := AddUser(out, users[j], done);
      CountPrefixStep(users, j);
      j := j + 1;
    }
    assert users[..j] == users;
  }

  /** One pass of the inner `forEach`: create the user's entry if missing,
      then count the assignment (and the completion). */
  method AddUser(acc: map<string, UserStat>, user: string, done: bool) returns (out: map<string, UserStat>)
    ensures forall u :: u in out <==> u in acc || u == user
    ensures forall u :: StatOf(out, u) == if u == user then Bumped(StatOf(acc, u), 1, done) else StatOf(acc, u)
  {
    out := acc;
    if user !in out {
      out := out[user := UserStat(0, 0)];
    }
    var entry := out[user];
    out := out[user := UserStat(entry.total + 1, if done then entry.completed + 1 else entry.completed)];
  }

  /** The `userStats` reduction. */
  method CountUsers(tasks: seq<Task>) returns (acc: map<string, UserStat>)
    ensures forall u :: u in acc <==> UserCount(tasks, u) > 0
    ensures forall u :: StatOf(acc, u) == UserStat(UserCount(tasks, u), UserDoneCount(tasks, u))
  {
    acc := map[];
    var i := 0;
    while i < |tasks|
      invariant 0 <= i <= |tasks|
      invariant forall u :: u in acc <==> UserCount(tasks[..i], u) > 0
      invariant forall u :: StatOf(acc, u) == UserStat(UserCount(tasks[..i], u), UserDoneCount(tasks[..i], u))
    {
      var task := tasks[i];
      if task.users.Some? {
        acc := AddUsers(acc, task.users.value, task.status == DONE);
      }
      UserCountStep(tasks, i);
      i := i + 1;
    }
    assert tasks[..i] == tasks;
  }

  /** The inner `task.tags.forEach`. */
  method AddTags(acc: map<string, nat>, tags: seq<string>) returns (out: map<string, nat>)
    ensures forall g :: g in out <==> g in acc || g in tags
    ensures forall g :: TagOf(out, g) == TagOf(acc, g) + Count(tags, g)
  {
    out := acc;
    var j := 0;
    while j < |tags|
      invariant 0 <= j <= |tags|
      invariant forall g :: g in out <==> g in acc || g in tags[..j]
      invariant forall g :: TagOf(out, g) == TagOf(acc, g) + Count(tags[..j], g)
    {
      var tag := tags[j];
      out := out[tag := TagOf(out, tag) + 1];
      CountPrefixStep(tags, j);
      j := j + 1;
    }
    assert tags[..j] == tags;
  }

  /** The `tagStats` reduction. */
  method CountTags(tasks: seq<Task>) returns (acc: map<string, nat>)
    ensures forall g :: g in acc <==> TagCount(tasks, g) > 0
    ensures forall g :: TagOf(acc, g) == TagCount(tasks, g)
  {
    acc := map[];
    var i := 0;
    while i < |tasks|
      invariant 0 <= i <= |tasks|
      invariant forall g :: g in acc <==> TagCount(tasks[..i], g) > 0
      invariant forall g :: TagOf(acc, g) == TagCount(tasks[..i], g)
    {
      var task := tasks[i];
      if task.tags.Some? {
        acc := AddTags(acc, task.tags.value);
      }
      assert tasks[..i + 1][..i] == tasks[..i];
      i := i + 1;
    }
    assert tasks[..i] == tasks;
  }

  /** The `byStatus` reduction over the five status codes. */
  method CountByStatus(tasks: seq<Task>) returns (byStatus: map<int, nat>)
    ensures byStatus.Keys == set s | s in StatusValues
    ensures forall s :: s in byStatus ==> byStatus[s] == StatusCount(tasks, s)
  {
    byStatus := map[];
    var k := 0;
    while k < |StatusValues|
      invariant 0 <= k <= |StatusValues|
      invariant byStatus.Keys == set s | s in StatusValues[..k]
      invariant forall s :: s in byStatus ==> byStatus[s] == StatusCount(tasks, s)
    {
      var status := StatusValues[k];
      TasksByStatusCount(tasks, status);
      byStatus := byStatus[status := |TasksByStatus(tasks, status)|];
      assert StatusValues[..k + 1] == StatusValues[..k] + [status];
      k := k + 1;
    }
  }

  /** `getTaskStatistics(tasks)`. */
  method GetTaskStatistics(tasks: seq<Task>) returns (stats: TaskStatistics)
    ensures stats.total == |tasks|
    ensures stats.byStatus.Keys == set s | s in StatusValues
    ensures forall s :: s in stats.byStatus ==> stats.byStatus[s] == StatusCount(tasks, s)
    ensures stats.completion == CalculateTaskProgress(tasks)
    ensures forall u :: u in stats.userStats <==> UserCount(tasks, u) > 0
    ensures forall u :: u in stats.userStats ==>
      stats.userStats[u] == UserStat(UserCount(tasks, u), UserDoneCount(tasks, u))
    ensures forall g :: g in stats.tagStats <==> TagCount(tasks, g) > 0
    ensures forall g :: g in stats.tagStats ==> stats.tagStats[g] == TagCount(tasks, g)
  {
    var byStatus := CountByStatus(tasks);
    var userStats := CountUsers(tasks);
    var tagStats := CountTags(tasks);
    stats := TaskStatistics(|tasks|, byStatus, CalculateTaskProgress(tasks), userStats, tagStats);
    assert forall u :: u in userStats ==> userStats[u] == StatOf(userStats, u);
    assert forall g :: g in tagStats ==> tagStats[g] == TagOf(tagStats, g);
  }

  /** A user has an entry exactly when some task lists them, and never more
      completed assignments than assignments. */
  lemma {:induction false} UserCountFacts(tasks: seq<Task>, u: string)
    ensures UserCount(tasks, u) > 0 <==> exists t :: t in tasks && u in UsersOf(t)
    ensures UserDoneCount(tasks, u) <= UserCount(tasks, u)
    ensures UserDoneCount(tasks, u) > 0 <==> exists t :: t in tasks && t.status == DONE && u in UsersOf(t)
  {
    if tasks != [] {
      var init, last := tasks[..|tasks| - 1], tasks[|tasks| - 1];
      assert tasks == init + [last];
      UserCountFacts(init, u);
    }
  }

  /** A tag has an entry exactly when some task carries it. */
  lemma {:induction false} TagCountFacts(tasks: seq<Task>, tag: string)
    ensures TagCount(tasks, tag) > 0 <==> exists t :: t in tasks && tag in TagsOf(t)
  {
    if tasks != [] {
      var init, last := tasks[..|tasks| - 1], tasks[|tasks| - 1];
      assert tasks == init + [last];
      TagCountFacts(init, tag);
    }
  }

  /** When every status is a valid code, the counts per status add up to
      the total. */
  lemma ByStatusSumsToTotal(tasks: seq<Task>, stats: TaskStatistics)
    requires forall t :: t in tasks ==> IsStatus(t.status)
    requires stats.total == |tasks| && stats.byStatus.Keys == set s | s in StatusValues
    requires forall s :: s in stats.byStatus ==> stats.byStatus[s] == StatusCount(tasks, s)
    ensures stats.byStatus[TODO] + stats.byStatus[IN_PROGRESS] + stats.byStatus[DONE] +
      stats.byStatus[REVIEW] + stats.byStatus[BLOCKED] == stats.total
  {
    StatusGroupsPartition(tasks);
  }
}
