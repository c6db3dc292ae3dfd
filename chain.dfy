/** `calculateMaxDependencyChain`: for every task in turn, a depth-first
    search from it with a visited set cleared per task, returning the
    deepest depth the search reaches; the answer is the largest of them.
    Because the visited set is shared by the branches of one search, an id
    met again is not expanded again, so the value is a lower estimate of
    the longest chain: it is always the length of some real dependency
    walk. */
module Chain {
  import opened Options
  import opened Tasks
  import opened Reachability

  /** There is a dependency walk of exactly `k` steps starting at `a`. */
  ghost predicate WalkFrom(tasks: seq<Task>, a: TaskId, k: nat) {
    exists p {:trigger IsPath(tasks, p)} :: IsPath(tasks, p) && p[0] == a && |p| == k + 1
  }

  lemma WalkFromZero(tasks: seq<Task>, a: TaskId)
    ensures WalkFrom(tasks, a, 0)
  {
    assert IsPath(tasks, [a]);
  }

  lemma WalkFromStep(tasks: seq<Task>, a: TaskId, d: TaskId, k: nat)
    requires d in DepsOf(tasks, a) && WalkFrom(tasks, d, k)
    ensures WalkFrom(tasks, a, k + 1)
  {
    var q :| IsPath(tasks, q) && q[0] == d && |q| == k + 1;
    assert IsPath(tasks, [a, d]);
    PathConcat(tasks, [a, d], q);
    assert ([a, d] + q[1..])[0] == a;
  }

  /** The inner `dfs(taskId, depth)`. The result is at least `depth`, and
      the search really walked `r - depth` steps from `taskId`; an id not
      yet visited that has dependencies yields at least one step. */
  method Dfs(taskId: TaskId, depth: nat, tasks: seq<Task>, visited: set<TaskId>)
    returns (r: nat, visitedOut: set<TaskId>)
    ensures visited <= visitedOut
    ensures r >= depth && WalkFrom(tasks, taskId, r - depth)
    ensures taskId !in visited && DepsOf(tasks, taskId) != [] ==> r > depth
    decreases |Ids(tasks) - visited|
  {
    WalkFromZero(tasks, taskId);
    if taskId in visited {
      return depth, visited;
    }
    visitedOut := visited + {taskId};
    var task := Find(tasks, taskId);
    if task.None? || task.value.dependsOn.None? || |task.value.dependsOn.value| == 0 {
      return depth, visitedOut;
    }
    var deps := task.value.dependsOn.value;
    r := depth;
    var k := 0;
    while k < |deps|
      invariant 0 <= k <= |deps|
      invariant visited + {taskId} <= visitedOut
      invariant r >= depth && WalkFrom(tasks, taskId, r - depth)
      invariant k > 0 ==> r > depth
    {
      RemainingShrinks(Ids(tasks), visited, visitedOut, taskId);
      var childDepth;
      childDepth, visitedOut := Dfs(deps[k], depth + 1, tasks, visitedOut);
      WalkFromStep(tasks, taskId, deps[k], childDepth - (depth + 1));
      if childDepth > r {
        r := childDepth;
      }
      k := k + 1;
    }
  }

  /** `calculateMaxDependencyChain(tasks)`: 0 exactly when no listed task
      has a dependency, and otherwise the length of a dependency walk from
      some listed task, so on acyclic input never more than the number of
      task ids. */
  method MaxDependencyChain(tasks: seq<Task>) returns (maxChain: nat)
    ensures maxChain == 0 <==> forall t :: t in tasks ==> DepsOf(tasks, t.id) == []
    ensures maxChain > 0 ==> exists t :: t in tasks && WalkFrom(tasks, t.id, maxChain)
    ensures Acyclic(tasks) ==> maxChain <= |Ids(tasks)|
  {
    maxChain := 0;
    for i := 0 to |tasks|
      invariant maxChain == 0 <==> forall k :: 0 <= k < i ==> DepsOf(tasks, tasks[k].id) == []
      invariant maxChain > 0 ==> exists k :: 0 <= k < i && WalkFrom(tasks, tasks[k].id, maxChain)
    {
      var chainLength, _ := Dfs(tasks[i].id, 0, tasks, {});
      if chainLength > 0 {
        WalkNeedsDependency(tasks, tasks[i].id, chainLength);
      }
      if chainLength > maxChain {
        maxChain := chainLength;
      }
    }
    if maxChain == 0 {
      forall t | t in tasks ensures DepsOf(tasks, t.id) == [] {
        var k :| 0 <= k < |tasks| && tasks[k] == t;
      }
    } else if Acyclic(tasks) {
      ghost var k :| 0 <= k < |tasks| && WalkFrom(tasks, tasks[k].id, maxChain);
      AcyclicWalkBound(tasks, tasks[k].id, maxChain);
    }
  }

  /** A walk of at least one step starts at an id with a dependency. */
  lemma WalkNeedsDependency(tasks: seq<Task>, a: TaskId, k: nat)
    requires k > 0 && WalkFrom(tasks, a, k)
    ensures DepsOf(tasks, a) != []
  {
    var p :| IsPath(tasks, p) && p[0] == a && |p| == k + 1;
    assert p[1] in DepsOf(tasks, p[0]);
  }

  /** On acyclic input a walk never repeats an id, so no walk, and hence
      no chain the search reports, is longer than the number of task ids:
      the estimate never exceeds the longest dependency path. */
  lemma AcyclicWalkBound(tasks: seq<Task>, a: TaskId, k: nat)
    requires Acyclic(tasks) && WalkFrom(tasks, a, k)
    ensures k <= |Ids(tasks)|
  {
    var p :| IsPath(tasks, p) && p[0] == a && |p| == k + 1;
    var front := p[..k];
    forall i | 0 <= i < k ensures front[i] in Ids(tasks) {
      assert p[i + 1] in DepsOf(tasks, p[i]);
    }
    assert NoDup(front) by {
      forall i, j | 0 <= i < j < |front| ensures front[i] != front[j] {
        if front[i] == front[j] {
          RepeatOnCycle(tasks, p, i, j);
          assert false;
        }
      }
    }
    DistinctBound(front, Ids(tasks));
  }

  /** A walk that meets an id twice runs round a cycle through it. */
  lemma RepeatOnCycle(tasks: seq<Task>, p: seq<TaskId>, i: nat, j: nat)
    requires IsPath(tasks, p) && i < j < |p| && p[i] == p[j]
    ensures OnCycle(tasks, p[i])
  {
    PathSlice(tasks, p, i, j + 1);
    var q := p[i..j + 1];
    assert IsPath(tasks, q) && |q| >= 2;
    assert q[0] == p[i] && q[|q| - 1] == p[j];
  }

  /** A repetition-free list drawn from a set is no longer than the set. */
  lemma {:induction false} DistinctBound(s: seq<TaskId>, u: set<TaskId>)
    requires NoDup(s) && forall i :: 0 <= i < |s| ==> s[i] in u
    ensures |s| <= |u|
  {
    if s != [] {
      var last := s[|s| - 1];
      var init := s[..|s| - 1];
      assert last !in init by {
        forall i | 0 <= i < |init| ensures init[i] != last {
          assert init[i] == s[i];
        }
      }
      assert NoDup(init) by {
        forall i, j | 0 <= i < j < |init| ensures init[i] != init[j] {
          assert init[i] == s[i] && init[j] == s[j];
        }
      }
      assert forall i :: 0 <= i < |init| ==> init[i] in u - {last} by {
        forall i | 0 <= i < |init| ensures init[i] in u - {last} {
          assert init[i] == s[i];
        }
      }
      DistinctBound(init, u - {last});
    }
  }

  /** With no dependency lists at all, no listed id has a dependency, so
      the chain is 0. */
  lemma NoDependenciesNoChain(tasks: seq<Task>)
    requires forall t :: t in tasks ==> Deps(t) == []
    ensures forall t :: t in tasks ==> DepsOf(tasks, t.id) == []
  {
    forall t | t in tasks ensures DepsOf(tasks, t.id) == [] {
      var found := Find(tasks, t.id);
    }
  }
}
