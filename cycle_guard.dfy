/** The guard the board runs before it links two tasks by a click
    (`checkForCircularDependency` in the flow view): a depth-first search
    from the new dependency, with one visited set shared by the whole
    search, that reports whether it meets the task about to gain the
    dependency. */
module CycleGuard {
  import opened Options
  import opened Tasks
  import opened Reachability

  /** Every id the search expanded beyond `base` has its dependencies
      visited as well. */
  ghost predicate ClosedBeyond(tasks: seq<Task>, base: set<TaskId>, s: set<TaskId>) {
    forall z, d :: z in s - base && d in DepsOf(tasks, z) ==> d in s
  }

  /** The inner `dfs(currentId)`. A search that finds `target` has found a
      walk to it; one that does not leaves `currentId` visited, never visits
      `target`, and has visited the dependencies of every id it expanded. */
  method Dfs(target: TaskId, current: TaskId, tasks: seq<Task>, visited: set<TaskId>)
    returns (found: bool, visitedOut: set<TaskId>)
    requires target !in visited
    ensures visited <= visitedOut && target !in visitedOut
    ensures found ==> Reaches(tasks, current, target)
    ensures !found ==> current in visitedOut && ClosedBeyond(tasks, visited, visitedOut)
    decreases |Ids(tasks) - visited|, 1
  {
    if current in visited {
      return false, visited;
    }
    if current == target {
      ReachesRefl(tasks, current);
      return true, visited;
    }
    var task := Find(tasks, current);
    if task.None? || task.value.dependsOn.None? {
      return false, visited + {current};
    }
    found, visitedOut := DfsChildren(target, current, task.value.dependsOn.value, tasks, visited);
  }

  /** `for (const depId of task.depends_on) if (dfs(depId)) return true;`
      after `currentId` has been marked visited. */
  method DfsChildren(target: TaskId, current: TaskId, direct: seq<TaskId>, tasks: seq<Task>, visited: set<TaskId>)
    returns (found: bool, visitedOut: set<TaskId>)
    requires target !in visited && current != target && current !in visited
    requires current in Ids(tasks) && direct == DepsOf(tasks, current)
    ensures visited + {current} <= visitedOut && target !in visitedOut
    ensures found ==> Reaches(tasks, current, target)
    ensures !found ==> ClosedBeyond(tasks, visited, visitedOut)
    decreases |Ids(tasks) - visited|, 0
  {
    visitedOut := visited + {current};
    var k := 0;
    while k < |direct|
      invariant 0 <= k <= |direct|
      invariant visited + {current} <= visitedOut && target !in visitedOut
      invariant forall i :: 0 <= i < k ==> direct[i] in visitedOut
      invariant ClosedBeyond(tasks, visited + {current}, visitedOut)
    {
      RemainingShrinks(Ids(tasks), visited, visitedOut, current);
      var sub, v2 := Dfs(target, direct[k], tasks, visitedOut);
      if sub {
        StepThenReaches(tasks, current, direct[k], target);
        DependsImpliesReaches(tasks, current, target);
        return true, v2;
      }
      assert forall i :: 0 <= i <= k ==> direct[i] in v2 by {
        assert visitedOut <= v2;
      }
      visitedOut := v2;
      k := k + 1;
    }
    found := false;
  }

  /** `checkForCircularDependency(taskId, newDependencyId, tasks)`: true
      exactly when `taskId` is reachable from `newDependencyId` in zero or
      more depends_on steps, that is, when making `taskId` depend on
      `newDependencyId` would close a cycle. */
  method CheckForCircularDependency(taskId: TaskId, newDependencyId: TaskId, tasks: seq<Task>)
    returns (r: bool)
    ensures r <==> Reaches(tasks, newDependencyId, taskId)
  {
    var visited;
    r, visited := Dfs(taskId, newDependencyId, tasks, {});
    if !r && Reaches(tasks, newDependencyId, taskId) {
      assert ClosedUnderDeps(tasks, visited);
      ClosedContainsReaches(tasks, visited, newDependencyId, taskId);
      assert false;
    }
  }
}
