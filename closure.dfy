/** The transitive dependency closure of a task and the cycle check built
    on it (`getAllDependencies`, `hasCircularDependency`). The JavaScript
    shares one mutable `visited` Set between all recursive calls; here that
    set is passed into each call and handed back with what the call added. */
module DependencyClosure {
  import opened Options
  import opened Tasks
  import opened Reachability

  /** What one call has found is sound: the ids it expanded are reachable
      from `taskId`, and what it returns are transitive dependencies. */
  ghost predicate Sound(tasks: seq<Task>, taskId: TaskId, visited: set<TaskId>,
                        visitedOut: set<TaskId>, deps: seq<TaskId>)
  {
    && (forall z :: z in visitedOut - visited ==> Reaches(tasks, taskId, z))
    && (forall y :: y in deps ==> DependsTransitively(tasks, taskId, y))
  }

  /** What one call has found is complete: each id it expanded (beyond
      `base`) has all its dependencies visited and returned. */
  ghost predicate Complete(tasks: seq<Task>, base: set<TaskId>, visitedOut: set<TaskId>, deps: seq<TaskId>) {
    forall z, d :: z in visitedOut - base && d in DepsOf(tasks, z) ==> d in visitedOut && d in deps
  }

  /** Folding the result of the recursive call on one direct dependency
      into the caller's result keeps it sound and complete. */
  lemma ChildStep(tasks: seq<Task>, taskId: TaskId, d: TaskId, visited: set<TaskId>,
                  vcur: set<TaskId>, v2: set<TaskId>, deps: seq<TaskId>, sub: seq<TaskId>, merged: seq<TaskId>)
    requires d in DepsOf(tasks, taskId)
    requires visited + {taskId} <= vcur <= v2
    requires Sound(tasks, taskId, visited, vcur, deps) && Complete(tasks, visited + {taskId}, vcur, deps)
    requires Sound(tasks, d, vcur, v2, sub) && Complete(tasks, vcur, v2, sub)
    requires forall y :: y in merged <==> y in deps || y in sub
    ensures Sound(tasks, taskId, visited, v2, merged) && Complete(tasks, visited + {taskId}, v2, merged)
  {
    forall y | y in sub
      ensures DependsTransitively(tasks, taskId, y)
    {
      DependsImpliesReaches(tasks, d, y);
      StepThenReaches(tasks, taskId, d, y);
    }
    forall z | z in v2 - vcur
      ensures Reaches(tasks, taskId, z)
    {
      StepThenReaches(tasks, taskId, d, z);
    }
  }

  /** Expanding `taskId` starts sound and complete: its direct dependencies
      are transitive ones, and nothing beyond it is expanded yet. */
  lemma StartExpansion(tasks: seq<Task>, taskId: TaskId, visited: set<TaskId>)
    ensures Sound(tasks, taskId, visited, visited + {taskId}, DepsOf(tasks, taskId))
    ensures Complete(tasks, visited + {taskId}, visited + {taskId}, DepsOf(tasks, taskId))
  {
    ReachesRefl(tasks, taskId);
    forall y | y in DepsOf(tasks, taskId)
      ensures DependsTransitively(tasks, taskId, y)
    {
      StepDepends(tasks, taskId, y);
    }
  }

  /** The inner `subDependencies.forEach`: append each id of `sub` that is
      not yet listed. */
  method MergeNew(deps: seq<TaskId>, sub: seq<TaskId>) returns (merged: seq<TaskId>)
    ensures |merged| >= |deps| && merged[..|deps|] == deps
    ensures forall y :: y in merged <==> y in deps || y in sub
    ensures NoDup(deps) ==> NoDup(merged)
  {
    merged := deps;
    var j := 0;
    while j < |sub|
      invariant 0 <= j <= |sub|
      invariant |merged| >= |deps| && merged[..|deps|] == deps
      invariant forall y :: y in merged ==> y in deps || y in sub
      invariant forall y :: y in deps ==> y in merged
      invariant forall i :: 0 <= i < j ==> sub[i] in merged
      invariant NoDup(deps) ==> NoDup(merged)
    {
      if sub[j] !in merged {
        merged := merged + [sub[j]];
      }
      j := j + 1;
    }
  }

  /** `getAllDependencies(taskId, allTasks, visited)`. The returned list
      holds the direct dependencies first, then every dependency of an id
      this call expanded; `visitedOut` is `visited` plus the ids it expanded. */
  method CollectDependencies(taskId: TaskId, tasks: seq<Task>, visited: set<TaskId>)
    returns (deps: seq<TaskId>, visitedOut: set<TaskId>)
    ensures visited <= visitedOut && taskId in visitedOut
    ensures taskId in visited ==> deps == [] && visitedOut == visited
    ensures taskId !in Ids(tasks) ==> deps == []
    ensures taskId !in visited ==>
      |deps| >= |DepsOf(tasks, taskId)| && deps[..|DepsOf(tasks, taskId)|] == DepsOf(tasks, taskId)
    ensures Sound(tasks, taskId, visited, visitedOut, deps)
    ensures Complete(tasks, visited, visitedOut, deps)
    ensures NoDup(DepsOf(tasks, taskId)) ==> NoDup(deps)
    decreases |Ids(tasks) - visited|, 2
  {
    if taskId in visited {
      return [], visited;
    }
    var task := Find(tasks, taskId);
    if task.None? || task.value.dependsOn.None? {
      ReachesRefl(tasks, taskId);
      return [], visited + {taskId};
    }
    deps, visitedOut := ExpandDependencies(taskId, task.value.dependsOn.value, tasks, visited);
  }

  /** The body of `getAllDependencies` once `taskId` is known to name a task
      with a depends_on list `direct`: mark it visited, start from a copy of
      `direct`, and fold in the closure of each direct dependency in turn. */
  method ExpandDependencies(taskId: TaskId, direct: seq<TaskId>, tasks: seq<Task>, visited: set<TaskId>)
    returns (deps: seq<TaskId>, visitedOut: set<TaskId>)
    requires taskId in Ids(tasks) && taskId !in visited && direct == DepsOf(tasks, taskId)
    ensures visited + {taskId} <= visitedOut
    ensures |deps| >= |direct| && deps[..|direct|] == direct
    ensures Sound(tasks, taskId, visited, visitedOut, deps)
    ensures Complete(tasks, visited, visitedOut, deps)
    ensures NoDup(direct) ==> NoDup(deps)
    decreases |Ids(tasks) - visited|, 1
  {
    visitedOut := visited + {taskId};
    deps := direct;
    StartExpansion(tasks, taskId, visited);
    var k := 0;
    while k < |direct|
      invariant 0 <= k <= |direct|
      invariant visited + {taskId} <= visitedOut
      invariant Sound(tasks, taskId, visited, visitedOut, deps)
      invariant Complete(tasks, visited + {taskId}, visitedOut, deps)
      invariant forall i :: 0 <= i < k ==> direct[i] in visitedOut
      invariant |deps| >= |direct| && deps[..|direct|] == direct
      invariant NoDup(direct) ==> NoDup(deps)
    {
      deps, visitedOut := FoldChild(taskId, direct, k, tasks, visited, visitedOut, deps);
      k := k + 1;
    }
    FinishExpansion(tasks, taskId, visited, visitedOut, deps);
  }

  /** One turn of the outer `directDependencies.forEach`: collect the
      closure of `direct[k]` with the shared visited set and append the ids
      not listed yet. */
  method FoldChild(taskId: TaskId, direct: seq<TaskId>, k: nat, tasks: seq<Task>, visited: set<TaskId>,
                   vcur: set<TaskId>, deps: seq<TaskId>)
    returns (merged: seq<TaskId>, v2: set<TaskId>)
    requires taskId in Ids(tasks) && taskId !in visited && direct == DepsOf(tasks, taskId) && k < |direct|
    requires visited + {taskId} <= vcur
    requires Sound(tasks, taskId, visited, vcur, deps) && Complete(tasks, visited + {taskId}, vcur, deps)
    requires |deps| >= |direct| && deps[..|direct|] == direct
    ensures vcur <= v2 && direct[k] in v2
    ensures Sound(tasks, taskId, visited, v2, merged) && Complete(tasks, visited + {taskId}, v2, merged)
    ensures |merged| >= |direct| && merged[..|direct|] == direct
    ensures NoDup(deps) ==> NoDup(merged)
    decreases |Ids(tasks) - visited|, 0
  {
    RemainingShrinks(Ids(tasks), visited, vcur, taskId);
    var sub;
    sub, v2 := CollectDependencies(direct[k], tasks, vcur);
    merged := MergeNew(deps, sub);
    ChildStep(tasks, taskId, direct[k], visited, vcur, v2, deps, sub, merged);
    assert merged[..|direct|] == deps[..|direct|];
  }

  /** Once every direct dependency is visited, `taskId` itself is complete. */
  lemma FinishExpansion(tasks: seq<Task>, taskId: TaskId, visited: set<TaskId>, visitedOut: set<TaskId>, deps: seq<TaskId>)
    requires Complete(tasks, visited + {taskId}, visitedOut, deps)
    requires forall d :: d in DepsOf(tasks, taskId) ==> d in visitedOut && d in deps
    ensures Complete(tasks, visited, visitedOut, deps)
  {
  }

  /** `getAllDependencies(taskId, allTasks)` with a fresh visited set: as a
      set, exactly the ids `taskId` depends on directly or transitively. */
  method GetAllDependencies(taskId: TaskId, tasks: seq<Task>) returns (deps: seq<TaskId>)
    ensures forall y :: y in deps <==> DependsTransitively(tasks, taskId, y)
    ensures |deps| >= |DepsOf(tasks, taskId)| && deps[..|DepsOf(tasks, taskId)|] == DepsOf(tasks, taskId)
    ensures taskId in deps <==> OnCycle(tasks, taskId)
    ensures taskId !in Ids(tasks) ==> deps == []
    ensures NoDup(DepsOf(tasks, taskId)) ==> NoDup(deps)
  {
    var visited;
    deps, visited := CollectDependencies(taskId, tasks, {});
    assert ClosedUnderDeps(tasks, visited);
    forall y | DependsTransitively(tasks, taskId, y)
      ensures y in deps
    {
      var p :| IsPath(tasks, p) && |p| >= 2 && p[0] == taskId && p[|p| - 1] == y;
      PathSlice(tasks, p, 0, |p| - 1);
      ClosedContainsReachable(tasks, visited, p[..|p| - 1]);
      assert y in DepsOf(tasks, p[|p| - 2]);
    }
  }

  /** `hasCircularDependency(taskId, newDependencyId, allTasks)`: whether
      `taskId` is among the transitive dependencies of `newDependencyId`. */
  method HasCircularDependency(taskId: TaskId, newDependencyId: TaskId, tasks: seq<Task>)
    returns (r: bool)
    ensures r <==> DependsTransitively(tasks, newDependencyId, taskId)
  {
    var deps := GetAllDependencies(newDependencyId, tasks);
    r := taskId in deps;
  }
}
