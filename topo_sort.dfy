/** `sortTasksByDependencies`: a depth-first post-order over the task list
    with a `visiting` set (the ids on the current search stack) and a
    `visited` set (the ids finished), pushing each found task once it is
    finished. */
module TopoSort {
  import opened Options
  import opened Tasks
  import opened Reachability

  /** Every listed dependency that names a task comes earlier in `sorted`
      than its dependent. */
  ghost predicate DepsFirst(tasks: seq<Task>, sorted: seq<Task>) {
    forall i, d :: 0 <= i < |sorted| && d in Deps(sorted[i]) && d in Ids(tasks) ==> d in Ids(sorted[..i])
  }

  /** What the search state keeps: each pushed task is the one `find`
      returns for its id, no id is pushed twice, the finished ids that name
      a task are exactly the pushed ids, no id is both on the stack and
      finished, and on acyclic input dependencies are pushed first. */
  ghost predicate Inv(tasks: seq<Task>, visiting: set<TaskId>, visited: set<TaskId>, sorted: seq<Task>) {
    (forall i :: 0 <= i < |sorted| ==> Find(tasks, sorted[i].id) == Some(sorted[i])) &&
    UniqueIds(sorted) &&
    (forall x :: x in visited && x in Ids(tasks) <==> x in Ids(sorted)) &&
    visiting !! visited &&
    (Acyclic(tasks) ==> DepsFirst(tasks, sorted))
  }

  /** One more step after a walk is a walk. */
  lemma ReachesStep(tasks: seq<Task>, x: TaskId, a: TaskId, b: TaskId)
    requires Reaches(tasks, x, a) && b in DepsOf(tasks, a)
    ensures Reaches(tasks, x, b)
  {
    StepDepends(tasks, a, b);
    DependsImpliesReaches(tasks, a, b);
    ReachesTrans(tasks, x, a, b);
  }

  /** Pushing a finished task whose known dependencies are all pushed keeps
      the state invariant. */
  lemma PushKeeps(tasks: seq<Task>, visiting: set<TaskId>, visited: set<TaskId>, sorted: seq<Task>, task: Task)
    requires Inv(tasks, visiting + {task.id}, visited, sorted) && task.id !in visiting
    requires Find(tasks, task.id) == Some(task)
    requires Acyclic(tasks) ==> forall d :: d in Deps(task) ==> d in visited
    ensures Inv(tasks, visiting, visited + {task.id}, sorted + [task])
  {
    var s := sorted + [task];
    assert task.id !in Ids(sorted);
    assert forall i :: 0 <= i < |sorted| ==> s[i] == sorted[i];
    assert Ids(s) == Ids(sorted) + {task.id};
    if Acyclic(tasks) {
      forall i, d | 0 <= i < |s| && d in Deps(s[i]) && d in Ids(tasks)
        ensures d in Ids(s[..i])
      {
        if i < |sorted| {
          assert s[..i] == sorted[..i];
        } else {
          assert s[..i] == sorted;
        }
      }
    }
  }

  /** Finishing an id that names no task keeps the state invariant. */
  lemma FinishUnknownKeeps(tasks: seq<Task>, visiting: set<TaskId>, visited: set<TaskId>, sorted: seq<Task>, x: TaskId)
    requires Inv(tasks, visiting, visited, sorted) && x !in visiting && x !in Ids(tasks)
    ensures Inv(tasks, visiting, visited + {x}, sorted)
  {
  }

  /** The inner `visit(taskId)`. It leaves the stack as it found it, only
      adds finished ids, only appends to `sorted`, and finishes `taskId`
      unless `taskId` was already on the stack. */
  method Visit(taskId: TaskId, tasks: seq<Task>, visiting: set<TaskId>, visited: set<TaskId>, sorted: seq<Task>)
    returns (visitingOut: set<TaskId>, visitedOut: set<TaskId>, sortedOut: seq<Task>)
    requires Inv(tasks, visiting, visited, sorted)
    requires forall x :: x in visiting ==> Reaches(tasks, x, taskId)
    ensures Inv(tasks, visitingOut, visitedOut, sortedOut)
    ensures visitingOut == visiting && visited <= visitedOut && sorted <= sortedOut
    ensures taskId in visitedOut || taskId in visiting
    decreases |Ids(tasks) - visiting|, 2
  {
    if taskId in visited {
      return visiting, visited, sorted;
    }
    if taskId in visiting {
      return visiting, visited, sorted;
    }
    var task := Find(tasks, taskId);
    visitingOut, visitedOut, sortedOut := visiting + {taskId}, visited, sorted;
    if task.Some? && task.value.dependsOn.Some? {
      visitingOut, visitedOut, sortedOut := VisitDeps(taskId, task.value.dependsOn.value, tasks, visiting, visited, sorted);
    }
    visitingOut := visitingOut - {taskId};
    assert visitingOut == visiting;
    if task.Some? {
      PushKeeps(tasks, visiting, visitedOut, sortedOut, task.value);
      visitedOut := visitedOut + {taskId};
      sortedOut := sortedOut + [task.value];
    } else {
      FinishUnknownKeeps(tasks, visiting, visitedOut, sortedOut, taskId);
      visitedOut := visitedOut + {taskId};
    }
  }

  /** `task.depends_on.forEach(depId => visit(depId))` with `current` on
      the stack. On acyclic input every dependency ends up finished: one
      still on the stack would close a cycle through `current`. */
  method VisitDeps(current: TaskId, direct: seq<TaskId>, tasks: seq<Task>,
                   visiting: set<TaskId>, visited: set<TaskId>, sorted: seq<Task>)
    returns (visitingOut: set<TaskId>, visitedOut: set<TaskId>, sortedOut: seq<Task>)
    requires Inv(tasks, visiting, visited, sorted)
    requires current in Ids(tasks) && current !in visiting && current !in visited
    requires direct == DepsOf(tasks, current)
    requires forall x :: x in visiting ==> Reaches(tasks, x, current)
    ensures Inv(tasks, visitingOut, visitedOut, sortedOut)
    ensures visitingOut == visiting + {current} && visited <= visitedOut && sorted <= sortedOut
    ensures Acyclic(tasks) ==> forall d :: d in direct ==> d in visitedOut
    decreases |Ids(tasks) - visiting|, 1
  {
    visitingOut, visitedOut, sortedOut := visiting + {current}, visited, sorted;
    var k := 0;
    while k < |direct|
      invariant 0 <= k <= |direct|
      invariant Inv(tasks, visitingOut, visitedOut, sortedOut)
      invariant visitingOut == visiting + {current} && visited <= visitedOut && sorted <= sortedOut
      invariant forall i :: 0 <= i < k ==> direct[i] in visitedOut || direct[i] in visitingOut
    {
      ghost var before := visitedOut;
      visitedOut, sortedOut := VisitChild(current, direct[k], tasks, visiting, visitedOut, sortedOut);
      forall i | 0 <= i < k + 1 ensures direct[i] in visitedOut || direct[i] in visitingOut {
        if i < k {
          assert direct[i] in before || direct[i] in visitingOut;
        }
      }
      k := k + 1;
    }
    if Acyclic(tasks) {
      forall d | d in direct ensures d in visitedOut {
        if d !in visitedOut {
          OnStackMeansCycle(tasks, visiting, current, d);
        }
      }
    }
  }

  /** One `visit(depId)` of the loop above, with `current` added to the
      stack. */
  method VisitChild(current: TaskId, d: TaskId, tasks: seq<Task>,
                    visiting: set<TaskId>, visited: set<TaskId>, sorted: seq<Task>)
    returns (visitedOut: set<TaskId>, sortedOut: seq<Task>)
    requires Inv(tasks, visiting + {current}, visited, sorted)
    requires current in Ids(tasks) && current !in visiting && d in DepsOf(tasks, current)
    requires forall x :: x in visiting ==> Reaches(tasks, x, current)
    ensures Inv(tasks, visiting + {current}, visitedOut, sortedOut)
    ensures visited <= visitedOut && sorted <= sortedOut
    ensures d in visitedOut || d in visiting + {current}
    decreases |Ids(tasks) - visiting|, 0
  {
    forall x | x in visiting + {current} ensures Reaches(tasks, x, d) {
      if x == current {
        ReachesRefl(tasks, current);
      }
      ReachesStep(tasks, x, current, d);
    }
    RemainingShrinks(Ids(tasks), visiting, visiting + {current}, current);
    var visitingOut;
    visitingOut, visitedOut, sortedOut := Visit(d, tasks, visiting + {current}, visited, sorted);
  }

  /** A dependency of `current` that is on the stack (or is `current`)
      reaches `current`, so `current` lies on a cycle. */
  lemma OnStackMeansCycle(tasks: seq<Task>, visiting: set<TaskId>, current: TaskId, d: TaskId)
    requires d in DepsOf(tasks, current) && d in visiting + {current}
    requires forall x :: x in visiting ==> Reaches(tasks, x, current)
    ensures !Acyclic(tasks)
  {
    if d == current {
      ReachesRefl(tasks, current);
    }
    assert Reaches(tasks, d, current);
    StepThenReaches(tasks, current, d, current);
    assert OnCycle(tasks, current);
  }

  /** `sortTasksByDependencies(tasks)`. It terminates on every input; its
      result repeats no id, draws every task from the list and covers
      every id of the list; on acyclic input every listed dependency comes
      before its dependent, and with unique ids it is a permutation. */
  method SortTasksByDependencies(tasks: seq<Task>) returns (sorted: seq<Task>)
    ensures forall t :: t in sorted ==> t in tasks
    ensures UniqueIds(sorted)
    ensures Ids(sorted) == Ids(tasks)
    ensures Acyclic(tasks) ==> DepsFirst(tasks, sorted)
    ensures UniqueIds(tasks) ==> multiset(sorted) == multiset(tasks)
  {
    var visiting: set<TaskId> := {};
    var visited: set<TaskId> := {};
    sorted := [];
    for i := 0 to |tasks|
      invariant Inv(tasks, visiting, visited, sorted) && visiting == {}
      invariant forall k :: 0 <= k < i ==> tasks[k].id in visited
    {
      visiting, visited, sorted := Visit(tasks[i].id, tasks, visiting, visited, sorted);
    }
    assert forall t :: t in sorted ==> t in tasks by {
      forall t | t in sorted ensures t in tasks {
        var i :| 0 <= i < |sorted| && sorted[i] == t;
        assert Find(tasks, t.id) == Some(t);
      }
    }
    assert Ids(tasks) <= Ids(sorted) by {
      forall x | x in Ids(tasks) ensures x in Ids(sorted) {
        var t :| t in tasks && t.id == x;
        var k :| 0 <= k < |tasks| && tasks[k] == t;
        assert x in visited;
      }
    }
    if UniqueIds(tasks) {
      SortedIsPermutation(tasks, sorted);
    }
  }

  /** With unique ids, a list of found tasks repeating no id and covering
      every id is a permutation of the task list. */
  lemma SortedIsPermutation(tasks: seq<Task>, sorted: seq<Task>)
    requires UniqueIds(tasks) && UniqueIds(sorted) && Ids(sorted) == Ids(tasks)
    requires forall i :: 0 <= i < |sorted| ==> Find(tasks, sorted[i].id) == Some(sorted[i])
    ensures multiset(sorted) == multiset(tasks)
  {
    forall t | t in tasks ensures t in sorted {
      assert t.id in Ids(sorted);
      var s :| s in sorted && s.id == t.id;
      var i :| 0 <= i < |sorted| && sorted[i] == s;
      FindOwnId(tasks, t);
    }
    forall t | t in sorted ensures t in tasks {
      var i :| 0 <= i < |sorted| && sorted[i] == t;
    }
    UniqueIdsNoDup(tasks);
    UniqueIdsNoDup(sorted);
    NoDupMultiset(tasks);
    NoDupMultiset(sorted);
    assert forall t :: multiset(sorted)[t] == multiset(tasks)[t];
  }

  lemma UniqueIdsNoDup(s: seq<Task>)
    requires UniqueIds(s)
    ensures NoDup(s)
  {
  }

  /** In a list without repeats every element occurs once. */
  lemma {:induction false} NoDupMultiset<T>(s: seq<T>)
    requires NoDup(s)
    ensures forall x :: multiset(s)[x] == if x in s then 1 else 0
  {
    if s != [] {
      var tail := s[1..];
      assert s == [s[0]] + tail;
      assert NoDup(tail) by {
        forall i, j | 0 <= i < j < |tail| ensures tail[i] != tail[j] {
          assert tail[i] == s[i + 1] && tail[j] == s[j + 1];
        }
      }
      assert s[0] !in tail by {
        forall j | 0 <= j < |tail| ensures tail[j] != s[0] {
          assert tail[j] == s[j + 1];
        }
      }
      NoDupMultiset(tail);
      assert multiset(s) == multiset{s[0]} + multiset(tail);
    }
  }
}
