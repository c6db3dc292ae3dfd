/** The edges the board draws and the edits its flow view makes to the
    dependency lists: linking two tasks by a click or by dragging a
    connection, and deleting a task. */
module FlowEdits {
  import opened Options
  import opened Tasks
  import opened Reachability
  import opened DependencyGraph
  import opened CycleGuard
  import opened DependencyClosure

  /** A drawn edge: `{id, source, target}` (styling left out). */
  datatype Edge = Edge(id: string, source: TaskId, target: TaskId)

  /** The edge id `${source}-${target}`. */
  function EdgeId(source: TaskId, target: TaskId): string {
    source + "-" + target
  }

  function EdgeOf(l: Link): Edge {
    Edge(EdgeId(l.source, l.target), l.source, l.target)
  }

  /** The edges for a list of links, in the same order. */
  function Drawn(links: seq<Link>): (r: seq<Edge>)
    ensures |r| == |links|
    ensures forall i :: 0 <= i < |r| ==> r[i] == EdgeOf(links[i])
  {
    seq(|links|, i requires 0 <= i < |links| => EdgeOf(links[i]))
  }

  lemma DrawnAppend(a: seq<Link>, b: seq<Link>)
    ensures Drawn(a + b) == Drawn(a) + Drawn(b)
  {
  }

  /** The `edges` of `tasksToReactFlowElements(tasks)`: for each task, for
      each entry of its depends_on list that names a task, an edge from
      that entry to the task. */
  method ReactFlowEdges(tasks: seq<Task>) returns (edges: seq<Edge>)
    ensures edges == Drawn(Links(tasks))
  {
    edges := [];
    for i := 0 to |tasks|
      invariant edges == Drawn(LinksOf(tasks, tasks[..i]))
    {
      var task := tasks[i];
      assert tasks[..i + 1] == tasks[..i] + [task];
      LinksAppendTask(tasks, tasks[..i], task);
      DrawnAppend(LinksOf(tasks, tasks[..i]), LinksTo(tasks, Deps(task), task.id));
      edges := DrawTaskEdges(tasks, task, edges);
    }
    assert tasks[..|tasks|] == tasks;
  }

  /** The inner `task.depends_on.forEach` of the edge derivation. */
  method DrawTaskEdges(tasks: seq<Task>, task: Task, edges: seq<Edge>) returns (edgesOut: seq<Edge>)
    ensures edgesOut == edges + Drawn(LinksTo(tasks, Deps(task), task.id))
  {
    edgesOut := edges;
    if task.dependsOn.Some? && |task.dependsOn.value| > 0 {
      var deps := task.dependsOn.value;
      for j := 0 to |deps|
        invariant edgesOut == edges + Drawn(LinksTo(tasks, deps[..j], task.id))
      {
        var depId := deps[j];
        assert deps[..j + 1] == deps[..j] + [depId];
        LinksAppendDep(tasks, deps[..j], depId, task.id);
        var tail := if depId in Ids(tasks) then [Link(depId, task.id)] else [];
        DrawnAppend(LinksTo(tasks, deps[..j], task.id), tail);
        if Find(tasks, depId).Some? {
          edgesOut := edgesOut + [Edge(EdgeId(depId, task.id), depId, task.id)];
        }
      }
      assert deps[..|deps|] == deps;
    } else {
      assert LinksTo(tasks, Deps(task), task.id) == [];
    }
  }

  /** With unique ids, an edge from `a` to `b` is drawn exactly when `b`
      depends on `a` and `a` names a task. */
  lemma EdgeMeansDependency(tasks: seq<Task>, a: TaskId, b: TaskId)
    requires UniqueIds(tasks)
    ensures Edge(EdgeId(a, b), a, b) in Drawn(Links(tasks)) <==> a in DepsOf(tasks, b) && a in Ids(tasks)
  {
    LinkMeansDependency(tasks, a, b);
    var links := Links(tasks);
    if Edge(EdgeId(a, b), a, b) in Drawn(links) {
      var i :| 0 <= i < |links| && Drawn(links)[i] == Edge(EdgeId(a, b), a, b);
      assert links[i] == Link(a, b);
    }
    if Link(a, b) in links {
      var i :| 0 <= i < |links| && links[i] == Link(a, b);
      assert Drawn(links)[i] == Edge(EdgeId(a, b), a, b);
    }
  }

  // Deleting a task (`handleDeleteTask`).

  function KeepTaskFn(taskId: TaskId): Task -> bool {
    (t: Task) => t.id != taskId
  }

  function KeepEdgeFn(taskId: TaskId): Edge -> bool {
    (e: Edge) => e.source != taskId && e.target != taskId
  }

  /** `nodes.filter(node => node.id !== taskId)`. */
  function DeleteTask(tasks: seq<Task>, taskId: TaskId): (r: seq<Task>)
    ensures forall t :: t in r <==> t in tasks && t.id != taskId
  {
    Filter(KeepTaskFn(taskId), tasks)
  }

  /** `edges.filter(edge => edge.source !== taskId && edge.target !== taskId)`. */
  function DeleteEdges(edges: seq<Edge>, taskId: TaskId): (r: seq<Edge>)
    ensures forall e :: e in r <==> e in edges && e.source != taskId && e.target != taskId
  {
    Filter(KeepEdgeFn(taskId), edges)
  }

  lemma DeleteTaskIds(tasks: seq<Task>, taskId: TaskId)
    ensures Ids(DeleteTask(tasks, taskId)) == Ids(tasks) - {taskId}
  {
    var r := DeleteTask(tasks, taskId);
    forall x | x in Ids(tasks) - {taskId} ensures x in Ids(r) {
      var t :| t in tasks && t.id == x;
      assert t in r;
    }
  }

  /** The edges into a task other than the deleted one, once filtered, are
      the edges its dependency list yields among the remaining tasks. */
  lemma {:induction false} DeleteEdgesTo(all: seq<Task>, deps: seq<TaskId>, target: TaskId, taskId: TaskId)
    requires target != taskId
    ensures DeleteEdges(Drawn(LinksTo(all, deps, target)), taskId) ==
      Drawn(LinksTo(DeleteTask(all, taskId), deps, target))
  {
    if deps != [] {
      var init, last := deps[..|deps| - 1], deps[|deps| - 1];
      DeleteEdgesTo(all, init, target, taskId);
      DeleteTaskIds(all, taskId);
      var tail := if last in Ids(all) then [Link(last, target)] else [];
      DrawnAppend(LinksTo(all, init, target), tail);
      FilterAppend(KeepEdgeFn(taskId), Drawn(LinksTo(all, init, target)), Drawn(tail));
      var rest := DeleteTask(all, taskId);
      var tail' := if last in Ids(rest) then [Link(last, target)] else [];
      DrawnAppend(LinksTo(rest, init, target), tail');
      assert DeleteEdges(Drawn(tail), taskId) == Drawn(tail');
    }
  }

  /** Every edge into the deleted task goes. */
  lemma DeleteEdgesToDeleted(all: seq<Task>, deps: seq<TaskId>, taskId: TaskId)
    ensures DeleteEdges(Drawn(LinksTo(all, deps, taskId)), taskId) == []
  {
    var edges := Drawn(LinksTo(all, deps, taskId));
    LinksToMembers(all, deps, taskId);
    forall e | e in edges ensures !KeepEdgeFn(taskId)(e) {
      var i :| 0 <= i < |edges| && edges[i] == e;
      assert LinksTo(all, deps, taskId)[i] in LinksTo(all, deps, taskId);
    }
    FilterNone(KeepEdgeFn(taskId), edges);
  }

  /** Deleting a task from the list and its edges from the drawing agree
      with drawing the remaining tasks afresh, edge for edge and in order. */
  lemma {:induction false} DeleteMatchesRedraw(all: seq<Task>, prefix: seq<Task>, taskId: TaskId)
    ensures DeleteEdges(Drawn(LinksOf(all, prefix)), taskId) ==
      Drawn(LinksOf(DeleteTask(all, taskId), DeleteTask(prefix, taskId)))
  {
    if prefix != [] {
      var init, last := prefix[..|prefix| - 1], prefix[|prefix| - 1];
      assert prefix == init + [last];
      DeleteMatchesRedraw(all, init, taskId);
      DeleteRedrawStep(all, init, last, taskId);
    }
  }

  /** The induction step of `DeleteMatchesRedraw`: one more task's edges. */
  lemma DeleteRedrawStep(all: seq<Task>, init: seq<Task>, last: Task, taskId: TaskId)
    requires DeleteEdges(Drawn(LinksOf(all, init)), taskId) ==
      Drawn(LinksOf(DeleteTask(all, taskId), DeleteTask(init, taskId)))
    ensures DeleteEdges(Drawn(LinksOf(all, init + [last])), taskId) ==
      Drawn(LinksOf(DeleteTask(all, taskId), DeleteTask(init + [last], taskId)))
  {
    var rest := DeleteTask(all, taskId);
    var own := LinksTo(all, Deps(last), last.id);
    LinksAppendTask(all, init, last);
    DrawnAppend(LinksOf(all, init), own);
    FilterAppend(KeepEdgeFn(taskId), Drawn(LinksOf(all, init)), Drawn(own));
    FilterAppend(KeepTaskFn(taskId), init, [last]);
    assert DeleteEdges(Drawn(LinksOf(all, init + [last])), taskId) ==
      Drawn(LinksOf(rest, DeleteTask(init, taskId))) + DeleteEdges(Drawn(own), taskId);
    if last.id == taskId {
      DeleteEdgesToDeleted(all, Deps(last), taskId);
      assert DeleteTask(init + [last], taskId) == DeleteTask(init, taskId);
    } else {
      DeleteEdgesTo(all, Deps(last), last.id, taskId);
      assert DeleteTask(init + [last], taskId) == DeleteTask(init, taskId) + [last];
      LinksAppendTask(rest, DeleteTask(init, taskId), last);
      DrawnAppend(LinksOf(rest, DeleteTask(init, taskId)), LinksTo(rest, Deps(last), last.id));
    }
  }

  /** `handleDeleteTask(taskId)` keeps the drawing consistent: the edges
      left are exactly those of the remaining tasks. */
  lemma DeleteKeepsEdgesConsistent(tasks: seq<Task>, taskId: TaskId)
    ensures DeleteEdges(Drawn(Links(tasks)), taskId) == Drawn(Links(DeleteTask(tasks, taskId)))
  {
    DeleteMatchesRedraw(tasks, tasks, taskId);
  }

  // Adding a dependency (`handleTaskClick`, `handleConnect`).

  /** `{...task, depends_on: [...(task.depends_on || []), dep]}`. */
  function WithDependency(t: Task, dep: TaskId): (r: Task)
    ensures r.id == t.id && Deps(r) == Deps(t) + [dep]
    ensures r.(dependsOn := t.dependsOn) == t
  {
    t.(dependsOn := Some(Deps(t) + [dep]))
  }

  /** `nodes.map(node => node.id === target ? {...node, data: u} : node)`. */
  function Replace(nodes: seq<Task>, target: TaskId, u: Task): (r: seq<Task>)
    ensures |r| == |nodes|
  {
    seq(|nodes|, i requires 0 <= i < |nodes| => if nodes[i].id == target then u else nodes[i])
  }

  /** After replacing, the list holds the nodes with other ids and, when
      some node had the target id, the replacement; nothing else. */
  lemma ReplaceMembers(nodes: seq<Task>, target: TaskId, u: Task)
    ensures forall t :: t in Replace(nodes, target, u) <==> (t in nodes && t.id != target) || (t == u && target in Ids(nodes))
  {
    var r := Replace(nodes, target, u);
    forall t | t in r ensures (t in nodes && t.id != target) || (t == u && target in Ids(nodes)) {
      var i :| 0 <= i < |r| && r[i] == t;
      assert nodes[i] in nodes;
    }
    forall t | (t in nodes && t.id != target) || (t == u && target in Ids(nodes)) ensures t in r {
      var i :| 0 <= i < |nodes| && (if t == u && target in Ids(nodes) then nodes[i].id == target else nodes[i] == t);
      assert r[i] in r;
    }
  }

  /** The node list after making `target` depend on `source`: every node
      with the target's id gets the data of the first such node, extended
      by `source`. */
  function WithLink(nodes: seq<Task>, target: TaskId, source: TaskId): (r: seq<Task>)
    requires target in Ids(nodes)
    ensures |r| == |nodes|
    ensures Ids(r) == Ids(nodes)
    ensures UniqueIds(nodes) ==> UniqueIds(r)
  {
    var u := WithDependency(Find(nodes, target).value, source);
    ReplaceIds(nodes, target, u);
    Replace(nodes, target, u)
  }

  /** Replacing keeps every id at its place, so lookups change only for the
      replaced id. */
  lemma {:induction false} FindReplace(nodes: seq<Task>, target: TaskId, u: Task, y: TaskId)
    requires u.id == target
    ensures Find(Replace(nodes, target, u), y) == if y == target && target in Ids(nodes) then Some(u) else Find(nodes, y)
    ensures forall i :: 0 <= i < |nodes| ==> Replace(nodes, target, u)[i].id == nodes[i].id
  {
    if nodes != [] {
      ReplaceTail(nodes, target, u);
      FindReplace(nodes[1..], target, u, y);
      assert Ids(nodes) == {nodes[0].id} + Ids(nodes[1..]);
    }
  }

  lemma ReplaceTail(nodes: seq<Task>, target: TaskId, u: Task)
    requires nodes != []
    ensures Replace(nodes, target, u)[1..] == Replace(nodes[1..], target, u)
  {
  }

  lemma ReplaceIds(nodes: seq<Task>, target: TaskId, u: Task)
    requires u.id == target
    ensures Ids(Replace(nodes, target, u)) == Ids(nodes)
    ensures UniqueIds(nodes) ==> UniqueIds(Replace(nodes, target, u))
  {
    var r := Replace(nodes, target, u);
    FindReplace(nodes, target, u, target);
    forall x | x in Ids(nodes) ensures x in Ids(r) {
      var i :| 0 <= i < |nodes| && nodes[i].id == x;
      assert r[i] in r;
    }
    forall x | x in Ids(r) ensures x in Ids(nodes) {
      var i :| 0 <= i < |r| && r[i].id == x;
      assert nodes[i] in nodes;
    }
  }

  /** Linking changes one dependency list: the target's gains `source` at
      the end, and every other id keeps its list. */
  lemma DepsOfLinked(nodes: seq<Task>, target: TaskId, source: TaskId, y: TaskId)
    requires target in Ids(nodes)
    ensures DepsOf(WithLink(nodes, target, source), y) ==
      if y == target then DepsOf(nodes, target) + [source] else DepsOf(nodes, y)
  {
    FindReplace(nodes, target, WithDependency(Find(nodes, target).value, source), y);
  }

  /** One step after linking is an old step or the new one. */
  lemma LinkedStep(nodes: seq<Task>, target: TaskId, source: TaskId, y: TaskId, z: TaskId)
    requires target in Ids(nodes) && z in DepsOf(WithLink(nodes, target, source), y)
    ensures z in DepsOf(nodes, y) || (y == target && z == source)
  {
    DepsOfLinked(nodes, target, source, y);
  }

  /** Every old walk is still a walk after linking. */
  lemma OldPathStays(nodes: seq<Task>, target: TaskId, source: TaskId, p: seq<TaskId>)
    requires target in Ids(nodes) && IsPath(nodes, p)
    ensures IsPath(WithLink(nodes, target, source), p)
  {
    forall i | 0 <= i < |p| - 1 ensures p[i + 1] in DepsOf(WithLink(nodes, target, source), p[i]) {
      DepsOfLinked(nodes, target, source, p[i]);
    }
  }

  /** While `target` is not reachable from `source`, a walk of one or more
      steps after linking is an old one, or it crosses the new step once:
      old walks lead from its start to `target` and from `source` to its
      end. */
  lemma {:induction false} NewPathFacts(nodes: seq<Task>, target: TaskId, source: TaskId, p: seq<TaskId>)
    requires target in Ids(nodes) && !Reaches(nodes, source, target)
    requires IsPath(WithLink(nodes, target, source), p) && |p| >= 2
    ensures DependsTransitively(nodes, p[0], p[|p| - 1]) ||
      (Reaches(nodes, p[0], target) && Reaches(nodes, source, p[|p| - 1]))
    decreases |p|
  {
    var linked := WithLink(nodes, target, source);
    var y, z := p[|p| - 2], p[|p| - 1];
    assert z in DepsOf(linked, y);
    LinkedStep(nodes, target, source, y, z);
    if |p| == 2 {
      NewPathExtend(nodes, target, source, y, y, z);
    } else {
      var q := p[..|p| - 1];
      assert |q| == |p| - 1 && q[0] == p[0] && q[|q| - 1] == y;
      PathSlice(linked, p, 0, |p| - 1);
      NewPathFacts(nodes, target, source, q);
      NewPathExtend(nodes, target, source, p[0], y, z);
    }
  }

  /** One more step, old or new, keeps the shape `NewPathFacts` states for
      walks that reach `y` (or start there). */
  lemma NewPathExtend(nodes: seq<Task>, target: TaskId, source: TaskId, a: TaskId, y: TaskId, z: TaskId)
    requires !Reaches(nodes, source, target)
    requires DependsTransitively(nodes, a, y) || (Reaches(nodes, a, target) && Reaches(nodes, source, y)) || a == y
    requires z in DepsOf(nodes, y) || (y == target && z == source)
    ensures DependsTransitively(nodes, a, z) || (Reaches(nodes, a, target) && Reaches(nodes, source, z))
  {
    if z in DepsOf(nodes, y) {
      if a == y {
        StepDepends(nodes, y, z);
      } else if DependsTransitively(nodes, a, y) {
        DependsThenStep(nodes, a, y, z);
      } else {
        StepDepends(nodes, y, z);
        DependsImpliesReaches(nodes, y, z);
        ReachesTrans(nodes, source, y, z);
      }
    } else {
      ReachesRefl(nodes, source);
      if a == y {
        ReachesRefl(nodes, a);
      } else if DependsTransitively(nodes, a, y) {
        DependsImpliesReaches(nodes, a, y);
      }
    }
  }

  /** Making `target` depend on `source` keeps an acyclic list acyclic
      exactly when `target` is not reachable from `source`: this is the
      question `checkForCircularDependency(target, source, tasks)`
      answers. */
  lemma LinkAcyclicIff(nodes: seq<Task>, target: TaskId, source: TaskId)
    requires Acyclic(nodes) && target in Ids(nodes)
    ensures Acyclic(WithLink(nodes, target, source)) <==> !Reaches(nodes, source, target)
  {
    if Reaches(nodes, source, target) {
      LinkClosesCycle(nodes, target, source);
    } else {
      forall x ensures !OnCycle(WithLink(nodes, target, source), x) {
        NoNewCycle(nodes, target, source, x);
      }
    }
  }

  /** Without a walk from `source` to `target`, linking puts no id of an
      acyclic list on a cycle. */
  lemma NoNewCycle(nodes: seq<Task>, target: TaskId, source: TaskId, x: TaskId)
    requires Acyclic(nodes) && target in Ids(nodes) && !Reaches(nodes, source, target)
    ensures !OnCycle(WithLink(nodes, target, source), x)
  {
    var linked := WithLink(nodes, target, source);
    if OnCycle(linked, x) {
      var p :| IsPath(linked, p) && |p| >= 2 && p[0] == x && p[|p| - 1] == x;
      NewPathFacts(nodes, target, source, p);
      assert !OnCycle(nodes, x);
      ReachesTrans(nodes, source, x, target);
    }
  }

  /** Linking when `target` is reachable from `source` puts `target` on a
      cycle, whatever the list. */
  lemma LinkClosesCycle(nodes: seq<Task>, target: TaskId, source: TaskId)
    requires target in Ids(nodes) && Reaches(nodes, source, target)
    ensures OnCycle(WithLink(nodes, target, source), target)
  {
    var linked := WithLink(nodes, target, source);
    var q :| IsPath(nodes, q) && q[0] == source && q[|q| - 1] == target;
    OldPathStays(nodes, target, source, q);
    DepsOfLinked(nodes, target, source, target);
    assert source in DepsOf(linked, target);
    StepThenReaches(linked, target, source, target);
  }

  /** With unique ids, linking adds exactly the edge from `source` to
      `target` (when `source` names a task) and keeps every other edge. */
  lemma LinkAddsEdge(nodes: seq<Task>, target: TaskId, source: TaskId, a: TaskId, b: TaskId)
    requires UniqueIds(nodes) && target in Ids(nodes)
    ensures Link(a, b) in Links(WithLink(nodes, target, source)) <==>
      Link(a, b) in Links(nodes) || (a == source && b == target && source in Ids(nodes))
  {
    var u := WithDependency(Find(nodes, target).value, source);
    ReplaceIds(nodes, target, u);
    LinkMeansDependency(nodes, a, b);
    LinkMeansDependency(WithLink(nodes, target, source), a, b);
    DepsOfLinked(nodes, target, source, b);
  }

  /** What a click on a task did. */
  datatype ClickOutcome = Ignored | MissingTask | CycleRejected | Linked

  /** The click completes a connection: connecting mode is on, a (non-empty)
      start node is recorded, and the click is on another node. */
  predicate Armed(isConnecting: bool, connecting: Option<TaskId>, taskId: TaskId) {
    isConnecting && connecting.Some? && connecting.value != "" && connecting.value != taskId
  }

  /** `handleTaskClick(taskId)` on node data `nodes`, with the guard run on
      the task list `initialTasks` the view was given. A completed
      connection makes the clicked task depend on the recorded one unless
      that would close a cycle; connecting mode ends either way. When the
      view's data is the list it was given, an acyclic list stays
      acyclic. */
  method HandleTaskClick(nodes: seq<Task>, initialTasks: seq<Task>, isConnecting: bool,
                         connecting: Option<TaskId>, taskId: TaskId)
    returns (nodesOut: seq<Task>, isConnectingOut: bool, connectingOut: Option<TaskId>, outcome: ClickOutcome)
    ensures !Armed(isConnecting, connecting, taskId) ==>
      outcome == Ignored && nodesOut == nodes && isConnectingOut == isConnecting && connectingOut == connecting
    ensures Armed(isConnecting, connecting, taskId) ==> !isConnectingOut && connectingOut == None
    ensures (Armed(isConnecting, connecting, taskId) && connecting.value in Ids(nodes) && taskId in Ids(nodes) &&
      !Reaches(initialTasks, connecting.value, taskId)) ==> outcome == Linked
    ensures Armed(isConnecting, connecting, taskId) ==>
      (outcome == MissingTask <==> connecting.value !in Ids(nodes) || taskId !in Ids(nodes))
    ensures outcome == CycleRejected <==> (Armed(isConnecting, connecting, taskId) &&
      connecting.value in Ids(nodes) && taskId in Ids(nodes) && Reaches(initialTasks, connecting.value, taskId))
    ensures outcome == Linked ==> taskId in Ids(nodes) && nodesOut == WithLink(nodes, taskId, connecting.value)
    ensures outcome != Linked ==> nodesOut == nodes
    ensures nodes == initialTasks && Acyclic(nodes) ==> Acyclic(nodesOut)
  {
    nodesOut, isConnectingOut, connectingOut, outcome := nodes, isConnecting, connecting, Ignored;
    if isConnecting && connecting.Some? && connecting.value != "" && connecting.value != taskId {
      var source := connecting.value;
      var sourceTask := Find(nodes, source);
      var targetTask := Find(nodes, taskId);
      if sourceTask.Some? && targetTask.Some? {
        var wouldCreateCycle := CheckForCircularDependency(taskId, source, initialTasks);
        if wouldCreateCycle {
          outcome := CycleRejected;
        } else {
          var updatedTargetTask := WithDependency(targetTask.value, source);
          nodesOut := Replace(nodes, taskId, updatedTargetTask);
          outcome := Linked;
          if nodes == initialTasks && Acyclic(nodes) {
            LinkAcyclicIff(nodes, taskId, source);
          }
        }
      } else {
        outcome := MissingTask;
      }
      isConnectingOut, connectingOut := false, None;
    }
  }

  /** `handleConnect({source, target})`: the target, when it is a node,
      gets `source` appended to its dependencies, with no cycle check. */
  function Connect(nodes: seq<Task>, source: TaskId, target: TaskId): (r: seq<Task>)
    ensures Ids(r) == Ids(nodes)
    ensures forall y :: (DepsOf(r, y) ==
      if y == target && target in Ids(nodes) then DepsOf(nodes, target) + [source] else DepsOf(nodes, y))
  {
    if target in Ids(nodes) then
      var u := WithDependency(Find(nodes, target).value, source);
      ReplaceIds(nodes, target, u);
      DepsOfLinkedAll(nodes, target, source);
      WithLink(nodes, target, source)
    else nodes
  }

  lemma DepsOfLinkedAll(nodes: seq<Task>, target: TaskId, source: TaskId)
    requires target in Ids(nodes)
    ensures forall y :: (DepsOf(WithLink(nodes, target, source), y) ==
      if y == target then DepsOf(nodes, target) + [source] else DepsOf(nodes, y))
  {
    forall y ensures DepsOf(WithLink(nodes, target, source), y) ==
      if y == target then DepsOf(nodes, target) + [source] else DepsOf(nodes, y)
    {
      DepsOfLinked(nodes, target, source, y);
    }
  }

  /** Without the check, connecting a task to one of its own (transitive)
      dependencies closes a cycle. */
  lemma ConnectCanCloseCycle(nodes: seq<Task>, source: TaskId, target: TaskId)
    requires target in Ids(nodes) && Reaches(nodes, source, target)
    ensures !Acyclic(Connect(nodes, source, target))
  {
    LinkClosesCycle(nodes, target, source);
  }

  /** The smallest such case: `a` depends on `b`, and a connection dragged
      from `a` to `b` makes `b` depend on `a`. */
  lemma ConnectCycleExample()
    ensures var a := Task("a", "A", "", TODO, None, None, Some(["b"]));
      var b := Task("b", "B", "", TODO, None, None, None);
      Acyclic([a, b]) && !Acyclic(Connect([a, b], "a", "b"))
  {
    var a := Task("a", "A", "", TODO, None, None, Some(["b"]));
    var b := Task("b", "B", "", TODO, None, None, None);
    var nodes := [a, b];
    assert DepsOf(nodes, "a") == ["b"] && DepsOf(nodes, "b") == [];
    forall x ensures !OnCycle(nodes, x) {
      if OnCycle(nodes, x) {
        var c := DependsFirstStep(nodes, x, x);
        DeadEndReaches(nodes, c, x);
        assert false;
      }
    }
    assert "b" in Ids(nodes);
    assert IsPath(nodes, ["a", "b"]);
    ConnectCanCloseCycle(nodes, "a", "b");
  }

  /** `handleConnect` with the guard `handleTaskClick` applies: the link is
      refused when it would close a cycle, so an acyclic list stays
      acyclic. */
  method GuardedConnect(nodes: seq<Task>, source: TaskId, target: TaskId)
    returns (nodesOut: seq<Task>, rejected: bool)
    ensures rejected <==> target in Ids(nodes) && Reaches(nodes, source, target)
    ensures !rejected ==> nodesOut == Connect(nodes, source, target)
    ensures rejected ==> nodesOut == nodes
    ensures Acyclic(nodes) ==> Acyclic(nodesOut)
  {
    nodesOut, rejected := nodes, false;
    if Find(nodes, target).Some? {
      rejected := CheckForCircularDependency(target, source, nodes);
      if !rejected {
        nodesOut := Connect(nodes, source, target);
        if Acyclic(nodes) {
          LinkAcyclicIff(nodes, target, source);
        }
      }
    }
  }

  // The self-dependency gap of `hasCircularDependency`.

  /** `hasCircularDependency(x, x, tasks)` asks whether `x` already lies on
      a cycle, so for a task without dependencies it answers "no cycle",
      although making the task depend on itself creates one. */
  lemma SelfDependencyMissed(x: TaskId)
    ensures var tasks := [Task(x, "", "", TODO, None, None, None)];
      !DependsTransitively(tasks, x, x) && !Acyclic(WithLink(tasks, x, x))
  {
    var tasks := [Task(x, "", "", TODO, None, None, None)];
    assert DepsOf(tasks, x) == [];
    DeadEndReaches(tasks, x, x);
    assert x in Ids(tasks);
    ReachesRefl(tasks, x);
    LinkClosesCycle(tasks, x, x);
  }

  /** The cycle test `hasCircularDependency` evidently means: a self
      dependency counts as a cycle, and otherwise the transitive test
      decides. On an acyclic list it answers exactly whether the new
      dependency would create a cycle. */
  method WouldCreateCycle(taskId: TaskId, newDependencyId: TaskId, tasks: seq<Task>) returns (r: bool)
    ensures r <==> Reaches(tasks, newDependencyId, taskId)
    ensures Acyclic(tasks) && taskId in Ids(tasks) ==> (r <==> !Acyclic(WithLink(tasks, taskId, newDependencyId)))
  {
    ReachesIff(tasks, newDependencyId, taskId);
    if newDependencyId == taskId {
      r := true;
    } else {
      r := HasCircularDependency(taskId, newDependencyId, tasks);
    }
    if Acyclic(tasks) && taskId in Ids(tasks) {
      LinkAcyclicIff(tasks, taskId, newDependencyId);
    }
  }
}
