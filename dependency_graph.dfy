/** The dependency edges of a task list, read off the `depends_on` lists:
    an edge runs from the dependency (`source`) to the task that depends on
    it (`target`), and only dependencies that name a task of the list
    count. The adjacency lists and in-degrees of `buildDependencyGraph`
    and the edges that `tasksToReactFlowElements` draws are both this
    list. */
module DependencyGraph {
  import opened Options
  import opened Tasks

  datatype Link = Link(source: TaskId, target: TaskId)

  /** The links from the entries of `deps` that name a task of `all` to
      `target`, in the order of `deps`. */
  function LinksTo(all: seq<Task>, deps: seq<TaskId>, target: TaskId): (r: seq<Link>)
    ensures |r| <= |deps|
  {
    if deps == [] then []
    else
      var last := deps[|deps| - 1];
      LinksTo(all, deps[..|deps| - 1], target) + (if last in Ids(all) then [Link(last, target)] else [])
  }

  lemma {:induction false} LinksToMembers(all: seq<Task>, deps: seq<TaskId>, target: TaskId)
    ensures forall l :: l in LinksTo(all, deps, target) <==>
      l.target == target && l.source in deps && l.source in Ids(all)
  {
    if deps != [] {
      LinksToMembers(all, deps[..|deps| - 1], target);
      assert deps == deps[..|deps| - 1] + [deps[|deps| - 1]];
    }
  }

  /** The links of the tasks of `prefix`, task by task and, within a task,
      in the order of its depends_on list. */
  function LinksOf(all: seq<Task>, prefix: seq<Task>): seq<Link> {
    if prefix == [] then []
    else
      var last := prefix[|prefix| - 1];
      LinksOf(all, prefix[..|prefix| - 1]) + LinksTo(all, Deps(last), last.id)
  }

  /** A link is listed exactly when some task of the prefix has its source
      among its dependencies and the source names a task. */
  lemma {:induction false} LinksOfMembers(all: seq<Task>, prefix: seq<Task>)
    ensures forall l :: l in LinksOf(all, prefix) <==>
      exists t :: t in prefix && l.target == t.id && l.source in Deps(t) && l.source in Ids(all)
  {
    if prefix != [] {
      var init, last := prefix[..|prefix| - 1], prefix[|prefix| - 1];
      LinksOfMembers(all, init);
      LinksToMembers(all, Deps(last), last.id);
      assert prefix == init + [last];
    }
  }

  /** Every dependency edge of the task list. */
  function Links(tasks: seq<Task>): seq<Link> {
    LinksOf(tasks, tasks)
  }

  /** With unique ids, `b` has an edge from `a` exactly when `a` is a
      dependency of `b` that names a task. */
  lemma LinkMeansDependency(tasks: seq<Task>, a: TaskId, b: TaskId)
    requires UniqueIds(tasks)
    ensures Link(a, b) in Links(tasks) <==> a in DepsOf(tasks, b) && a in Ids(tasks)
  {
    LinksOfMembers(tasks, tasks);
    if Link(a, b) in Links(tasks) {
      var t :| t in tasks && b == t.id && a in Deps(t) && a in Ids(tasks);
      FindOwnId(tasks, t);
    }
    if a in DepsOf(tasks, b) {
      var t := Find(tasks, b).value;
    }
  }

  /** The dependents of `a` in link order: `graph.get(a)`. */
  function Targets(links: seq<Link>, a: TaskId): (r: seq<TaskId>)
    ensures |r| <= |links|
  {
    if links == [] then []
    else
      var last := links[|links| - 1];
      Targets(links[..|links| - 1], a) + (if last.source == a then [last.target] else [])
  }

  lemma {:induction false} TargetsMembers(links: seq<Link>, a: TaskId)
    ensures forall b :: b in Targets(links, a) <==> Link(a, b) in links
  {
    if links != [] {
      TargetsMembers(links[..|links| - 1], a);
      assert links == links[..|links| - 1] + [links[|links| - 1]];
    }
  }

  /** The number of links into `b`: `inDegree.get(b)`. */
  function InCount(links: seq<Link>, b: TaskId): (n: nat)
    ensures n <= |links|
  {
    if links == [] then 0
    else
      var last := links[|links| - 1];
      InCount(links[..|links| - 1], b) + (if last.target == b then 1 else 0)
  }

  lemma {:induction false} InCountZero(links: seq<Link>, b: TaskId)
    ensures InCount(links, b) == 0 <==> forall l :: l in links ==> l.target != b
  {
    if links != [] {
      InCountZero(links[..|links| - 1], b);
      assert links == links[..|links| - 1] + [links[|links| - 1]];
    }
  }

  /** Every target list has one entry per link out of `a`, and every entry
      is counted by the in-degree of its id. */
  lemma {:induction false} TargetsCount(links: seq<Link>, a: TaskId, b: TaskId)
    ensures Count(Targets(links, a), b) == Count(links, Link(a, b))
  {
    if links != [] {
      var init := links[..|links| - 1];
      var last := links[|links| - 1];
      TargetsCount(init, a, b);
      var tail := if last.source == a then [last.target] else [];
      assert init + [last] == links;
      assert Targets(links, a) == Targets(init, a) + tail;
      CountAppend(Targets(init, a), tail, b);
      CountAppend(init, [last], Link(a, b));
      assert Count(tail, b) == Count([last], Link(a, b)) by {
        assert (last == Link(a, b)) == (last.source == a && last.target == b);
      }
    }
  }

  /** The adjacency lists `graph` of `buildDependencyGraph`. */
  function GraphOf(tasks: seq<Task>): (g: map<TaskId, seq<TaskId>>)
    ensures g.Keys == Ids(tasks)
  {
    map a | a in Ids(tasks) :: Targets(Links(tasks), a)
  }

  /** The in-degrees `inDegree` of `buildDependencyGraph`. */
  function InDegreeOf(tasks: seq<Task>): (d: map<TaskId, int>)
    ensures d.Keys == Ids(tasks)
  {
    map b | b in Ids(tasks) :: InCount(Links(tasks), b)
  }

  lemma LinksAppendTask(all: seq<Task>, prefix: seq<Task>, t: Task)
    ensures LinksOf(all, prefix + [t]) == LinksOf(all, prefix) + LinksTo(all, Deps(t), t.id)
  {
    assert (prefix + [t])[..|prefix|] == prefix;
  }

  lemma LinksAppendDep(all: seq<Task>, deps: seq<TaskId>, d: TaskId, target: TaskId)
    ensures LinksTo(all, deps + [d], target)
         == LinksTo(all, deps, target) + (if d in Ids(all) then [Link(d, target)] else [])
  {
    assert (deps + [d])[..|deps|] == deps;
  }

  lemma TargetsAppend(links: seq<Link>, l: Link, a: TaskId)
    ensures Targets(links + [l], a) == Targets(links, a) + (if l.source == a then [l.target] else [])
  {
    assert (links + [l])[..|links|] == links;
  }

  lemma InCountAppend(links: seq<Link>, l: Link, b: TaskId)
    ensures InCount(links + [l], b) == InCount(links, b) + (if l.target == b then 1 else 0)
  {
    assert (links + [l])[..|links|] == links;
  }

  /** One step of the inner `depends_on.forEach` of `buildDependencyGraph`:
      the maps describe the links seen so far. */
  ghost predicate Describes(tasks: seq<Task>, seen: seq<Link>,
                            graph: map<TaskId, seq<TaskId>>, inDegree: map<TaskId, int>)
  {
    && graph.Keys == Ids(tasks) && inDegree.Keys == Ids(tasks)
    && (forall a :: a in graph ==> graph[a] == Targets(seen, a))
    && (forall b :: b in inDegree ==> inDegree[b] == InCount(seen, b))
  }

  lemma DescribesEmpty(tasks: seq<Task>, graph: map<TaskId, seq<TaskId>>, inDegree: map<TaskId, int>)
    requires graph.Keys == Ids(tasks) && inDegree.Keys == Ids(tasks)
    requires forall a :: a in graph ==> graph[a] == []
    requires forall b :: b in inDegree ==> inDegree[b] == 0
    ensures Describes(tasks, [], graph, inDegree)
  {
  }

  /** Recording a link in the maps keeps them describing the links seen. */
  lemma DescribesStep(tasks: seq<Task>, seen: seq<Link>, graph: map<TaskId, seq<TaskId>>,
                      inDegree: map<TaskId, int>, l: Link)
    requires Describes(tasks, seen, graph, inDegree)
    requires l.source in Ids(tasks) && l.target in Ids(tasks)
    ensures Describes(tasks, seen + [l],
                      graph[l.source := graph[l.source] + [l.target]],
                      inDegree[l.target := inDegree[l.target] + 1])
  {
    var g := graph[l.source := graph[l.source] + [l.target]];
    var d := inDegree[l.target := inDegree[l.target] + 1];
    assert g.Keys == graph.Keys && d.Keys == inDegree.Keys;
    forall a | a in g
      ensures g[a] == Targets(seen + [l], a)
    {
      TargetsAppend(seen, l, a);
    }
    forall b | b in d
      ensures d[b] == InCount(seen + [l], b)
    {
      InCountAppend(seen, l, b);
    }
  }

  lemma AppendAssoc(a: seq<Link>, b: seq<Link>, c: seq<Link>)
    ensures (a + b) + c == a + (b + c)
  {
  }

  /** The inner `task.depends_on.forEach` of `buildDependencyGraph`: record
      the links of one task. */
  method RecordTask(tasks: seq<Task>, task: Task, graph: map<TaskId, seq<TaskId>>,
                    inDegree: map<TaskId, int>, ghost seen: seq<Link>)
    returns (graph': map<TaskId, seq<TaskId>>, inDegree': map<TaskId, int>)
    requires task in tasks && Describes(tasks, seen, graph, inDegree)
    ensures Describes(tasks, seen + LinksTo(tasks, Deps(task), task.id), graph', inDegree')
  {
    graph', inDegree' := graph, inDegree;
    var deps := Deps(task);
    assert seen + LinksTo(tasks, deps[..0], task.id) == seen;
    var j := 0;
    while j < |deps|
      invariant 0 <= j <= |deps|
      invariant Describes(tasks, seen + LinksTo(tasks, deps[..j], task.id), graph', inDegree')
    {
      var depId := deps[j];
      ghost var after;
      graph', inDegree', after := RecordLink(tasks, task.id, depId, graph', inDegree', seen + LinksTo(tasks, deps[..j], task.id));
      LinksPrefixStep(tasks, seen, deps, j, task.id);
      j := j + 1;
    }
    assert deps[..j] == deps;
  }

  /** The links seen after one more dependency of the list. */
  lemma LinksPrefixStep(tasks: seq<Task>, seen: seq<Link>, deps: seq<TaskId>, j: nat, target: TaskId)
    requires j < |deps|
    ensures seen + LinksTo(tasks, deps[..j + 1], target) ==
      (seen + LinksTo(tasks, deps[..j], target)) + (if deps[j] in Ids(tasks) then [Link(deps[j], target)] else [])
  {
    assert deps[..j + 1] == deps[..j] + [deps[j]];
    LinksAppendDep(tasks, deps[..j], deps[j], target);
    AppendAssoc(seen, LinksTo(tasks, deps[..j], target), if deps[j] in Ids(tasks) then [Link(deps[j], target)] else []);
  }

  /** One `graph[depId].push(task.id); inDegree[task.id]++`, done only when
      `depId` names a task. */
  method RecordLink(tasks: seq<Task>, target: TaskId, depId: TaskId, graph: map<TaskId, seq<TaskId>>,
                    inDegree: map<TaskId, int>, ghost seen: seq<Link>)
    returns (graph': map<TaskId, seq<TaskId>>, inDegree': map<TaskId, int>, ghost seen': seq<Link>)
    requires target in Ids(tasks) && Describes(tasks, seen, graph, inDegree)
    ensures seen' == seen + (if depId in Ids(tasks) then [Link(depId, target)] else [])
    ensures Describes(tasks, seen', graph', inDegree')
  {
    if depId in graph {
      DescribesStep(tasks, seen, graph, inDegree, Link(depId, target));
      graph' := graph[depId := graph[depId] + [target]];
      inDegree' := inDegree[target := inDegree[target] + 1];
      seen' := seen + [Link(depId, target)];
    } else {
      graph', inDegree', seen' := graph, inDegree, seen;
      assert seen + [] == seen;
    }
  }

  /** The first `tasks.forEach` of `buildDependencyGraph`: an empty
      dependent list and in-degree 0 for every task id. */
  method InitGraph(tasks: seq<Task>) returns (graph: map<TaskId, seq<TaskId>>, inDegree: map<TaskId, int>)
    ensures Describes(tasks, [], graph, inDegree)
  {
    graph := map[];
    inDegree := map[];
    var i := 0;
    while i < |tasks|
      invariant 0 <= i <= |tasks|
      invariant graph.Keys == Ids(tasks[..i]) && inDegree.Keys == Ids(tasks[..i])
      invariant forall a :: a in graph ==> graph[a] == []
      invariant forall b :: b in inDegree ==> inDegree[b] == 0
    {
      assert tasks[..i + 1] == tasks[..i] + [tasks[i]];
      assert Ids(tasks[..i + 1]) == Ids(tasks[..i]) + {tasks[i].id};
      graph := graph[tasks[i].id := []];
      inDegree := inDegree[tasks[i].id := 0];
      i := i + 1;
    }
    assert tasks[..i] == tasks;
    DescribesEmpty(tasks, graph, inDegree);
  }

  /** `buildDependencyGraph(tasks)`: for each task id, the ids of the tasks
      that list it as a dependency, in list order, and the number of
      dependency entries of its tasks that name a task. */
  method BuildDependencyGraph(tasks: seq<Task>)
    returns (graph: map<TaskId, seq<TaskId>>, inDegree: map<TaskId, int>)
    ensures graph == GraphOf(tasks) && inDegree == InDegreeOf(tasks)
  {
    graph, inDegree := InitGraph(tasks);
    var i := 0;
    while i < |tasks|
      invariant 0 <= i <= |tasks|
      invariant Describes(tasks, LinksOf(tasks, tasks[..i]), graph, inDegree)
    {
      graph, inDegree := RecordTask(tasks, tasks[i], graph, inDegree, LinksOf(tasks, tasks[..i]));
      assert tasks[..i + 1] == tasks[..i] + [tasks[i]];
      LinksAppendTask(tasks, tasks[..i], tasks[i]);
      i := i + 1;
    }
    assert tasks[..i] == tasks;
    assert graph.Keys == GraphOf(tasks).Keys && inDegree.Keys == InDegreeOf(tasks).Keys;
  }
}
