/** The topological leveling of `calculateHierarchicalLevels`: Kahn's
    algorithm over the graph of `buildDependencyGraph`. Tasks with no
    incoming edge start at level 0 in a FIFO queue; popping a task
    decrements the in-degree of each of its dependents and gives level
    `level + 1` to a dependent whose in-degree has just reached 0, which is
    then queued; every task the queue never reached gets level 0.

    The algorithm is stated once as a state machine (`Relax`, `Step`,
    `Drain`) that the method follows step by step. */
module Leveling {
  import opened Options
  import opened Tasks
  import opened DependencyGraph

  datatype KahnState = KahnState(queue: seq<TaskId>, inDegree: map<TaskId, int>, levels: map<TaskId, int>)

  /** The ids whose in-degree is still positive. */
  function Pending(inDegree: map<TaskId, int>): set<TaskId> {
    set b | b in inDegree && inDegree[b] > 0
  }

  /** What the loop needs to take a step: every dependent is a graph key
      with an in-degree, every queued id has a level, levels are
      non-negative and only given to graph keys. */
  ghost predicate Wf(graph: map<TaskId, seq<TaskId>>, s: KahnState) {
    && graph.Keys == s.inDegree.Keys
    && (forall a, b :: a in graph && b in graph[a] ==> b in graph)
    && (forall q :: q in s.queue ==> q in s.levels)
    && s.levels.Keys <= graph.Keys
    && (forall b :: b in s.levels ==> s.levels[b] >= 0)
  }

  /** The `graph.get(currentId).forEach` body over the dependents `nbrs`,
      left to right, for a task at level `level`. */
  function Relax(s: KahnState, level: int, nbrs: seq<TaskId>): (r: KahnState)
    requires forall b :: b in nbrs ==> b in s.inDegree
    ensures r.inDegree.Keys == s.inDegree.Keys
    decreases |nbrs|
  {
    if nbrs == [] then s else Relax(Visit(s, level, nbrs[0]), level, nbrs[1..])
  }

  /** Relaxing lowers the in-degree of each id by the number of times it
      occurs among the dependents. */
  lemma {:induction false} RelaxDegrees(s: KahnState, level: int, nbrs: seq<TaskId>, x: TaskId)
    requires forall b :: b in nbrs ==> b in s.inDegree
    requires x in s.inDegree
    ensures Relax(s, level, nbrs).inDegree[x] == s.inDegree[x] - Count(nbrs, x)
    decreases |nbrs|
  {
    if nbrs != [] {
      CountFront(nbrs, x);
      RelaxDegrees(Visit(s, level, nbrs[0]), level, nbrs[1..], x);
    }
  }

  /** Relaxing only appends to the queue, and what it appends are
      dependents, each given level `level + 1`. */
  lemma {:induction false} RelaxQueue(s: KahnState, level: int, nbrs: seq<TaskId>)
    requires forall b :: b in nbrs ==> b in s.inDegree
    ensures var r := Relax(s, level, nbrs);
      |s.queue| <= |r.queue| && r.queue[..|s.queue|] == s.queue &&
      forall i :: |s.queue| <= i < |r.queue| ==> r.queue[i] in nbrs && r.queue[i] in r.levels && r.levels[r.queue[i]] == level + 1
    decreases |nbrs|
  {
    if nbrs != [] {
      var v := Visit(s, level, nbrs[0]);
      var r := Relax(v, level, nbrs[1..]);
      RelaxQueue(v, level, nbrs[1..]);
      RelaxLevels(v, level, nbrs[1..]);
      assert r.queue[..|s.queue|] == r.queue[..|v.queue|][..|s.queue|];
      forall i | |s.queue| <= i < |r.queue| ensures r.queue[i] in nbrs && r.queue[i] in r.levels && r.levels[r.queue[i]] == level + 1 {
        if i < |v.queue| {
          assert r.queue[i] == v.queue[i] == nbrs[0];
        } else {
          assert r.queue[i] in nbrs[1..];
        }
      }
    }
  }

  /** Relaxing keeps every level it does not give out, and the levels it
      gives out are `level + 1`, to dependents. */
  lemma {:induction false} RelaxLevels(s: KahnState, level: int, nbrs: seq<TaskId>)
    requires forall b :: b in nbrs ==> b in s.inDegree
    ensures var r := Relax(s, level, nbrs);
      s.levels.Keys <= r.levels.Keys &&
      forall x :: x in r.levels ==> (x in s.levels && r.levels[x] == s.levels[x]) || (x in nbrs && r.levels[x] == level + 1)
    decreases |nbrs|
  {
    if nbrs != [] {
      var v := Visit(s, level, nbrs[0]);
      RelaxLevels(v, level, nbrs[1..]);
    }
  }

  /** Counting from the front: the head contributes one if it is `x`. */
  lemma CountFront<T>(s: seq<T>, x: T)
    requires s != []
    ensures Count(s, x) == (if s[0] == x then 1 else 0) + Count(s[1..], x)
  {
    assert s == [s[0]] + s[1..];
    assert [s[0]][..0] == [];
    CountAppend([s[0]], s[1..], x);
  }

  /** One dependent `b`: decrement its in-degree and, when that reaches 0,
      give it level `level + 1` and queue it. */
  function Visit(s: KahnState, level: int, b: TaskId): (r: KahnState)
    requires b in s.inDegree
    ensures r.inDegree.Keys == s.inDegree.Keys
    ensures r.inDegree == s.inDegree[b := s.inDegree[b] - 1]
    ensures r.queue == if s.inDegree[b] == 1 then s.queue + [b] else s.queue
    ensures r.levels == if s.inDegree[b] == 1 then s.levels[b := level + 1] else s.levels
  {
    var newDegree := s.inDegree[b] - 1;
    if newDegree == 0 then KahnState(s.queue + [b], s.inDegree[b := newDegree], s.levels[b := level + 1])
    else KahnState(s.queue, s.inDegree[b := newDegree], s.levels)
  }

  /** Relaxing keeps the state well formed and does not raise the measure
      `|queue| + |Pending(inDegree)|`: an id is queued only as it leaves
      `Pending`. */
  lemma {:induction false} RelaxWf(graph: map<TaskId, seq<TaskId>>, s: KahnState, level: int, nbrs: seq<TaskId>)
    requires Wf(graph, s) && level >= 0
    requires forall b :: b in nbrs ==> b in graph
    ensures Wf(graph, Relax(s, level, nbrs))
    ensures |Relax(s, level, nbrs).queue| + |Pending(Relax(s, level, nbrs).inDegree)|
         <= |s.queue| + |Pending(s.inDegree)|
    decreases |nbrs|
  {
    if nbrs != [] {
      var b := nbrs[0];
      var newDegree := s.inDegree[b] - 1;
      var s1 := Visit(s, level, b);
      if newDegree == 0 {
        assert Pending(s1.inDegree) == Pending(s.inDegree) - {b};
      } else {
        assert Pending(s1.inDegree) <= Pending(s.inDegree);
        SubsetCard(Pending(s1.inDegree), Pending(s.inDegree));
      }
      RelaxWf(graph, s1, level, nbrs[1..]);
    }
  }

  /** One turn of `while (queue.length > 0)`: shift the head and relax its
      dependents at its level. */
  function Step(graph: map<TaskId, seq<TaskId>>, s: KahnState): (r: KahnState)
    requires Wf(graph, s) && s.queue != []
    ensures Wf(graph, r)
    ensures |r.queue| + |Pending(r.inDegree)| < |s.queue| + |Pending(s.inDegree)|
  {
    var current := s.queue[0];
    var popped := KahnState(s.queue[1..], s.inDegree, s.levels);
    RelaxWf(graph, popped, s.levels[current], graph[current]);
    Relax(popped, s.levels[current], graph[current])
  }

  /** The whole `while` loop: step until the queue is empty. */
  function Drain(graph: map<TaskId, seq<TaskId>>, s: KahnState): (r: KahnState)
    requires Wf(graph, s)
    ensures Wf(graph, r) && r.queue == []
    decreases |s.queue| + |Pending(s.inDegree)|
  {
    if s.queue == [] then s else Drain(graph, Step(graph, s))
  }

  /** The seeding `tasks.forEach`: every task (in list order) whose
      in-degree is 0 is queued at level 0. */
  function Seed(inDegree: map<TaskId, int>, tasks: seq<Task>): (r: KahnState)
    requires forall t :: t in tasks ==> t.id in inDegree
    ensures r.inDegree == inDegree
    ensures forall q :: q in r.queue <==> q in r.levels
    ensures forall b :: b in r.levels ==> r.levels[b] == 0 && b in Ids(tasks)
    ensures forall t :: t in tasks ==> (t.id in r.levels <==> inDegree[t.id] == 0)
  {
    if tasks == [] then KahnState([], inDegree, map[])
    else
      var s := Seed(inDegree, tasks[..|tasks| - 1]);
      var t := tasks[|tasks| - 1];
      assert tasks == tasks[..|tasks| - 1] + [t];
      if inDegree[t.id] == 0 then KahnState(s.queue + [t.id], inDegree, s.levels[t.id := 0]) else s
  }

  /** The closing `tasks.forEach`: level 0 for every task still without
      one. */
  function Finalize(levels: map<TaskId, int>, tasks: seq<Task>): (r: map<TaskId, int>)
    ensures r.Keys == levels.Keys + Ids(tasks)
    ensures forall b :: b in levels ==> r[b] == levels[b]
    ensures forall b :: b in r && b !in levels ==> r[b] == 0
  {
    if tasks == [] then levels
    else
      var r := Finalize(levels, tasks[..|tasks| - 1]);
      var t := tasks[|tasks| - 1];
      assert tasks == tasks[..|tasks| - 1] + [t];
      if t.id !in r then r[t.id := 0] else r
  }

  /** The state the queue loop starts from. */
  function Start(tasks: seq<Task>): (r: KahnState)
    ensures Wf(GraphOf(tasks), r)
  {
    GraphLinksAreTasks(tasks);
    Seed(InDegreeOf(tasks), tasks)
  }

  /** `calculateHierarchicalLevels(tasks)`: every task id gets a level, no
      other id does, and no level is negative. */
  function HierarchicalLevels(tasks: seq<Task>): (levels: map<TaskId, int>)
    ensures levels.Keys == Ids(tasks)
    ensures forall b :: b in levels ==> levels[b] >= 0
  {
    Finalize(Drain(GraphOf(tasks), Start(tasks)).levels, tasks)
  }

  /** Every dependent listed by the graph is itself a task id. */
  lemma GraphLinksAreTasks(tasks: seq<Task>)
    ensures forall a, b :: a in GraphOf(tasks) && b in GraphOf(tasks)[a] ==> b in GraphOf(tasks)
  {
    LinksOfMembers(tasks, tasks);
    forall a, b | a in GraphOf(tasks) && b in GraphOf(tasks)[a]
      ensures b in Ids(tasks)
    {
      TargetsMembers(Links(tasks), a);
      var t :| t in tasks && b == t.id && a in Deps(t) && a in Ids(tasks);
    }
  }

  /** Relaxing changes the level of no id outside `nbrs`. */
  lemma {:induction false} RelaxKeeps(s: KahnState, level: int, nbrs: seq<TaskId>, b: TaskId)
    requires forall x :: x in nbrs ==> x in s.inDegree
    requires b !in nbrs
    ensures b in Relax(s, level, nbrs).levels <==> b in s.levels
    ensures b in s.levels ==> Relax(s, level, nbrs).levels[b] == s.levels[b]
    decreases |nbrs|
  {
    if nbrs != [] {
      RelaxKeeps(Visit(s, level, nbrs[0]), level, nbrs[1..], b);
    }
  }

  /** An id that is no task's dependent keeps the level it was seeded
      with, or stays without one. */
  lemma {:induction false} DrainKeeps(graph: map<TaskId, seq<TaskId>>, s: KahnState, b: TaskId)
    requires Wf(graph, s)
    requires forall a :: a in graph ==> b !in graph[a]
    ensures b in Drain(graph, s).levels <==> b in s.levels
    ensures b in s.levels ==> Drain(graph, s).levels[b] == s.levels[b]
    decreases |s.queue| + |Pending(s.inDegree)|
  {
    if s.queue != [] {
      var current := s.queue[0];
      var popped := KahnState(s.queue[1..], s.inDegree, s.levels);
      RelaxKeeps(popped, s.levels[current], graph[current], b);
      DrainKeeps(graph, Step(graph, s), b);
    }
  }

  /** A task that no dependency edge enters is at level 0, whatever the
      rest of the graph looks like (cycles and repeated ids included). */
  lemma NoIncomingEdgeIsLevelZero(tasks: seq<Task>, b: TaskId)
    requires b in Ids(tasks) && InCount(Links(tasks), b) == 0
    ensures HierarchicalLevels(tasks)[b] == 0
  {
    InCountZero(Links(tasks), b);
    forall a | a in GraphOf(tasks)
      ensures b !in GraphOf(tasks)[a]
    {
      TargetsMembers(Links(tasks), a);
    }
    DrainKeeps(GraphOf(tasks), Start(tasks), b);
  }

  /** The inner `forEach` of the queue loop. */
  method RelaxLoop(graph: map<TaskId, seq<TaskId>>, s: KahnState, level: int, nbrs: seq<TaskId>)
    returns (queue: seq<TaskId>, inDegree: map<TaskId, int>, levels: map<TaskId, int>)
    requires forall b :: b in nbrs ==> b in s.inDegree
    ensures KahnState(queue, inDegree, levels) == Relax(s, level, nbrs)
  {
    queue, inDegree, levels := s.queue, s.inDegree, s.levels;
    var j := 0;
    while j < |nbrs|
      invariant 0 <= j <= |nbrs|
      invariant inDegree.Keys == s.inDegree.Keys
      invariant Relax(KahnState(queue, inDegree, levels), level, nbrs[j..]) == Relax(s, level, nbrs)
    {
      ghost var before := KahnState(queue, inDegree, levels);
      assert nbrs[j..][1..] == nbrs[j + 1..];
      var neighborId := nbrs[j];
      assert Relax(before, level, nbrs[j..]) == Relax(Visit(before, level, neighborId), level, nbrs[j + 1..]);
      var newDegree := inDegree[neighborId] - 1;
      inDegree := inDegree[neighborId := newDegree];
      if newDegree == 0 {
        levels := levels[neighborId := level + 1];
        queue := queue + [neighborId];
      }
      assert KahnState(queue, inDegree, levels) == Visit(before, level, neighborId);
      j := j + 1;
    }
  }

  /** The seeding `tasks.forEach` of `calculateHierarchicalLevels`. */
  method SeedLoop(inDegree: map<TaskId, int>, tasks: seq<Task>) returns (queue: seq<TaskId>, levels: map<TaskId, int>)
    requires forall t :: t in tasks ==> t.id in inDegree
    ensures KahnState(queue, inDegree, levels) == Seed(inDegree, tasks)
  {
    levels := map[];
    queue := [];
    var i := 0;
    while i < |tasks|
      invariant 0 <= i <= |tasks|
      invariant KahnState(queue, inDegree, levels) == Seed(inDegree, tasks[..i])
    {
      assert tasks[..i + 1][..i] == tasks[..i];
      var task := tasks[i];
      if inDegree[task.id] == 0 {
        levels := levels[task.id := 0];
        queue := queue + [task.id];
      }
      i := i + 1;
    }
    assert tasks[..i] == tasks;
  }

  /** `while (queue.length > 0)` of `calculateHierarchicalLevels`. */
  method DrainLoop(graph: map<TaskId, seq<TaskId>>, s: KahnState) returns (levels: map<TaskId, int>)
    requires Wf(graph, s)
    ensures levels == Drain(graph, s).levels
  {
    var queue, inDegree := s.queue, s.inDegree;
    levels := s.levels;
    while |queue| > 0
      invariant Wf(graph, KahnState(queue, inDegree, levels))
      invariant Drain(graph, KahnState(queue, inDegree, levels)) == Drain(graph, s)
      decreases |queue| + |Pending(inDegree)|
    {
      ghost var before := KahnState(queue, inDegree, levels);
      var currentId := queue[0];
      var currentLevel := levels[currentId];
      queue := queue[1..];
      queue, inDegree, levels := RelaxLoop(graph, KahnState(queue, inDegree, levels), currentLevel, graph[currentId]);
      assert KahnState(queue, inDegree, levels) == Step(graph, before);
    }
  }

  /** The closing `tasks.forEach` of `calculateHierarchicalLevels`. */
  method FinalizeLoop(drained: map<TaskId, int>, tasks: seq<Task>) returns (levels: map<TaskId, int>)
    ensures levels == Finalize(drained, tasks)
  {
    levels := drained;
    var i := 0;
    while i < |tasks|
      invariant 0 <= i <= |tasks|
      invariant levels == Finalize(drained, tasks[..i])
    {
      assert tasks[..i + 1][..i] == tasks[..i];
      if tasks[i].id !in levels {
        levels := levels[tasks[i].id := 0];
      }
      i := i + 1;
    }
    assert tasks[..i] == tasks;
  }

  /** `calculateHierarchicalLevels(tasks)`. */
  method CalculateHierarchicalLevels(tasks: seq<Task>) returns (levels: map<TaskId, int>)
    ensures levels == HierarchicalLevels(tasks)
  {
    var graph, inDegree := BuildDependencyGraph(tasks);
    var queue, seeded := SeedLoop(inDegree, tasks);
    assert KahnState(queue, inDegree, seeded) == Start(tasks);
    var drained := DrainLoop(graph, KahnState(queue, inDegree, seeded));
    levels := FinalizeLoop(drained, tasks);
  }
}
