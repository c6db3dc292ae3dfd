/** What the leveling computes on a snapshot with unique ids: on an acyclic
    graph every task is reached by the queue, each edge climbs at least one
    level and each task with a dependency sits exactly one level above one
    of them, so its level is the length of the longest dependency chain
    that ends at it; a task on a cycle is never reached and falls back to
    level 0.

    The proof follows the queue loop with the list `done` of the ids
    popped so far, a ghost history that the algorithm itself does not
    keep. */
module LevelOrder {
  import opened Options
  import opened Tasks
  import opened Reachability
  import opened DependencyGraph
  import opened Leveling

  function ToSet(p: seq<TaskId>): set<TaskId> {
    set x | x in p
  }

  /** The number of links into `b` whose source is in `from`. */
  function InFrom(links: seq<Link>, from: set<TaskId>, b: TaskId): (n: nat)
    ensures n <= InCount(links, b)
  {
    if links == [] then 0
    else
      var last := links[|links| - 1];
      InFrom(links[..|links| - 1], from, b) + (if last.target == b && last.source in from then 1 else 0)
  }

  lemma {:induction false} InFromEmpty(links: seq<Link>, b: TaskId)
    ensures InFrom(links, {}, b) == 0
  {
    if links != [] {
      InFromEmpty(links[..|links| - 1], b);
    }
  }

  /** Adding a source to `from` adds its links into `b`. */
  lemma {:induction false} InFromAdd(links: seq<Link>, from: set<TaskId>, a: TaskId, b: TaskId)
    requires a !in from
    ensures InFrom(links, from + {a}, b) == InFrom(links, from, b) + Count(links, Link(a, b))
  {
    if links != [] {
      InFromAdd(links[..|links| - 1], from, a, b);
    }
  }

  /** Only when every link into `b` comes from `from` are all of them
      counted. */
  lemma {:induction false} InFromAll(links: seq<Link>, from: set<TaskId>, b: TaskId)
    ensures InFrom(links, from, b) == InCount(links, b) <==>
      forall l :: l in links && l.target == b ==> l.source in from
  {
    if links != [] {
      var init, last := links[..|links| - 1], links[|links| - 1];
      InFromAll(init, from, b);
      assert links == init + [last];
      if InFrom(links, from, b) == InCount(links, b) {
        assert InFrom(init, from, b) == InCount(init, b);
      }
    }
  }

  /** A list longer than the set its members come from repeats one. */
  lemma {:induction false} Pigeonhole(p: seq<TaskId>, u: set<TaskId>) returns (i: nat, j: nat)
    requires |p| > |u| && forall k :: 0 <= k < |p| ==> p[k] in u
    ensures i < j < |p| && p[i] == p[j]
    decreases |p|
  {
    if p[0] in p[1..] {
      var k :| 0 <= k < |p[1..]| && p[1..][k] == p[0];
      i, j := 0, k + 1;
    } else {
      assert |u - {p[0]}| == |u| - 1;
      var i', j' := Pigeonhole(p[1..], u - {p[0]});
      i, j := i' + 1, j' + 1;
    }
  }

  /** `x` depends on some member of `u`. */
  ghost predicate HasDepIn(tasks: seq<Task>, u: set<TaskId>, x: TaskId) {
    exists d :: d in DepsOf(tasks, x) && d in u
  }

  /** From any member of `u`, one can walk `n` depends_on steps without
      leaving `u` when every member has a dependency in `u`. */
  lemma {:induction false} WalkInside(tasks: seq<Task>, u: set<TaskId>, start: TaskId, n: nat) returns (p: seq<TaskId>)
    requires start in u
    requires forall x {:trigger HasDepIn(tasks, u, x)} :: x in u ==> HasDepIn(tasks, u, x)
    ensures IsPath(tasks, p) && |p| == n + 1 && p[0] == start
    ensures forall k :: 0 <= k < |p| ==> p[k] in u
    decreases n
  {
    if n == 0 {
      p := [start];
    } else {
      assert HasDepIn(tasks, u, start);
      var d :| d in DepsOf(tasks, start) && d in u;
      var q := WalkInside(tasks, u, d, n - 1);
      p := [start] + q;
      forall k | 0 <= k < |p| - 1
        ensures p[k + 1] in DepsOf(tasks, p[k])
      {
        if k > 0 {
          assert p[k] == q[k - 1] && p[k + 1] == q[k];
        }
      }
    }
  }

  /** A non-empty set of ids each of which depends on a member of the set
      holds a cycle. */
  lemma StuckSetHasCycle(tasks: seq<Task>, u: set<TaskId>, start: TaskId) returns (x: TaskId)
    requires start in u
    requires forall y {:trigger HasDepIn(tasks, u, y)} :: y in u ==> HasDepIn(tasks, u, y)
    ensures x in u && OnCycle(tasks, x)
  {
    var p := WalkInside(tasks, u, start, |u|);
    var i, j := Pigeonhole(p, u);
    PathSlice(tasks, p, i, j + 1);
    x := p[i];
    assert p[i..j + 1][0] == x && p[i..j + 1][j - i] == x;
  }

  /** Every link joins two task ids. */
  ghost predicate Closed(L: seq<Link>, ids: set<TaskId>) {
    forall l :: l in L ==> l.source in ids && l.target in ids
  }

  lemma LinksClosed(tasks: seq<Task>)
    ensures Closed(Links(tasks), Ids(tasks))
  {
    LinksOfMembers(tasks, tasks);
  }

  /** The level facts the proof keeps for every id that has a level: a root
      is at 0, every link into `b` climbs, and some link into `b` climbs by
      exactly one. */
  ghost predicate LevelFacts(L: seq<Link>, lv: map<TaskId, int>, b: TaskId)
    requires b in lv
  {
    && lv[b] >= 0
    && (InCount(L, b) == 0 ==> lv[b] == 0)
    && (forall a :: Link(a, b) in L ==> a in lv && lv[a] < lv[b])
    && (InCount(L, b) > 0 ==> exists a :: Link(a, b) in L && a in lv && lv[b] == lv[a] + 1)
  }

  /** The part of the invariant that holds between any two statements of
      the queue loop. `order` lists every id ever queued, in queue order;
      `popped` is the prefix of it that has been shifted off (including the
      id being relaxed). */
  ghost predicate Core(L: seq<Link>, ids: set<TaskId>, lv: map<TaskId, int>, popped: seq<TaskId>, order: seq<TaskId>) {
    && NoDup(order)
    && (forall x :: x in lv <==> x in order)
    && (forall x :: x in order ==> x in ids)
    && PredsFirst(L, popped, order)
    && AllFacts(L, lv)
    && SortedBy(lv, order)
  }

  /** Every link into a queued id comes from a popped id queued before it. */
  ghost predicate PredsFirst(L: seq<Link>, popped: seq<TaskId>, order: seq<TaskId>) {
    forall i, a :: 0 <= i < |order| && Link(a, order[i]) in L ==> a in popped && a in order[..i]
  }

  ghost predicate AllFacts(L: seq<Link>, lv: map<TaskId, int>) {
    forall b {:trigger LevelFacts(L, lv, b)} :: b in lv ==> LevelFacts(L, lv, b)
  }

  /** Levels never decrease along `order`. */
  ghost predicate SortedBy(lv: map<TaskId, int>, order: seq<TaskId>) {
    forall i, j :: 0 <= i < j < |order| && order[i] in lv && order[j] in lv ==> lv[order[i]] <= lv[order[j]]
  }

  /** Each in-degree is the number of links into the id less those whose
      source has been popped and, while one id is being relaxed, less the
      dependents of it already visited. */
  ghost predicate Degrees(L: seq<Link>, ids: set<TaskId>, inDegree: map<TaskId, int>, from: set<TaskId>, visited: seq<TaskId>) {
    && inDegree.Keys == ids
    && forall b {:trigger DegreeOf(L, inDegree, from, visited, b)} :: b in inDegree ==> DegreeOf(L, inDegree, from, visited, b)
  }

  ghost predicate DegreeOf(L: seq<Link>, inDegree: map<TaskId, int>, from: set<TaskId>, visited: seq<TaskId>, b: TaskId)
    requires b in inDegree
  {
    inDegree[b] == InCount(L, b) - InFrom(L, from, b) - Count(visited, b)
  }

  /** An id has been queued exactly when its in-degree is 0. */
  ghost predicate Queued(inDegree: map<TaskId, int>, order: seq<TaskId>) {
    forall b {:trigger QueuedAt(inDegree, order, b)} :: b in inDegree ==> QueuedAt(inDegree, order, b)
  }

  ghost predicate QueuedAt(inDegree: map<TaskId, int>, order: seq<TaskId>, b: TaskId)
    requires b in inDegree
  {
    b in order <==> inDegree[b] == 0
  }

  /** The invariant of the queue loop after `done` has been popped and
      relaxed. */
  ghost predicate Inv(L: seq<Link>, ids: set<TaskId>, s: KahnState, done: seq<TaskId>) {
    && Core(L, ids, s.levels, done, done + s.queue)
    && Degrees(L, ids, s.inDegree, ToSet(done), [])
    && Queued(s.inDegree, done + s.queue)
    && (forall x :: x in s.queue ==> s.levels[x] <= s.levels[s.queue[0]] + 1)
  }

  /** The invariant while the dependents of `c` are being relaxed, `visited`
      being those already visited. */
  ghost predicate RInv(L: seq<Link>, ids: set<TaskId>, s: KahnState, done: seq<TaskId>, c: TaskId, visited: seq<TaskId>) {
    && Core(L, ids, s.levels, done + [c], done + [c] + s.queue)
    && Degrees(L, ids, s.inDegree, ToSet(done), visited)
    && Queued(s.inDegree, done + [c] + s.queue)
    && c in s.levels
    && (forall x :: x in s.levels ==> s.levels[x] <= s.levels[c] + 1)
  }

  /** Counting an id more as popped keeps the core invariant. */
  lemma CoreWiden(L: seq<Link>, ids: set<TaskId>, lv: map<TaskId, int>, popped: seq<TaskId>, c: TaskId, order: seq<TaskId>)
    requires Core(L, ids, lv, popped, order)
    ensures Core(L, ids, lv, popped + [c], order)
  {
    forall i, a | 0 <= i < |order| && Link(a, order[i]) in L
      ensures a in popped + [c] && a in order[..i]
    {
    }
  }

  /** Shifting the head `c` off the queue starts its relaxation. */
  lemma PopStep(L: seq<Link>, ids: set<TaskId>, s: KahnState, done: seq<TaskId>)
    requires Inv(L, ids, s, done) && s.queue != []
    ensures RInv(L, ids, KahnState(s.queue[1..], s.inDegree, s.levels), done, s.queue[0], [])
  {
    var c := s.queue[0];
    var order := done + s.queue;
    assert done + [c] + s.queue[1..] == order;
    CoreWiden(L, ids, s.levels, done, c, order);
    assert order[|done|] == c;
    forall x | x in s.levels
      ensures s.levels[x] <= s.levels[c] + 1
    {
      if x !in s.queue {
        var k :| 0 <= k < |done| && done[k] == x;
        assert order[k] == x;
      }
    }
  }

  lemma CountSnoc(s: seq<TaskId>, y: TaskId, x: TaskId)
    ensures Count(s + [y], x) == Count(s, x) + (if y == x then 1 else 0)
  {
    assert (s + [y])[..|s|] == s;
  }

  /** The id `c` being relaxed was not popped before. */
  lemma CurrentIsNew(L: seq<Link>, ids: set<TaskId>, lv: map<TaskId, int>, done: seq<TaskId>, c: TaskId, order: seq<TaskId>)
    requires Core(L, ids, lv, done + [c], order) && |done| < |order| && order[..|done| + 1] == done + [c]
    ensures c !in done
  {
    forall k | 0 <= k < |done|
      ensures done[k] != c
    {
      assert order[k] == done[k] && order[|done|] == c;
    }
  }

  /** The dependent `b` about to be visited has a link from `c` that is
      still counted, so it is not queued yet; when its in-degree is 1 every
      link into it comes from a popped id. */
  lemma VisitFacts(L: seq<Link>, ids: set<TaskId>, s: KahnState, done: seq<TaskId>, c: TaskId,
                   visited: seq<TaskId>, rest: seq<TaskId>)
    requires RInv(L, ids, s, done, c, visited) && Closed(L, ids)
    requires visited + rest == Targets(L, c) && rest != []
    ensures Link(c, rest[0]) in L && rest[0] in ids
    ensures rest[0] in s.inDegree && s.inDegree[rest[0]] >= 1
    ensures rest[0] !in done + [c] + s.queue
    ensures s.inDegree[rest[0]] == 1 ==>
      forall l :: l in L && l.target == rest[0] ==> l.source in done + [c]
  {
    var b := rest[0];
    var order := done + [c] + s.queue;
    TargetsMembers(L, c);
    assert b in Targets(L, c);
    TargetsCount(L, c, b);
    CountAppend(visited, rest, b);
    assert b in rest;
    assert order[..|done| + 1] == done + [c];
    CurrentIsNew(L, ids, s.levels, done, c, order);
    InFromAdd(L, ToSet(done), c, b);
    assert DegreeOf(L, s.inDegree, ToSet(done), visited, b);
    assert QueuedAt(s.inDegree, order, b);
    if s.inDegree[b] == 1 {
      InFromAll(L, ToSet(done) + {c}, b);
      forall l | l in L && l.target == b
        ensures l.source in done + [c]
      {
      }
    }
  }

  /** Decrementing the in-degree of the visited dependent keeps the
      in-degree accounting. */
  lemma DegreesStep(L: seq<Link>, ids: set<TaskId>, inDegree: map<TaskId, int>, from: set<TaskId>, visited: seq<TaskId>, b: TaskId)
    requires Degrees(L, ids, inDegree, from, visited) && b in inDegree
    ensures Degrees(L, ids, inDegree[b := inDegree[b] - 1], from, visited + [b])
  {
    var d := inDegree[b := inDegree[b] - 1];
    forall x | x in d
      ensures DegreeOf(L, d, from, visited + [b], x)
    {
      CountSnoc(visited, b, x);
      assert DegreeOf(L, inDegree, from, visited, x);
    }
  }

  /** A dependent `b` of `c` whose in-degree stays positive is not queued. */
  lemma RelaxKeep(L: seq<Link>, ids: set<TaskId>, s: KahnState, done: seq<TaskId>, c: TaskId, visited: seq<TaskId>, b: TaskId)
    requires RInv(L, ids, s, done, c, visited)
    requires b !in done + [c] + s.queue
    requires b in s.inDegree && s.inDegree[b] - 1 != 0
    ensures RInv(L, ids, KahnState(s.queue, s.inDegree[b := s.inDegree[b] - 1], s.levels), done, c, visited + [b])
  {
    DegreesStep(L, ids, s.inDegree, ToSet(done), visited, b);
    QueuedKeep(s.inDegree, done + [c] + s.queue, b);
  }

  lemma QueuedKeep(inDegree: map<TaskId, int>, order: seq<TaskId>, b: TaskId)
    requires Queued(inDegree, order) && b in inDegree && b !in order && inDegree[b] - 1 != 0
    ensures Queued(inDegree[b := inDegree[b] - 1], order)
  {
    var d := inDegree[b := inDegree[b] - 1];
    forall x | x in d
      ensures QueuedAt(d, order, x)
    {
      assert QueuedAt(inDegree, order, x);
    }
  }

  /** Giving a level to an id without one keeps the facts of the others. */
  lemma LevelFactsExtend(L: seq<Link>, lv: map<TaskId, int>, x: TaskId, b: TaskId, v: int)
    requires x in lv && b !in lv && LevelFacts(L, lv, x)
    ensures LevelFacts(L, lv[b := v], x)
  {
    if InCount(L, x) > 0 {
      var a :| Link(a, x) in L && a in lv && lv[x] == lv[a] + 1;
      assert Link(a, x) in L && a in lv[b := v] && lv[b := v][x] == lv[b := v][a] + 1;
    }
  }

  /** Queuing `b` at level `lv[c] + 1` once all links into it come from
      popped ids keeps the core invariant. */
  lemma CorePush(L: seq<Link>, ids: set<TaskId>, lv: map<TaskId, int>, popped: seq<TaskId>, order: seq<TaskId>, c: TaskId, b: TaskId)
    requires Core(L, ids, lv, popped, order)
    requires 0 < |popped| <= |order| && popped == order[..|popped|] && popped[|popped| - 1] == c
    requires b !in order && b in ids && Link(c, b) in L
    requires forall l :: l in L && l.target == b ==> l.source in popped
    requires forall x :: x in lv ==> lv[x] <= lv[c] + 1
    ensures Core(L, ids, lv[b := lv[c] + 1], popped, order + [b])
  {
    assert order[|popped| - 1] == c;
    PredsPush(L, popped, order, b);
    FactsPush(L, lv, popped, order, c, b);
    SortedPush(lv, order, c, b);
  }

  lemma PredsPush(L: seq<Link>, popped: seq<TaskId>, order: seq<TaskId>, b: TaskId)
    requires PredsFirst(L, popped, order)
    requires |popped| <= |order| && popped == order[..|popped|]
    requires forall l :: l in L && l.target == b ==> l.source in popped
    ensures PredsFirst(L, popped, order + [b])
  {
    var order' := order + [b];
    forall i, a | 0 <= i < |order'| && Link(a, order'[i]) in L
      ensures a in popped && a in order'[..i]
    {
      if i < |order| {
        assert order'[i] == order[i] && order'[..i] == order[..i];
      } else {
        assert Link(a, b).source in popped;
        assert order'[..i] == order;
        var k :| 0 <= k < |popped| && popped[k] == a;
        assert order[k] == a;
      }
    }
  }

  lemma FactsPush(L: seq<Link>, lv: map<TaskId, int>, popped: seq<TaskId>, order: seq<TaskId>, c: TaskId, b: TaskId)
    requires AllFacts(L, lv) && SortedBy(lv, order) && (forall x :: x in lv <==> x in order)
    requires 0 < |popped| <= |order| && popped == order[..|popped|] && order[|popped| - 1] == c
    requires b !in lv && Link(c, b) in L
    requires forall l :: l in L && l.target == b ==> l.source in popped
    ensures AllFacts(L, lv[b := lv[c] + 1])
  {
    var lv' := lv[b := lv[c] + 1];
    assert LevelFacts(L, lv, c);
    forall x | x in lv'
      ensures LevelFacts(L, lv', x)
    {
      if x != b {
        assert LevelFacts(L, lv, x);
        LevelFactsExtend(L, lv, x, b, lv[c] + 1);
      } else {
        InCountZero(L, b);
        forall a | Link(a, b) in L
          ensures a in lv && lv[a] < lv[c] + 1
        {
          assert Link(a, b).source in popped;
          var k :| 0 <= k < |popped| && popped[k] == a;
          assert order[k] == a;
        }
      }
    }
  }

  lemma SortedPush(lv: map<TaskId, int>, order: seq<TaskId>, c: TaskId, b: TaskId)
    requires SortedBy(lv, order) && b !in lv && b !in order && c in lv
    requires forall x :: x in lv ==> lv[x] <= lv[c] + 1
    ensures SortedBy(lv[b := lv[c] + 1], order + [b])
  {
    var lv' := lv[b := lv[c] + 1];
    var order' := order + [b];
    forall i, j | 0 <= i < j < |order'| && order'[i] in lv' && order'[j] in lv'
      ensures lv'[order'[i]] <= lv'[order'[j]]
    {
      if j < |order| {
        assert order'[i] == order[i] && order'[j] == order[j];
      } else if i < |order| {
        assert order'[i] == order[i];
      }
    }
  }

  /** A dependent `b` of `c` whose last counted link was from `c` is queued
      one level above `c`. */
  lemma RelaxPush(L: seq<Link>, ids: set<TaskId>, s: KahnState, done: seq<TaskId>, c: TaskId, visited: seq<TaskId>, b: TaskId)
    requires RInv(L, ids, s, done, c, visited)
    requires Link(c, b) in L && b in ids && b !in done + [c] + s.queue
    requires b in s.inDegree && s.inDegree[b] - 1 == 0
    requires forall l :: l in L && l.target == b ==> l.source in done + [c]
    ensures RInv(L, ids, KahnState(s.queue + [b], s.inDegree[b := s.inDegree[b] - 1], s.levels[b := s.levels[c] + 1]),
                 done, c, visited + [b])
  {
    CoreEnqueue(L, ids, s.levels, done, c, s.queue, b);
    DegreesStep(L, ids, s.inDegree, ToSet(done), visited, b);
    QueuedPush(s.inDegree, done + [c] + s.queue, b);
    assert done + [c] + s.queue + [b] == done + [c] + (s.queue + [b]);
    var s1 := KahnState(s.queue + [b], s.inDegree[b := s.inDegree[b] - 1], s.levels[b := s.levels[c] + 1]);
    RInvIntro(L, ids, s1, done, c, visited + [b]);
  }

  /** `CorePush` for the queue while `c` is being relaxed. */
  lemma CoreEnqueue(L: seq<Link>, ids: set<TaskId>, lv: map<TaskId, int>, done: seq<TaskId>, c: TaskId, queue: seq<TaskId>, b: TaskId)
    requires Core(L, ids, lv, done + [c], done + [c] + queue) && c in lv
    requires forall x :: x in lv ==> lv[x] <= lv[c] + 1
    requires Link(c, b) in L && b in ids && b !in done + [c] + queue
    requires forall l :: l in L && l.target == b ==> l.source in done + [c]
    ensures Core(L, ids, lv[b := lv[c] + 1], done + [c], done + [c] + (queue + [b]))
  {
    var order := done + [c] + queue;
    assert order[..|done + [c]|] == done + [c];
    assert order[|done + [c]| - 1] == c;
    CorePush(L, ids, lv, done + [c], order, c, b);
    assert order + [b] == done + [c] + (queue + [b]);
  }

  lemma QueuedPush(inDegree: map<TaskId, int>, order: seq<TaskId>, b: TaskId)
    requires Queued(inDegree, order) && b in inDegree && inDegree[b] - 1 == 0
    ensures Queued(inDegree[b := inDegree[b] - 1], order + [b])
  {
    var d := inDegree[b := inDegree[b] - 1];
    forall x | x in d
      ensures QueuedAt(d, order + [b], x)
    {
      assert QueuedAt(inDegree, order, x);
    }
  }

  /** The parts of the relaxation invariant, one by one. */
  lemma RInvIntro(L: seq<Link>, ids: set<TaskId>, s: KahnState, done: seq<TaskId>, c: TaskId, visited: seq<TaskId>)
    requires Core(L, ids, s.levels, done + [c], done + [c] + s.queue)
    requires Degrees(L, ids, s.inDegree, ToSet(done), visited)
    requires Queued(s.inDegree, done + [c] + s.queue)
    requires c in s.levels
    requires forall x :: x in s.levels ==> s.levels[x] <= s.levels[c] + 1
    ensures RInv(L, ids, s, done, c, visited)
  {
  }

  /** Relaxing the remaining dependents `rest` of `c` keeps the relaxation
      invariant and ends with every dependent visited. */
  lemma {:induction false} RelaxAll(L: seq<Link>, ids: set<TaskId>, s: KahnState, done: seq<TaskId>, c: TaskId,
                                    visited: seq<TaskId>, rest: seq<TaskId>)
    requires RInv(L, ids, s, done, c, visited) && Closed(L, ids)
    requires visited + rest == Targets(L, c)
    requires forall b :: b in rest ==> b in s.inDegree
    ensures RInv(L, ids, Relax(s, s.levels[c], rest), done, c, Targets(L, c))
    decreases |rest|
  {
    if rest == [] {
      assert visited == Targets(L, c);
    } else {
      var b := rest[0];
      VisitStep(L, ids, s, done, c, visited, rest);
      assert (visited + [b]) + rest[1..] == Targets(L, c) by {
        assert rest == [b] + rest[1..];
      }
      RelaxAll(L, ids, Visit(s, s.levels[c], b), done, c, visited + [b], rest[1..]);
    }
  }

  /** Visiting the next dependent of `c` keeps the relaxation invariant. */
  lemma VisitStep(L: seq<Link>, ids: set<TaskId>, s: KahnState, done: seq<TaskId>, c: TaskId,
                  visited: seq<TaskId>, rest: seq<TaskId>)
    requires RInv(L, ids, s, done, c, visited) && Closed(L, ids)
    requires visited + rest == Targets(L, c) && rest != []
    requires rest[0] in s.inDegree
    ensures RInv(L, ids, Visit(s, s.levels[c], rest[0]), done, c, visited + [rest[0]])
    ensures Visit(s, s.levels[c], rest[0]).levels[c] == s.levels[c]
  {
    var b := rest[0];
    VisitFacts(L, ids, s, done, c, visited, rest);
    if s.inDegree[b] - 1 == 0 {
      RelaxPush(L, ids, s, done, c, visited, b);
    } else {
      RelaxKeep(L, ids, s, done, c, visited, b);
    }
  }

  /** Once every dependent of `c` is visited, `c` counts as popped. */
  lemma FinishStep(L: seq<Link>, ids: set<TaskId>, s: KahnState, done: seq<TaskId>, c: TaskId)
    requires RInv(L, ids, s, done, c, Targets(L, c))
    ensures Inv(L, ids, s, done + [c])
  {
    var order := done + [c] + s.queue;
    assert order[..|done| + 1] == done + [c];
    CurrentIsNew(L, ids, s.levels, done, c, order);
    assert ToSet(done + [c]) == ToSet(done) + {c};
    forall b | b in s.inDegree
      ensures DegreeOf(L, s.inDegree, ToSet(done + [c]), [], b)
    {
      assert DegreeOf(L, s.inDegree, ToSet(done), Targets(L, c), b);
      TargetsCount(L, c, b);
      InFromAdd(L, ToSet(done), c, b);
    }
    if s.queue != [] {
      assert order[|done|] == c && order[|done| + 1] == s.queue[0];
    }
    FinishIntro(L, ids, s, done + [c]);
  }

  /** The parts of the loop invariant, one by one. */
  lemma FinishIntro(L: seq<Link>, ids: set<TaskId>, s: KahnState, done: seq<TaskId>)
    requires Core(L, ids, s.levels, done, done + s.queue)
    requires s.inDegree.Keys == ids
    requires forall b :: b in s.inDegree ==> DegreeOf(L, s.inDegree, ToSet(done), [], b)
    requires Queued(s.inDegree, done + s.queue)
    requires forall x :: x in s.queue ==> s.levels[x] <= s.levels[s.queue[0]] + 1
    ensures Inv(L, ids, s, done)
  {
  }

  /** The queue loop keeps the invariant, `done'` being every id it popped. */
  lemma {:induction false} DrainInv(G: map<TaskId, seq<TaskId>>, L: seq<Link>, ids: set<TaskId>, s: KahnState, done: seq<TaskId>)
    returns (done': seq<TaskId>)
    requires G.Keys == ids && (forall a :: a in G ==> G[a] == Targets(L, a)) && Closed(L, ids)
    requires Wf(G, s) && Inv(L, ids, s, done)
    ensures Inv(L, ids, Drain(G, s), done')
    decreases |s.queue| + |Pending(s.inDegree)|
  {
    if s.queue == [] {
      done' := done;
    } else {
      var c := s.queue[0];
      var popped := KahnState(s.queue[1..], s.inDegree, s.levels);
      PopStep(L, ids, s, done);
      assert c in G;
      RelaxAll(L, ids, popped, done, c, [], G[c]);
      FinishStep(L, ids, Relax(popped, s.levels[c], G[c]), done, c);
      done' := DrainInv(G, L, ids, Step(G, s), done + [c]);
    }
  }

  /** The seeding queues, once each, exactly the task ids of in-degree 0. */
  lemma {:induction false} SeedQueue(inDegree: map<TaskId, int>, tasks: seq<Task>)
    requires forall t :: t in tasks ==> t.id in inDegree
    ensures forall x :: x in Seed(inDegree, tasks).queue <==> x in Ids(tasks) && inDegree[x] == 0
    ensures UniqueIds(tasks) ==> NoDup(Seed(inDegree, tasks).queue)
  {
    if tasks != [] {
      var init, t := tasks[..|tasks| - 1], tasks[|tasks| - 1];
      assert tasks == init + [t];
      SeedQueue(inDegree, init);
      assert Ids(tasks) == Ids(init) + {t.id};
      if UniqueIds(tasks) {
        assert UniqueIds(init) by {
          forall i, j | 0 <= i < j < |init|
            ensures init[i].id != init[j].id
          {
            assert init[i] == tasks[i] && init[j] == tasks[j];
          }
        }
        assert t.id !in Ids(init) by {
          forall k | 0 <= k < |init|
            ensures init[k].id != t.id
          {
            assert init[k] == tasks[k];
          }
        }
      }
    }
  }

  /** Before the queue loop: nothing popped, the tasks without incoming
      links queued at level 0. */
  lemma SeedInv(tasks: seq<Task>)
    requires UniqueIds(tasks)
    ensures Inv(Links(tasks), Ids(tasks), Start(tasks), [])
  {
    SeedQueue(InDegreeOf(tasks), tasks);
    SeedStart(Links(tasks), Ids(tasks), Start(tasks));
  }

  /** A queue of exactly the ids without incoming links, all at level 0,
      meets the loop invariant with nothing popped. */
  lemma SeedStart(L: seq<Link>, ids: set<TaskId>, st: KahnState)
    requires st.inDegree.Keys == ids && forall b :: b in st.inDegree ==> st.inDegree[b] == InCount(L, b)
    requires forall x :: x in st.queue <==> x in ids && st.inDegree[x] == 0
    requires NoDup(st.queue)
    requires forall x :: x in st.queue <==> x in st.levels
    requires forall b :: b in st.levels ==> st.levels[b] == 0
    ensures Inv(L, ids, st, [])
  {
    var D := st.inDegree;
    forall x | x in st.queue
      ensures forall l :: l in L ==> l.target != x
    {
      InCountZero(L, x);
    }
    SeedCore(L, ids, st.levels, st.queue);
    forall b | b in D
      ensures DegreeOf(L, D, ToSet([]), [], b)
    {
      assert ToSet([]) == {};
      InFromEmpty(L, b);
    }
    forall b | b in D
      ensures QueuedAt(D, [] + st.queue, b)
    {
    }
    FinishIntro(L, ids, st, []);
  }

  lemma SeedCore(L: seq<Link>, ids: set<TaskId>, lv: map<TaskId, int>, queue: seq<TaskId>)
    requires forall x :: x in queue ==> x in ids && forall l :: l in L ==> l.target != x
    requires NoDup(queue)
    requires forall x :: x in queue <==> x in lv
    requires forall b :: b in lv ==> lv[b] == 0
    ensures Core(L, ids, lv, [], [] + queue)
  {
    assert [] + queue == queue;
    forall b | b in lv
      ensures LevelFacts(L, lv, b)
    {
      InCountZero(L, b);
    }
    forall i | 0 <= i < |queue|
      ensures forall a :: Link(a, queue[i]) !in L
    {
      assert queue[i] in queue;
    }
  }

  /** `b` reaches, in zero or more depends_on steps, a task on a cycle. */
  ghost predicate BlockedByCycle(tasks: seq<Task>, b: TaskId) {
    exists y :: Reaches(tasks, b, y) && OnCycle(tasks, y)
  }

  lemma BlockedSpreads(tasks: seq<Task>, y: TaskId, a: TaskId)
    requires a in DepsOf(tasks, y)
    ensures BlockedByCycle(tasks, a) ==> BlockedByCycle(tasks, y)
  {
    if BlockedByCycle(tasks, a) {
      var z :| Reaches(tasks, a, z) && OnCycle(tasks, z);
      StepThenReaches(tasks, y, a, z);
      DependsImpliesReaches(tasks, y, z);
    }
  }

  /** The loop invariant once the queue is empty, `done` being every id
      the loop popped. */
  lemma FinalInv(tasks: seq<Task>) returns (done: seq<TaskId>)
    requires UniqueIds(tasks)
    ensures Inv(Links(tasks), Ids(tasks), Drain(GraphOf(tasks), Start(tasks)), done)
    ensures Drain(GraphOf(tasks), Start(tasks)).queue == []
  {
    SeedInv(tasks);
    LinksClosed(tasks);
    done := DrainInv(GraphOf(tasks), Links(tasks), Ids(tasks), Start(tasks), []);
  }

  /** Walking depends_on steps from a queued id meets only ids queued
      earlier, at least one position earlier per step. */
  lemma {:induction false} PathStaysQueued(tasks: seq<Task>, popped: seq<TaskId>, order: seq<TaskId>, p: seq<TaskId>, i: nat)
    returns (j: nat)
    requires UniqueIds(tasks) && PredsFirst(Links(tasks), popped, order)
    requires IsPath(tasks, p) && i < |order| && order[i] == p[0] && p[|p| - 1] in Ids(tasks)
    ensures j < |order| && order[j] == p[|p| - 1] && j + |p| - 1 <= i
    decreases |p|
  {
    if |p| == 1 {
      j := i;
    } else {
      assert p[1] in DepsOf(tasks, p[0]);
      assert p[1] in Ids(tasks) by {
        if |p| > 2 {
          assert p[2] in DepsOf(tasks, p[1]);
        }
      }
      LinkMeansDependency(tasks, p[1], p[0]);
      assert Link(p[1], order[i]) in Links(tasks);
      assert p[1] in popped && p[1] in order[..i];
      var k :| 0 <= k < i && order[k] == p[1];
      PathSlice(tasks, p, 1, |p|);
      j := PathStaysQueued(tasks, popped, order, p[1..], k);
    }
  }

  /** A task the loop reaches does not reach a cycle. */
  lemma QueuedNotBlocked(tasks: seq<Task>, s: KahnState, done: seq<TaskId>, b: TaskId)
    requires UniqueIds(tasks) && Inv(Links(tasks), Ids(tasks), s, done) && s.queue == []
    requires b in s.levels
    ensures !BlockedByCycle(tasks, b)
  {
    var order := done + s.queue;
    if BlockedByCycle(tasks, b) {
      var y :| Reaches(tasks, b, y) && OnCycle(tasks, y);
      if y !in Ids(tasks) {
        UnknownIsDeadEnd(tasks, y, y);
      }
      var p :| IsPath(tasks, p) && p[0] == b && p[|p| - 1] == y;
      var q :| IsPath(tasks, q) && |q| >= 2 && q[0] == y && q[|q| - 1] == y;
      var i :| 0 <= i < |order| && order[i] == b;
      var j := PathStaysQueued(tasks, done, order, p, i);
      var j2 := PathStaysQueued(tasks, done, order, q, j);
      assert false;
    }
  }

  /** A task the loop never reaches reaches a cycle: otherwise the
      unreached tasks that reach no cycle would each depend on another of
      them, which makes a cycle among them. */
  lemma UnqueuedBlocked(tasks: seq<Task>, s: KahnState, done: seq<TaskId>, b: TaskId)
    requires UniqueIds(tasks) && Inv(Links(tasks), Ids(tasks), s, done) && s.queue == []
    requires b in Ids(tasks) && b !in s.levels
    ensures BlockedByCycle(tasks, b)
  {
    var L, ids := Links(tasks), Ids(tasks);
    LinksClosed(tasks);
    var u := set y | y in ids && y !in s.levels && !BlockedByCycle(tasks, y);
    if !BlockedByCycle(tasks, b) {
      forall y | y in u
        ensures HasDepIn(tasks, u, y)
      {
        assert QueuedAt(s.inDegree, done + s.queue, y);
        assert DegreeOf(L, s.inDegree, ToSet(done), [], y);
        InFromAll(L, ToSet(done), y);
        var l :| l in L && l.target == y && l.source !in ToSet(done);
        var a := l.source;
        LinkMeansDependency(tasks, a, y);
        BlockedSpreads(tasks, y, a);
        assert a in u;
      }
      var x := StuckSetHasCycle(tasks, u, b);
      ReachesRefl(tasks, x);
      assert BlockedByCycle(tasks, x);
      assert false;
    }
  }

  /** What `calculateHierarchicalLevels` computes, on a snapshot with
      unique ids. A task that depends, directly or through others, on a
      cycle is at level 0. Any other task is strictly above each of its
      dependencies that names a task, is at 0 exactly when it has none,
      and otherwise sits exactly one level above one of them. */
  lemma HierarchicalLevelsSpec(tasks: seq<Task>, b: TaskId)
    requires UniqueIds(tasks) && b in Ids(tasks)
    ensures BlockedByCycle(tasks, b) ==> HierarchicalLevels(tasks)[b] == 0
    ensures !BlockedByCycle(tasks, b) ==>
      forall a :: a in DepsOf(tasks, b) && a in Ids(tasks) ==> HierarchicalLevels(tasks)[a] < HierarchicalLevels(tasks)[b]
    ensures !BlockedByCycle(tasks, b) ==>
      (HierarchicalLevels(tasks)[b] == 0 <==> forall a :: a in DepsOf(tasks, b) ==> a !in Ids(tasks))
    ensures !BlockedByCycle(tasks, b) && HierarchicalLevels(tasks)[b] > 0 ==>
      exists a :: a in DepsOf(tasks, b) && a in Ids(tasks) && HierarchicalLevels(tasks)[b] == HierarchicalLevels(tasks)[a] + 1
  {
    var f := Drain(GraphOf(tasks), Start(tasks));
    assert HierarchicalLevels(tasks) == Finalize(f.levels, tasks);
    ReachedIffUnblocked(tasks, b);
    if !BlockedByCycle(tasks, b) {
      FinalFacts(tasks);
      assert LevelFacts(Links(tasks), f.levels, b);
      DepsBelow(tasks, f.levels, b);
      ZeroIffRoot(tasks, f.levels, b);
      OneBelow(tasks, f.levels, b);
    }
  }

  /** The queue loop reaches exactly the tasks that reach no cycle. */
  lemma ReachedIffUnblocked(tasks: seq<Task>, b: TaskId)
    requires UniqueIds(tasks) && b in Ids(tasks)
    ensures b in Drain(GraphOf(tasks), Start(tasks)).levels <==> !BlockedByCycle(tasks, b)
  {
    var f := Drain(GraphOf(tasks), Start(tasks));
    var done := FinalInv(tasks);
    if b in f.levels {
      QueuedNotBlocked(tasks, f, done, b);
    } else {
      UnqueuedBlocked(tasks, f, done, b);
    }
  }

  /** The level facts hold for every task the queue loop reached. */
  lemma FinalFacts(tasks: seq<Task>)
    requires UniqueIds(tasks)
    ensures AllFacts(Links(tasks), Drain(GraphOf(tasks), Start(tasks)).levels)
  {
    var done := FinalInv(tasks);
  }

  /** Each dependency of `b` that names a task has a lower level. */
  lemma DepsBelow(tasks: seq<Task>, lv: map<TaskId, int>, b: TaskId)
    requires UniqueIds(tasks) && b in lv && LevelFacts(Links(tasks), lv, b)
    ensures forall a :: a in DepsOf(tasks, b) && a in Ids(tasks) ==> a in lv && lv[a] < lv[b]
  {
    forall a | a in DepsOf(tasks, b) && a in Ids(tasks)
      ensures a in lv && lv[a] < lv[b]
    {
      LinkMeansDependency(tasks, a, b);
    }
  }

  /** `b` is at level 0 exactly when none of its dependencies names a task. */
  lemma ZeroIffRoot(tasks: seq<Task>, lv: map<TaskId, int>, b: TaskId)
    requires UniqueIds(tasks) && b in lv && LevelFacts(Links(tasks), lv, b) && AllFacts(Links(tasks), lv)
    ensures lv[b] == 0 <==> forall a :: a in DepsOf(tasks, b) ==> a !in Ids(tasks)
  {
    var L := Links(tasks);
    InCountZero(L, b);
    if InCount(L, b) == 0 {
      forall a | a in DepsOf(tasks, b)
        ensures a !in Ids(tasks)
      {
        LinkMeansDependency(tasks, a, b);
      }
    } else {
      var l :| l in L && l.target == b;
      assert Link(l.source, b) == l;
      assert LevelFacts(L, lv, l.source);
      LinkMeansDependency(tasks, l.source, b);
    }
  }

  /** A task above level 0 sits one level above one of its dependencies. */
  lemma OneBelow(tasks: seq<Task>, lv: map<TaskId, int>, b: TaskId)
    requires UniqueIds(tasks) && b in lv && LevelFacts(Links(tasks), lv, b)
    ensures lv[b] > 0 ==> exists a :: a in DepsOf(tasks, b) && a in Ids(tasks) && a in lv && lv[b] == lv[a] + 1
  {
    if lv[b] > 0 {
      var a :| Link(a, b) in Links(tasks) && a in lv && lv[b] == lv[a] + 1;
      LinkMeansDependency(tasks, a, b);
    }
  }
}
