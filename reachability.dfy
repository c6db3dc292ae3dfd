/** The meaning of the dependency graph: a path follows `depends_on` lists
    (of the first task carrying each id) from one id to the next. Every cycle
    guard, closure and ordering result of the board is stated in these terms. */
module Reachability {
  import opened Tasks

  /** A dependency walk: each id after the first is listed in the
      depends_on of the id before it. */
  ghost predicate IsPath(tasks: seq<Task>, p: seq<TaskId>) {
    |p| >= 1 && forall i :: 0 <= i < |p| - 1 ==> p[i + 1] in DepsOf(tasks, p[i])
  }

  /** `b` is reachable from `a` in zero or more depends_on steps. */
  ghost predicate Reaches(tasks: seq<Task>, a: TaskId, b: TaskId) {
    exists p {:trigger IsPath(tasks, p)} :: IsPath(tasks, p) && p[0] == a && p[|p| - 1] == b
  }

  /** `b` is reachable from `a` in one or more depends_on steps: `a` depends
      on `b`, directly or transitively. */
  ghost predicate DependsTransitively(tasks: seq<Task>, a: TaskId, b: TaskId) {
    exists p {:trigger IsPath(tasks, p)} :: IsPath(tasks, p) && |p| >= 2 && p[0] == a && p[|p| - 1] == b
  }

  ghost predicate OnCycle(tasks: seq<Task>, x: TaskId) {
    DependsTransitively(tasks, x, x)
  }

  ghost predicate Acyclic(tasks: seq<Task>) {
    forall x :: !OnCycle(tasks, x)
  }

  /** A set of ids that contains the dependencies of each of its members. */
  ghost predicate ClosedUnderDeps(tasks: seq<Task>, s: set<TaskId>) {
    forall z, d :: z in s && d in DepsOf(tasks, z) ==> d in s
  }

  lemma ReachesRefl(tasks: seq<Task>, a: TaskId)
    ensures Reaches(tasks, a, a)
  {
    assert IsPath(tasks, [a]);
  }

  lemma StepDepends(tasks: seq<Task>, a: TaskId, b: TaskId)
    requires b in DepsOf(tasks, a)
    ensures DependsTransitively(tasks, a, b)
  {
    assert IsPath(tasks, [a, b]);
  }

  /** Joining two walks at their shared end gives a walk. */
  lemma PathConcat(tasks: seq<Task>, p: seq<TaskId>, q: seq<TaskId>)
    requires IsPath(tasks, p) && IsPath(tasks, q) && p[|p| - 1] == q[0]
    ensures IsPath(tasks, p + q[1..])
    ensures (p + q[1..])[0] == p[0] && (p + q[1..])[|p + q[1..]| - 1] == q[|q| - 1]
    ensures |p + q[1..]| == |p| + |q| - 1
  {
    var r := p + q[1..];
    forall i | 0 <= i < |r| - 1
      ensures r[i + 1] in DepsOf(tasks, r[i])
    {
      if i < |p| - 1 {
        assert r[i] == p[i] && r[i + 1] == p[i + 1];
      } else {
        var k := i - (|p| - 1);
        assert r[i] == q[k] && r[i + 1] == q[k + 1];
      }
    }
  }

  /** Any consecutive stretch of a walk is a walk. */
  lemma PathSlice(tasks: seq<Task>, p: seq<TaskId>, i: nat, j: nat)
    requires IsPath(tasks, p) && i < j <= |p|
    ensures IsPath(tasks, p[i..j])
  {
    forall k | 0 <= k < |p[i..j]| - 1
      ensures p[i..j][k + 1] in DepsOf(tasks, p[i..j][k])
    {
      assert p[i..j][k] == p[i + k] && p[i..j][k + 1] == p[i + k + 1];
    }
  }

  lemma ReachesTrans(tasks: seq<Task>, a: TaskId, b: TaskId, c: TaskId)
    requires Reaches(tasks, a, b) && Reaches(tasks, b, c)
    ensures Reaches(tasks, a, c)
  {
    var p :| IsPath(tasks, p) && p[0] == a && p[|p| - 1] == b;
    var q :| IsPath(tasks, q) && q[0] == b && q[|q| - 1] == c;
    PathConcat(tasks, p, q);
  }

  /** A dependency followed by any walk is a transitive dependency. */
  lemma StepThenReaches(tasks: seq<Task>, a: TaskId, b: TaskId, c: TaskId)
    requires b in DepsOf(tasks, a) && Reaches(tasks, b, c)
    ensures DependsTransitively(tasks, a, c)
  {
    var q :| IsPath(tasks, q) && q[0] == b && q[|q| - 1] == c;
    assert IsPath(tasks, [a, b]);
    PathConcat(tasks, [a, b], q);
  }

  lemma DependsThenReaches(tasks: seq<Task>, a: TaskId, b: TaskId, c: TaskId)
    requires DependsTransitively(tasks, a, b) && Reaches(tasks, b, c)
    ensures DependsTransitively(tasks, a, c)
  {
    var p :| IsPath(tasks, p) && |p| >= 2 && p[0] == a && p[|p| - 1] == b;
    var q :| IsPath(tasks, q) && q[0] == b && q[|q| - 1] == c;
    PathConcat(tasks, p, q);
  }

  lemma DependsThenStep(tasks: seq<Task>, a: TaskId, b: TaskId, c: TaskId)
    requires DependsTransitively(tasks, a, b) && c in DepsOf(tasks, b)
    ensures DependsTransitively(tasks, a, c)
  {
    StepDepends(tasks, b, c);
    DependsImpliesReaches(tasks, b, c);
    DependsThenReaches(tasks, a, b, c);
  }

  lemma DependsImpliesReaches(tasks: seq<Task>, a: TaskId, b: TaskId)
    requires DependsTransitively(tasks, a, b)
    ensures Reaches(tasks, a, b)
  {
  }

  /** A transitive dependency starts with a direct one. */
  lemma DependsFirstStep(tasks: seq<Task>, a: TaskId, c: TaskId) returns (b: TaskId)
    requires DependsTransitively(tasks, a, c)
    ensures b in DepsOf(tasks, a) && Reaches(tasks, b, c)
  {
    var p :| IsPath(tasks, p) && |p| >= 2 && p[0] == a && p[|p| - 1] == c;
    b := p[1];
    PathSlice(tasks, p, 1, |p|);
  }

  /** Zero-or-more steps is "the same id" or one-or-more steps. */
  lemma ReachesIff(tasks: seq<Task>, a: TaskId, b: TaskId)
    ensures Reaches(tasks, a, b) <==> a == b || DependsTransitively(tasks, a, b)
  {
    if a == b {
      ReachesRefl(tasks, a);
    }
    if Reaches(tasks, a, b) && a != b {
      var p :| IsPath(tasks, p) && p[0] == a && p[|p| - 1] == b;
      assert |p| >= 2;
    }
  }

  /** Everything reachable from a member of a dependency-closed set is in it. */
  lemma {:induction false} ClosedContainsReachable(tasks: seq<Task>, s: set<TaskId>, p: seq<TaskId>)
    requires ClosedUnderDeps(tasks, s) && IsPath(tasks, p) && p[0] in s
    ensures p[|p| - 1] in s
    decreases |p|
  {
    if |p| > 1 {
      assert p[1] in DepsOf(tasks, p[0]);
      PathSlice(tasks, p, 1, |p|);
      ClosedContainsReachable(tasks, s, p[1..]);
    }
  }

  lemma ClosedContainsReaches(tasks: seq<Task>, s: set<TaskId>, a: TaskId, b: TaskId)
    requires ClosedUnderDeps(tasks, s) && a in s && Reaches(tasks, a, b)
    ensures b in s
  {
    var p :| IsPath(tasks, p) && p[0] == a && p[|p| - 1] == b;
    ClosedContainsReachable(tasks, s, p);
  }

  /** An id that names no task has no dependencies: nothing but itself is
      reachable from it. */
  lemma UnknownIsDeadEnd(tasks: seq<Task>, a: TaskId, b: TaskId)
    requires a !in Ids(tasks)
    ensures Reaches(tasks, a, b) <==> a == b
    ensures !DependsTransitively(tasks, a, b)
  {
    if DependsTransitively(tasks, a, b) {
      var c := DependsFirstStep(tasks, a, b);
      assert false;
    }
    ReachesIff(tasks, a, b);
  }

  /** An id without dependencies reaches nothing but itself. */
  lemma DeadEndReaches(tasks: seq<Task>, a: TaskId, b: TaskId)
    requires DepsOf(tasks, a) == []
    ensures Reaches(tasks, a, b) <==> a == b
    ensures !DependsTransitively(tasks, a, b)
  {
    if DependsTransitively(tasks, a, b) {
      var c := DependsFirstStep(tasks, a, b);
      assert false;
    }
    ReachesIff(tasks, a, b);
  }
}
