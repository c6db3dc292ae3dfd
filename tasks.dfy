/** The task record of the board and the lookups every other component
    builds on: the status enumeration, `Array.prototype.find` by id, the
    `depends_on` list of a task, and order-preserving filtering. */
module Tasks {
  import opened Options

  type TaskId = string

  // The status enumeration `TaskStatus`; a task stores the bare number.
  const TODO: int := 0
  const IN_PROGRESS: int := 1
  const DONE: int := 2
  const REVIEW: int := 3
  const BLOCKED: int := 4

  /** `Object.values(TaskStatus)`, in declaration order. */
  const StatusValues: seq<int> := [TODO, IN_PROGRESS, DONE, REVIEW, BLOCKED]

  predicate IsStatus(code: int) {
    code in StatusValues
  }

  lemma StatusValuesAreZeroToFour(code: int)
    ensures IsStatus(code) <==> 0 <= code <= 4
  {
  }

  /** A task record. A missing name or description is the empty string; a
      `users`, `tags` or `depends_on` field that is absent or not an array is
      `None`. */
  datatype Task = Task(
    id: TaskId,
    name: string,
    description: string,
    status: int,
    users: Option<seq<string>>,
    tags: Option<seq<string>>,
    dependsOn: Option<seq<TaskId>>)

  /** The dependency ids of a task; a missing list behaves as empty. */
  function Deps(t: Task): seq<TaskId> {
    t.dependsOn.GetOr([])
  }

  /** The set of ids that name a task of the list. */
  function Ids(tasks: seq<Task>): set<TaskId> {
    set t | t in tasks :: t.id
  }

  /** `tasks.find(t => t.id === id)`: the first task with that id. */
  function Find(tasks: seq<Task>, id: TaskId): (r: Option<Task>)
    ensures r.Some? ==> r.value in tasks && r.value.id == id
    ensures r.None? <==> id !in Ids(tasks)
  {
    if tasks == [] then None
    else if tasks[0].id == id then Some(tasks[0])
    else
      var r := Find(tasks[1..], id);
      assert Ids(tasks) == {tasks[0].id} + Ids(tasks[1..]);
      r
  }

  /** `find` returns the first match: the task found sits at an index
      before which no task has the id. */
  lemma {:induction false} FindIsFirst(tasks: seq<Task>, id: TaskId)
    ensures Find(tasks, id).Some? ==>
      exists i :: 0 <= i < |tasks| && tasks[i] == Find(tasks, id).value &&
        forall j :: 0 <= j < i ==> tasks[j].id != id
  {
    if tasks != [] && tasks[0].id != id && Find(tasks, id).Some? {
      FindIsFirst(tasks[1..], id);
      var i :| 0 <= i < |tasks[1..]| && tasks[1..][i] == Find(tasks[1..], id).value &&
        forall j :: 0 <= j < i ==> tasks[1..][j].id != id;
      assert tasks[i + 1] == Find(tasks, id).value;
      forall j | 0 <= j < i + 1 ensures tasks[j].id != id {
        if j > 0 {
          assert tasks[j] == tasks[1..][j - 1];
        }
      }
    } else if tasks != [] && tasks[0].id == id {
      assert tasks[0] == Find(tasks, id).value;
    }
  }

  /** The dependency list of the first task with that id, or none when no
      task has it: one step of the depends_on relation. */
  function DepsOf(tasks: seq<Task>, id: TaskId): seq<TaskId> {
    match Find(tasks, id)
    case None => []
    case Some(t) => Deps(t)
  }

  ghost predicate UniqueIds(tasks: seq<Task>) {
    forall i, j :: 0 <= i < j < |tasks| ==> tasks[i].id != tasks[j].id
  }

  /** With unique ids, looking a task up by its own id finds that task. */
  lemma {:induction false} FindOwnId(tasks: seq<Task>, t: Task)
    requires UniqueIds(tasks) && t in tasks
    ensures Find(tasks, t.id) == Some(t)
  {
    if tasks[0] != t {
      assert tasks[0].id != t.id by {
        var k :| 0 <= k < |tasks| && tasks[k] == t;
        assert k > 0;
      }
      assert UniqueIds(tasks[1..]) by {
        forall i, j | 0 <= i < j < |tasks[1..]|
          ensures tasks[1..][i].id != tasks[1..][j].id
        {
          assert tasks[1..][i] == tasks[i + 1] && tasks[1..][j] == tasks[j + 1];
        }
      }
      FindOwnId(tasks[1..], t);
    }
  }

  ghost predicate NoDup<T>(s: seq<T>) {
    forall i, j :: 0 <= i < j < |s| ==> s[i] != s[j]
  }

  /** `s.filter(p)`: the elements satisfying `p`, in their original order. */
  function Filter<T(!new)>(p: T -> bool, s: seq<T>): (r: seq<T>)
    ensures |r| <= |s|
    ensures forall x :: x in r <==> x in s && p(x)
  {
    if s == [] then [] else (if p(s[0]) then [s[0]] else []) + Filter(p, s[1..])
  }

  /** Filtering distributes over concatenation, so it keeps the relative
      order of the elements it keeps. */
  lemma {:induction false} FilterAppend<T(!new)>(p: T -> bool, a: seq<T>, b: seq<T>)
    ensures Filter(p, a + b) == Filter(p, a) + Filter(p, b)
  {
    if a == [] {
      assert a + b == b;
    } else {
      assert (a + b)[0] == a[0] && (a + b)[1..] == a[1..] + b;
      FilterAppend(p, a[1..], b);
      var head := if p(a[0]) then [a[0]] else [];
      assert Filter(p, a + b) == head + (Filter(p, a[1..]) + Filter(p, b));
    }
  }

  /** Two predicates that agree on every element filter alike. */
  lemma {:induction false} FilterCongruent<T(!new)>(p: T -> bool, q: T -> bool, s: seq<T>)
    requires forall x :: x in s ==> p(x) == q(x)
    ensures Filter(p, s) == Filter(q, s)
  {
    if s != [] {
      FilterCongruent(p, q, s[1..]);
    }
  }

  /** A filter every element fails keeps nothing. */
  lemma FilterNone<T(!new)>(p: T -> bool, s: seq<T>)
    requires forall x :: x in s ==> !p(x)
    ensures Filter(p, s) == []
  {
  }

  /** A filter keeps every element exactly when all elements pass. */
  lemma {:induction false} FilterAll<T(!new)>(p: T -> bool, s: seq<T>)
    requires forall x :: x in s ==> p(x)
    ensures Filter(p, s) == s
  {
    if s != [] {
      FilterAll(p, s[1..]);
    }
  }

  /** The number of occurrences of `x` in `s`, computed from the back. */
  function Count<T(==)>(s: seq<T>, x: T): (n: nat)
    ensures n <= |s|
    ensures n == 0 <==> x !in s
  {
    if s == [] then 0 else Count(s[..|s| - 1], x) + (if s[|s| - 1] == x then 1 else 0)
  }

  /** One more element of a prefix: its count and membership grow by it. */
  lemma CountPrefixStep<T>(s: seq<T>, j: nat)
    requires j < |s|
    ensures forall x :: Count(s[..j + 1], x) == Count(s[..j], x) + (if s[j] == x then 1 else 0)
    ensures forall x :: x in s[..j + 1] <==> x in s[..j] || x == s[j]
  {
    assert s[..j + 1][..j] == s[..j];
    assert s[..j + 1] == s[..j] + [s[j]];
  }

  lemma CountAppend<T>(a: seq<T>, b: seq<T>, x: T)
    ensures Count(a + b, x) == Count(a, x) + Count(b, x)
    decreases |b|
  {
    if b == [] {
      assert a + b == a;
    } else {
      assert (a + b)[..|a + b| - 1] == a + b[..|b| - 1];
      assert (a + b)[|a + b| - 1] == b[|b| - 1];
      CountAppend(a, b[..|b| - 1], x);
    }
  }

  /** Adding a member of `u` to `v` shrinks what is left of `u`. */
  lemma RemainingShrinks(u: set<TaskId>, v: set<TaskId>, w: set<TaskId>, x: TaskId)
    requires x in u && x !in v && v + {x} <= w
    ensures |u - w| < |u - v|
  {
    assert u - w <= (u - v) - {x};
    assert |(u - v) - {x}| == |u - v| - 1;
    SubsetCard(u - w, (u - v) - {x});
  }

  lemma {:induction false} SubsetCard(a: set<TaskId>, b: set<TaskId>)
    requires a <= b
    ensures |a| <= |b|
    decreases |b|
  {
    if a != {} {
      var x :| x in a;
      SubsetCard(a - {x}, b - {x});
    }
  }
}
