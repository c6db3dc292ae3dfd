/** `hierarchicalLayout`: tasks are placed in rows, one row per level of
    `calculateHierarchicalLevels`, rows from level 0 downwards, and within a
    row in list order, spread over 90% of the width. Coordinates are exact
    reals. */
module LevelLayout {
  import opened Options
  import opened Tasks
  import opened Leveling

  /** One entry of the result: `{id, position: {x, y}}`. */
  datatype Position = Position(id: TaskId, x: real, y: real)

  /** Half the width of a rendered node: positions name its left edge. */
  const HalfNodeWidth: real := 125.0

  /** The centre of node `index` of a row of `count` nodes: the middle of
      the canvas for a lone node, otherwise evenly spread over the middle
      90% of the width, the first node at 5% and the last at 95%. */
  function RowX(count: nat, index: nat, width: real): (r: real)
    ensures count == 1 ==> r == width / 2.0
    ensures count > 1 && index == 0 ==> r == 0.05 * width
    ensures count > 1 && index == count - 1 ==> r == 0.95 * width
    ensures count > 1 && index < count && width >= 0.0 ==> 0.05 * width <= r <= 0.95 * width
  {
    var levelWidth := width * 0.9;
    var spacing := if count > 1 then levelWidth / ((count - 1) as real) else 0.0;
    var startX := (width - levelWidth) / 2.0;
    assert startX == 0.05 * width;
    if count > 1 then
      var d := (count - 1) as real;
      assert d >= 1.0 && spacing * d == levelWidth;
      assert index == 0 ==> (index as real) * spacing == 0.0;
      assert index == count - 1 ==> (index as real) * spacing == levelWidth by {
        if index == count - 1 {
          assert index as real == d;
        }
      }
      assert index < count && width >= 0.0 ==> 0.0 <= (index as real) * spacing <= levelWidth by {
        if index < count && width >= 0.0 {
          assert spacing >= 0.0;
          ProductMono(index as real, d, spacing);
        }
      }
      startX + (index as real) * spacing
    else if count == 1 then width / 2.0
    else startX + (index as real) * spacing
  }

  /** Neighbouring nodes of a row of several are the same distance apart:
      `levelWidth / (count - 1)`. */
  lemma RowEvenSpacing(count: nat, index: nat, width: real)
    requires count > 1 && index + 1 < count
    ensures RowX(count, index + 1, width) - RowX(count, index, width) == width * 0.9 / ((count - 1) as real)
  {
    var spacing := width * 0.9 / ((count - 1) as real);
    assert ((index + 1) as real) * spacing == (index as real) * spacing + spacing;
  }

  lemma ProductMono(a: real, b: real, c: real)
    requires 0.0 <= a <= b && c >= 0.0
    ensures 0.0 <= a * c <= b * c
  {
  }

  /** The row of one level: its tasks in list order, at height
      `(level + 1) * levelHeight`. */
  function Row(group: seq<Task>, level: int, width: real, levelHeight: real): (r: seq<Position>)
    ensures |r| == |group|
    ensures forall i :: 0 <= i < |r| ==> r[i].id == group[i].id
  {
    seq(|group|, i requires 0 <= i < |group| =>
      Position(group[i].id, RowX(|group|, i, width) - HalfNodeWidth, RowY(level, levelHeight)))
  }

  /** The height of the row of `level`: `(level + 1) * levelHeight`, so
      with a positive row height every real level lies below the top edge
      and each level one row height below the previous. */
  function RowY(level: int, levelHeight: real): (r: real)
    ensures levelHeight > 0.0 ==> (r > 0.0 <==> level >= 0)
    ensures r - levelHeight == (level as real) * levelHeight
  {
    var a := (level + 1) as real;
    assert levelHeight > 0.0 ==> (a * levelHeight > 0.0 <==> level >= 0) by {
      if levelHeight > 0.0 {
        if level >= 0 {
          ProductMono(1.0, a, levelHeight);
        } else {
          ProductMono(0.0, -a, levelHeight);
          assert a * levelHeight == -((-a) * levelHeight);
        }
      }
    }
    a * levelHeight
  }

  function LevelFn(levels: map<TaskId, int>, level: int): Task -> bool {
    (t: Task) => t.id in levels && levels[t.id] == level
  }

  /** The tasks of one level, in list order (`tasksByLevel.get(level)`). */
  function InLevel(tasks: seq<Task>, levels: map<TaskId, int>, level: int): (r: seq<Task>)
    ensures forall t :: t in r <==> t in tasks && t.id in levels && levels[t.id] == level
  {
    Filter(LevelFn(levels, level), tasks)
  }

  /** The rows of levels `0 .. k - 1`, top to bottom. */
  function RowsBelow(tasks: seq<Task>, levels: map<TaskId, int>, k: nat, width: real, levelHeight: real): seq<Position> {
    if k == 0 then []
    else RowsBelow(tasks, levels, k - 1, width, levelHeight) + Row(InLevel(tasks, levels, k - 1), k - 1, width, levelHeight)
  }

  /** `Math.max` of the levels of the tasks. */
  function MaxLevel(tasks: seq<Task>, levels: map<TaskId, int>): (m: int)
    requires tasks != [] && forall t :: t in tasks ==> t.id in levels
    ensures forall t :: t in tasks ==> levels[t.id] <= m
  {
    if |tasks| == 1 then levels[tasks[0].id]
    else
      var init, last := tasks[..|tasks| - 1], tasks[|tasks| - 1];
      assert tasks == init + [last];
      var m := MaxLevel(init, levels);
      if levels[last.id] > m then levels[last.id] else m
  }

  /** The maximum is the level of some task. */
  lemma {:induction false} MaxLevelAttained(tasks: seq<Task>, levels: map<TaskId, int>)
    requires tasks != [] && forall t :: t in tasks ==> t.id in levels
    ensures exists t :: t in tasks && levels[t.id] == MaxLevel(tasks, levels)
  {
    if |tasks| > 1 {
      var init, last := tasks[..|tasks| - 1], tasks[|tasks| - 1];
      assert tasks == init + [last];
      MaxLevelAttained(init, levels);
      var t :| t in init && levels[t.id] == MaxLevel(init, levels);
      assert t in tasks;
    } else {
      assert tasks[0] in tasks;
    }
  }

  /** What `hierarchicalLayout(tasks, width, height)` returns. */
  function Layout(tasks: seq<Task>, width: real, height: real): (r: seq<Position>)
    ensures |r| == |tasks|
  {
    LayoutWith(tasks, HierarchicalLevels(tasks), width, height)
  }

  /** The layout for given levels: rows `0 .. maxLevel`, each
      `height / (maxLevel + 2)` apart. */
  function LayoutWith(tasks: seq<Task>, levels: map<TaskId, int>, width: real, height: real): (r: seq<Position>)
    requires forall t :: t in tasks ==> t.id in levels && levels[t.id] >= 0
    ensures |r| == |tasks|
  {
    if tasks == [] then []
    else
      var m := MaxLevel(tasks, levels);
      RowsBelowCountAll(tasks, levels, m + 1, width, LevelHeight(height, m));
      RowsBelow(tasks, levels, m + 1, width, LevelHeight(height, m))
  }

  /** `height / (maxLevel + 2)`: the rows leave a margin of one row height
      above and below. */
  function LevelHeight(height: real, maxLevel: int): (r: real)
    requires maxLevel >= 0
    ensures r * ((maxLevel + 2) as real) == height
    ensures height > 0.0 ==> r > 0.0
  {
    height / ((maxLevel + 2) as real)
  }

  /** The grouping `tasks.forEach`: the tasks seen so far with a level. */
  function GroupOf(byLevel: map<int, seq<Task>>, level: int): seq<Task> {
    if level in byLevel then byLevel[level] else []
  }

  /** The `Math.max(...levels.values())` step. */
  method MaxOfLevels(tasks: seq<Task>, levels: map<TaskId, int>) returns (maxLevel: int)
    requires tasks != [] && forall t :: t in tasks ==> t.id in levels
    ensures maxLevel == MaxLevel(tasks, levels)
  {
    maxLevel := levels[tasks[0].id];
    for i := 1 to |tasks|
      invariant maxLevel == MaxLevel(tasks[..i], levels)
    {
      assert tasks[..i + 1][..i] == tasks[..i];
      if levels[tasks[i].id] > maxLevel {
        maxLevel := levels[tasks[i].id];
      }
    }
    assert tasks[..|tasks|] == tasks;
  }

  /** The grouping `tasksByLevel`: each level's tasks in list order. */
  method GroupByLevel(tasks: seq<Task>, levels: map<TaskId, int>) returns (byLevel: map<int, seq<Task>>)
    requires forall t :: t in tasks ==> t.id in levels
    ensures forall l :: GroupOf(byLevel, l) == InLevel(tasks, levels, l)
  {
    byLevel := map[];
    for i := 0 to |tasks|
      invariant forall l :: GroupOf(byLevel, l) == InLevel(tasks[..i], levels, l)
    {
      var task := tasks[i];
      var level := levels[task.id];
      ghost var before := byLevel;
      if level !in byLevel {
        byLevel := byLevel[level := []];
      }
      byLevel := byLevel[level := byLevel[level] + [task]];
      forall l ensures GroupOf(byLevel, l) == InLevel(tasks[..i + 1], levels, l) {
        GroupStep(tasks, levels, i, l);
        assert GroupOf(byLevel, l) == GroupOf(before, l) + if l == level then [task] else [];
      }
    }
    assert tasks[..|tasks|] == tasks;
  }

  /** The placement of one level's tasks, appended to `positions`. */
  method PlaceRow(positions: seq<Position>, tasksInLevel: seq<Task>, level: int, width: real, levelHeight: real)
    returns (out: seq<Position>)
    ensures out == positions + Row(tasksInLevel, level, width, levelHeight)
  {
    out := positions;
    var levelWidth := width * 0.9;
    var taskSpacing := if |tasksInLevel| > 1 then levelWidth / ((|tasksInLevel| - 1) as real) else 0.0;
    var startX := (width - levelWidth) / 2.0;
    ghost var row := Row(tasksInLevel, level, width, levelHeight);
    for index := 0 to |tasksInLevel|
      invariant out == positions + row[..index]
    {
      var x := if |tasksInLevel| == 1 then width / 2.0 else startX + (index as real) * taskSpacing;
      var y := ((level + 1) as real) * levelHeight;
      assert row[index] == Position(tasksInLevel[index].id, x - HalfNodeWidth, y);
      assert row[..index + 1] == row[..index] + [row[index]];
      out := out + [Position(tasksInLevel[index].id, x - HalfNodeWidth, y)];
    }
    assert row[..|tasksInLevel|] == row;
  }

  /** `hierarchicalLayout(tasks, width, height)`. It depends on nothing
      but its arguments, so repeated calls give the same positions. */
  method HierarchicalLayout(tasks: seq<Task>, width: real, height: real) returns (positions: seq<Position>)
    ensures positions == Layout(tasks, width, height)
  {
    if |tasks| == 0 {
      return [];
    }
    var levels := CalculateHierarchicalLevels(tasks);
    var maxLevel := MaxOfLevels(tasks, levels);
    var levelHeight := LevelHeight(height, maxLevel);
    var byLevel := GroupByLevel(tasks, levels);
    positions := PlaceRows(tasks, levels, byLevel, maxLevel, width, levelHeight);
    assert positions == LayoutWith(tasks, levels, width, height);
  }

  /** The `for (level = 0; level <= maxLevel; level++)` loop. */
  method PlaceRows(tasks: seq<Task>, levels: map<TaskId, int>, byLevel: map<int, seq<Task>>,
                   maxLevel: int, width: real, levelHeight: real) returns (positions: seq<Position>)
    requires maxLevel >= 0
    requires forall l :: GroupOf(byLevel, l) == InLevel(tasks, levels, l)
    ensures positions == RowsBelow(tasks, levels, maxLevel + 1, width, levelHeight)
  {
    positions := [];
    for level := 0 to maxLevel + 1
      invariant positions == RowsBelow(tasks, levels, level, width, levelHeight)
    {
      var tasksInLevel := if level in byLevel then byLevel[level] else [];
      assert tasksInLevel == GroupOf(byLevel, level);
      positions := PlaceRow(positions, tasksInLevel, level, width, levelHeight);
    }
  }

  /** Adding the next task to the grouping extends exactly its level. */
  lemma GroupStep(tasks: seq<Task>, levels: map<TaskId, int>, i: nat, l: int)
    requires i < |tasks| && tasks[i].id in levels
    ensures InLevel(tasks[..i + 1], levels, l) ==
      InLevel(tasks[..i], levels, l) + (if levels[tasks[i].id] == l then [tasks[i]] else [])
  {
    assert tasks[..i + 1] == tasks[..i] + [tasks[i]];
    FilterAppend(LevelFn(levels, l), tasks[..i], [tasks[i]]);
  }

  function BelowFn(levels: map<TaskId, int>, k: int): Task -> bool {
    (t: Task) => t.id in levels && 0 <= levels[t.id] < k
  }

  function PlacedAtLevel(levels: map<TaskId, int>, level: int): Position -> bool {
    (p: Position) => p.id in levels && levels[p.id] == level
  }

  /** Splitting a filter into two disjoint ones splits its length. */
  lemma {:induction false} FilterSplitCount<T(!new)>(p: T -> bool, q: T -> bool, r: T -> bool, s: seq<T>)
    requires forall x :: p(x) == (q(x) || r(x))
    requires forall x :: !(q(x) && r(x))
    ensures |Filter(p, s)| == |Filter(q, s)| + |Filter(r, s)|
  {
    if s != [] {
      FilterSplitCount(p, q, r, s[1..]);
    }
  }

  /** A position of the rows below `k`: it belongs to a task of a level
      below `k` and sits at that level's height. */
  ghost predicate PlacedBelow(tasks: seq<Task>, levels: map<TaskId, int>, k: int, levelHeight: real, p: Position) {
    p.id in levels && 0 <= levels[p.id] < k && p.y == RowY(levels[p.id], levelHeight)
  }

  /** The level of an id, -1 for an id without one. */
  function LevelOf(levels: map<TaskId, int>, id: TaskId): int {
    if id in levels then levels[id] else -1
  }

  /** Levels never decrease along the list. */
  ghost predicate LevelsAscend(levels: map<TaskId, int>, ps: seq<Position>) {
    forall i, j :: 0 <= i < j < |ps| ==> LevelOf(levels, ps[i].id) <= LevelOf(levels, ps[j].id)
  }

  /** The rows of levels below `k`: every position is placed at its task's
      level, and levels never decrease along the list. */
  lemma {:induction false} RowsBelowFacts(tasks: seq<Task>, levels: map<TaskId, int>, k: nat, width: real, levelHeight: real)
    ensures forall p :: p in RowsBelow(tasks, levels, k, width, levelHeight) ==> PlacedBelow(tasks, levels, k, levelHeight, p)
    ensures LevelsAscend(levels, RowsBelow(tasks, levels, k, width, levelHeight))
  {
    if k > 0 {
      RowsBelowFacts(tasks, levels, k - 1, width, levelHeight);
      var before := RowsBelow(tasks, levels, k - 1, width, levelHeight);
      var group := InLevel(tasks, levels, k - 1);
      var row := Row(group, k - 1, width, levelHeight);
      var all := before + row;
      assert RowsBelow(tasks, levels, k, width, levelHeight) == all;
      RowOfLevel(tasks, levels, k - 1, width, levelHeight);
      forall p | p in row ensures LevelOf(levels, p.id) == k - 1 && PlacedBelow(tasks, levels, k, levelHeight, p) {
      }
      forall p | p in before ensures PlacedBelow(tasks, levels, k, levelHeight, p) && LevelOf(levels, p.id) < k - 1 {
        assert PlacedBelow(tasks, levels, k - 1, levelHeight, p);
      }
      forall i, j | 0 <= i < j < |all| ensures LevelOf(levels, all[i].id) <= LevelOf(levels, all[j].id) {
        if j >= |before| {
          assert all[j] in row;
          if i >= |before| {
            assert all[i] in row;
          } else {
            assert all[i] in before;
          }
        } else {
          assert before[i] == all[i] && before[j] == all[j];
        }
      }
    }
  }

  /** Every position of the row of `level` belongs to a task of that
      level. */
  lemma RowOfLevel(tasks: seq<Task>, levels: map<TaskId, int>, level: int, width: real, levelHeight: real)
    ensures forall x :: x in Row(InLevel(tasks, levels, level), level, width, levelHeight) ==>
      x.id in levels && levels[x.id] == level && x.y == RowY(level, levelHeight)
  {
    var group := InLevel(tasks, levels, level);
    var row := Row(group, level, width, levelHeight);
    forall x | x in row ensures x.id in levels && levels[x.id] == level && x.y == RowY(level, levelHeight) {
      var i :| 0 <= i < |row| && row[i] == x;
      assert group[i] in group;
    }
  }

  /** The rows below `k` hold one position per task of a level below `k`. */
  lemma {:induction false} RowsBelowCount(tasks: seq<Task>, levels: map<TaskId, int>, k: nat, width: real, levelHeight: real)
    ensures |RowsBelow(tasks, levels, k, width, levelHeight)| == |Filter(BelowFn(levels, k), tasks)|
  {
    if k == 0 {
      FilterNone(BelowFn(levels, 0), tasks);
    } else {
      RowsBelowCount(tasks, levels, k - 1, width, levelHeight);
      FilterSplitCount(BelowFn(levels, k), BelowFn(levels, k - 1), LevelFn(levels, k - 1), tasks);
    }
  }

  /** The top row is all that level `k - 1` contributes to the rows below
      `k`. */
  lemma TopRowLevel(tasks: seq<Task>, levels: map<TaskId, int>, k: nat, width: real, levelHeight: real)
    requires k > 0
    ensures Filter(PlacedAtLevel(levels, k - 1), RowsBelow(tasks, levels, k, width, levelHeight)) ==
      Row(InLevel(tasks, levels, k - 1), k - 1, width, levelHeight)
  {
    var f := PlacedAtLevel(levels, k - 1);
    var before := RowsBelow(tasks, levels, k - 1, width, levelHeight);
    var row := Row(InLevel(tasks, levels, k - 1), k - 1, width, levelHeight);
    assert RowsBelow(tasks, levels, k, width, levelHeight) == before + row;
    FilterAppend(f, before, row);
    RowOfLevel(tasks, levels, k - 1, width, levelHeight);
    NothingBelowAtLevel(tasks, levels, k - 1, width, levelHeight);
    forall x | x in row ensures f(x) {
    }
    FilterAll(f, row);
    assert Filter(f, before) + Filter(f, row) == row;
  }

  /** No position of the rows below `k` sits at level `k`. */
  lemma NothingBelowAtLevel(tasks: seq<Task>, levels: map<TaskId, int>, k: nat, width: real, levelHeight: real)
    ensures Filter(PlacedAtLevel(levels, k), RowsBelow(tasks, levels, k, width, levelHeight)) == []
  {
    var f := PlacedAtLevel(levels, k);
    var before := RowsBelow(tasks, levels, k, width, levelHeight);
    RowsBelowFacts(tasks, levels, k, width, levelHeight);
    forall x | x in before ensures !f(x) {
      assert PlacedBelow(tasks, levels, k, levelHeight, x);
    }
    FilterNone(f, before);
  }

  /** Picking the positions of level `l` out of the rows below `k` gives
      exactly the row of level `l`. */
  lemma {:induction false} RowsBelowLevel(tasks: seq<Task>, levels: map<TaskId, int>, k: nat, width: real, levelHeight: real, l: int)
    requires 0 <= l < k
    ensures Filter(PlacedAtLevel(levels, l), RowsBelow(tasks, levels, k, width, levelHeight)) ==
      Row(InLevel(tasks, levels, l), l, width, levelHeight)
  {
    if l == k - 1 {
      TopRowLevel(tasks, levels, k, width, levelHeight);
    } else {
      RowsBelowLevel(tasks, levels, k - 1, width, levelHeight, l);
      LowerRowLevel(tasks, levels, k, width, levelHeight, l);
    }
  }

  /** The induction step of `RowsBelowLevel`: the top row adds nothing at
      a lower level. */
  lemma LowerRowLevel(tasks: seq<Task>, levels: map<TaskId, int>, k: nat, width: real, levelHeight: real, l: int)
    requires 0 <= l < k - 1
    requires Filter(PlacedAtLevel(levels, l), RowsBelow(tasks, levels, k - 1, width, levelHeight)) ==
      Row(InLevel(tasks, levels, l), l, width, levelHeight)
    ensures Filter(PlacedAtLevel(levels, l), RowsBelow(tasks, levels, k, width, levelHeight)) ==
      Row(InLevel(tasks, levels, l), l, width, levelHeight)
  {
    var f := PlacedAtLevel(levels, l);
    var before := RowsBelow(tasks, levels, k - 1, width, levelHeight);
    var row := Row(InLevel(tasks, levels, k - 1), k - 1, width, levelHeight);
    assert RowsBelow(tasks, levels, k, width, levelHeight) == before + row;
    FilterAppend(f, before, row);
    RowOfLevel(tasks, levels, k - 1, width, levelHeight);
    forall x | x in row ensures !f(x) {
    }
    FilterNone(f, row);
    assert Filter(f, before) + Filter(f, row) == Filter(f, before);
  }


  /** Rows below a bound above every level hold the whole list. */
  lemma RowsBelowCountAll(tasks: seq<Task>, levels: map<TaskId, int>, k: nat, width: real, levelHeight: real)
    requires forall t :: t in tasks ==> t.id in levels && 0 <= levels[t.id] < k
    ensures |RowsBelow(tasks, levels, k, width, levelHeight)| == |tasks|
  {
    RowsBelowCount(tasks, levels, k, width, levelHeight);
    forall t | t in tasks ensures BelowFn(levels, k)(t) {
    }
    FilterAll(BelowFn(levels, k), tasks);
  }

  /** The placement facts of the rows, for the layout of given levels. */
  lemma LayoutWithPlacement(tasks: seq<Task>, levels: map<TaskId, int>, width: real, height: real)
    requires tasks != []
    requires forall t :: t in tasks ==> t.id in levels && levels[t.id] >= 0
    ensures forall p :: p in LayoutWith(tasks, levels, width, height) ==>
      PlacedBelow(tasks, levels, MaxLevel(tasks, levels) + 1, LevelHeight(height, MaxLevel(tasks, levels)), p)
    ensures LevelsAscend(levels, LayoutWith(tasks, levels, width, height))
  {
    var m := MaxLevel(tasks, levels);
    var rows := RowsBelow(tasks, levels, m + 1, width, LevelHeight(height, m));
    assert LayoutWith(tasks, levels, width, height) == rows;
    RowsBelowFacts(tasks, levels, m + 1, width, LevelHeight(height, m));
  }

  /** `hierarchicalLayout` returns one position per task, each naming a
      task of the list, with levels never decreasing along the result, and
      each at the height of its task's level. */
  lemma LayoutPlacesEveryTask(tasks: seq<Task>, width: real, height: real)
    ensures |Layout(tasks, width, height)| == |tasks|
    ensures forall p :: p in Layout(tasks, width, height) ==> p.id in Ids(tasks)
    ensures LevelsAscend(HierarchicalLevels(tasks), Layout(tasks, width, height))
    ensures tasks != [] ==> forall p :: p in Layout(tasks, width, height) ==>
      p.y == RowY(HierarchicalLevels(tasks)[p.id], LevelHeight(height, MaxLevel(tasks, HierarchicalLevels(tasks))))
  {
    var levels := HierarchicalLevels(tasks);
    var layout := Layout(tasks, width, height);
    assert layout == LayoutWith(tasks, levels, width, height);
    if tasks != [] {
      var m := MaxLevel(tasks, levels);
      LayoutWithPlacement(tasks, levels, width, height);
      forall p | p in layout ensures p.id in Ids(tasks) && p.y == RowY(levels[p.id], LevelHeight(height, m)) {
        assert p in LayoutWith(tasks, levels, width, height);
        assert PlacedBelow(tasks, levels, m + 1, LevelHeight(height, m), p);
      }
    }
  }

  /** With a positive height every row lies strictly inside it: level `l`
      of `0 .. m` sits at `(l + 1) / (m + 2)` of the height. */
  lemma RowHeightBounds(height: real, m: int, l: int)
    requires height > 0.0 && 0 <= l <= m
    ensures 0.0 < RowY(l, LevelHeight(height, m)) < height
  {
    var lh := LevelHeight(height, m);
    var d := (m + 2) as real;
    assert lh * d == height;
    assert lh > 0.0;
    var a := (l + 1) as real;
    assert 0.0 < a < d;
    assert a * lh < d * lh;
  }

  lemma LayoutWithinHeight(tasks: seq<Task>, width: real, height: real)
    requires height > 0.0
    ensures forall p :: p in Layout(tasks, width, height) ==> 0.0 < p.y < height
  {
    if tasks != [] {
      var levels := HierarchicalLevels(tasks);
      var m := MaxLevel(tasks, levels);
      LayoutPlacesEveryTask(tasks, width, height);
      forall p | p in Layout(tasks, width, height) ensures 0.0 < p.y < height {
        var t :| t in tasks && t.id == p.id;
        RowHeightBounds(height, m, levels[p.id]);
      }
    }
  }

  /** Within one level the positions follow the list order of that level's
      tasks: the positions of level `l` are exactly its row. */
  lemma LayoutRowsKeepListOrder(tasks: seq<Task>, width: real, height: real, l: int)
    requires tasks != []
    requires 0 <= l <= MaxLevel(tasks, HierarchicalLevels(tasks))
    ensures var levels := HierarchicalLevels(tasks);
      var m := MaxLevel(tasks, levels);
      Filter(PlacedAtLevel(levels, l), Layout(tasks, width, height)) ==
        Row(InLevel(tasks, levels, l), l, width, LevelHeight(height, m))
  {
    var levels := HierarchicalLevels(tasks);
    var m := MaxLevel(tasks, levels);
    RowsBelowLevel(tasks, levels, m + 1, width, LevelHeight(height, m), l);
  }

  /** A task alone on its level is centred: `x = width / 2 - 125`. */
  lemma LoneTaskIsCentred(tasks: seq<Task>, width: real, height: real, l: int)
    requires tasks != []
    requires 0 <= l <= MaxLevel(tasks, HierarchicalLevels(tasks))
    requires |InLevel(tasks, HierarchicalLevels(tasks), l)| == 1
    ensures exists p :: (p in Layout(tasks, width, height) &&
      p.id == InLevel(tasks, HierarchicalLevels(tasks), l)[0].id && p.x == width / 2.0 - HalfNodeWidth)
  {
    var levels := HierarchicalLevels(tasks);
    var m := MaxLevel(tasks, levels);
    var row := Row(InLevel(tasks, levels, l), l, width, LevelHeight(height, m));
    LayoutRowsKeepListOrder(tasks, width, height, l);
    assert RowX(1, 0, width) == width / 2.0;
    assert row[0].x == width / 2.0 - HalfNodeWidth;
    assert row[0] in Filter(PlacedAtLevel(levels, l), Layout(tasks, width, height));
  }

  /** A row of several tasks spans the middle 90% of the width, from
      `0.05 * width` to `0.95 * width` (left edges 125 further left), and
      with a positive width runs strictly left to right in list order. */
  lemma RowSpread(group: seq<Task>, level: int, width: real, levelHeight: real)
    requires |group| > 1
    ensures Row(group, level, width, levelHeight)[0].x == 0.05 * width - HalfNodeWidth
    ensures Row(group, level, width, levelHeight)[|group| - 1].x == 0.95 * width - HalfNodeWidth
    ensures width > 0.0 ==> forall i, j :: 0 <= i < j < |group| ==>
      Row(group, level, width, levelHeight)[i].x < Row(group, level, width, levelHeight)[j].x
  {
    var n := |group|;
    var d := (n - 1) as real;
    var spacing := width * 0.9 / d;
    assert spacing * d == width * 0.9;
    assert RowX(n, n - 1, width) == 0.05 * width + d * spacing;
    if width > 0.0 {
      assert spacing > 0.0;
      forall i, j | 0 <= i < j < n ensures RowX(n, i, width) < RowX(n, j, width) {
        assert (i as real) * spacing < (j as real) * spacing;
      }
    }
  }
}
