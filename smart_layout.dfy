/** `smartLayout`: the choice between the hierarchical and the
    force-directed layout from two measures of the dependency structure,
    the average number of listed dependencies per task and the longest
    dependency chain. */
module SmartLayout {
  import opened Options
  import opened Tasks
  import opened Chain
  import opened LevelLayout

  /** Which layout `smartLayout` produces. */
  datatype LayoutChoice = NoLayout | Hierarchical | ForceDirected

  /** The `reduce` summing the lengths of all dependency lists (a missing
      list counts 0). */
  function TotalDependencies(tasks: seq<Task>): (r: nat)
    ensures forall t :: t in tasks ==> |Deps(t)| <= r
  {
    if tasks == [] then 0
    else
      assert tasks == tasks[..|tasks| - 1] + [tasks[|tasks| - 1]];
      TotalDependencies(tasks[..|tasks| - 1]) + |Deps(tasks[|tasks| - 1])|
  }

  /** The decision: an empty list gives `[]`; otherwise hierarchical when
      the chain is longer than 2 and the average exceeds 0.3, else
      force-directed. On integers the threshold reads `10 * total > 3 * n`. */
  function ChooseLayout(n: nat, totalDependencies: nat, maxChain: nat): (c: LayoutChoice)
    ensures c == NoLayout <==> n == 0
    ensures c == Hierarchical <==> n > 0 && maxChain > 2 && 10 * totalDependencies > 3 * n
  {
    if n == 0 then NoLayout
    else
      AverageThreshold(n, totalDependencies);
      if maxChain > 2 && (totalDependencies as real) / (n as real) > 0.3 then Hierarchical else ForceDirected
  }

  /** The average exceeds 0.3 exactly when ten times the total exceeds
      three times the count. */
  lemma AverageThreshold(n: nat, total: nat)
    requires n > 0
    ensures (total as real) / (n as real) > 0.3 <==> 10 * total > 3 * n
  {
    var r := n as real;
    var avg := (total as real) / r;
    assert avg * r == total as real;
    if avg > 0.3 {
      ProductSign(avg - 0.3, r);
      assert (avg - 0.3) * r == avg * r - 0.3 * r;
    } else {
      ProductSign(0.3 - avg, r);
      assert (0.3 - avg) * r == 0.3 * r - avg * r;
    }
  }

  lemma ProductSign(a: real, b: real)
    requires a >= 0.0 && b > 0.0
    ensures a * b >= 0.0 && (a > 0.0 ==> a * b > 0.0)
  {
  }

  /** The total is the sum of the lengths of the lists, so it is zero
      exactly when no task lists a dependency. */
  lemma {:induction false} TotalDependenciesZero(tasks: seq<Task>)
    ensures TotalDependencies(tasks) == 0 <==> forall t :: t in tasks ==> Deps(t) == []
  {
    if tasks != [] {
      var init, last := tasks[..|tasks| - 1], tasks[|tasks| - 1];
      assert tasks == init + [last];
      TotalDependenciesZero(init);
    }
  }

  /** `smartLayout(tasks, width, height)`: the choice, the chain length it
      rests on, and for the hierarchical choice its positions. The
      force-directed positions are not modelled, so that choice comes with
      an empty list. */
  method SmartLayout(tasks: seq<Task>, width: real, height: real)
    returns (choice: LayoutChoice, maxChain: nat, positions: seq<Position>)
    ensures choice == ChooseLayout(|tasks|, TotalDependencies(tasks), maxChain)
    ensures choice == NoLayout ==> positions == []
    ensures choice == Hierarchical ==> positions == Layout(tasks, width, height)
    ensures tasks != [] ==> (maxChain == 0 <==> forall t :: t in tasks ==> DepsOf(tasks, t.id) == [])
    ensures maxChain > 0 ==> exists t :: t in tasks && WalkFrom(tasks, t.id, maxChain)
  {
    positions := [];
    maxChain := 0;
    if |tasks| == 0 {
      choice := NoLayout;
      return;
    }
    var totalDependencies := 0;
    for i := 0 to |tasks|
      invariant totalDependencies == TotalDependencies(tasks[..i])
    {
      assert tasks[..i + 1][..i] == tasks[..i];
      totalDependencies := totalDependencies + |Deps(tasks[i])|;
    }
    assert tasks[..|tasks|] == tasks;
    maxChain := MaxDependencyChain(tasks);
    choice := ChooseLayout(|tasks|, totalDependencies, maxChain);
    if choice == Hierarchical {
      positions := HierarchicalLayout(tasks, width, height);
    } else {
      choice := ForceDirected;
    }
  }

  /** The hierarchical layout is chosen only for a list in which some task
      starts a dependency walk of at least three steps. */
  lemma HierarchicalNeedsLongWalk(tasks: seq<Task>, maxChain: nat)
    requires ChooseLayout(|tasks|, TotalDependencies(tasks), maxChain) == Hierarchical
    requires exists t :: t in tasks && WalkFrom(tasks, t.id, maxChain)
    ensures exists t, k :: t in tasks && k >= 3 && WalkFrom(tasks, t.id, k)
  {
    var t :| t in tasks && WalkFrom(tasks, t.id, maxChain);
    assert maxChain >= 3;
  }

  /** A list without any dependency lists is never laid out
      hierarchically. */
  lemma NoDependenciesForceDirected(tasks: seq<Task>, maxChain: nat)
    requires tasks != [] && forall t :: t in tasks ==> Deps(t) == []
    ensures ChooseLayout(|tasks|, TotalDependencies(tasks), maxChain) == ForceDirected
  {
    TotalDependenciesZero(tasks);
  }
}
