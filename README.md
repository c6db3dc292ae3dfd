# Meshwork task dependencies, modelled in Dafny

Meshwork is a task board whose tasks form a dependency graph: a task
carries the ids of the tasks it `depends_on`. The board validates tasks,
decides which status moves are allowed, follows dependencies
transitively, detects cycles, sorts the tasks topologically, levels
the graph with Kahn's algorithm, and lays the levels out as rows. It also
measures the longest dependency chain, filters and counts tasks, and
keeps the drawn edges in step with the tasks when the user links or
deletes nodes.

This project models that core. It covers the helpers of the front end's
`utils/taskUtils.js` and the dependency edits of `components/TaskFlow.js`.

- **Values and functions:** tasks, statuses, links, edges, positions and
  statistics are datatypes. Filtering, validation order and the layout
  rows are functions.
- **Methods:** the source's loops and recursive searches are methods with
  loop invariants. These are the depth-first searches with shared
  `visited` sets, Kahn's queue, and the `forEach` accumulations into maps.
  Each method is proved equal to a specification function, or states
  outright what it computes.
- **Dependency meaning:** "depends on" is the `depends_on` list of the
  first task with an id, because `tasks.find` returns the first match.
  Reachability is stated with explicit dependency walks: `Reaches` (zero
  or more steps), `DependsTransitively` (one or more), `OnCycle` and
  `Acyclic`.
- **Parameters:** the JavaScript defaults (`width = 1200`,
  `height = 800`, `allTasks = []`) are ordinary parameters.
- **Absent fields:** a field that is missing or not an array is `None`.

Module layout:

| module | file | models |
|---|---|---|
| Options | options.dfy | `Option` with the JavaScript `x \|\| default` |
| Tasks | tasks.dfy | `TaskStatus`, the task record, `find`, `filter`, counting |
| Validation | validation.dfy | `validateTask`, with `String.prototype.trim` |
| Transitions | transitions.dfy | `canMoveToStatus` |
| Queries | queries.dfy | `getDependentTasks`, `getTasksByStatus`, `calculateTaskProgress`, `filterTasks` |
| Reachability | reachability.dfy | walks, transitive dependency, cycles |
| DependencyClosure | closure.dfy | `getAllDependencies`, `hasCircularDependency` |
| CycleGuard | cycle_guard.dfy | `checkForCircularDependency` |
| TopoSort | topo_sort.dfy | `sortTasksByDependencies` |
| DependencyGraph | dependency_graph.dfy | `buildDependencyGraph` |
| Leveling | leveling.dfy | `calculateHierarchicalLevels` as code and as a state machine |
| LevelOrder | level_order.dfy | what the levels mean |
| LevelLayout | layout.dfy | `hierarchicalLayout` |
| Chain | chain.dfy | `calculateMaxDependencyChain` |
| SmartLayout | smart_layout.dfy | `smartLayout`'s choice |
| Statistics | statistics.dfy | `getTaskStatistics` |
| FlowEdits | flow_edits.dfy | edge derivation, node deletion, linking by click and by drag |

## Model

Source paths are relative to the repository root.

| member | source | states |
|---|---|---|
| Tasks.StatusValuesAreZeroToFour | meshwork/frontend/meshwork-ui/src/utils/taskUtils.js:2-8 | the five status codes are exactly the integers 0 to 4 |
| Tasks.Find | meshwork/frontend/meshwork-ui/src/utils/taskUtils.js:149 | the lookup finds a listed task with that id, and finds none exactly when no task has the id |
| Tasks.FindIsFirst | meshwork/frontend/meshwork-ui/src/utils/taskUtils.js:149 | the task found is the first with that id: it sits at an index before which no task has the id |
| Tasks.FindOwnId | meshwork/frontend/meshwork-ui/src/utils/taskUtils.js:149 | with unique ids, looking up a task's own id returns that task |
| Tasks.Filter | meshwork/frontend/meshwork-ui/src/utils/taskUtils.js:185-187 | `Array.prototype.filter`: the result holds exactly the elements that pass, and is no longer than the input |
| Tasks.FilterAppend | meshwork/frontend/meshwork-ui/src/utils/taskUtils.js:185-187 | filtering a concatenation filters each part |
| Validation.ValidateTask | meshwork/frontend/meshwork-ui/src/utils/taskUtils.js:66-101 | the error list is the messages of the failed checks in check order; the task is valid exactly when the list is empty |
| Validation.ValidationErrors | meshwork/frontend/meshwork-ui/src/utils/taskUtils.js:69-95 | each message appears exactly when its check fails, only the seven messages occur, and they keep the order of the checks |
| Validation.ValidIffAllChecksPass | meshwork/frontend/meshwork-ui/src/utils/taskUtils.js:69-98 | no errors exactly when the name is non-blank with at most 100 characters, the description has at most 1000, the status is one of the five, and users, tags and depends_on are arrays |
| Validation.WellFormedPasses | meshwork/frontend/meshwork-ui/src/utils/taskUtils.js:69-98 | a task with a visible character in its name, both lengths in bounds, a status 0 to 4 and all three lists present has no errors |
| Validation.LongBlankNameFailsTwice | meshwork/frontend/meshwork-ui/src/utils/taskUtils.js:69-75 | a name of more than 100 white-space characters fails both the required check and the length check |
| Validation.TrimEmptyIffBlank | meshwork/frontend/meshwork-ui/src/utils/taskUtils.js:69 | `trim()` gives the empty string exactly when every character is ECMAScript white space |
| Validation.Trim | meshwork/frontend/meshwork-ui/src/utils/taskUtils.js:69 | `trim()` returns the slice of the string that starts after its leading white space, neither starts nor ends with white space, and has only white space cut off on either side |
| Validation.TrimStart | meshwork/frontend/meshwork-ui/src/utils/taskUtils.js:69 | the result is a suffix that starts with a non-space, and everything it drops is white space |
| Validation.TrimEnd | meshwork/frontend/meshwork-ui/src/utils/taskUtils.js:69 | the result is a prefix that ends with a non-space, and everything it drops is white space |
| Transitions.StartIffDependenciesDone | meshwork/frontend/meshwork-ui/src/utils/taskUtils.js:106-112 | a task may start exactly when every listed task among its dependencies is done |
| Transitions.TransitionTable | meshwork/frontend/meshwork-ui/src/utils/taskUtils.js:114-132 | every other move is allowed exactly when it is in the table of permitted (from, to) pairs; an unknown current status may only go to TODO or BLOCKED |
| Transitions.DoneOnlyToReviewOrRestart | meshwork/frontend/meshwork-ui/src/utils/taskUtils.js:114-128 | a done task can only go to review, or back to in progress |
| Transitions.UnrelatedTaskChangesNothing | meshwork/frontend/meshwork-ui/src/utils/taskUtils.js:106-112 | adding a task that is not a dependency never changes the answer |
| Transitions.CanMoveToStatus | meshwork/frontend/meshwork-ui/src/utils/taskUtils.js:104-133 | a move is only ever allowed to one of the five statuses |
| Transitions.DependencyTasks | meshwork/frontend/meshwork-ui/src/utils/taskUtils.js:109 | exactly the listed tasks whose id is among the dependencies |
| Queries.GetDependentTasks | meshwork/frontend/meshwork-ui/src/utils/taskUtils.js:136-140 | exactly the tasks that list the id among their dependencies |
| Queries.DependentsAreLinkTargets | meshwork/frontend/meshwork-ui/src/utils/taskUtils.js:136-140 | with unique ids, a listed task depends on a listed id exactly when the dependency graph has that link |
| Queries.TasksByStatus | meshwork/frontend/meshwork-ui/src/utils/taskUtils.js:185-187 | exactly the tasks with that status |
| Queries.TasksByStatusCount | meshwork/frontend/meshwork-ui/src/utils/taskUtils.js:185-187 | as many tasks are returned as carry the status |
| Queries.StatusGroupsPartition | meshwork/frontend/meshwork-ui/src/utils/taskUtils.js:266-269 | when every status is valid, the five status groups add up to the whole list |
| Queries.CalculateTaskProgress | meshwork/frontend/meshwork-ui/src/utils/taskUtils.js:177-182 | 0 for no tasks; otherwise the done share as a percentage, rounded half up |
| Queries.ProgressIsPercentage | meshwork/frontend/meshwork-ui/src/utils/taskUtils.js:177-182 | progress lies between 0 and 100, is 100 when all tasks are done and 0 when none is |
| Queries.RoundedPercentageRange | meshwork/frontend/meshwork-ui/src/utils/taskUtils.js:181 | a rounded percentage of a part of a whole lies in 0 to 100, with 100 for all and 0 for none |
| Queries.StatusCountBound | meshwork/frontend/meshwork-ui/src/utils/taskUtils.js:180 | a status count is at most the length, equals it exactly when all tasks have that status, and is zero exactly when none has |
| Queries.Lower | meshwork/frontend/meshwork-ui/src/utils/taskUtils.js:249-252 | lower-casing keeps the length and maps each character on its own |
| Queries.LowerIdempotent | meshwork/frontend/meshwork-ui/src/utils/taskUtils.js:249-252 | lower-casing twice is lower-casing once |
| Queries.Includes | meshwork/frontend/meshwork-ui/src/utils/taskUtils.js:250-252 | `includes` holds exactly when the term occurs in the string at some offset |
| Queries.ShiftOccurrence | meshwork/frontend/meshwork-ui/src/utils/taskUtils.js:250-252 | when the term is not a prefix of the string, it occurs in the string exactly when it occurs after the first character |
| Queries.TextMatches | meshwork/frontend/meshwork-ui/src/utils/taskUtils.js:248-257 | the search clause holds exactly when the lower-cased term occurs in the lower-cased name, in a non-empty lower-cased description, or in some lower-cased tag |
| Queries.Matches | meshwork/frontend/meshwork-ui/src/utils/taskUtils.js:231-258 | the callback accepts exactly the tasks that meet every given criterion: the status when one is given, the user among the task's users, the tag among its tags, and the search term occurring in its text |
| Queries.FilterTasks | meshwork/frontend/meshwork-ui/src/utils/taskUtils.js:230-261 | the result holds exactly the input tasks that meet every given criterion, and is no longer than the input |
| Queries.NoCriteriaKeepsAll | meshwork/frontend/meshwork-ui/src/utils/taskUtils.js:230-261 | empty criteria keep every task, in order |
| Queries.StatusCriterionIsTasksByStatus | meshwork/frontend/meshwork-ui/src/utils/taskUtils.js:233-235 | filtering by status alone is `getTasksByStatus` |
| Queries.FilterTasksIdempotent | meshwork/frontend/meshwork-ui/src/utils/taskUtils.js:230-261 | filtering twice by the same criteria is filtering once |
| Queries.CriteriaCompose | meshwork/frontend/meshwork-ui/src/utils/taskUtils.js:230-261 | filtering by status and user, then by tag and search, is filtering by all four |
| Queries.SearchIgnoresCase | meshwork/frontend/meshwork-ui/src/utils/taskUtils.js:248-257 | a search term and its lower-case form select the same tasks |
| Queries.UserCriterionSelects | meshwork/frontend/meshwork-ui/src/utils/taskUtils.js:238-240 | a filter by user alone keeps exactly the tasks whose users include that user, and every task when the user is empty |
| Queries.TagCriterionSelects | meshwork/frontend/meshwork-ui/src/utils/taskUtils.js:243-245 | a filter by tag alone keeps exactly the tasks whose tags include that tag, and every task when the tag is empty |
| Queries.SearchCriterionSelects | meshwork/frontend/meshwork-ui/src/utils/taskUtils.js:248-257 | a filter by search alone keeps exactly the tasks in whose lower-cased name, non-empty description or tags the lower-cased term occurs, and every task when the term is empty |
| Reachability.ReachesIff | meshwork/frontend/meshwork-ui/src/utils/taskUtils.js:143-168 | reaching in zero or more steps is being equal or depending transitively |
| Reachability.ReachesTrans | meshwork/frontend/meshwork-ui/src/utils/taskUtils.js:143-168 | reachability is transitive |
| Reachability.DependsFirstStep | meshwork/frontend/meshwork-ui/src/utils/taskUtils.js:143-168 | a transitive dependency starts with a direct dependency from which the end is reachable |
| Reachability.ClosedContainsReaches | meshwork/frontend/meshwork-ui/src/utils/taskUtils.js:143-168 | a set that holds the dependencies of its members holds everything reachable from them |
| Reachability.UnknownIsDeadEnd | meshwork/frontend/meshwork-ui/src/utils/taskUtils.js:149-153 | an id that names no task reaches only itself and has no transitive dependency |
| Reachability.DeadEndReaches | meshwork/frontend/meshwork-ui/src/utils/taskUtils.js:149-153 | an id without dependencies reaches only itself and has no transitive dependency |
| DependencyClosure.GetAllDependencies | meshwork/frontend/meshwork-ui/src/utils/taskUtils.js:143-168 | the result holds exactly the transitive dependencies, starts with the direct ones, contains the id exactly when it lies on a cycle, is empty for an unknown id, and has no repeats when the direct list has none |
| DependencyClosure.CollectDependencies | meshwork/frontend/meshwork-ui/src/utils/taskUtils.js:143-168 | the recursive call with a shared visited set: an id already visited yields nothing, otherwise the result starts with the direct dependencies and is sound and complete relative to the ids visited before |
| DependencyClosure.MergeNew | meshwork/frontend/meshwork-ui/src/utils/taskUtils.js:160-164 | appending the unseen ids keeps the old list as prefix, yields the union, and keeps it repetition-free |
| DependencyClosure.ExpandDependencies | meshwork/frontend/meshwork-ui/src/utils/taskUtils.js:155-167 | the task is marked visited; the result starts with the direct dependencies, is sound and complete relative to the ids visited before, and has no repeats when the direct list has none |
| DependencyClosure.HasCircularDependency | meshwork/frontend/meshwork-ui/src/utils/taskUtils.js:171-174 | true exactly when the new dependency depends, in one or more steps, on the task |
| CycleGuard.CheckForCircularDependency | meshwork/frontend/meshwork-ui/src/components/TaskFlow.js:260-280 | true exactly when the task is reachable, in zero or more steps, from the new dependency |
| CycleGuard.Dfs | meshwork/frontend/meshwork-ui/src/components/TaskFlow.js:263-276 | a search that succeeds has found a walk to the target; one that fails has visited the dependencies of every id it expanded and never the target |
| TopoSort.SortTasksByDependencies | meshwork/frontend/meshwork-ui/src/utils/taskUtils.js:200-227 | the result lists each task id once and only listed tasks; on acyclic input every listed dependency comes before its dependent; with unique ids it is a permutation of the input |
| TopoSort.SortedIsPermutation | meshwork/frontend/meshwork-ui/src/utils/taskUtils.js:200-227 | a repetition-free list of the looked-up tasks covering every id is a permutation of a list with unique ids |
| TopoSort.Visit | meshwork/frontend/meshwork-ui/src/utils/taskUtils.js:205-222 | the inner `visit` keeps the search invariant, only grows the finished set and output, and finishes its id unless the id is on the stack |
| TopoSort.OnStackMeansCycle | meshwork/frontend/meshwork-ui/src/utils/taskUtils.js:206-207 | meeting an id that is still on the stack means the input has a cycle |
| DependencyGraph.BuildDependencyGraph | meshwork/frontend/meshwork-ui/src/utils/taskUtils.js:307-330 | the adjacency map and in-degree map equal the ones defined by the list of links |
| DependencyGraph.RecordTask | meshwork/frontend/meshwork-ui/src/utils/taskUtils.js:318-327 | processing one task adds exactly that task's links to the graph and in-degrees |
| DependencyGraph.RecordLink | meshwork/frontend/meshwork-ui/src/utils/taskUtils.js:320-325 | one dependency extends the recorded links by its link exactly when it names a task, and the maps still describe the links |
| DependencyGraph.InitGraph | meshwork/frontend/meshwork-ui/src/utils/taskUtils.js:312-315 | every listed id starts with no dependents and in-degree 0 |
| DependencyGraph.LinkMeansDependency | meshwork/frontend/meshwork-ui/src/utils/taskUtils.js:318-327 | with unique ids, there is a link from `a` to `b` exactly when `a` is a dependency of `b` that names a task |
| DependencyGraph.LinksOfMembers | meshwork/frontend/meshwork-ui/src/utils/taskUtils.js:318-327 | a link is recorded exactly when some task lists its source and the source names a task |
| DependencyGraph.TargetsMembers | meshwork/frontend/meshwork-ui/src/utils/taskUtils.js:323 | the dependents recorded for `a` are exactly the targets of its links |
| DependencyGraph.TargetsCount | meshwork/frontend/meshwork-ui/src/utils/taskUtils.js:323 | a dependent is recorded as often as the link occurs |
| DependencyGraph.InCountZero | meshwork/frontend/meshwork-ui/src/utils/taskUtils.js:324 | the in-degree is 0 exactly when no link enters the id |
| DependencyGraph.GraphOf | meshwork/frontend/meshwork-ui/src/utils/taskUtils.js:312-327 | the graph has an entry for exactly the listed ids |
| Leveling.CalculateHierarchicalLevels | meshwork/frontend/meshwork-ui/src/utils/taskUtils.js:333-370 | the method computes the levels of the queue state machine |
| Leveling.HierarchicalLevels | meshwork/frontend/meshwork-ui/src/utils/taskUtils.js:333-370 | every listed id gets a level, and no level is negative |
| Leveling.Seed | meshwork/frontend/meshwork-ui/src/utils/taskUtils.js:339-344 | the in-degrees are untouched; exactly the listed ids of in-degree 0 get a level, each level 0, and the queue holds exactly the ids with a level |
| Leveling.Visit | meshwork/frontend/meshwork-ui/src/utils/taskUtils.js:352-358 | the dependent's in-degree drops by one and no other changes; it is queued and given level `level + 1` exactly when its in-degree was 1, otherwise queue and levels stay as they were |
| Leveling.Relax | meshwork/frontend/meshwork-ui/src/utils/taskUtils.js:351-359 | relaxing keeps the set of ids that have an in-degree |
| Leveling.RelaxDegrees | meshwork/frontend/meshwork-ui/src/utils/taskUtils.js:351-353 | each id's in-degree drops by the number of times it occurs among the dependents |
| Leveling.RelaxQueue | meshwork/frontend/meshwork-ui/src/utils/taskUtils.js:355-358 | the old queue stays a prefix, and every id appended is one of the dependents and has level `level + 1` |
| Leveling.RelaxLevels | meshwork/frontend/meshwork-ui/src/utils/taskUtils.js:355-356 | no level is removed, and every level is either the old one or `level + 1` given to a dependent |
| Leveling.Step | meshwork/frontend/meshwork-ui/src/utils/taskUtils.js:347-359 | popping the head and relaxing its dependents keeps the state well formed and strictly lowers the queue length plus the number of ids with a positive in-degree |
| Leveling.Finalize | meshwork/frontend/meshwork-ui/src/utils/taskUtils.js:363-367 | every listed id ends with a level; levels already given are kept and the others are 0 |
| Leveling.SeedLoop | meshwork/frontend/meshwork-ui/src/utils/taskUtils.js:339-344 | the queue is seeded with the listed ids of in-degree 0, each at level 0 |
| Leveling.RelaxLoop | meshwork/frontend/meshwork-ui/src/utils/taskUtils.js:351-359 | relaxing the dependents of one id is one state machine step per dependent |
| Leveling.DrainLoop | meshwork/frontend/meshwork-ui/src/utils/taskUtils.js:347-360 | the queue loop runs the state machine until the queue is empty |
| Leveling.FinalizeLoop | meshwork/frontend/meshwork-ui/src/utils/taskUtils.js:363-367 | ids the queue never reached get level 0, the others keep theirs |
| Leveling.Drain | meshwork/frontend/meshwork-ui/src/utils/taskUtils.js:347-360 | the loop always terminates with an empty queue |
| Leveling.NoIncomingEdgeIsLevelZero | meshwork/frontend/meshwork-ui/src/utils/taskUtils.js:339-344 | an id without incoming links has level 0 |
| LevelOrder.HierarchicalLevelsSpec | meshwork/frontend/meshwork-ui/src/utils/taskUtils.js:333-370 | with unique ids: an id from which a cycle is reachable gets 0; any other id is above each listed dependency, is at 0 exactly when it has none, and is otherwise one above some dependency |
| LevelOrder.ReachedIffUnblocked | meshwork/frontend/meshwork-ui/src/utils/taskUtils.js:347-360 | the queue reaches an id exactly when no cycle is reachable from it |
| LevelOrder.StuckSetHasCycle | meshwork/frontend/meshwork-ui/src/utils/taskUtils.js:347-367 | a non-empty set whose members all depend on a member holds an id on a cycle |
| LevelOrder.DepsBelow | meshwork/frontend/meshwork-ui/src/utils/taskUtils.js:351-359 | a levelled id is above all of its listed dependencies |
| LevelOrder.ZeroIffRoot | meshwork/frontend/meshwork-ui/src/utils/taskUtils.js:339-359 | a levelled id is at 0 exactly when none of its dependencies names a task |
| LevelOrder.OneBelow | meshwork/frontend/meshwork-ui/src/utils/taskUtils.js:355-356 | a levelled id above 0 is one above some listed dependency |
| LevelLayout.HierarchicalLayout | meshwork/frontend/meshwork-ui/src/utils/taskUtils.js:373-413 | the method computes the row layout function `Layout` |
| LevelLayout.Layout | meshwork/frontend/meshwork-ui/src/utils/taskUtils.js:373-413 | one position per task; the placement lemmas below say where each lies |
| LevelLayout.LayoutWith | meshwork/frontend/meshwork-ui/src/utils/taskUtils.js:376-410 | for any non-negative levels covering the tasks, one position per task |
| LevelLayout.MaxLevel | meshwork/frontend/meshwork-ui/src/utils/taskUtils.js:377 | no task's level exceeds the maximum |
| LevelLayout.MaxLevelAttained | meshwork/frontend/meshwork-ui/src/utils/taskUtils.js:377 | the maximum is the level of some task |
| LevelLayout.LevelHeight | meshwork/frontend/meshwork-ui/src/utils/taskUtils.js:378 | `maxLevel + 2` rows fill the height exactly, and a positive height gives a positive row height |
| LevelLayout.RowX | meshwork/frontend/meshwork-ui/src/utils/taskUtils.js:395-402 | a lone node sits at the middle of the width; in a longer row the first is at 5% and the last at 95%, and for a non-negative width every node lies between them |
| LevelLayout.RowEvenSpacing | meshwork/frontend/meshwork-ui/src/utils/taskUtils.js:395-402 | neighbouring nodes of a row of several are `0.9 * width / (count - 1)` apart |
| LevelLayout.RowY | meshwork/frontend/meshwork-ui/src/utils/taskUtils.js:403 | consecutive levels are one row height apart, level 0 one row height down; with a positive row height a row is below the top edge exactly when its level is non-negative |
| LevelLayout.GroupByLevel | meshwork/frontend/meshwork-ui/src/utils/taskUtils.js:381-388 | each level's group holds exactly its tasks in list order |
| LevelLayout.MaxOfLevels | meshwork/frontend/meshwork-ui/src/utils/taskUtils.js:377 | the largest level of the tasks |
| LevelLayout.PlaceRows | meshwork/frontend/meshwork-ui/src/utils/taskUtils.js:393-410 | the rows of levels 0 to the maximum, in level order |
| LevelLayout.Row | meshwork/frontend/meshwork-ui/src/utils/taskUtils.js:399-409 | one position per task of the level, in the same order |
| LevelLayout.InLevel | meshwork/frontend/meshwork-ui/src/utils/taskUtils.js:381-388 | exactly the tasks whose level is the given one |
| LevelLayout.LayoutPlacesEveryTask | meshwork/frontend/meshwork-ui/src/utils/taskUtils.js:373-413 | one position per task, only for listed ids, rows in ascending level, each position at the height of its task's level |
| LevelLayout.LayoutWithinHeight | meshwork/frontend/meshwork-ui/src/utils/taskUtils.js:376-403 | for a positive height every row lies strictly inside the canvas |
| LevelLayout.LayoutRowsKeepListOrder | meshwork/frontend/meshwork-ui/src/utils/taskUtils.js:381-410 | the positions of one level are that level's row, its tasks in list order |
| LevelLayout.LoneTaskIsCentred | meshwork/frontend/meshwork-ui/src/utils/taskUtils.js:400-407 | the only task of a level is centred horizontally |
| LevelLayout.RowSpread | meshwork/frontend/meshwork-ui/src/utils/taskUtils.js:395-407 | a row of several tasks runs from 5% to 95% of the width, strictly left to right |
| LevelLayout.RowHeightBounds | meshwork/frontend/meshwork-ui/src/utils/taskUtils.js:378-403 | every level's row height lies strictly between 0 and the height |
| Chain.MaxDependencyChain | meshwork/frontend/meshwork-ui/src/utils/taskUtils.js:532-562 | 0 exactly when no listed task has a dependency; otherwise the length of a real dependency walk from a listed task, never more than the number of ids on acyclic input |
| Chain.Dfs | meshwork/frontend/meshwork-ui/src/utils/taskUtils.js:536-553 | the depth returned is at least the one given and is reached by a real walk; an unvisited id with dependencies goes at least one deeper |
| Chain.AcyclicWalkBound | meshwork/frontend/meshwork-ui/src/utils/taskUtils.js:532-562 | on acyclic input no walk is longer than the number of task ids |
| Chain.RepeatOnCycle | meshwork/frontend/meshwork-ui/src/utils/taskUtils.js:536-553 | a walk that meets an id twice runs round a cycle through it |
| Chain.DistinctBound | meshwork/frontend/meshwork-ui/src/utils/taskUtils.js:532-562 | a repetition-free list drawn from a set is no longer than the set |
| SmartLayout.SmartLayout | meshwork/frontend/meshwork-ui/src/utils/taskUtils.js:512-529 | no layout for no tasks; the hierarchical positions exactly when that layout is chosen; the chain it rests on is a real walk, 0 exactly when nothing has dependencies |
| SmartLayout.ChooseLayout | meshwork/frontend/meshwork-ui/src/utils/taskUtils.js:513-528 | the hierarchical layout is chosen exactly when the chain exceeds 2 and ten times the dependency total exceeds three times the task count |
| SmartLayout.AverageThreshold | meshwork/frontend/meshwork-ui/src/utils/taskUtils.js:519-523 | an average above 0.3 is the integer test 10 * total > 3 * n |
| SmartLayout.TotalDependenciesZero | meshwork/frontend/meshwork-ui/src/utils/taskUtils.js:516-518 | the total is 0 exactly when no task lists a dependency |
| SmartLayout.TotalDependencies | meshwork/frontend/meshwork-ui/src/utils/taskUtils.js:516-518 | no single task lists more dependencies than the total |
| SmartLayout.HierarchicalNeedsLongWalk | meshwork/frontend/meshwork-ui/src/utils/taskUtils.js:523-525 | choosing the hierarchical layout implies a dependency walk of at least three steps |
| SmartLayout.NoDependenciesForceDirected | meshwork/frontend/meshwork-ui/src/utils/taskUtils.js:523-528 | a non-empty list without dependencies is laid out force-directed |
| Statistics.GetTaskStatistics | meshwork/frontend/meshwork-ui/src/utils/taskUtils.js:264-304 | the total, the count per status, the progress, each user's assignments and completed ones, and each tag's uses, with exactly the users and tags that occur as keys |
| Statistics.CountUsers | meshwork/frontend/meshwork-ui/src/utils/taskUtils.js:273-286 | a user has an entry exactly when assigned somewhere, with their assignment and completed counts |
| Statistics.AddUsers | meshwork/frontend/meshwork-ui/src/utils/taskUtils.js:275-283 | each listed user gains one assignment per listing, and one completed per listing when the task is done |
| Statistics.AddUser | meshwork/frontend/meshwork-ui/src/utils/taskUtils.js:276-282 | the user gains an entry if missing, one assignment, and one completion when the task is done; every other user's entry is unchanged |
| Statistics.AddTags | meshwork/frontend/meshwork-ui/src/utils/taskUtils.js:290-292 | each tag's count grows by the number of times the task lists it, and exactly the listed tags are added as keys |
| Statistics.CountTags | meshwork/frontend/meshwork-ui/src/utils/taskUtils.js:288-295 | a tag has an entry exactly when used, with its count |
| Statistics.CountByStatus | meshwork/frontend/meshwork-ui/src/utils/taskUtils.js:266-269 | one entry per status code, holding the number of tasks with it |
| Statistics.UserCountFacts | meshwork/frontend/meshwork-ui/src/utils/taskUtils.js:273-286 | a user's count is positive exactly when some task lists them; completed counts never exceed totals and are positive exactly when a done task lists them |
| Statistics.TagCountFacts | meshwork/frontend/meshwork-ui/src/utils/taskUtils.js:288-295 | a tag's count is positive exactly when some task lists it |
| Statistics.ByStatusSumsToTotal | meshwork/frontend/meshwork-ui/src/utils/taskUtils.js:264-269 | when every status is valid, the per-status counts add up to the total |
| FlowEdits.ReactFlowEdges | meshwork/frontend/meshwork-ui/src/utils/taskUtils.js:594-617 | the edges drawn are the dependency links, in order, with id `source-target` |
| FlowEdits.DrawTaskEdges | meshwork/frontend/meshwork-ui/src/utils/taskUtils.js:596-616 | the task's edges are appended: one per listed dependency that names a task, in list order |
| FlowEdits.EdgeMeansDependency | meshwork/frontend/meshwork-ui/src/utils/taskUtils.js:596-600 | with unique ids, an edge from `a` to `b` is drawn exactly when `a` is a listed dependency of `b` |
| FlowEdits.DeleteTask | meshwork/frontend/meshwork-ui/src/components/TaskFlow.js:352 | exactly the nodes with another id remain |
| FlowEdits.DeleteEdges | meshwork/frontend/meshwork-ui/src/components/TaskFlow.js:353 | exactly the edges touching neither end remain |
| FlowEdits.DeleteTaskIds | meshwork/frontend/meshwork-ui/src/components/TaskFlow.js:352 | deletion removes exactly that id |
| FlowEdits.DeleteKeepsEdgesConsistent | meshwork/frontend/meshwork-ui/src/components/TaskFlow.js:351-358 | filtering the drawn edges gives exactly the edges redrawn from the remaining nodes |
| FlowEdits.DepsOfLinked | meshwork/frontend/meshwork-ui/src/components/TaskFlow.js:238-247 | linking appends the source to the target's dependencies and changes no other task's |
| FlowEdits.LinkAddsEdge | meshwork/frontend/meshwork-ui/src/components/TaskFlow.js:238-247 | with unique ids, linking adds exactly the new link to the graph |
| FlowEdits.LinkAcyclicIff | meshwork/frontend/meshwork-ui/src/components/TaskFlow.js:209-247 | on an acyclic graph, the link keeps it acyclic exactly when the target is not reachable from the source |
| FlowEdits.WithDependency | meshwork/frontend/meshwork-ui/src/components/TaskFlow.js:238-241 | the updated task keeps its id and every field but `depends_on`, which gains the new id at the end, a missing list counting as empty |
| FlowEdits.Replace | meshwork/frontend/meshwork-ui/src/components/TaskFlow.js:243-247 | the node list keeps its length |
| FlowEdits.ReplaceMembers | meshwork/frontend/meshwork-ui/src/components/TaskFlow.js:243-247 | the nodes with other ids remain, the replacement appears exactly when some node had the target id, and nothing else appears |
| FlowEdits.WithLink | meshwork/frontend/meshwork-ui/src/components/TaskFlow.js:238-247 | the node list keeps its length and its set of ids, and unique ids stay unique |
| FlowEdits.HandleTaskClick | meshwork/frontend/meshwork-ui/src/components/TaskFlow.js:201-258 | an unarmed click changes nothing; an armed one ends connecting mode and reports missing nodes; with both nodes present it rejects exactly the links the guard flags on the given task list and links every other one, appending the dependency; an acyclic view stays acyclic |
| FlowEdits.Connect | meshwork/frontend/meshwork-ui/src/components/TaskFlow.js:378-389 | the drag adds the source to the target's dependencies, if the target exists, and changes nothing else |
| FlowEdits.ConnectCanCloseCycle | meshwork/frontend/meshwork-ui/src/components/TaskFlow.js:378-389 | a drag from a task that already reaches the target closes a cycle |
| FlowEdits.ConnectCycleExample | meshwork/frontend/meshwork-ui/src/components/TaskFlow.js:378-389 | two acyclic tasks where `a` depends on `b`, and dragging from `a` to `b` makes the board cyclic |
| FlowEdits.GuardedConnect | meshwork/frontend/meshwork-ui/src/components/TaskFlow.js:360-395 | the drag with the click's guard: rejected exactly when it would close a cycle, otherwise the same update, and acyclic boards stay acyclic |
| FlowEdits.SelfDependencyMissed | meshwork/frontend/meshwork-ui/src/utils/taskUtils.js:171-174 | for a lone task without dependencies, the check reports no cycle, yet making it depend on itself creates one |
| FlowEdits.WouldCreateCycle | meshwork/frontend/meshwork-ui/src/utils/taskUtils.js:171-174 | true exactly when the task is reachable from the new dependency; on an acyclic list with the task present, exactly when the new link would close a cycle |

## Left out

- `forceDirectedLayout` is not modelled. It uses `Math.random`, square roots and floating-point physics. `SmartLayout` reports the force-directed choice with an empty position list.
- SmartLayout.SmartLayout: returns no positions for the force-directed choice, because that layout is not modelled.
- `generateTaskId`, `createEmptyTask`, `getOverdueTasks`, `StatusLabels` and `StatusColors` are not modelled. They only read the clock, draw random numbers or hold display constants.
- The React state, `onTaskUpdate`, `onTaskDelete`, `alert` and reactflow's `addEdge` are not modelled. Edge styling (`type`, `animated`, `style`, `markerEnd`) is dropped from `Edge`. Edge ids are kept.
- In `handleTaskClick` the model keeps only the task data of a node. `getNode` is taken to return the first node with the id.
- FlowEdits.HandleTaskClick: the guard runs on `initialTasks` while the update goes to the current nodes, as in the source. Acyclicity is therefore only promised when the two lists are the same.
- Lengths are counted in characters, not UTF-16 code units.
- Lower-casing covers ASCII letters only. Other scripts' case mappings are not modelled.
- Queries.FilterTasks: `criteria.status !== undefined` (taskUtils.js:233) also treats `status: null` as a criterion, which every task then fails. `Option<int>` has no null, so that case is not modelled.
- Statistics.GetTaskStatistics: `userStats` and `tagStats` are plain `{}` objects (taskUtils.js:273-295), so names of `Object.prototype` members such as `constructor` go wrong in the source. For a user `constructor`, `!acc[user]` is false, the counts are written onto the inherited function, and the result has no entry for that user. For a tag `constructor` the count becomes the string `"function Object() { [native code] }1"`. The model's accumulators are maps without inherited keys, so such names are counted like any other.
- Positions are exact reals, not IEEE doubles. `Math.round` in progress is exact rounding half up on integers. The `0.3` average threshold is compared exactly.
- A field that is not an array (`users`, `tags`, `depends_on`) is modelled as absent. `filterTasks`' search throws when a task has no name; the model treats a missing name as the empty string instead.
- Statuses are integers. Non-integer and non-number statuses are not modelled.
- Chain.MaxDependencyChain: promises a real walk and, on acyclic input, an upper bound, but not that the value is the longest walk. The shared visited set stops the search from re-expanding an id met on another branch, so the source itself can report less than the longest chain.
- LevelOrder.HierarchicalLevelsSpec: assumes unique task ids. With duplicate ids the source counts every copy's links while `find` returns only the first copy.
- `backend/` (Python), `services/taskApi.js`, `App.js`, `TaskNode.js`, `TaskEditor.js` and `ContextMenu.js` are not part of this model.

## Findings

| source | as written | input that shows it | evidently intended | confidence | as-written member | corrected member |
|---|---|---|---|---|---|---|
| meshwork/frontend/meshwork-ui/src/utils/taskUtils.js:171-174 | `hasCircularDependency` looks for the task among the dependencies of the new dependency, so a task made to depend on itself is only flagged when it already lies on a cycle | one task `x` without dependencies; `hasCircularDependency(x, x, [x])` is false, yet the link `x → x` is a cycle | the new link is refused when the task reaches itself in zero or more steps, as `checkForCircularDependency` in TaskFlow.js does | high; not executed | FlowEdits.SelfDependencyMissed | FlowEdits.WouldCreateCycle |
| meshwork/frontend/meshwork-ui/src/components/TaskFlow.js:378-389 | `handleConnect` appends the dragged source to the target's `depends_on` without any cycle check | tasks `a` (depends on `b`) and `b`; dragging from `a` to `b` makes `b` depend on `a`, closing `a → b → a` | the same guard `handleTaskClick` applies runs before the update | medium; not executed | FlowEdits.ConnectCycleExample | FlowEdits.GuardedConnect |
