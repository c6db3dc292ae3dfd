/** The status transition rule `canMoveToStatus(task, newStatus, allTasks)`:
    which status a task may be moved to, given its current status and, for
    IN_PROGRESS, the status of the tasks it depends on. */
module Transitions {
  import opened Options
  import opened Tasks

  /** `deps.every(dep => dep.status === TaskStatus.DONE)`. */
  function AllDone(deps: seq<Task>): (r: bool)
    ensures r <==> forall t :: t in deps ==> t.status == DONE
  {
    if deps == [] then true else deps[0].status == DONE && AllDone(deps[1..])
  }

  /** `allTasks.filter(t => task.depends_on.includes(t.id))`: every task of
      the list whose id is listed as a dependency, in list order. */
  function DependencyTasks(task: Task, allTasks: seq<Task>): (r: seq<Task>)
    ensures forall t :: t in r <==> t in allTasks && t.id in Deps(task)
  {
    Filter((t: Task) => t.id in Deps(task), allTasks)
  }

  /** `canMoveToStatus`. A missing `depends_on` (or one that is not an
      array) counts as no dependencies. */
  function CanMoveToStatus(task: Task, newStatus: int, allTasks: seq<Task>): (r: bool)
    ensures r ==> IsStatus(newStatus)
  {
    if newStatus == IN_PROGRESS then
      if task.dependsOn.Some? && |task.dependsOn.value| > 0 then AllDone(DependencyTasks(task, allTasks))
      else true
    else if newStatus == DONE then task.status == IN_PROGRESS || task.status == REVIEW
    else if newStatus == REVIEW then task.status == IN_PROGRESS || task.status == DONE
    else if newStatus == BLOCKED then task.status != DONE
    else if newStatus == TODO then task.status != DONE
    else false
  }

  /** A task may start exactly when every task of the list that it depends
      on is done: dependency ids that name no task impose nothing, and a
      task without dependencies may always start. */
  lemma StartIffDependenciesDone(task: Task, allTasks: seq<Task>)
    ensures CanMoveToStatus(task, IN_PROGRESS, allTasks) <==>
      forall t :: t in allTasks && t.id in Deps(task) ==> t.status == DONE
  {
  }

  /** The rule for the other four targets, stated as the table of allowed
      moves between the five statuses; a task whose status is no valid code
      may still be moved to TODO or BLOCKED. */
  lemma TransitionTable(task: Task, newStatus: int, allTasks: seq<Task>)
    requires newStatus != IN_PROGRESS
    ensures CanMoveToStatus(task, newStatus, allTasks) <==>
      if IsStatus(task.status) then (task.status, newStatus) in AllowedMoves
      else newStatus == TODO || newStatus == BLOCKED
  {
  }

  /** The moves allowed between valid statuses, IN_PROGRESS excluded. */
  const AllowedMoves: set<(int, int)> :=
    {(IN_PROGRESS, DONE), (REVIEW, DONE),
     (IN_PROGRESS, REVIEW), (DONE, REVIEW),
     (TODO, BLOCKED), (IN_PROGRESS, BLOCKED), (REVIEW, BLOCKED), (BLOCKED, BLOCKED),
     (TODO, TODO), (IN_PROGRESS, TODO), (REVIEW, TODO), (BLOCKED, TODO)}

  /** A done task can only go to review, or restart. */
  lemma DoneOnlyToReviewOrRestart(task: Task, newStatus: int, allTasks: seq<Task>)
    requires task.status == DONE && CanMoveToStatus(task, newStatus, allTasks)
    ensures newStatus == REVIEW || newStatus == IN_PROGRESS
  {
  }

  /** Adding a task that is not a dependency to the list changes no answer. */
  lemma {:induction false} UnrelatedTaskChangesNothing(task: Task, newStatus: int, allTasks: seq<Task>, other: Task)
    requires other.id !in Deps(task)
    ensures CanMoveToStatus(task, newStatus, allTasks + [other]) == CanMoveToStatus(task, newStatus, allTasks)
  {
    FilterAppend((t: Task) => t.id in Deps(task), allTasks, [other]);
    assert Filter((t: Task) => t.id in Deps(task), [other]) == [];
    assert DependencyTasks(task, allTasks + [other]) == DependencyTasks(task, allTasks);
  }
}
