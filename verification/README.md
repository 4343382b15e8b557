# Verified model of the workflow controller

This project models the three reconcile loops of a Kubernetes controller for
Workflows (DAGs of jobs), DaemonSetJobs (one job per node) and CronWorkflows,
with the validation and the garbage collection around them, and proves what they
keep over whole runs.

Code that changes things step by step is a method over a class whose fields it
writes, proved equal to a function of the old state and of the replies of the
outside (API server, job lister, clock); the properties are then lemmas about
those functions, about all reply sequences and all runs.

| files | what they hold |
|---|---|
| `Prelude.dfy` | options, int64 arithmetic, sequences and finite sets |
| `WorkflowTypes.dfy` | the Workflow object, its selector, steps, statuses and jobs |
| `Topology.dfy` | the depth-first search of the dependency graph, with its cycle report |
| `StepValidation.dfy`, `UpdateValidation.dfy` | validation of a workflow and of an update |
| `JobLabels.dfy`, `OrderedLabels.dfy`, `PassHistories.dfy` | the label map that all steps of a workflow write into: after any writes, after writes in any order that the dependencies allow, and after those of passes over the steps |
| `WorkflowPass.dfy`, `StatusInvariant.dfy` | one pass over the steps, what every pass keeps, and which passes panic |
| `WorkflowSync.dfy` | one sync: defaulting, validation, start, deadline, pass |
| `JobOutcomes.dfy`, `Timestamps.dfy` | what these come to on the fields: conditions of jobs, references, updates, deletions, errors, and all times that runs write |
| `WorkflowController.dfy` | the methods of the controller, against those functions |
| `WorkflowRun.dfy` | runs: syncs on the stored or an older version, job completions and deletions, ticks, accepted edits, removal |
| `RunLabels.dfy`, `FreshRun.dfy` | runs with labels that cannot drift: what the jobs are labelled with, and, with an exact lister, one job per step |
| `Progress.dfy` | when a workflow whose labels cannot drift is stuck: without a label map, or with two jobs for an incomplete step, and never otherwise |
| `EditedLabels.dfy` | the first sync after an accepted edit: when it makes a second job |
| `IndependentSteps.dfy` | workflows without dependencies: exactly which ones can get two jobs for a step |
| `DriftRun.dfy` | concrete runs that show what these theorems need |
| `DaemonSetJob.dfy`, `DaemonSetController.dfy`, `DaemonSetConvergence.dfy` | the node/job reconciler, its exact post-state, its convergence |
| `DaemonSetConditions.dfy` | conditions over whole call histories |
| `CronSchedule.dfy`, `CronWorkflowController.dfy`, `CronRun.dfy`, `CronEvery.dfy` | missed schedule times, one sync, runs, and `@every` schedules |
| `GarbageCollector.dfy` | the sweep of orphaned jobs |

`dafny verify dfyconfig.toml` checks everything.

## How the outside is modelled

- Lister answers and API replies are arbitrary. A pass is given one `Answer` per
  step (listing or lister error, reference error, creation accepted, refused, or
  stored with an error reported); a sync is given `Replies` that also say whether
  its update was lost, which the code never notices
  (pkg/controller/workflow.go:345-350). Exactness of the lister is a predicate
  (`FreshRun.Exact`) that only the theorems needing it assume.
- A run is a sequence of actions applied to a `World` (stored workflow, all its
  earlier versions, jobs, clock, and a log of job creations and observed
  completions). A theorem about every run is a lemma about every sequence of
  actions. A sync may read any earlier version, as from a lagging cache; its update
  is then refused as a conflict, its other requests are not.
- An edit in a run is one that `ValidateWorkflowUpdate` accepts, although nothing in
  the repository but its tests calls that function.
- The selector is present or not, and its MatchLabels map is nil or not. An update of
  the controller is encoded to JSON, which omits an empty map (`Serialize`); a write
  to a nil map panics.
- Verdicts of checks that are not modelled (object metadata, label selector
  syntax, job spec fields) are booleans carried by the data. Step names, workflow
  names and template labels are assumed to be valid label values: the code checks
  none of them as such, and `labels.SelectorFromSet` matches every job if one is not.
- The hash of a job spec is a parameter, of which nothing is assumed. `Next` of a cron
  schedule is one too: at the times it is asked at it gives the first due time, or the
  zero time if there is none up to a horizon that moves on with time. A calendar
  schedule has the end of the fifth year for its horizon; an `@every` schedule is
  one without a starting deadline (`EveryIsSchedule`), and has its own theorems with
  one.

## What is false of the code, and exactly when it holds

- A step can get two jobs. `fetchLabelsSetFromLabelSelector` returns the
  selector's own map, so the labels of one step stay in it. What each condition
  below is exact for:
  - A lookup finds the job made earlier, after any writes whatever and any edits, if
    and only if all templates share their keys (`JobLabels.SharedKeys`) and the
    templates that one step ever has agree up to labels of the selector
    (`JobLabels.Agreeing`); that is `ReliableIff`.
  - The labels of every step are the same after all writes that the dependencies
    allow, in whatever order the spec lists the steps, if and only if
    `OrderedLabels.OrderedKeys` holds: for each key that a step does not set itself,
    the steps without an order to it that set the key, and the last ones among those
    it depends on, agree (`StableIffOrderedKeys`). Steps that are all ordered need
    share nothing (`TotallyOrderedKeys`).
  - But passes go through the steps in the order of the spec, so this is more than
    the code needs (`OrderedIsPassStable`, `SpecOrderMatters`: `a` sets a key and `b`
    does not). After passes, for a spec that lists every step after its dependencies,
    the labels are the same if and only if `PassHistories.SpecKeys` holds: all steps
    that may have set the key last before a step's turn agree, with the selector too
    unless some step is sure to have set it (`StableIffSpecKeys`).
  - Under any of these conditions no run with an exact lister has two jobs for one
    step (`RunKeepsOneJobPerStep`). For workflows of independent steps the last one
    is exact for the runs as well: if and only if it fails, some run with an exact
    lister gives a step two jobs (`IndependentSteps.NoDoublesIff`).
    `DriftRun.DriftHappens` is one of three flawless syncs.
- An accepted edit may change the template labels of a step that has a job but no
  status yet. The next good sync then makes a second job, unless the job has all
  labels that the map has at the step's turn and all of the new template
  (`NextSyncMakes`, `EditAfterRunIff`). Shared keys are not enough:
  `DriftRun.EditHappens` only gives a label another value. Where the templates
  before the edit share their keys, it is harmless if and only if the new labels are
  among the old ones and those of the original selector, and the map has no other
  value for a dropped one at the step's turn (`EditSparesJobIff`; `DroppingCosts` is
  a dropped label that does cost a job). An edit before the step has a job costs none
  in the next sync (`EditBeforeJob`), and edits within a family as `ReliableIff` asks
  for cost none in any run (`EditObeys`).
- A lister that lags by one job gives a step a second one with the same labels, and the
  workflow is stuck as long as both are there, for nothing is done for a step with two
  jobs (`DriftRun.LaggingListerHappens`).
- With a workflow cache that lags, a step stored as Complete can get another job
  (`DriftRun.StaleViewHappens`); with one that does not it cannot
  (`RunSparesComplete`). A lagging sync spares exactly the steps that are Complete in
  the version it reads (`SyncSparesRead`, `StaleSyncSparesIff`). That jobs are created
  after their dependencies were seen finished does not depend on it (`RunKeepsInv`).
- A workflow created under the name of an earlier one takes the jobs left of that one
  for its own, and can be complete without having run (`DriftRun.LeftoverHappens`).
- A selector with nil MatchLabels is accepted, and then panics. A pass panics if and
  only if there is no map and some job step that is not Complete has all its
  dependencies Complete (`PanicsIff`, `SyncPanicsIff`). A workflow submitted with an
  empty map loses it with the first update, so with nil or empty MatchLabels no job
  is ever created (`NothingRunsWithoutLabels`).
- An accepted and started workflow of job steps can get stuck. After any run with
  labels that cannot drift, whatever the lister answered, 2n + 1 good rounds complete
  it if and only if it is complete already, or has a label map and no incomplete step
  with two jobs (`NoReachableDeadlock`). With an exact lister there are no such steps
  (`ExactListerBlocksNothing`).
- A workflow with a step that is not a job is accepted, but never completes
  (`ExternalNeverCompletes`).
- The deadline test multiplies seconds to nanoseconds in int64: it compares exact
  times if and only if the deadline is at most 9223372036 seconds
  (`DeadlineExactIff`); one second more is past at once (`DeadlineWraps`). The
  starting deadline of a CronWorkflow moves the earliest time as it should under the
  same bound (`StartingDeadlineExactIff`); one second more puts it into the future,
  and nothing is ever scheduled (`StartingDeadlineWraps`).
- The topological sort reports the cycle it met if and only if the cycle does not
  close at a step named "": then the list is empty, for "" also means that there is
  none (`TopologicalSort`; `CycleOfEmptyName` is such a graph).
- The limit of 100 missed times counts from the last schedule time, which
  `syncOne` never writes. Without a starting deadline a CronWorkflow gets at most
  100 workflows in its life (`AtMostHundredWithoutDeadline`), and none any more
  once more than 100 times are due since its creation (`StarvedForGood`).
- When `Next` gives up after five years without a due time it returns the year 1, and
  the loop starts over from there: the sync then finds too many missed times instead
  of none (`UnmetMeans`, `NeverDueIsTooMany`).
- With a starting deadline, the due times of an `@every` schedule move with the clock:
  two syncs create workflows of the same name if and only if they run in the same
  second (`SameNameIff`), so a workflow can be created every second, whatever the
  delay (`OneEverySecond`). That is once the deadline counts from after the creation,
  if it holds between one and 100 delays; otherwise nothing is created from then on
  (`EveryWithDeadline`).
- A stale and active job of a DaemonSetJob is deleted, although the comment at
  pkg/controller/daemonsetjob.go:349 says that it is waited for: the `continue`
  skips the removal from the map that the last loop deletes. A stale job that
  succeeded or is active is not replaced in the same pass, so one pass settles
  the nodes if and only if no selected node has one (`OnePassEnoughIff`).
- A DaemonSetJob is reported complete in the very pass that creates its jobs
  (`CompleteOnCreation`): the flag only says that no counted job is active
  (`CompleteFlagIff`). The job of every selected node has finished if and only if
  completion is reported and the first job listed for each is of the current spec
  (`AllDoneIff`).
- The job lister is asked in no namespace, so DaemonSetJobs are kept apart by their
  names only. Those of other names are left alone (`OtherNamesUntouched`); of two with
  one name, in two namespaces and with different job specs, each deletes what the
  other has just created (`SameNameDeletes`).
- A DaemonSetJob without a jobTemplate is accepted
  (pkg/api/daemonsetjob/v1/validation.go:16-29), and every pass on it panics at
  pkg/controller/daemonsetjob.go:292, before anything is listed.
- A DaemonSetJob with nil MatchLabels panics in every pass that would create a job,
  at the first selected node without one, after the deletions up to there
  (`DaemonSetController.Controller.ManageDaemonSetJob`).
- Workflows created by `syncOne` carry no owner reference. In no run does a
  CronWorkflow get a child (`ChildrenNeverChange`), or its active list an entry
  (`ActiveOnlyShrinks`).

## Model

| member | source | states |
|---|---|---|
| Topology.Sorter.Visit | pkg/api/workflow/v1/validation.go:49-80 | on every return: a missing name that the step needs, or the step finished with all it depends on, or a cycle through the step that was met on the stack, which the step needs, being collected up the open calls to that step; terminates on the steps neither temporary nor permanent |
| Topology.TopologicalSort | pkg/api/workflow/v1/validation.go:41-98 | no error iff every dependency exists and the graph is acyclic; then n empty names and a permutation of the steps with dependencies first. Otherwise the error belongs to the alphabetically first step that cannot be resolved: a missing name it needs, or a cycle through the step that was met again; that cycle is listed, without repeats and ending with that step, iff the step is not named "" |
| Topology.CycleOfEmptyName | pkg/api/workflow/v1/validation.go:66-74 | for a step "" that depends on itself the reported cycle is empty |
| Topology.SortedKeys | pkg/api/workflow/v1/validation.go:81-85 | exactly the keys, in alphabetical order |
| Topology.LessMeans | pkg/api/workflow/v1/validation.go:85 | the order of the keys: by the first character that differs, a prefix before what it begins |
| Topology.RefusedIsNotResolvable | pkg/api/workflow/v1/validation.go:50-57 | a step that needs a missing name, or a step on a cycle, cannot be listed after what it depends on in any way |
| Topology.CollectKeepsUnwinding | pkg/api/workflow/v1/validation.go:66-74 | the names collected while the calls return form a chain up to the call for the step the cycle closes at, and are then a simple cycle |
| Topology.MeetingStackIsCycle | pkg/api/workflow/v1/validation.go:54-57 | meeting a step whose call is open means that the graph has a cycle |
| Topology.OrderExcludesCycles | pkg/api/workflow/v1/validation.go:100-101 | a topological order leaves no closed walk of any length and no missing dependency |
| Topology.MinimalStep | pkg/api/workflow/v1/validation.go:100-101 | among any steps of an acyclic graph one depends on none of the others, which is what keeps the scheduler going |
| StepValidation.ValidateWorkflowSteps | pkg/api/workflow/v1/validation.go:102-130 | no error iff names are unique, dependencies exist and are acyclic, and every step is runnable; of the errors none is about the graph if it can be sorted, and else exactly one, of the alphabetically first step that cannot be resolved: the missing name it needs, or the cycle it leads into, through the step where that closes; a duplicate error exactly for the repeated names, a template or reference missing, or a template not valid, iff some step has that fault |
| StepValidation.IndexSteps | pkg/api/workflow/v1/validation.go:103-111 | of the steps of one name the first is kept, and an error stands for each repeated name and for no other |
| StepValidation.FirstIsKept | pkg/api/workflow/v1/validation.go:103-111 | of the steps of one name the graph holds the first |
| StepValidation.ValidateWorkflowSpec | pkg/api/workflow/v1/validation.go:25-39 | no error iff the deadline is not negative, the selector is there, with or without a map, and well formed, and the steps are valid; each of the first three faults has its own error, exactly when it is there |
| StepValidation.ValidateWorkflow | pkg/api/workflow/v1/validation.go:18-22 | no error iff metadata and spec are valid |
| UpdateValidation.GetWorkflowUnmodifiableSteps | pkg/api/workflow/v1/validation.go:139-157 | the steps with an incomplete, and with a complete, status |
| UpdateValidation.CountedCompleteIff | pkg/api/workflow/v1/validation.go:162-163 | counting completed names against steps tells that all steps are Complete, exactly when no two steps share a name |
| UpdateValidation.ValidateWorkflowSpecUpdate | pkg/api/workflow/v1/validation.go:178-218 | index panic iff there are more new steps than old; otherwise no error iff the spec is valid, the selector unchanged and no step with a status modified or deleted; the selector error iff it differs, and the errors for running and for completed steps exactly for those modified, and only for those deleted |
| UpdateValidation.ValidateWorkflowUpdate | pkg/api/workflow/v1/validation.go:160-170 | accepted iff metadata agree and the update meets those rules on a workflow not complete; the completed refusal fires iff names are unique and all steps Complete; metadata, selector and spec have their errors exactly when they are at fault, and steps are called running or completed as their status says |
| UpdateValidation.AcceptsIff | pkg/api/workflow/v1/validation.go:160-218 | an update is accepted, by the fields, iff the workflow is not complete, the new spec is valid and not longer, its selector has the same expressions and, key by key, the same labels (nil and empty being equal), each step with a status is as it was at its index, and no name with a status is gone |
| UpdateValidation.AcceptedKeepsConsistent | pkg/api/workflow/v1/validation.go:160-218 | an accepted update keeps every step that has a status, unchanged and at its index, and so the invariant of the statuses |
| JobLabels.AccumulateIsLastWriterWins | pkg/controller/controller_util.go:68-84 | after any history of writes the selector's map is the last-writer-wins merge over it |
| JobLabels.LabelsAre | pkg/controller/controller_util.go:72-84 | one write, key by key: the step and the workflow over the template's labels over the map's |
| JobLabels.StableIffSharedKeys | pkg/controller/controller_util.go:68-106 | the labels of every step are independent of the history iff every key one template sets is set by all, or has that value in the selector |
| JobLabels.ReliableIff | pkg/controller/controller_util.go:68-106 | a later lookup finds the job created earlier, for every step, whichever of its templates it had then and has now, and over all histories, iff that condition holds and the templates of one step agree up to labels of the selector |
| JobLabels.OneKeySetIsShared | pkg/controller/controller_util.go:78-80 | templates with one set of label keys meet the condition |
| JobLabels.DriftExample | pkg/controller/controller_util.go:72-84 | two templates with different keys: the first step's job is not found after the second wrote its labels |
| OrderedLabels.StableIffOrderedKeys | pkg/controller/workflow.go:493-505 | over all orders of writes that the dependency check alone allows, whether or not passes make them, the labels of every step are the same iff for each key that a step does not set, the unordered steps and the last needed steps that set it agree, with the selector too if no needed step sets it |
| OrderedLabels.HistoryWithLast | pkg/controller/workflow.go:493-505 | each step that may be the last to set a key by the dependencies alone is the last one in some order of writes that they allow |
| OrderedLabels.TotallyOrderedKeys | pkg/controller/workflow.go:493-501 | steps that are all ordered by their dependencies meet the condition, whatever keys they set |
| OrderedLabels.SharedKeysAreOrdered | pkg/controller/controller_util.go:78-80 | keys shared by all templates meet it in any order |
| PassHistories.PassHistoryIsOrdered | pkg/controller/workflow.go:454-501 | the writes before a step's turn, after any passes over the steps in the order of the spec, are in an order that the dependencies allow |
| PassHistories.OrderedIsPassStable | pkg/controller/workflow.go:454-501 | so the condition on the dependencies alone is enough for passes, for specs in any order |
| PassHistories.StableIffSpecKeys | pkg/controller/workflow.go:454-501 | after any passes the labels of every step are the same iff for each key that it does not set all steps that may have set it last before its turn agree, with the selector too unless some step is sure to have set it; for specs that list every step after its dependencies |
| PassHistories.LastMayPrecede | pkg/controller/workflow.go:454-501 | the last step that set a key before a step's turn is one of those that may: without an order to it, or needed by it and not overtaken by a step between them that sets the key |
| PassHistories.HistoryWithPreceding | pkg/controller/workflow.go:454-501 | each of those is the last one after some passes |
| PassHistories.SpecOrderMatters | pkg/controller/workflow.go:454-501 | two independent steps of which only the first sets a key: the labels are the same after all passes, although not in all orders that the dependencies allow |
| WorkflowPass.RecordJobUpdates | pkg/controller/workflow.go:528-543 | recording a job changes the status of its step only, makes it Complete iff it was or the job is finished, and leaves it listed |
| WorkflowPass.JobStepFrame | pkg/controller/workflow.go:493-549 | whatever the replies, a job step changes at most the labels, to those of its step and only if there is a map, and the status of its step |
| WorkflowPass.BeforeExtends | pkg/controller/workflow.go:451-474 | along a pass statuses keep their places and completion, names stay distinct, only labels and statuses change, no label is removed, and nothing happens after a panic |
| WorkflowPass.CompleteAppendedIff | pkg/controller/workflow.go:451-491 | Complete is appended iff every step was Complete at entry, and then nothing else happens; for every spec and all replies |
| WorkflowPass.PanicsIff | pkg/controller/controller_util.go:68-84 | a pass panics iff there is no label map and some job step, incomplete at entry, has all its dependencies Complete; without a map it changes no label, no status and no job |
| JobOutcomes.BecomesCompleteIff | pkg/controller/workflow.go:493-543 | the turn of an incomplete step makes it Complete iff its dependencies are, one job is listed, its reference can be taken, and it has a true condition Complete or Failed |
| JobOutcomes.RunCompletesFinishedOnly | pkg/controller/workflow.go:523-543 | over every run: a step is Complete in a version only if some sync was given for it one job with a true condition Complete or Failed |
| JobOutcomes.PassReferences | pkg/controller/workflow.go:528-535 | a pass leaves the references of the statuses there are, and a new status refers to the one job listed for its step |
| JobOutcomes.TurnUpdatesIff | pkg/controller/workflow.go:503-549 | the turn of a step asks for an update iff it changed a status, or had a job created with an acknowledgement, or is that of an incomplete external reference |
| JobOutcomes.TurnCreatesIff | pkg/controller/workflow.go:508-520 | a job is stored iff the step is due, none is listed for it and the creation is not refused; with the given name, the step's labels and no conditions, also if the creation seems to have failed |
| JobOutcomes.EventsTellJobs | pkg/controller/workflow.go:508-520 | the log of a pass, of which the theorems on runs speak, has exactly one creation for each job stored, with the step that the job is labelled with |
| StatusInvariant.ManageKeepsConsistent | pkg/controller/workflow.go:451-549 | a pass keeps the statuses distinct, each with its dependencies Complete strictly before it, withdraws no completion, and only appends conditions |
| StatusInvariant.CompleteMeansSorted | pkg/controller/workflow.go:475-481 | a workflow found complete has an acyclic, closed dependency graph, and its statuses are a topologically ordered permutation of its steps, independently of validation |
| WorkflowSync.DefaultedOnce | pkg/api/workflow/v1/default.go:12-33 | a defaulted workflow counts as defaulted, so the defaulting write is not repeated |
| WorkflowSync.DefaultedIff | pkg/api/common/default.go:8-22 | no defaulting is needed iff every job template gives the number of pods at a time |
| JobOutcomes.DefaultsStored | pkg/api/common/default.go:8-22 | a sync on an undefaulted workflow stores it with the fields that were given, one pod at a time where that was not given, and one completion where neither was; status and jobs stay |
| WorkflowSync.DeadlineExactIff | pkg/controller/workflow.go:441-449 | the int64 test agrees with exact time for all instants iff the deadline is at most 9223372036 seconds |
| WorkflowSync.DeadlineWraps | pkg/controller/workflow.go:447 | a deadline of 9223372037 seconds is past at the start |
| WorkflowSync.SyncPanicsIff | pkg/controller/workflow.go:265-280 | a sync panics, for any replies, iff the workflow is accepted and started, has no label map, and is past its deadline or has a due step |
| JobOutcomes.SyncFailsIff | pkg/controller/workflow.go:231-278 | a sync returns an error iff the removal of a workflow that is not accepted is refused, or, past the deadline, the listing for the sweep fails or a deletion of an unfinished listed job is refused |
| JobOutcomes.RemovedIff | pkg/controller/workflow.go:231-243 | with RemoveInvalidWorkflow set, as it always is, a sync removes the workflow iff it is defaulted, not accepted, and the removal not refused |
| JobOutcomes.DeletingIsLeftAlone | pkg/controller/workflow.go:245-248 | a sync does nothing to an accepted workflow that is being deleted |
| JobOutcomes.SweepAsksIff | pkg/controller/common.go:16-33 | the sweep asks for the deletion of a name iff a listed job of that name has no true condition Complete or Failed |
| JobOutcomes.DeadlineSyncSweeps | pkg/controller/workflow.go:265-277 | a sync past the deadline leaves exactly the jobs whose deletion it does not ask for or is refused |
| WorkflowController.FindStepStatus | pkg/controller/controller_util.go:49-56 | the first status of the name, or none |
| WorkflowController.JobFinished | pkg/controller/controller_util.go:141-148 | finished iff some condition is true and is Complete or Failed |
| WorkflowController.WorkflowObject.GetJobLabelsSet | pkg/controller/controller_util.go:72-84 | panics iff there is no map; otherwise returns the merged labels and leaves them in the selector's own map |
| WorkflowController.Controller.CreateJobFromWorkflow | pkg/controller/job_control.go:49-56 | the stored job carries the labels that the map is left with; a panic iff there is no map, and then no job |
| WorkflowController.Controller.ManageWorkflowJobStep | pkg/controller/workflow.go:493-549 | the new workflow, the result, the panic and the stored jobs are those of the pass specification, for every answer |
| WorkflowController.Controller.ManageWorkflow | pkg/controller/workflow.go:451-491 | the new workflow, the stored jobs, the panic and the update are those of the pass specification |
| WorkflowController.Controller.DeleteJobsFromLabelSelector | pkg/controller/common.go:16-33 | deletes exactly the unfinished listed jobs whose deletion is not refused; fails iff the listing failed or one was refused |
| WorkflowController.Controller.DeleteWorkflowJobs | pkg/controller/workflow.go:564-569 | panics iff there is no map, before any deletion |
| WorkflowController.Controller.Sync | pkg/controller/workflow.go:207-281 | error, panic, stored workflow and jobs after a sync, on the stored version or another one, are those of the transition that the runs are made of; an accepted workflow that was not started is stored with the time of the sync |
| WorkflowRun.RunKeepsInv | pkg/controller/workflow.go:207-281 | over every run with any replies, lagging caches, accepted edits, deletions and lost updates: each job was created after a job of each dependency was seen finished; in every version ever stored the statuses are consistent and backed by a finished job and the completion time is set iff there are conditions; each version is a later state of all before it |
| WorkflowRun.RunFollows | pkg/controller/workflow.go:252-280 | from any reachable point on: completion never reverts, conditions only grow, the start time is set once, versions and log are only added to |
| WorkflowRun.RunSparesComplete | pkg/controller/workflow.go:454-458 | with caches that do not lag, a step stored as Complete gets no further job, and no step gets one after the workflow is gone |
| WorkflowRun.SyncSparesRead | pkg/controller/workflow.go:454-458 | a sync on any version, older or stored, creates nothing for the steps that are Complete in that version |
| WorkflowRun.StaleSyncSparesIff | pkg/controller/workflow.go:192-205 | for a step whose dependencies are Complete in the older version that a sync reads: it never gets a job, whatever the replies, iff it is Complete in that version itself |
| WorkflowRun.FinishedForGood | pkg/controller/controller_util.go:18-25 | a finished workflow stays finished until removed |
| Timestamps.RunIsStamped | pkg/controller/workflow.go:252-278 | over every run: the version that first has a start time has that of the clock after the sync that stored it, with no statuses; at most one condition is added, with that clock, which is the completion time too; Complete if all steps are, Failed for DeadlineExceeded iff the deadline was over when the sync began |
| Timestamps.RunKeepsTime | pkg/controller/workflow.go:252-278 | over every run, in every version: the start time lies between the beginning and the clock, the conditions follow it in order, the completion time is that of the last one, and the failed ones are those of the deadline |
| Timestamps.FirstSyncStarts | pkg/controller/workflow.go:252-263 | the first sync of an accepted workflow that gets its update through starts it, with the clock |
| Timestamps.FinishedIffCompleted | pkg/controller/controller_util.go:18-25 | in every version of every run the workflow counts as finished iff its completion time is set |
| WorkflowRun.NothingAfterDeadline | pkg/controller/workflow.go:265-278 | once the stored workflow and every started older version are past the deadline, with no edit, they stay past it and no job is ever created again, lagging caches or not |
| WorkflowRun.PastDeadlineIsExact | pkg/controller/workflow.go:441-449 | for deadlines up to 9223372036 seconds and runs without edits that point is the stored start time plus the deadline |
| WorkflowRun.ExternalNeverCompletes | pkg/controller/workflow.go:460-472 | a workflow with a step that is not a job never has all steps Complete nor the condition Complete, in any run without edits |
| WorkflowRun.NothingRunsWithoutLabels | pkg/controller/controller_util.go:68-84 | a workflow submitted with nil or empty MatchLabels never gets a job or a status, in any run without edits |
| RunLabels.DueLabels | pkg/controller/controller_util.go:72-84 | a due step computes the labels expected for it, at its turn of a pass over any version that a run leaves |
| RunLabels.ManageStepObeys | pkg/controller/workflow.go:454-474 | one iteration keeps what makes this so: settled labels, or passes behind the version and turns of this one that have left its statuses and labels |
| RunLabels.EditObeys | pkg/api/workflow/v1/validation.go:160-218 | an accepted edit keeps it too if it takes every template's labels out of a family that shares keys and agrees for each step, or leaves names, dependencies and labels of the steps |
| FreshRun.LookupFindsOwnJobs | pkg/controller/workflow.go:555-562 | if the labels cannot drift, the lookup of a step finds exactly the jobs labelled with the step |
| FreshRun.RunKeepsLabels | pkg/controller/workflow.go:503-520 | over every run, whatever the lister answers: the workflow's jobs carry the labels expected for their steps, if all templates that the workflow has, over its accepted edits, share their keys and agree for each step, or if edits leave what decides the labels and these are the same after all passes |
| FreshRun.RunKeepsOneJobPerStep | pkg/controller/workflow.go:503-520 | under the same conditions, over every run with an exact lister, with lagging caches, failed creations, lost updates and deletions: never two jobs for one step |
| IndependentSteps.NoDoublesIff | pkg/controller/workflow.go:451-562 | for every workflow of independent steps: no run with an exact lister gives a step two jobs, iff for each key that a step does not set, what it finds first, from the selector and the steps before it, is what every other step sets; which for them is the condition on passes |
| IndependentSteps.DisagreeingDoubles | pkg/controller/workflow.go:451-562 | one step that sets another value than a step finds first is enough for a run with two jobs for the latter |
| IndependentSteps.OpenStepAfter | pkg/controller/workflow.go:503-543 | in a good sync after which an open step has no second job, it has found its job or made one, and is Complete iff it had a finished one |
| EditedLabels.NextSyncMakes | pkg/controller/workflow.go:503-520 | a good sync makes a job for a due step iff none of the step's jobs has all labels of the map at its turn and of the template; and the job's labels |
| EditedLabels.GoodPassesAgree | pkg/controller/workflow.go:451-549 | with an exact lister and nothing refused, what a pass leaves of the workflow depends on workflow and jobs alone |
| EditedLabels.EditAfterRunIff | pkg/api/workflow/v1/validation.go:185-194 | after any run with labels that cannot drift, an accepted edit and a good sync give a due step that has a job another one iff the map's labels at its turn, with the new template's, are not all among those of the old template's jobs |
| EditedLabels.EditSparesJobIff | pkg/api/workflow/v1/validation.go:185-194 | with keys shared before the edit: no other job iff the new template's labels are among the old ones and the original selector's, and the map has no other value for a dropped label at the step's turn |
| EditedLabels.EditBeforeJob | pkg/api/workflow/v1/validation.go:185-194 | an edit before a due step has a job leaves it with exactly one after the next good sync |
| EditedLabels.DroppingCosts | pkg/api/workflow/v1/validation.go:185-194 | a dropped label that costs a job: another step has left its own value for the key |
| DriftRun.DriftHappens | pkg/controller/workflow.go:503-520 | a run of three syncs from a submitted workflow, nothing failing, the lister exact and all job names different, leaves two jobs for one step; both conditions on the labels fail |
| DriftRun.EditHappens | pkg/api/workflow/v1/validation.go:185-194 | an accepted edit that gives a label of a step with a job and no status another value, all keys being shared, and one flawless sync, leave two jobs for the step |
| DriftRun.LaggingListerHappens | pkg/controller/workflow.go:544-546 | a sync whose lister lacks the newest job gives the one step a second one with the same labels; from then on no good rounds complete the workflow |
| DriftRun.LeftoverHappens | pkg/controller/workflow.go:503-543 | a new workflow with a finished job left under its name is complete after two flawless syncs, and no job was created |
| DriftRun.StaleViewHappens | pkg/controller/workflow.go:192-205 | a run with an exact lister in which a sync on an older version creates a job for a step that is stored as Complete |
| Progress.ReadyStep | pkg/controller/workflow.go:493-501 | an accepted incomplete workflow has an incomplete step whose dependencies are all Complete |
| Progress.PassLowersMeasure | pkg/controller/workflow.go:451-549 | with finished jobs and good replies a pass on an incomplete workflow strictly lowers the sum of 2 (no job), 1 (job), 0 (Complete) |
| Progress.NoReachableDeadlock | pkg/controller/workflow.go:451-549 | after every run with labels that cannot drift, whatever the lister answered in it, 2n + 1 good rounds complete all n steps of an accepted, started workflow of job steps and record the completion, iff it was complete before, or has a label map and no incomplete step with two jobs |
| Progress.ExactListerBlocksNothing | pkg/controller/workflow.go:503-520 | after a run with an exact lister no incomplete step has two jobs |
| Progress.BlockedRound | pkg/controller/workflow.go:544-546 | a good round leaves an incomplete step with two jobs as it is |
| Progress.StuckRound | pkg/controller/workflow.go:503-505 | a round on an incomplete such workflow without a label map panics and leaves the stored workflow as it was |
| Progress.GoodRoundsExist | pkg/controller/workflow.go:451-549 | without a deadline, any number of good rounds is possible from every ready state that does not panic |
| Progress.GoodRepliesExist | pkg/controller/workflow.go:555-562 | replies as the rounds assume exist in every state, with job names that are new and all different |
| DaemonSetController.GetJobStatus | pkg/controller/daemonsetjob.go:423-433 | failed iff a true Failed stands before any true Complete, succeeded the other way round |
| DaemonSetJob.StatusOfIff | pkg/controller/daemonsetjob.go:423-433 | that status on the conditions: failed, succeeded, and active iff no condition of the two kinds is true |
| DaemonSetController.GroupByNode | pkg/controller/daemonsetjob.go:300-309 | the first listed job of each node, and exactly the others |
| DaemonSetController.Controller.ManageNode | pkg/controller/daemonsetjob.go:329-358 | per node: what is created, deleted, counted, and left for the last loop; a panic iff a job is to be created without a label map |
| DaemonSetController.Controller.ManageDaemonSetJob | pkg/controller/daemonsetjob.go:287-399 | for all replies: the jobs afterwards are the old ones without the requested deletions that were not refused, plus the new ones; the errors, counts, conditions and the decision to write; a panic iff there is no job template, and then nothing else happens, or there is no label map and some selected node has no job, and then exactly the deletions made before that node |
| DaemonSetController.RequestsByNode | pkg/controller/daemonsetjob.go:302-368 | the deletions are the duplicates and the first jobs that are not on a selected node or not to be kept |
| DaemonSetController.TouchedIff | pkg/controller/daemonsetjob.go:328-358 | what makes a pass write the status back whatever it counts: a selected node without a job, or whose first one is of another spec and has succeeded or failed |
| DaemonSetController.OutdatedIff | pkg/controller/daemonsetjob.go:341-351 | what a pass that ends in a panic for want of a map has deleted on the nodes before: their first jobs of another spec that have succeeded |
| DaemonSetJob.MadeJobsAreKept | pkg/controller/job_control.go:59-85 | a created job carries the node, label and hash that the next pass checks |
| DaemonSetJob.MadeJobIs | pkg/controller/controller_util.go:86-97 | the labels of a created job, key by key: the name of the DaemonSetJob over the template's over the selector's; its annotations with the hash; no conditions |
| DaemonSetJob.CountedIsCurrentNodes | pkg/controller/daemonsetjob.go:353-384 | Active + Succeeded + Failed is the number of selected nodes whose kept job has the current hash |
| DaemonSetJob.CountsAre | pkg/controller/daemonsetjob.go:401-413 | each of the three numbers is that of the selected nodes whose first listed job has the current hash and that status |
| DaemonSetJob.CompleteFlagIff | pkg/controller/daemonsetjob.go:372-385 | completion is reported iff no selected node's first listed job is current and active |
| DaemonSetJob.CompleteOnCreation | pkg/controller/daemonsetjob.go:328-380 | with nothing listed a pass asks for a job on every selected node and counts none as active, which is reported as complete |
| DaemonSetJob.AllDoneIff | pkg/controller/daemonsetjob.go:372-380 | the job of every selected node has finished iff completion is reported and the first job listed for each is of the current spec |
| DaemonSetConvergence.PassLeavesExactly | pkg/controller/daemonsetjob.go:298-368 | without errors a pass leaves exactly the first job of each selected node if current or failed, and a new job where there was none; other jobs are untouched |
| DaemonSetConvergence.JobSurvivesIff | pkg/controller/daemonsetjob.go:300-368 | a job of the label survives an error-free pass iff it is the first listed on a selected node, and has the current hash or a true Failed before any true Complete |
| DaemonSetConvergence.ConvergesInTwoPasses | pkg/controller/daemonsetjob.go:298-368 | from any jobs, after two passes every selected node has exactly one job, current or failed, and no other remains; the third asks for nothing |
| DaemonSetConvergence.OnePassEnoughIff | pkg/controller/daemonsetjob.go:339-351 | one pass is enough iff no selected node's first job is to be replaced |
| DaemonSetConvergence.OtherNamesUntouched | pkg/controller/daemonsetjob.go:298-299 | an error-free pass leaves the jobs of DaemonSetJobs of other names as they are, and so what those have converged to |
| DaemonSetConvergence.SameNameDeletes | pkg/controller/daemonsetjob.go:298-299 | of two DaemonSetJobs of one name with different hashes, a pass of one deletes all jobs that a pass of the other has just created |
| DaemonSetConditions.DaemonSetJobStatus.UpdateCondition | pkg/controller/daemonsetjob.go:676-688 | the conditions written in place are those of the specification |
| DaemonSetConditions.DaemonSetJobStatus.UpdateConditions | pkg/controller/daemonsetjob.go:690-707 | conditions and completion time after one call |
| DaemonSetConditions.HistoryTells | pkg/controller/daemonsetjob.go:665-718 | after any history of calls each kind stands at most once, iff its flag was ever true, with the latest flag and probe time and the start of the current run of flags; completion time is set iff currently complete and is that start |
| CronSchedule.GetRecentUnmetScheduleTimes | pkg/controller/cronworkflow_util.go:11-40 | the loop computes the specified list or error |
| CronSchedule.UnmetMeans | pkg/controller/cronworkflow_util.go:17-39 | all and only the due times after the earliest time up to now, ascending; the error exactly when there are more than 100, or the search gives up from some time in between on; for schedules that are due at fixed times |
| CronSchedule.NeverDueIsTooMany | pkg/controller/cronworkflow_util.go:32-38 | a schedule that is never due gives the error of too many missed times |
| CronSchedule.StartingDeadlineExactIff | pkg/controller/cronworkflow_util.go:17-28 | at all times the earliest time is the later one of the last schedule and the deadline before now, in exact time, iff the deadline is within 9223372036 seconds |
| CronSchedule.StartingDeadlineWraps | pkg/controller/cronworkflow_util.go:21-31 | with one second more the earliest time is always in the future, and nothing is found to be due |
| CronEvery.EveryIsSchedule | vendor/github.com/robfig/cron/constantdelay.go:14-27 | without a starting deadline an `@every` schedule is due at fixed times and never gives up, so all of this holds of it |
| CronEvery.EveryWithDeadline | pkg/controller/cronworkflow_util.go:21-36 | with one that counts, the times found are as many as the deadline holds delays, the last at a fixed lag behind the second of the clock, or the error for more than 100 |
| CronEvery.SameNameIff | pkg/controller/cronworkflow.go:311-321 | two syncs of such a CronWorkflow name their workflows alike iff they run in the same second |
| CronEvery.OneEverySecond | pkg/controller/cronworkflow.go:265-300 | n syncs, one second apart, create n workflows |
| CronWorkflowController.NameInjective | pkg/controller/cronworkflow.go:311-321 | the name tells the CronWorkflow and the second, at all times, for names that do not end in a dash, as object names do not |
| CronWorkflowController.NamesAgreeIff | pkg/controller/cronworkflow.go:311-321 | for any strings, two names agree iff CronWorkflow and second do, or one is the other with a dash behind, for opposite seconds |
| CronWorkflowController.DigitsAreDecimal | pkg/controller/cronworkflow.go:311-321 | the digits in a name are those of the seconds, to the base of ten |
| CronWorkflowController.GroupWorkflowsByCronWorkflows | pkg/controller/cronworkflow.go:335-350 | each CronWorkflow's group lists the workflows it controls, in order, and no group is empty |
| CronWorkflowController.CronWorkflowObject.PruneActive | pkg/controller/cronworkflow.go:239-254 | the active list keeps, in order, what is the uid of a child of which none with that uid is finished |
| CronWorkflowController.SyncOne | pkg/controller/cronworkflow.go:238-304 | active list in memory and as stored, and the workflow created: its name, labels, annotations, defaulted spec and missing owner, for all replies |
| CronRun.CreatesIff | pkg/controller/cronworkflow.go:265-300 | a sync creates a workflow for t iff it is not held back, t is the latest due time after the earliest with at most 100 in between and no gap that the search gives up in, and t has no workflow yet; for schedules due at fixed times |
| CronRun.CreatedIs | pkg/controller/cronworkflow.go:311-333 | the workflow that a sync adds, field by field: name, the template's labels with the CronWorkflow's name over them, its annotations, no owner, its spec with the defaults |
| CronRun.RunKeepsInv | pkg/controller/cronworkflow.go:273-300 | over every run the schedule times of the created workflows strictly increase, each the latest due at its creation, with one workflow per time, whatever other CronWorkflows create; for schedules due at fixed times |
| CronRun.AtMostHundredWithoutDeadline | pkg/controller/cronworkflow_util.go:17-36 | without a starting deadline at most 100 workflows are ever created |
| CronRun.StarvedForGood | pkg/controller/cronworkflow_util.go:32-36 | once more than 100 times are due, or there was such a gap, nothing is created any more |
| CronRun.ChildrenNeverChange | pkg/controller/cronworkflow.go:323-331 | in no run does any CronWorkflow get or lose a child, whatever it and other CronWorkflows create |
| CronRun.ActiveAfterSyncIff | pkg/controller/cronworkflow.go:239-254 | after a sync whose update gets through a uid is active iff it was, some workflow controlled by the CronWorkflow has it, and none that has it is finished |
| CronRun.FinishedLeaves | pkg/controller/cronworkflow.go:240-248 | after any run, a child that is finished is gone from the list after the next such sync |
| CronRun.UnfinishedStays | pkg/controller/cronworkflow.go:239-254 | over every run a listed child that does not finish stays on the list |
| CronRun.ActiveOnlyShrinks | pkg/controller/cronworkflow.go:239-254 | in every run the stored active list is only taken from, so that of a new CronWorkflow stays empty |
| CronRun.ActiveAreOldChildren | pkg/controller/cronworkflow.go:239-254 | what a sync that gets its update through leaves of it was there, and a child, at the beginning |
| GarbageCollector.CollectListed | pkg/garbagecollector/garbagecollector.go:52-84 | which workflows are collected, at most once each, which jobs are left, and when an error is returned, for all replies |
| GarbageCollector.CollectWorkflowJobs | pkg/garbagecollector/garbagecollector.go:44-86 | only workflows missing from cache and API are collected, once; without errors all missing ones of the listing |
| GarbageCollector.CollectedIff | pkg/garbagecollector/garbagecollector.go:63-80 | a workflow's jobs are deleted iff neither cache nor API has it and the deletion asked for at one of its listed jobs is not refused |
| GarbageCollector.SomeErrsIff | pkg/garbagecollector/garbagecollector.go:54-83 | an error is returned iff some listed job names no workflow, or a lookup for it failed, or the workflow is missing and its deletion was refused at this job and all before it |
| GarbageCollector.LiveJobsSurvive | pkg/garbagecollector/garbagecollector.go:63-75 | the jobs of a live workflow are never touched |
| GarbageCollector.ErrorFreeSweepIsExact | pkg/garbagecollector/garbagecollector.go:54-83 | a sweep without errors leaves exactly the jobs whose workflow is not missing |
| GarbageCollector.JoinInjective | pkg/garbagecollector/garbagecollector.go:60 | the joined path tells namespace and name |

## Left out

- PassHistories.StableIffSpecKeys: for specs that list a step before one of its dependencies the condition on passes is not given; the one on the dependencies alone is sufficient there.
- IndependentSteps.NoDoublesIff: for workflows with dependencies the conditions on the labels are sufficient for one job per step; which of two label histories can meet in one run then depends on lost updates and lagging caches too.
- FreshRun.RunKeepsOneJobPerStep: assumes that nobody but the controller creates jobs with the workflow's label.
- CronWorkflowController.SyncOne: the changes that a CronWorkflow updated concurrently brings back with the reply to its update are not modelled.
- WorkflowRun.RunKeepsInv: a workflow that is removed and created again under its name is a new run, whose jobs may be there from the beginning.
- CronSchedule.UnmetMeans: for schedules due at fixed times; what the loop finds for an `@every` schedule with a starting deadline is said by EveryWithDeadline.
- CronRun.CreatesIff: likewise for schedules due at fixed times.
- CronRun.RunKeepsInv: likewise; assumes that no workflow of the namespace is deleted; after a deletion the same schedule time is created again.
- The informer handlers, which also read the selector of every workflow.
- The truncation of stored times to whole seconds.
- Timestamps.RunIsStamped: the readings of the clock that one sync makes after the first are taken for one.
- Owner references of jobs, events, work queues, re-enqueueing, informers, listers, health checks and the set-up of the controllers.
- Object metadata, label selector syntax, job spec and cron field checks: verdicts carried as booleans.
- sync of the DaemonSetJob controller around the pass (defaulting, start time, deadline): the same steps as those of the workflow's sync.
- The near-copies in pkg/api/workflow/validation/validation.go and pkg/garbagecollector/daemonsetjob_gc.go: each algorithm is modelled once.
- Helpers such as RemoveStepFromSpec and the owner reference builders: one-line results.
- The generated clients and the kubectl plugin.
