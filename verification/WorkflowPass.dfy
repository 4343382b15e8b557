/** One pass of manageWorkflow over the steps of a workflow, as a function of
    the workflow and of the replies of the API server and the job lister
    (pkg/controller/workflow.go). WorkflowController.dfy holds the methods. */
module WorkflowPass {
  import opened Prelude
  import opened WorkflowTypes
  import opened JobLabels

  /** The reply to a job creation. TimedOut: the object was stored, but the
      caller sees an error. */
  datatype CreateReply = Created(jobName: string) | Refused | TimedOut(jobName: string)

  /** The replies for one step. Nothing is assumed of the listing; None is an
      error of the lister. */
  datatype Answer = Answer(listing: Option<seq<Job>>, referenceOk: bool, creation: CreateReply)

  type Answers = nat -> Answer

  /** The local state of manageWorkflow's loop, and the jobs stored so far;
      panicked if a write to a nil map has ended it. */
  datatype Pass = Pass(w: Workflow, toBeUpdated: bool, complete: bool, created: seq<Job>, panicked: bool)

  datatype StepResult = StepResult(w: Workflow, updated: bool, created: seq<Job>, panicked: bool)

  predicate DependenciesComplete(statuses: seq<StepStatus>, dependencies: seq<string>) {
    forall i :: 0 <= i < |dependencies| ==> IsComplete(statuses, dependencies[i])
  }

  function WriterOf(step: Step): Writer
    requires step.jobTemplate.Some?
  {
    Writer(step.name, step.jobTemplate.value.podLabels)
  }

  /** The labels a step's jobs are looked up with, and created with. */
  function StepLabels(w: Workflow, step: Step): Labels
    requires step.jobTemplate.Some?
  {
    LabelsFor(LabelMap(w), w.name, WriterOf(step))
  }

  function WithStatuses(w: Workflow, statuses: seq<StepStatus>): Workflow {
    w.(status := w.status.(statuses := statuses))
  }

  /** The statuses after one job of the step was found. */
  function RecordJob(statuses: seq<StepStatus>, name: string, job: Job): seq<StepStatus> {
    var k := StatusIndex(statuses, name);
    if k < 0 then statuses + [StepStatus(name, IsJobFinished(job), job.name)]
    else if IsJobFinished(job) then statuses[k := statuses[k].(complete := true)]
    else statuses
  }

  /** manageWorkflowJobStep: the labels are written as soon as the dependencies are
      found Complete, which panics if there is no map. */
  function JobStep(w: Workflow, step: Step, a: Answer): StepResult
    requires step.jobTemplate.Some?
  {
    if !DependenciesComplete(w.status.statuses, step.dependencies) then StepResult(w, false, [], false)
    else if MatchLabels(w).None? then StepResult(w, false, [], true)
    else
      var w' := WithLabels(w, StepLabels(w, step));
      if a.listing.None? then StepResult(w', false, [], false)
      else if a.listing.value == [] then
        match a.creation {
          case Created(jobName) => StepResult(w', true, [Job(jobName, StepLabels(w, step), [])], false)
          case Refused => StepResult(w', false, [], false)
          case TimedOut(jobName) => StepResult(w', false, [Job(jobName, StepLabels(w, step), [])], false)
        }
      else if |a.listing.value| == 1 then
        var job := a.listing.value[0];
        if !a.referenceOk then StepResult(w', false, [], false)
        else
          StepResult(WithStatuses(w', RecordJob(w'.status.statuses, step.name, job)),
                     StatusIndex(w'.status.statuses, step.name) < 0 || IsJobFinished(job), [], false)
      else StepResult(w', false, [], false)
  }

  /** One iteration of manageWorkflow's loop. */
  function ManageStep(p: Pass, step: Step, a: Answer): Pass {
    if p.panicked || IsComplete(p.w.status.statuses, step.name) then p
    else if step.jobTemplate.Some? then
      var r := JobStep(p.w, step, a);
      Pass(r.w, p.toBeUpdated || r.updated, false, p.created + r.created, r.panicked)
    else Pass(p.w, p.toBeUpdated || step.externalRef.Some?, false, p.created, false)
  }

  /** The state before step i, from the workflow w at the start of the pass. */
  function Before(w: Workflow, answers: Answers, i: nat): (p: Pass)
    requires i <= |w.spec.steps|
  {
    if i == 0 then Pass(w, false, true, [], false)
    else ManageStep(Before(w, answers, i - 1), w.spec.steps[i - 1], answers(i - 1))
  }

  function AppendCondition(w: Workflow, c: Condition, now: int): Workflow {
    w.(status := w.status.(conditions := w.status.conditions + [c], completionTime := Some(now)))
  }

  /** The pass at its end: Complete is appended if no step was incomplete. */
  function Manage(w: Workflow, answers: Answers, now: int): Pass {
    var p := Before(w, answers, |w.spec.steps|);
    if p.complete then p.(w := AppendCondition(p.w, Condition(Complete, now, ""), now), toBeUpdated := true)
    else p
  }

  // ------------------------------------------------------- facts on statuses

  ghost predicate DistinctStatuses(statuses: seq<StepStatus>) {
    forall i, j :: 0 <= i < j < |statuses| ==> statuses[i].name != statuses[j].name
  }

  /** new has the statuses of old in place, with Complete never withdrawn, and
      perhaps more. */
  ghost predicate Grows(old': seq<StepStatus>, new': seq<StepStatus>) {
    && |old'| <= |new'|
    && forall j :: 0 <= j < |old'| ==>
      new'[j].name == old'[j].name && (old'[j].complete ==> new'[j].complete)
  }

  lemma StatusFound(statuses: seq<StepStatus>, j: nat)
    requires DistinctStatuses(statuses) && j < |statuses|
    ensures StatusIndex(statuses, statuses[j].name) == j
  {
  }

  /** Statuses agree on a name if they hold it at the same first position. */
  lemma SameIndex(a: seq<StepStatus>, b: seq<StepStatus>, name: string)
    requires |a| <= |b|
    requires forall j :: 0 <= j < |a| ==> b[j].name == a[j].name
    requires forall j :: |a| <= j < |b| ==> b[j].name != name
    ensures StatusIndex(b, name) == StatusIndex(a, name)
  {
    var j, k := StatusIndex(a, name), StatusIndex(b, name);
    if j >= 0 {
      assert b[j].name == name;
    }
    if 0 <= k {
      assert k < |a| && a[k].name == name;
    }
  }

  lemma GrowsKeepsComplete(a: seq<StepStatus>, b: seq<StepStatus>, name: string)
    requires Grows(a, b) && IsComplete(a, name)
    ensures IsComplete(b, name)
  {
    var k := StatusIndex(a, name);
    SameIndex(a, b[..|a|], name);
    var j := StatusIndex(b, name);
    assert b[..|a|][k].name == name;
    assert b[k].name == name;
    assert j >= 0 && j <= k;
    assert a[j].name == name;
  }

  /** b differs from a in the status of one step, which may have become Complete. */
  ghost predicate Updates(a: seq<StepStatus>, b: seq<StepStatus>, name: string) {
    && Grows(a, b)
    && (DistinctStatuses(a) ==> DistinctStatuses(b))
    && forall n :: n != name ==> (IsComplete(b, n) <==> IsComplete(a, n))
  }

  lemma RecordJobUpdates(a: seq<StepStatus>, name: string, job: Job)
    ensures Updates(a, RecordJob(a, name, job), name)
    ensures IsComplete(RecordJob(a, name, job), name) <==> IsComplete(a, name) || IsJobFinished(job)
    ensures StatusIndex(RecordJob(a, name, job), name) >= 0
  {
    var b := RecordJob(a, name, job);
    forall n | n != name ensures IsComplete(b, n) <==> IsComplete(a, n) {
      SameIndex(a, b, n);
    }
    if StatusIndex(a, name) < 0 {
      assert b[|a|].name == name;
    } else {
      SameIndex(a, b, name);
    }
  }

  // --------------------------------------------------- what a pass changes

  /** The fields a pass leaves alone: all but the labels and the statuses. */
  ghost predicate SameBut(w: Workflow, w': Workflow) {
    w' == WithStatuses(WithMatchLabels(w, MatchLabels(w')), w'.status.statuses)
  }

  /** Whatever the replies, a job step changes at most the labels, to those of
      the step, and the status of the step. */
  lemma JobStepFrame(w: Workflow, step: Step, a: Answer)
    requires step.jobTemplate.Some?
    ensures var w' := JobStep(w, step, a).w;
      && SameBut(w, w')
      && (MatchLabels(w') == MatchLabels(w)
          || (MatchLabels(w).Some? && MatchLabels(w') == Some(StepLabels(w, step))))
      && Updates(w.status.statuses, w'.status.statuses, step.name)
  {
    hide RecordJob, IsComplete, StepLabels, DependenciesComplete, IsJobFinished, Updates, StatusIndex;
    UpdatesNothing(w.status.statuses, step.name);
    if a.listing.Some? && |a.listing.value| == 1 {
      RecordJobUpdates(w.status.statuses, step.name, a.listing.value[0]);
    }
  }

  lemma UpdatesNothing(a: seq<StepStatus>, name: string)
    ensures Updates(a, a, name)
  {
  }

  ghost predicate Extends(p: Pass, q: Pass) {
    && SameBut(p.w, q.w)
    && MatchLabels(p.w).Some? == MatchLabels(q.w).Some? && LabelMap(p.w).Keys <= LabelMap(q.w).Keys
    && Grows(p.w.status.statuses, q.w.status.statuses)
    && (DistinctStatuses(p.w.status.statuses) ==> DistinctStatuses(q.w.status.statuses))
    && (q.complete ==> p.complete) && (p.toBeUpdated ==> q.toBeUpdated) && (p.panicked ==> q == p)
    && p.created <= q.created
  }

  lemma ManageStepFrame(p: Pass, step: Step, a: Answer)
    ensures Extends(p, ManageStep(p, step, a))
    ensures Updates(p.w.status.statuses, ManageStep(p, step, a).w.status.statuses, step.name)
  {
    hide JobStep, IsComplete;
    if !p.panicked && !IsComplete(p.w.status.statuses, step.name) && step.jobTemplate.Some? {
      JobStepFrame(p.w, step, a);
    }
  }

  lemma {:induction false} BeforeExtends(w: Workflow, answers: Answers, i: nat, j: nat)
    requires i <= j <= |w.spec.steps|
    ensures Extends(Before(w, answers, i), Before(w, answers, j))
    decreases j - i
  {
    hide ManageStep, Updates;
    if i < j {
      BeforeExtends(w, answers, i, j - 1);
      ManageStepFrame(Before(w, answers, j - 1), w.spec.steps[j - 1], answers(j - 1));
    }
  }

  /** With unique step names, the status of a step changes in its own turn only. */
  lemma {:induction false} StatusUntouchedBefore(w: Workflow, answers: Answers, i: nat, k: nat)
    requires i <= k < |w.spec.steps| && UniqueNames(w.spec.steps)
    ensures IsComplete(Before(w, answers, i).w.status.statuses, w.spec.steps[k].name)
            <==> IsComplete(w.status.statuses, w.spec.steps[k].name)
  {
    hide ManageStep, IsComplete, Extends;
    if i > 0 {
      StatusUntouchedBefore(w, answers, i - 1, k);
      ManageStepFrame(Before(w, answers, i - 1), w.spec.steps[i - 1], answers(i - 1));
    }
  }

  // ------------------------------------------------- when Complete is appended

  ghost predicate AllComplete(w: Workflow) {
    forall k :: 0 <= k < |w.spec.steps| ==> IsComplete(w.status.statuses, w.spec.steps[k].name)
  }

  /** The loop flags the workflow complete exactly if each of the steps seen was
      complete when the pass began; it then changed nothing. */
  lemma {:induction false} CompleteFlag(w: Workflow, answers: Answers, i: nat)
    requires i <= |w.spec.steps|
    ensures Before(w, answers, i).complete <==>
            forall k :: 0 <= k < i ==> IsComplete(w.status.statuses, w.spec.steps[k].name)
    ensures Before(w, answers, i).complete ==> Before(w, answers, i) == Pass(w, false, true, [], false)
  {
    hide IsComplete, JobStep;
    if i > 0 {
      CompleteFlag(w, answers, i - 1);
      if Before(w, answers, i - 1).panicked {
        assert !Before(w, answers, i - 1).complete;
      }
    }
  }

  /** Complete is appended exactly when every step was Complete at entry, with no
      assumption on the spec or the replies; nothing else changes then. */
  lemma CompleteAppendedIff(w: Workflow, answers: Answers, now: int)
    ensures var p := Manage(w, answers, now);
      if AllComplete(w) then
        p == Pass(AppendCondition(w, Condition(Complete, now, ""), now), true, true, [], false)
      else
        && !p.complete && SameBut(w, p.w)
        && p.w.status.conditions == w.status.conditions
        && p.w.status.completionTime == w.status.completionTime
  {
    hide IsComplete, ManageStep;
    CompleteFlag(w, answers, |w.spec.steps|);
    BeforeExtends(w, answers, 0, |w.spec.steps|);
  }

  // --------------------------------------------------- when a pass ends in panic

  /** Step k is a job step that is not Complete, but all it depends on is. */
  ghost predicate DueStep(w: Workflow, k: nat)
    requires k < |w.spec.steps|
  {
    && w.spec.steps[k].jobTemplate.Some?
    && !IsComplete(w.status.statuses, w.spec.steps[k].name)
    && DependenciesComplete(w.status.statuses, w.spec.steps[k].dependencies)
  }

  /** The first write panics if and only if there is no map, so a pass panics if
      and only if there is none and one of the steps gone through was due at entry;
      and a pass without a map changes no label, no status and no job. */
  lemma {:induction false} PanicsIff(w: Workflow, answers: Answers, i: nat)
    requires i <= |w.spec.steps|
    ensures Before(w, answers, i).panicked <==>
            MatchLabels(w).None? && exists k :: 0 <= k < i && DueStep(w, k)
    ensures MatchLabels(w).None? ==> Before(w, answers, i).w == w && Before(w, answers, i).created == []
  {
    hide IsComplete, DependenciesComplete;
    if i > 0 {
      PanicsIff(w, answers, i - 1);
      BeforeExtends(w, answers, 0, i - 1);
      var p := Before(w, answers, i - 1);
      if p.panicked {
        var k :| 0 <= k < i - 1 && DueStep(w, k);
      } else if MatchLabels(w).None? && DueStep(w, i - 1) {
        assert Before(w, answers, i).panicked;
      }
    }
  }

  /** A due step is still due when its turn comes, and the pass has not panicked. */
  lemma StillDue(w: Workflow, answers: Answers, i: nat)
    requires UniqueNames(w.spec.steps) && i < |w.spec.steps| && DueStep(w, i) && MatchLabels(w).Some?
    ensures var p := Before(w, answers, i);
      && SameBut(w, p.w) && !p.panicked && MatchLabels(p.w).Some? && DueStep(p.w, i)
  {
    hide IsComplete, ManageStep;
    var p, step := Before(w, answers, i), w.spec.steps[i];
    BeforeExtends(w, answers, 0, i);
    PanicsIff(w, answers, i);
    StatusUntouchedBefore(w, answers, i, i);
    forall k | 0 <= k < |step.dependencies| ensures IsComplete(p.w.status.statuses, step.dependencies[k]) {
      GrowsKeepsComplete(w.status.statuses, p.w.status.statuses, step.dependencies[k]);
    }
  }
}
