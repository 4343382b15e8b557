/** The methods of the workflow controller (pkg/controller/workflow.go,
    controller_util.go, common.go, job_control.go), each against the function
    that WorkflowPass.dfy and WorkflowSync.dfy state properties of. */
module WorkflowController {
  import opened Prelude
  import opened WorkflowTypes
  import opened JobLabels
  import opened StepValidation
  import opened WorkflowPass
  import opened WorkflowSync
  import opened WorkflowRun

  // ---------------------------------------------------------------- lookups

  /** GetStepStatusByName */
  method FindStepStatus(statuses: seq<StepStatus>, name: string) returns (k: int)
    ensures k == StatusIndex(statuses, name)
  {
    for i := 0 to |statuses|
      invariant forall j :: 0 <= j < i ==> statuses[j].name != name
    {
      if statuses[i].name == name {
        return i;
      }
    }
    k := -1;
  }

  method JobFinished(job: Job) returns (finished: bool)
    ensures finished <==> IsJobFinished(job)
    ensures finished <==> exists c :: c in job.conditions && c.isTrue && (c.kind == JobComplete || c.kind == JobFailed)
  {
    FinishedMeans(job);
    for i := 0 to |job.conditions|
      invariant forall k :: 0 <= k < i ==>
        !((job.conditions[k].kind == JobComplete || job.conditions[k].kind == JobFailed) && job.conditions[k].isTrue)
    {
      var c := job.conditions[i];
      if (c.kind == JobComplete || c.kind == JobFailed) && c.isTrue {
        return true;
      }
    }
    finished := false;
  }

  // ---------------------------------------------------------------- the state

  /** The deep copy of a stored workflow that one sync works on. */
  class WorkflowObject {
    const name: string
    const metaValid: bool
    const deleting: bool
    const steps: seq<Step>
    const activeDeadlineSeconds: Option<int>
    var selector: Option<Selector>
    var conditions: seq<Condition>
    var startTime: Option<int>
    var completionTime: Option<int>
    var statuses: seq<StepStatus>

    ghost function Value(): Workflow
      reads this
    {
      Workflow(name, metaValid, deleting,
               Spec(steps, selector, activeDeadlineSeconds),
               Status(conditions, startTime, completionTime, statuses))
    }

    constructor DeepCopy(w: Workflow)
      ensures Value() == w
    {
      name, metaValid, deleting := w.name, w.metaValid, w.deleting;
      steps, selector := w.spec.steps, w.spec.selector;
      activeDeadlineSeconds := w.spec.activeDeadlineSeconds;
      conditions, startTime := w.status.conditions, w.status.startTime;
      completionTime, statuses := w.status.completionTime, w.status.statuses;
    }

    method Snapshot() returns (w: Workflow)
      ensures w == Value()
    {
      w := Workflow(name, metaValid, deleting,
                    Spec(steps, selector, activeDeadlineSeconds),
                    Status(conditions, startTime, completionTime, statuses));
    }

    /** One assignment to the selector's map; it panics on a nil map. */
    method WriteLabel(key: string, value: string) returns (panicked: bool)
      modifies this`selector
      ensures panicked <==> MatchLabels(old(Value())).None?
      ensures Value() == if panicked then old(Value())
                         else WithLabels(old(Value()), LabelMap(old(Value()))[key := value])
    {
      if selector.None? || selector.value.matchLabels.None? {
        return true;
      }
      selector := Some(selector.value.(matchLabels := Some(selector.value.matchLabels.value[key := value])));
      panicked := false;
    }

    /** The loop over the template's labels, in an arbitrary order. */
    method WritePodLabels(podLabels: Labels) returns (panicked: bool)
      modifies this`selector
      ensures panicked <==> MatchLabels(old(Value())).None? && podLabels != map[]
      ensures Value() == if MatchLabels(old(Value())).None? then old(Value())
                         else WithLabels(old(Value()), LabelMap(old(Value())) + podLabels)
    {
      panicked := false;
      ghost var w, base := Value(), LabelMap(Value());
      var rest := podLabels.Keys;
      assert base + (podLabels - rest) == base;
      while rest != {}
        invariant rest <= podLabels.Keys && !panicked
        invariant MatchLabels(w).None? ==> Value() == w && rest == podLabels.Keys
        invariant MatchLabels(w).Some? ==> Value() == WithLabels(w, base + (podLabels - rest))
      {
        var k :| k in rest;
        assert (base + (podLabels - rest))[k := podLabels[k]] == base + (podLabels - (rest - {k}));
        panicked := WriteLabel(k, podLabels[k]);
        if panicked {
          return;
        }
        rest := rest - {k};
      }
      assert podLabels - {} == podLabels;
      assert podLabels.Keys == {} ==> podLabels == map[];
    }

    /** getJobLabelsSetFromWorkflow: the map written to, and returned, is the
        selector's own. */
    method GetJobLabelsSet(step: Step) returns (desired: Labels, panicked: bool)
      requires step.jobTemplate.Some?
      modifies this`selector
      ensures panicked <==> MatchLabels(old(Value())).None?
      ensures panicked ==> Value() == old(Value())
      ensures !panicked ==> desired == StepLabels(old(Value()), step) && Value() == WithLabels(old(Value()), desired)
      ensures !panicked ==>
        && desired.Keys == LabelMap(old(Value())).Keys + step.jobTemplate.value.podLabels.Keys
                           + {"kubernetes.io/workflow", "kubernetes.io/workflow-step"}
        && forall k :: k in desired ==>
          desired[k] == if k == "kubernetes.io/workflow-step" then step.name
                        else if k == "kubernetes.io/workflow" then name
                        else if k in step.jobTemplate.value.podLabels then step.jobTemplate.value.podLabels[k]
                        else LabelMap(old(Value()))[k]
    {
      LabelsAre(LabelMap(Value()), name, WriterOf(step));
      desired := map[];
      panicked := WritePodLabels(step.jobTemplate.value.podLabels);
      if panicked {
        return;
      }
      panicked := WriteLabel(WORKFLOW_LABEL_KEY, name);
      if panicked {
        return;
      }
      panicked := WriteLabel(WORKFLOW_STEP_LABEL_KEY, step.name);
      desired := selector.value.matchLabels.value;
    }
  }

  /** The API server, for the workflow's key and namespace. */
  class Cluster {
    var stored: Option<Workflow>
    var jobs: seq<Job>

    /** updateWorkflow: whether the write got through is not told to the caller. */
    method UpdateWorkflow(w: Workflow, lost: bool)
      modifies this`stored
      ensures stored == if lost then old(stored) else Some(Serialize(w))
    {
      if !lost {
        stored := Some(Serialize(w));
      }
    }

    method DeleteWorkflow(refused: bool) returns (failed: bool)
      modifies this`stored
      ensures failed == refused && stored == if refused then old(stored) else None
    {
      if !refused {
        stored := None;
      }
      failed := refused;
    }

    method CreateJob(labels: Labels, reply: CreateReply) returns (failed: bool)
      modifies this`jobs
      ensures failed <==> !reply.Created?
      ensures jobs == if reply.Refused? then old(jobs) else old(jobs) + [Job(reply.jobName, labels, [])]
    {
      if !reply.Refused? {
        jobs := jobs + [Job(reply.jobName, labels, [])];
      }
      failed := !reply.Created?;
    }

    method DeleteJob(name: string, refused: bool) returns (failed: bool)
      modifies this`jobs
      ensures failed == refused
      ensures jobs == if refused then old(jobs) else Surviving(old(jobs), {name})
    {
      if !refused {
        jobs := Surviving(jobs, {name});
      }
      failed := refused;
    }
  }

  lemma {:induction false} SurvivingTwice(jobs: seq<Job>, a: set<string>, b: set<string>)
    ensures Surviving(Surviving(jobs, a), b) == Surviving(jobs, a + b)
  {
    if jobs != [] {
      SurvivingTwice(jobs[1..], a, b);
      SurvivingFirst(jobs, a);
      SurvivingFirst(jobs, a + b);
      if jobs[0].name !in a {
        SurvivingFirst([jobs[0]] + Surviving(jobs[1..], a), b);
        assert ([jobs[0]] + Surviving(jobs[1..], a))[1..] == Surviving(jobs[1..], a);
      }
    }
  }

  lemma SurvivingFirst(jobs: seq<Job>, deleted: set<string>)
    requires jobs != []
    ensures Surviving(jobs, deleted)
            == (if jobs[0].name !in deleted then [jobs[0]] else []) + Surviving(jobs[1..], deleted)
  {
  }

  // ------------------------------------------------------------- the controller

  class Controller {
    const cluster: Cluster

    constructor (cluster: Cluster)
      ensures this.cluster == cluster
    {
      this.cluster := cluster;
    }

    /** CreateJobFromWorkflow: the job carries the labels computed once more. */
    method CreateJobFromWorkflow(workflow: WorkflowObject, step: Step, reply: CreateReply)
      returns (failed: bool, panicked: bool)
      requires step.jobTemplate.Some?
      modifies workflow`selector, cluster`jobs
      ensures panicked <==> MatchLabels(old(workflow.Value())).None?
      ensures panicked ==> workflow.Value() == old(workflow.Value()) && cluster.jobs == old(cluster.jobs)
      ensures !panicked ==> (failed <==> !reply.Created?)
      ensures !panicked ==>
        var labels := StepLabels(old(workflow.Value()), step);
        && workflow.Value() == WithLabels(old(workflow.Value()), labels)
        && cluster.jobs == old(cluster.jobs) + (if reply.Refused? then [] else [Job(reply.jobName, labels, [])])
    {
      var labels;
      failed := false;
      labels, panicked := workflow.GetJobLabelsSet(step);
      if panicked {
        return;
      }
      failed := cluster.CreateJob(labels, reply);
    }

    /** The dependency check of manageWorkflowJobStep. */
    method DependenciesSatisfied(workflow: WorkflowObject, step: Step) returns (satisfied: bool)
      ensures satisfied <==> DependenciesComplete(workflow.statuses, step.dependencies)
    {
      for i := 0 to |step.dependencies|
        invariant forall j :: 0 <= j < i ==> IsComplete(workflow.statuses, step.dependencies[j])
      {
        var k := FindStepStatus(workflow.statuses, step.dependencies[i]);
        if k < 0 || !workflow.statuses[k].complete {
          assert !IsComplete(workflow.statuses, step.dependencies[i]);
          return false;
        }
      }
      satisfied := true;
    }

    method ManageWorkflowJobStep(workflow: WorkflowObject, step: Step, a: Answer)
      returns (workflowUpdated: bool, panicked: bool)
      requires step.jobTemplate.Some?
      modifies workflow`selector, workflow`statuses, cluster`jobs
      ensures var r := JobStep(old(workflow.Value()), step, a);
        && workflow.Value() == r.w && workflowUpdated == r.updated && panicked == r.panicked
        && cluster.jobs == old(cluster.jobs) + r.created
    {
      hide IsJobFinished, LabelsFor, IsComplete, DependenciesComplete;
      workflowUpdated, panicked := false, false;
      var satisfied := DependenciesSatisfied(workflow, step);
      if !satisfied {
        return;
      }
      ghost var before := workflow.Value();
      var selector;
      selector, panicked := workflow.GetJobLabelsSet(step);
      if panicked {
        return;
      }
      LabelsForIdempotent(LabelMap(before), before.name, WriterOf(step));
      if a.listing.None? {
        return;
      }
      var jobs := a.listing.value;
      if |jobs| == 0 {
        var failed;
        failed, panicked := CreateJobFromWorkflow(workflow, step, a.creation);
        if failed {
          return;
        }
        workflowUpdated := true;
      } else if |jobs| == 1 {
        var job := jobs[0];
        if !a.referenceOk {
          return;
        }
        var jobFinished := JobFinished(job);
        var k := FindStepStatus(workflow.statuses, step.name);
        if k < 0 {
          workflow.statuses := workflow.statuses + [StepStatus(step.name, jobFinished, job.name)];
          workflowUpdated := true;
        }
        if jobFinished {
          if k >= 0 {
            workflow.statuses := workflow.statuses[k := workflow.statuses[k].(complete := true)];
          }
          workflowUpdated := true;
        }
      }
    }

    /** One iteration of manageWorkflow's loop, from its two flags to its two flags. */
    method ManageOneStep(workflow: WorkflowObject, step: Step, a: Answer, toBeUpdated: bool, complete: bool)
      returns (workflowToBeUpdated: bool, workflowComplete: bool, panicked: bool)
      modifies workflow`selector, workflow`statuses, cluster`jobs
      ensures var q := ManageStep(Pass(old(workflow.Value()), toBeUpdated, complete, [], false), step, a);
        && workflow.Value() == q.w && workflowToBeUpdated == q.toBeUpdated && workflowComplete == q.complete
        && panicked == q.panicked && cluster.jobs == old(cluster.jobs) + q.created
    {
      hide JobStep;
      workflowToBeUpdated, workflowComplete, panicked := toBeUpdated, complete, false;
      var k := FindStepStatus(workflow.statuses, step.name);
      if k >= 0 && workflow.statuses[k].complete {
        return;
      }
      workflowComplete := false;
      if step.jobTemplate.Some? {
        ghost var r := JobStep(workflow.Value(), step, a);
        assert [] + r.created == r.created;
        var updated;
        updated, panicked := ManageWorkflowJobStep(workflow, step, a);
        if updated {
          workflowToBeUpdated := true;
        }
      } else if step.externalRef.Some? {
        workflowToBeUpdated := true;
      }
    }

    /** The loop of manageWorkflow. */
    method ManageSteps(workflow: WorkflowObject, answers: Answers)
      returns (workflowToBeUpdated: bool, workflowComplete: bool, panicked: bool)
      modifies workflow`selector, workflow`statuses, cluster`jobs
      ensures var p := Before(old(workflow.Value()), answers, |workflow.steps|);
        && workflow.Value() == p.w && workflowToBeUpdated == p.toBeUpdated && workflowComplete == p.complete
        && panicked == p.panicked && cluster.jobs == old(cluster.jobs) + p.created
    {
      hide ManageStep, Extends;
      ghost var w := workflow.Value();
      workflowToBeUpdated, workflowComplete, panicked := false, true, false;
      for i := 0 to |workflow.steps|
        invariant var p := Before(w, answers, i);
          && workflow.Value() == p.w && workflowToBeUpdated == p.toBeUpdated && workflowComplete == p.complete
          && !p.panicked && !panicked && cluster.jobs == old(cluster.jobs) + p.created
      {
        ghost var p := Before(w, answers, i);
        CreatedSoFar(p, workflow.steps[i], answers(i));
        workflowToBeUpdated, workflowComplete, panicked :=
          ManageOneStep(workflow, workflow.steps[i], answers(i), workflowToBeUpdated, workflowComplete);
        if panicked {
          PanickedIsOver(w, answers, i + 1);
          return;
        }
      }
    }

    method ManageWorkflow(workflow: WorkflowObject, answers: Answers, now: int, updateLost: bool)
      returns (panicked: bool)
      modifies workflow, cluster
      ensures var p := Manage(old(workflow.Value()), answers, now);
        && workflow.Value() == p.w && panicked == p.panicked
        && cluster.jobs == old(cluster.jobs) + p.created
        && cluster.stored == if p.toBeUpdated && !p.panicked && !updateLost then Some(Serialize(p.w)) else old(cluster.stored)
    {
      hide ManageStep, Serialize;
      var workflowToBeUpdated, workflowComplete;
      CompleteFlag(workflow.Value(), answers, |workflow.steps|);
      workflowToBeUpdated, workflowComplete, panicked := ManageSteps(workflow, answers);
      if panicked {
        return;
      }
      if workflowComplete {
        workflow.conditions := workflow.conditions + [Condition(Complete, now, "")];
        workflow.completionTime := Some(now);
        workflowToBeUpdated := true;
      }
      if workflowToBeUpdated {
        var snapshot := workflow.Snapshot();
        cluster.UpdateWorkflow(snapshot, updateLost);
      }
    }

    /** deleteJobsFromLabelSelector, on what the lister answered. */
    method DeleteJobsFromLabelSelector(listing: Option<seq<Job>>, refused: set<string>) returns (failed: bool)
      modifies cluster`jobs
      ensures cluster.jobs == Surviving(old(cluster.jobs), SweepTargets(listing) - refused)
      ensures failed <==> listing.None? || SweepTargets(listing) * refused != {}
    {
      hide IsJobFinished, SweepTargets, Surviving;
      NothingDeleted(cluster.jobs);
      SweepNone();
      if listing.None? {
        assert SweepTargets(listing) - refused == {};
        return true;
      }
      var jobs := listing.value;
      var errs: seq<string> := [];
      assert jobs[..0] == [] && SweepTargets(Some(jobs[..0])) - refused == {};
      for i := 0 to |jobs|
        invariant cluster.jobs == Surviving(old(cluster.jobs), SweepTargets(Some(jobs[..i])) - refused)
        invariant errs != [] <==> SweepTargets(Some(jobs[..i])) * refused != {}
      {
        SweepOneMore(jobs, i);
        var finished := JobFinished(jobs[i]);
        if finished {
          continue;
        }
        ghost var before, after := SweepTargets(Some(jobs[..i])), SweepTargets(Some(jobs[..i + 1]));
        SurvivingTwice(old(cluster.jobs), before - refused, {jobs[i].name});
        var err := cluster.DeleteJob(jobs[i].name, jobs[i].name in refused);
        if err {
          errs := errs + [jobs[i].name];
          assert jobs[i].name in after * refused && after - refused == before - refused;
        } else {
          assert after - refused == (before - refused) + {jobs[i].name} && after * refused == before * refused;
        }
      }
      assert jobs[..|jobs|] == jobs;
      failed := errs != [];
    }

    /** deleteWorkflowJobs: the selector is computed, and the map written to, after
        the workflow was stored. */
    method DeleteWorkflowJobs(workflow: WorkflowObject, listing: Option<seq<Job>>, refused: set<string>)
      returns (failed: bool, panicked: bool)
      modifies workflow`selector, cluster`jobs
      ensures panicked <==> MatchLabels(old(workflow.Value())).None?
      ensures panicked ==> cluster.jobs == old(cluster.jobs) && !failed
      ensures !panicked ==>
        && cluster.jobs == Surviving(old(cluster.jobs), SweepTargets(listing) - refused)
        && (failed <==> listing.None? || SweepTargets(listing) * refused != {})
    {
      failed := false;
      panicked := workflow.WriteLabel(WORKFLOW_LABEL_KEY, workflow.name);
      if panicked {
        return;
      }
      failed := DeleteJobsFromLabelSelector(listing, refused);
    }

    /** sync, for the workflow that the lister returns, which may be an older version
        than the stored one. */
    method Sync(shared: Workflow, start: int, r: Replies) returns (failed: bool, panicked: bool)
      modifies cluster
      ensures var e := SyncEffect(shared, start, r);
        var s := SyncWorld(World(old(cluster.stored), [], old(cluster.jobs), start, []), shared, r);
        && failed == e.failed && panicked == e.panicked
        && cluster.stored == s.stored && cluster.jobs == s.jobs
      ensures IsWorkflowDefaulted(shared) && ValidWorkflow(shared) && !shared.deleting
              && shared.status.startTime.None? && !r.updateLost ==>
        cluster.stored.Some? && cluster.stored.value.status.startTime == Some(start + r.elapsed)
    {
      hide Manage, ValidSteps, LabelsFor, Serialize, Surviving, SweepTargets, PassEvents;
      NothingDeleted(cluster.jobs);
      assert cluster.jobs + [] == cluster.jobs;
      failed, panicked := false, false;
      if !IsWorkflowDefaulted(shared) {
        cluster.UpdateWorkflow(DefaultWorkflow(shared), r.updateLost);
        return;
      }
      var errs := ValidateWorkflow(shared);
      if |errs| > 0 {
        failed := cluster.DeleteWorkflow(r.removalRefused);
        return;
      }
      if shared.deleting {
        return;
      }
      var workflow := new WorkflowObject.DeepCopy(shared);
      var now := start + r.elapsed;
      if workflow.startTime.None? {
        workflow.statuses := [];
        workflow.startTime := Some(now);
        var started := workflow.Snapshot();
        SerializeKeeps(started);
        cluster.UpdateWorkflow(started, r.updateLost);
        return;
      }
      if PastActiveDeadline(shared, start) {
        workflow.conditions := workflow.conditions + [Condition(Failed, now, "DeadlineExceeded")];
        workflow.completionTime := Some(now);
        var late := workflow.Snapshot();
        cluster.UpdateWorkflow(late, r.updateLost);
        failed, panicked := DeleteWorkflowJobs(workflow, r.sweepListing, r.sweepRefused);
        assert cluster.jobs + [] == cluster.jobs;
        return;
      }
      panicked := ManageWorkflow(workflow, r.answers, now, r.updateLost);
    }
  }

  /** After a panic the loop is over. */
  lemma PanickedIsOver(w: Workflow, answers: Answers, i: nat)
    requires i <= |w.spec.steps| && Before(w, answers, i).panicked
    ensures Before(w, answers, |w.spec.steps|) == Before(w, answers, i)
  {
    hide ManageStep;
    BeforeExtends(w, answers, i, |w.spec.steps|);
  }

  /** What an iteration creates comes after what was created before. */
  lemma CreatedSoFar(p: Pass, step: Step, a: Answer)
    ensures var q, q0 := ManageStep(p, step, a), ManageStep(p.(created := []), step, a);
      q == q0.(created := p.created + q0.created)
  {
    hide JobStep;
  }

  lemma SweepNone()
    ensures SweepTargets(None) == {} && SweepTargets(Some([])) == {}
  {
  }

  lemma SweepOneMore(jobs: seq<Job>, i: nat)
    requires i < |jobs|
    ensures SweepTargets(Some(jobs[..i + 1]))
            == if IsJobFinished(jobs[i]) then SweepTargets(Some(jobs[..i]))
               else SweepTargets(Some(jobs[..i])) + {jobs[i].name}
  {
    var targets := SweepTargets(Some(jobs[..i + 1]));
    assert jobs[..i + 1] == jobs[..i] + [jobs[i]];
    forall n | n in SweepTargets(Some(jobs[..i])) ensures n in targets {
      var k :| 0 <= k < i && !IsJobFinished(jobs[..i][k]) && jobs[..i][k].name == n;
      assert jobs[..i + 1][k].name == n && !IsJobFinished(jobs[..i + 1][k]);
    }
    forall n | n in targets ensures n in SweepTargets(Some(jobs[..i])) || (n == jobs[i].name && !IsJobFinished(jobs[i])) {
      var k :| 0 <= k < i + 1 && !IsJobFinished(jobs[..i + 1][k]) && jobs[..i + 1][k].name == n;
      assert k < i ==> jobs[..i][k] == jobs[..i + 1][k];
    }
    if !IsJobFinished(jobs[i]) {
      assert jobs[..i + 1][i] == jobs[i];
    }
  }
}
