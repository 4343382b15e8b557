/** The Workflow API object and the batch jobs it starts
    (pkg/api/workflow/v1/types.go). Times and durations are nanoseconds. */
module WorkflowTypes {
  import opened Prelude

  type Labels = map<string, string>

  /** podLabels are the labels of the pod template; specValid stands for the
      verdict of ValidateJobTemplateSpec, whose checks are not modelled. */
  datatype JobTemplate = JobTemplate(
    podLabels: Labels,
    completions: Option<int>,
    parallelism: Option<int>,
    specValid: bool)

  datatype Step = Step(
    name: string,
    jobTemplate: Option<JobTemplate>,
    externalRef: Option<string>,
    dependencies: seq<string>)

  /** matchLabels is None for a nil map. wellFormed stands for the verdict of
      ValidateLabelSelector, which is not modelled. */
  datatype Selector = Selector(
    matchLabels: Option<Labels>,
    matchExpressions: seq<string>,
    wellFormed: bool)

  datatype Spec = Spec(
    steps: seq<Step>,
    selector: Option<Selector>,
    activeDeadlineSeconds: Option<int>)

  datatype ConditionType = Complete | Failed

  /** Conditions are only ever created with status True. */
  datatype Condition = Condition(kind: ConditionType, time: int, reason: string)

  /** reference names the job the status was taken from. */
  datatype StepStatus = StepStatus(name: string, complete: bool, reference: string)

  datatype Status = Status(
    conditions: seq<Condition>,
    startTime: Option<int>,
    completionTime: Option<int>,
    statuses: seq<StepStatus>)

  /** metaValid stands for the verdict of ValidateObjectMeta. */
  datatype Workflow = Workflow(
    name: string,
    metaValid: bool,
    deleting: bool,
    spec: Spec,
    status: Status)

  datatype JobConditionType = JobComplete | JobFailed | JobOther

  datatype JobCondition = JobCondition(kind: JobConditionType, isTrue: bool)

  datatype Job = Job(name: string, labels: Labels, conditions: seq<JobCondition>)

  const EMPTY_STATUS := Status([], None, None, [])

  // -------------------------------------------------------------- the labels

  /** The map that the labels of the jobs are written into; None for a nil map,
      and for a nil selector. */
  function MatchLabels(w: Workflow): Option<Labels> {
    if w.spec.selector.None? then None else w.spec.selector.value.matchLabels
  }

  /** The labels read from that map. */
  function LabelMap(w: Workflow): Labels {
    MatchLabels(w).GetOr(map[])
  }

  function WithMatchLabels(w: Workflow, m: Option<Labels>): Workflow {
    if w.spec.selector.None? then w
    else w.(spec := w.spec.(selector := Some(w.spec.selector.value.(matchLabels := m))))
  }

  function WithLabels(w: Workflow, labels: Labels): Workflow {
    WithMatchLabels(w, Some(labels))
  }

  // --------------------------------------------------------------- lookups

  ghost predicate UniqueNames(steps: seq<Step>) {
    forall i, j :: 0 <= i < j < |steps| ==> steps[i].name != steps[j].name
  }

  /** The position GetStepStatusByName points at, or -1 for its nil. */
  function StatusIndex(statuses: seq<StepStatus>, name: string): (k: int)
    ensures -1 <= k < |statuses|
    ensures k >= 0 ==> statuses[k].name == name
    ensures forall j :: 0 <= j < (if k < 0 then |statuses| else k) ==> statuses[j].name != name
  {
    if statuses == [] then -1
    else if statuses[0].name == name then 0
    else
      var k := StatusIndex(statuses[1..], name);
      if k < 0 then -1 else k + 1
  }

  /** GetStepStatusByName finds a status and it says Complete. */
  predicate IsComplete(statuses: seq<StepStatus>, name: string) {
    var k := StatusIndex(statuses, name);
    k >= 0 && statuses[k].complete
  }

  predicate IsJobFinished(job: Job) {
    exists k :: 0 <= k < |job.conditions|
                && (job.conditions[k].kind == JobComplete || job.conditions[k].kind == JobFailed)
                && job.conditions[k].isTrue
  }

  lemma FinishedMeans(job: Job)
    ensures IsJobFinished(job) <==>
            exists c :: c in job.conditions && c.isTrue && (c.kind == JobComplete || c.kind == JobFailed)
  {
    if c :| c in job.conditions && c.isTrue && (c.kind == JobComplete || c.kind == JobFailed) {
      var k :| 0 <= k < |job.conditions| && job.conditions[k] == c;
    }
  }

  /** Every stored condition is Complete or Failed with status True. */
  predicate IsWorkflowFinished(w: Workflow) {
    exists k :: 0 <= k < |w.status.conditions|
                && (w.status.conditions[k].kind == Complete || w.status.conditions[k].kind == Failed)
  }
}
