/** When an accepted workflow of job steps gets stuck: from any point of a run with
    labels that cannot drift, if the jobs finish and the cluster cooperates, 2n + 1
    further syncs complete its n steps, unless it has no label map, or an incomplete
    step has two jobs. */
module Progress {
  import opened Prelude
  import opened WorkflowTypes
  import opened JobLabels
  import opened Topology
  import opened StepValidation
  import opened WorkflowPass
  import opened StatusInvariant
  import opened WorkflowSync
  import opened WorkflowRun
  import opened RunLabels
  import opened FreshRun

  // ------------------------------------------------------------------ the measure

  predicate HasJob(jobs: seq<Job>, workflowName: string, stepName: string) {
    exists j :: 0 <= j < |jobs| && IsJobOfStep(jobs[j], workflowName, stepName)
  }

  lemma HasJobIff(jobs: seq<Job>, workflowName: string, stepName: string)
    ensures HasJob(jobs, workflowName, stepName) <==> OwnJobs(jobs, workflowName, stepName) != []
  {
    hide IsJobOfStep;
    var own := (j: Job) => IsJobOfStep(j, workflowName, stepName);
    FilterMembers(jobs, own);
    if HasJob(jobs, workflowName, stepName) {
      var k :| 0 <= k < |jobs| && IsJobOfStep(jobs[k], workflowName, stepName);
      assert jobs[k] in Filter(jobs, own);
    }
    if OwnJobs(jobs, workflowName, stepName) != [] {
      var j := OwnJobs(jobs, workflowName, stepName)[0];
      assert j in OwnJobs(jobs, workflowName, stepName);
    }
  }

  lemma OwnJobsAppend(a: seq<Job>, b: seq<Job>, workflowName: string, stepName: string)
    ensures OwnJobs(a + b, workflowName, stepName) == OwnJobs(a, workflowName, stepName) + OwnJobs(b, workflowName, stepName)
  {
    FilterAppend(a, b, (j: Job) => IsJobOfStep(j, workflowName, stepName));
  }

  lemma {:induction false} OwnJobsReadLabels(a: seq<Job>, b: seq<Job>, workflowName: string, stepName: string)
    requires |a| == |b| && forall k :: 0 <= k < |a| ==> a[k].labels == b[k].labels
    ensures |OwnJobs(a, workflowName, stepName)| == |OwnJobs(b, workflowName, stepName)|
  {
    if a != [] {
      OwnJobsReadLabels(a[1..], b[1..], workflowName, stepName);
    }
  }

  /** 2 without a job, 1 with one, 0 once Complete. */
  function Weight(w: Workflow, jobs: seq<Job>, i: nat): nat
    requires i < |w.spec.steps|
  {
    var n := w.spec.steps[i].name;
    if IsComplete(w.status.statuses, n) then 0 else if HasJob(jobs, w.name, n) then 1 else 2
  }

  function Measure(w: Workflow, jobs: seq<Job>, i: nat): nat
    requires i <= |w.spec.steps|
  {
    if i == 0 then 0 else Measure(w, jobs, i - 1) + Weight(w, jobs, i - 1)
  }

  lemma {:induction false} MeasureBound(w: Workflow, jobs: seq<Job>, i: nat)
    requires i <= |w.spec.steps|
    ensures Measure(w, jobs, i) <= 2 * i
    ensures Measure(w, jobs, i) == 0 <==> forall k :: 0 <= k < i ==> IsComplete(w.status.statuses, w.spec.steps[k].name)
  {
    hide IsComplete;
    if i > 0 {
      MeasureBound(w, jobs, i - 1);
    }
  }

  lemma {:induction false} SmallerWeightsSmallerMeasure(w: Workflow, jobs: seq<Job>, w': Workflow, jobs': seq<Job>, i: nat, k: nat)
    requires w'.spec.steps == w.spec.steps && i <= |w.spec.steps| && k < |w.spec.steps|
    requires forall j :: 0 <= j < |w.spec.steps| ==> Weight(w', jobs', j) <= Weight(w, jobs, j)
    requires Weight(w', jobs', k) < Weight(w, jobs, k)
    ensures Measure(w', jobs', i) <= Measure(w, jobs, i) - (if k < i then 1 else 0)
  {
    hide Weight;
    if i > 0 {
      SmallerWeightsSmallerMeasure(w, jobs, w', jobs', i - 1, k);
    }
  }

  // --------------------------------------------------------- a step that is ready

  /** Some incomplete step of a valid workflow depends on complete steps only. */
  lemma ReadyStep(w: Workflow) returns (i: nat)
    requires ValidSteps(w.spec.steps) && !AllComplete(w)
    ensures i < |w.spec.steps| && !IsComplete(w.status.statuses, w.spec.steps[i].name)
    ensures DependenciesComplete(w.status.statuses, w.spec.steps[i].dependencies)
  {
    hide IsComplete, Acyclic;
    var steps, g := w.spec.steps, StepsMap(w.spec.steps);
    StepsMapNames(steps);
    var open := set n | n in g && !IsComplete(w.status.statuses, n);
    var k :| 0 <= k < |steps| && !IsComplete(w.status.statuses, steps[k].name);
    assert steps[k].name in open;
    MinimalStep(g, open);
    var n :| n in open && !DependsInto(g, n, open);
    i :| 0 <= i < |steps| && steps[i].name == n;
    UniqueStepsMap(steps, i);
    forall d | 0 <= d < |steps[i].dependencies| ensures IsComplete(w.status.statuses, steps[i].dependencies[d]) {
      assert DependsOn(g, n, steps[i].dependencies[d]);
    }
  }

  // --------------------------------------------------------------------- a round

  ghost predicate AllFinished(jobs: seq<Job>) {
    forall j :: j in jobs ==> IsJobFinished(j)
  }

  function FinishAll(jobs: seq<Job>, outcome: nat -> bool): (jobs': seq<Job>)
    ensures |jobs'| == |jobs|
    ensures forall k :: 0 <= k < |jobs| ==> jobs'[k] == Finish(jobs[k], outcome(k))
  {
    seq(|jobs|, k requires 0 <= k < |jobs| => Finish(jobs[k], outcome(k)))
  }

  /** Every job has finished, one way or the other, when the sync starts. */
  datatype Round = Round(outcome: nat -> bool, replies: Replies)

  ghost function AfterJobs(s: World, r: Round): World {
    s.(jobs := FinishAll(s.jobs, r.outcome))
  }

  ghost function PlayRound(s: World, r: Round): World {
    Apply(AfterJobs(s, r), Sync(None, r.replies))
  }

  ghost function PlayRounds(s: World, rounds: seq<Round>): World
    decreases |rounds|
  {
    if rounds == [] then s else PlayRounds(PlayRound(s, rounds[0]), rounds[1..])
  }

  /** The API server accepts every creation and update of the sync, the cache does
      not lag, and the lister is exact. */
  ghost predicate GoodReplies(s: World, r: Replies) {
    && s.stored.Some? && !r.updateLost
    && FreshReplies(s, s.stored.value, r.answers)
    && forall i :: 0 <= i < |s.stored.value.spec.steps| ==> r.answers(i).referenceOk && r.answers(i).creation.Created?
  }

  /** Every round is good, and begins before the deadline. */
  ghost predicate GoodRounds(s: World, rounds: seq<Round>)
    decreases |rounds|
  {
    rounds != [] ==>
      && GoodReplies(AfterJobs(s, rounds[0]), rounds[0].replies)
      && !PastActiveDeadline(s.stored.value, s.clock)
      && GoodRounds(PlayRound(s, rounds[0]), rounds[1..])
  }

  /** The workflow was accepted and started, and has job steps only. */
  ghost predicate UnderWay(w: Workflow) {
    && ValidWorkflow(w) && IsWorkflowDefaulted(w) && !w.deleting && w.status.startTime.Some?
    && forall i :: 0 <= i < |w.spec.steps| ==> w.spec.steps[i].jobTemplate.Some?
  }

  /** ... and the world is as every run with labels that cannot drift leaves it. */
  ghost predicate Ready(s: World, d: Labelling) {
    && s.stored.Some? && UnderWay(s.stored.value)
    && Inv(s) && LabelInv(s, d, s.stored.value.name) && Admissible(d, s.stored.value.name)
  }

  /** The step is not Complete, and has two jobs or more. */
  ghost predicate Blocked(w: Workflow, jobs: seq<Job>, i: nat)
    requires i < |w.spec.steps|
  {
    !IsComplete(w.status.statuses, w.spec.steps[i].name) && |OwnJobs(jobs, w.name, w.spec.steps[i].name)| >= 2
  }

  ghost predicate SomeBlocked(w: Workflow, jobs: seq<Job>) {
    exists i :: 0 <= i < |w.spec.steps| && Blocked(w, jobs, i)
  }

  /** The passes of w do not panic, and find no step with too many jobs. */
  ghost predicate Unhindered(w: Workflow, jobs: seq<Job>) {
    AllComplete(w) || (MatchLabels(w).Some? && !SomeBlocked(w, jobs))
  }

  lemma FinishingKeepsLabels(jobs: seq<Job>, outcome: nat -> bool)
    ensures var jobs' := FinishAll(jobs, outcome);
      && AllFinished(jobs')
      && forall k :: 0 <= k < |jobs| ==> jobs'[k].labels == jobs[k].labels
  {
    var jobs' := FinishAll(jobs, outcome);
    forall k | 0 <= k < |jobs'| ensures jobs'[k].labels == jobs[k].labels && IsJobFinished(jobs'[k]) {
      var c := jobs'[k].conditions;
      assert c[|c| - 1].isTrue;
    }
  }

  lemma SameLabelsKeepInv(jobs: seq<Job>, jobs': seq<Job>, d: Labelling, workflowName: string)
    requires Labelled(jobs, d, workflowName) && |jobs'| == |jobs|
    requires forall k :: 0 <= k < |jobs| ==> jobs'[k].labels == jobs[k].labels
    ensures Labelled(jobs', d, workflowName)
    ensures forall n :: HasJob(jobs', workflowName, n) <==> HasJob(jobs, workflowName, n)
    ensures forall n :: |OwnJobs(jobs', workflowName, n)| == |OwnJobs(jobs, workflowName, n)|
  {
    hide Known, Expected, OwnJobs;
    forall k, n | 0 <= k < |jobs|
      ensures IsJobOfStep(jobs'[k], workflowName, n) == IsJobOfStep(jobs[k], workflowName, n)
    {
    }
    forall n ensures |OwnJobs(jobs', workflowName, n)| == |OwnJobs(jobs, workflowName, n)| {
      OwnJobsReadLabels(jobs', jobs, workflowName, n);
    }
    forall j | j in jobs' && IsJobOf(j, workflowName)
      ensures exists v :: Known(d, v) && j.labels == Expected(d, workflowName, v)
    {
      var k :| 0 <= k < |jobs'| && jobs'[k] == j;
      assert jobs[k] in jobs && IsJobOf(jobs[k], workflowName);
    }
  }

  // ------------------------------------------------ the ready step moves forward

  lemma OtherStepsCreateNone(p: Pass, step: Step, a: Answer, n: string)
    requires n != step.name && !HasJob(p.created, p.w.name, n)
    ensures !HasJob(ManageStep(p, step, a).created, p.w.name, n)
  {
    hide IsComplete, DependenciesComplete, RecordJob, IsJobFinished, LabelsFor, IsJobOfStep;
    var q := ManageStep(p, step, a);
    forall j | 0 <= j < |q.created| ensures !IsJobOfStep(q.created[j], p.w.name, n) {
      if j < |p.created| {
        assert q.created[j] == p.created[j];
      } else {
        NewJobIsOfStep(p.w, step, q.created[j]);
      }
    }
  }

  /** Until its turn, a pass creates no job for a step. */
  lemma {:induction false} NoJobBeforeTurn(w: Workflow, answers: Answers, i: nat, k: nat)
    requires UniqueNames(w.spec.steps) && i <= k < |w.spec.steps|
    ensures !HasJob(Before(w, answers, i).created, w.name, w.spec.steps[k].name)
  {
    hide ManageStep;
    if i > 0 {
      NoJobBeforeTurn(w, answers, i - 1, k);
      BeforeExtends(w, answers, 0, i - 1);
      OtherStepsCreateNone(Before(w, answers, i - 1), w.spec.steps[i - 1], answers(i - 1), w.spec.steps[k].name);
    }
  }

  /** The turn of a due step without two jobs: it gets one, or its finished job is
      recorded. */
  lemma ReadyStepMoves(p: Pass, i: nat, a: Answer, jobs: seq<Job>, d: Labelling)
    requires i < |p.w.spec.steps| && DueStep(p.w, i) && MatchLabels(p.w).Some? && !p.panicked
    requires Admissible(d, p.w.name) && ObeysAt(d, p.w, i) && Labelled(jobs + p.created, d, p.w.name)
    requires a.listing == Some(Matching(jobs + p.created, StepLabels(p.w, p.w.spec.steps[i])))
    requires a.referenceOk && a.creation.Created? && |OwnJobs(jobs, p.w.name, p.w.spec.steps[i].name)| <= 1
    requires AllFinished(jobs) && !HasJob(p.created, p.w.name, p.w.spec.steps[i].name)
    ensures var q, n := ManageStep(p, p.w.spec.steps[i], a), p.w.spec.steps[i].name;
      if HasJob(jobs, p.w.name, n) then IsComplete(q.w.status.statuses, n) else HasJob(q.created, p.w.name, n)
  {
    hide IsComplete, DependenciesComplete, RecordJob, IsJobFinished, LabelsFor, Labelled, Admissible, ObeysAt, Known,
         Expected, HasJob, OwnJobs;
    var step, known, found := p.w.spec.steps[i], jobs + p.created, a.listing.value;
    DueLabels(d, p.w, i);
    LookupFindsOwnJobs(known, d, p.w.name, WriterOf(step));
    OwnJobsAppend(jobs, p.created, p.w.name, step.name);
    HasJobIff(p.created, p.w.name, step.name);
    HasJobIff(jobs, p.w.name, step.name);
    assert found == OwnJobs(jobs, p.w.name, step.name);
    if found == [] {
      var job, q := Job(a.creation.jobName, StepLabels(p.w, step), []), ManageStep(p, step, a);
      NewJobIsOfStep(p.w, step, job);
      assert q.created[|p.created|] == job;
      HasThatJob(q.created, |p.created|, p.w.name, step.name);
    } else {
      OwnAreFinished(jobs, p.w.name, step.name);
      RecordJobUpdates(p.w.status.statuses, step.name, found[0]);
    }
  }

  lemma OwnAreFinished(jobs: seq<Job>, workflowName: string, stepName: string)
    requires AllFinished(jobs) && OwnJobs(jobs, workflowName, stepName) != []
    ensures IsJobFinished(OwnJobs(jobs, workflowName, stepName)[0])
  {
    hide IsJobFinished, IsJobOfStep;
    FilterMembers(jobs, (j: Job) => IsJobOfStep(j, workflowName, stepName));
    assert OwnJobs(jobs, workflowName, stepName)[0] in OwnJobs(jobs, workflowName, stepName);
  }

  lemma HasThatJob(jobs: seq<Job>, k: nat, workflowName: string, stepName: string)
    requires k < |jobs| && IsJobOfStep(jobs[k], workflowName, stepName)
    ensures HasJob(jobs, workflowName, stepName)
  {
  }

  lemma NewJobIsOfStep(w: Workflow, step: Step, job: Job)
    requires step.jobTemplate.Some? && job.labels == StepLabels(w, step)
    ensures forall n :: IsJobOfStep(job, w.name, n) <==> n == step.name
  {
  }

  // -------------------------------------------------------- a round moves forward

  /** Nothing that has moved forward moves back during a pass. */
  lemma WeightsNeverGrow(w: Workflow, answers: Answers, jobs: seq<Job>, i: nat, j: nat, k: nat)
    requires i <= j <= |w.spec.steps| && k < |w.spec.steps|
    ensures Before(w, answers, i).w.spec.steps == w.spec.steps && Before(w, answers, j).w.spec.steps == w.spec.steps
    ensures Weight(Before(w, answers, j).w, JobsBefore(jobs, w, answers, j), k)
            <= Weight(Before(w, answers, i).w, JobsBefore(jobs, w, answers, i), k)
  {
    hide IsComplete, ManageStep, IsJobOfStep;
    BeforeExtends(w, answers, 0, i);
    BeforeExtends(w, answers, 0, j);
    BeforeExtends(w, answers, i, j);
    var p, q, n := Before(w, answers, i), Before(w, answers, j), w.spec.steps[k].name;
    if IsComplete(p.w.status.statuses, n) {
      GrowsKeepsComplete(p.w.status.statuses, q.w.status.statuses, n);
    }
    if HasJob(jobs + p.created, w.name, n) {
      var x :| 0 <= x < |jobs + p.created| && IsJobOfStep((jobs + p.created)[x], w.name, n);
      assert (jobs + q.created)[x] == (jobs + p.created)[x];
    }
  }

  /** What a pass of a good round starts from. */
  ghost predicate GoodPass(w: Workflow, answers: Answers, jobs: seq<Job>, d: Labelling) {
    && MatchLabels(w).Some?
    && (forall i :: 0 <= i < |w.spec.steps| ==>
         w.spec.steps[i].jobTemplate.Some? && answers(i).referenceOk && answers(i).creation.Created?)
    && Admissible(d, w.name) && Obeys(d, w) && Labelled(jobs, d, w.name)
    && Exact(jobs, w, answers) && AllFinished(jobs)
    && !SomeBlocked(w, jobs)
  }

  /** A pass with an incomplete step, finished jobs and good replies lowers the
      measure, and leaves a label in the map. */
  lemma PassLowersMeasure(w: Workflow, answers: Answers, jobs: seq<Job>, d: Labelling)
    requires GoodPass(w, answers, jobs, d)
    requires ValidSteps(w.spec.steps) && !AllComplete(w)
    ensures var n := |w.spec.steps|;
      var q := Before(w, answers, n);
      && q.w.spec.steps == w.spec.steps && Measure(q.w, jobs + q.created, n) < Measure(w, jobs, n)
      && LabelMap(q.w) != map[]
  {
    hide IsComplete, ManageStep, ValidSteps, AllComplete, Weight, Measure;
    var n := |w.spec.steps|;
    var q := Before(w, answers, n);
    BeforeExtends(w, answers, 0, n);
    assert JobsBefore(jobs, w, answers, 0) == jobs;
    forall k | 0 <= k < n ensures Weight(q.w, jobs + q.created, k) <= Weight(w, jobs, k) {
      WeightsNeverGrow(w, answers, jobs, 0, n, k);
    }
    var i := SomeWeightFalls(w, answers, jobs, d);
    SmallerWeightsSmallerMeasure(w, jobs, q.w, jobs + q.created, n, i);
  }

  lemma SomeWeightFalls(w: Workflow, answers: Answers, jobs: seq<Job>, d: Labelling) returns (i: nat)
    requires GoodPass(w, answers, jobs, d)
    requires ValidSteps(w.spec.steps) && !AllComplete(w)
    ensures var q := Before(w, answers, |w.spec.steps|);
      && i < |w.spec.steps| && q.w.spec.steps == w.spec.steps && LabelMap(q.w) != map[]
      && Weight(q.w, jobs + q.created, i) < Weight(w, jobs, i)
  {
    hide IsComplete, ManageStep, Labelled, Admissible, Obeys, AllFinished, HasJob, DependenciesComplete, Acyclic,
         Closed, Exact, Weight, LabelMap;
    i := ReadyStep(w);
    WeightsNeverGrow(w, answers, jobs, i + 1, |w.spec.steps|, i);
    BeforeExtends(w, answers, i + 1, |w.spec.steps|);
    ReadyStepWeighsLess(w, answers, jobs, d, i);
    LabelStays(Before(w, answers, i + 1).w, Before(w, answers, |w.spec.steps|).w);
  }

  lemma LabelStays(w: Workflow, w': Workflow)
    requires LabelMap(w) != map[] && LabelMap(w).Keys <= LabelMap(w').Keys
    ensures LabelMap(w') != map[]
  {
    assert LabelMap(w).Keys != {};
  }

  lemma GoodPassAt(w: Workflow, answers: Answers, jobs: seq<Job>, d: Labelling, i: nat)
    requires GoodPass(w, answers, jobs, d) && i < |w.spec.steps|
    ensures MatchLabels(w).Some? && w.spec.steps[i].jobTemplate.Some?
    ensures Admissible(d, w.name) && Obeys(d, w) && Labelled(jobs, d, w.name)
    ensures Exact(jobs, w, answers) && AllFinished(jobs)
    ensures !IsComplete(w.status.statuses, w.spec.steps[i].name) ==>
      |OwnJobs(jobs, w.name, w.spec.steps[i].name)| <= 1
    ensures answers(i).referenceOk && answers(i).creation.Created?
    ensures answers(i).listing
            == Some(Matching(jobs + Before(w, answers, i).created, StepLabels(Before(w, answers, i).w, w.spec.steps[i])))
  {
    hide Before, Matching, StepLabels, Obeys, Admissible, Labelled, AllFinished, OwnJobs, IsComplete;
    assert !Blocked(w, jobs, i);
  }

  lemma SameButBefore(w: Workflow, answers: Answers, i: nat)
    requires i <= |w.spec.steps|
    ensures SameBut(w, Before(w, answers, i).w)
    ensures Before(w, answers, i).w.name == w.name && Before(w, answers, i).w.spec.steps == w.spec.steps
  {
    hide ManageStep;
    BeforeExtends(w, answers, 0, i);
  }

  /** The turn of a due step in a good pass. */
  lemma TurnOfDue(w: Workflow, answers: Answers, jobs: seq<Job>, d: Labelling, i: nat)
    requires GoodPass(w, answers, jobs, d) && UniqueNames(w.spec.steps) && i < |w.spec.steps| && DueStep(w, i)
    ensures var q, n := Before(w, answers, i + 1), w.spec.steps[i].name;
      && SameBut(w, q.w) && LabelMap(q.w) != map[]
      && if HasJob(jobs, w.name, n) then IsComplete(q.w.status.statuses, n) else HasJob(q.created, w.name, n)
  {
    hide IsComplete, ManageStep, Labelled, Admissible, Obeys, AllFinished, HasJob, Matching, StepLabels, DueStep,
         LabelMap, Extends, SameBut, GoodPass, Exact, MatchLabels, UniqueNames;
    var p, step := Before(w, answers, i), w.spec.steps[i];
    GoodPassAt(w, answers, jobs, d, i);
    PassKeepsJobs(jobs, w, answers, d, i);
    PassObeys(d, w, answers, i);
    DueIsIncomplete(w, i);
    SameButBefore(w, answers, i);
    SameButBefore(w, answers, i + 1);
    StillDue(w, answers, i);
    NoJobBeforeTurn(w, answers, i, i);
    ReadyStepMoves(p, i, answers(i), jobs, d);
    DueStepWrites(p, i, answers(i));
    StepLabelsNotEmpty(p.w, step);
  }

  lemma ReadyStepWeighsLess(w: Workflow, answers: Answers, jobs: seq<Job>, d: Labelling, i: nat)
    requires GoodPass(w, answers, jobs, d) && UniqueNames(w.spec.steps) && i < |w.spec.steps| && DueStep(w, i)
    ensures var q := Before(w, answers, i + 1);
      && q.w.spec.steps == w.spec.steps && LabelMap(q.w) != map[]
      && Weight(q.w, jobs + q.created, i) < Weight(w, jobs, i)
  {
    hide IsComplete, Before, GoodPass, HasJob, DueStep, LabelMap;
    TurnOfDue(w, answers, jobs, d, i);
    DueIsIncomplete(w, i);
    var q, n := Before(w, answers, i + 1), w.spec.steps[i].name;
    if HasJob(q.created, w.name, n) {
      MoreJobs(jobs, q.created, w.name, n);
    }
  }

  lemma StepLabelsNotEmpty(w: Workflow, step: Step)
    requires step.jobTemplate.Some?
    ensures StepLabels(w, step) != map[]
  {
    assert WORKFLOW_LABEL_KEY in StepLabels(w, step);
  }

  lemma MoreJobs(jobs: seq<Job>, created: seq<Job>, workflowName: string, stepName: string)
    requires HasJob(created, workflowName, stepName)
    ensures HasJob(jobs + created, workflowName, stepName)
  {
    var k :| 0 <= k < |created| && IsJobOfStep(created[k], workflowName, stepName);
    assert (jobs + created)[|jobs| + k] == created[k];
  }

  /** If a pass with good replies asks for no update, it did nothing that an update
      would have had to store. */
  lemma {:induction false} NotUpdatedUnchanged(w: Workflow, answers: Answers, i: nat)
    requires i <= |w.spec.steps| && !Before(w, answers, i).toBeUpdated
    requires forall k :: 0 <= k < |w.spec.steps| ==> answers(k).creation.Created?
    ensures Before(w, answers, i).created == []
    ensures Before(w, answers, i).w.status.statuses == w.status.statuses
  {
    hide IsComplete, DependenciesComplete, IsJobFinished, StepLabels;
    if i > 0 {
      NotUpdatedUnchanged(w, answers, i - 1);
    }
  }

  lemma {:induction false} MeasureReadsStatuses(w: Workflow, w': Workflow, jobs: seq<Job>, i: nat)
    requires w.name == w'.name && w.spec.steps == w'.spec.steps && w.status.statuses == w'.status.statuses
    requires i <= |w.spec.steps|
    ensures Measure(w, jobs, i) == Measure(w', jobs, i)
  {
    if i > 0 {
      MeasureReadsStatuses(w, w', jobs, i - 1);
    }
  }

  lemma {:induction false} FinishingKeepsMeasure(w: Workflow, jobs: seq<Job>, jobs': seq<Job>, i: nat)
    requires forall n :: HasJob(jobs', w.name, n) <==> HasJob(jobs, w.name, n)
    requires i <= |w.spec.steps|
    ensures Measure(w, jobs', i) == Measure(w, jobs, i)
  {
    hide HasJob, IsComplete;
    if i > 0 {
      FinishingKeepsMeasure(w, jobs, jobs', i - 1);
    }
  }

  ghost function MeasureOf(s: World): nat
    requires s.stored.Some?
  {
    Measure(s.stored.value, s.jobs, |s.stored.value.spec.steps|)
  }

  ghost predicate CompleteStored(s: World) {
    && s.stored.Some? && AllComplete(s.stored.value)
    && var c := s.stored.value.status.conditions; c != [] && c[|c| - 1].kind == Complete
  }

  /** The pass of a good round on an incomplete workflow lowers the measure, and
      asks for the update that stores it. */
  lemma IncompletePassMoves(w: Workflow, answers: Answers, jobs: seq<Job>, d: Labelling)
    requires GoodPass(w, answers, jobs, d)
    requires ValidSteps(w.spec.steps) && !AllComplete(w)
    ensures var n := |w.spec.steps|;
      var q := Before(w, answers, n);
      && q.toBeUpdated && !q.panicked && q.w.spec.steps == w.spec.steps && LabelMap(q.w) != map[]
      && Measure(q.w, jobs + q.created, n) < Measure(w, jobs, n)
  {
    hide AllComplete, ManageStep, ValidSteps, Admissible, Obeys, Labelled, AllFinished, Exact, Measure;
    var n := |w.spec.steps|;
    var q := Before(w, answers, n);
    PassLowersMeasure(w, answers, jobs, d);
    PanicsIff(w, answers, n);
    if !q.toBeUpdated {
      BeforeExtends(w, answers, 0, n);
      NotUpdatedUnchanged(w, answers, n);
      assert jobs + q.created == jobs;
      MeasureReadsStatuses(w, q.w, jobs, n);
    }
  }

  /** What the sync of a good round leaves of the workflow w. */
  ghost predicate Moved(w: Workflow, jobs: seq<Job>, s': World) {
    && s'.stored.Some? && UnderWay(s'.stored.value) && s'.stored.value.name == w.name
    && s'.stored.value.spec.steps == w.spec.steps
    && s'.stored.value.spec.activeDeadlineSeconds == w.spec.activeDeadlineSeconds
    && if AllComplete(w) then CompleteStored(s')
       else
         && MatchLabels(s'.stored.value).Some? && !SomeBlocked(s'.stored.value, s'.jobs)
         && Measure(s'.stored.value, s'.jobs, |w.spec.steps|) < Measure(w, jobs, |w.spec.steps|)
  }

  lemma StillUnderWay(w: Workflow, answers: Answers, now: int)
    requires UnderWay(w)
    ensures UnderWay(Serialize(Manage(w, answers, now).w))
  {
    hide AllComplete, ManageStep, ValidSteps, DefaultStep, Grows;
    var u := Manage(w, answers, now).w;
    BeforeExtends(w, answers, 0, |w.spec.steps|);
    SerializeKeeps(u);
    assert DefaultWorkflow(u).spec.steps == DefaultWorkflow(w).spec.steps;
  }

  lemma SyncOfRoundMoves(s: World, r: Replies, d: Labelling)
    requires Ready(s, d) && AllFinished(s.jobs) && GoodReplies(s, r) && Unhindered(s.stored.value, s.jobs)
    requires !PastActiveDeadline(s.stored.value, s.clock)
    ensures Moved(s.stored.value, s.jobs, SyncWorld(s, s.stored.value, r))
  {
    hide AllComplete, Before, ValidSteps, Labelled, AllFinished, Exact, Measure, PastActiveDeadline, SyncWorld, Inv,
         Admissible, ObeysAt, UnderWay, DefaultSpec, SomeBlocked;
    var w := s.stored.value;
    var p := Manage(w, r.answers, s.clock + r.elapsed);
    IsUnderWay(w);
    CompleteAppendedIff(w, r.answers, s.clock + r.elapsed);
    StillUnderWay(w, r.answers, s.clock + r.elapsed);
    SerializeKeeps(p.w);
    if AllComplete(w) {
      GoodSyncStores(s, r);
      StillAllComplete(w, Serialize(p.w));
    } else {
      StoredIsVersion(s);
      IncompletePassMoves(w, r.answers, s.jobs, d);
      PassKeepsUnblocked(w, r.answers, s.jobs, d);
      GoodSyncStores(s, r);
      BlockedReads(Before(w, r.answers, |w.spec.steps|).w, Serialize(p.w), s.jobs + p.created);
    }
  }

  lemma BlockedReads(w: Workflow, w': Workflow, jobs: seq<Job>)
    requires w'.name == w.name && w'.spec.steps == w.spec.steps && w'.status.statuses == w.status.statuses
    ensures SomeBlocked(w', jobs) <==> SomeBlocked(w, jobs)
  {
    hide IsComplete, OwnJobs;
    if SomeBlocked(w, jobs) {
      var i :| 0 <= i < |w.spec.steps| && Blocked(w, jobs, i);
      assert Blocked(w', jobs, i);
    }
    if SomeBlocked(w', jobs) {
      var i :| 0 <= i < |w'.spec.steps| && Blocked(w', jobs, i);
      assert Blocked(w, jobs, i);
    }
  }

  lemma StoredIsVersion(s: World)
    requires Inv(s) && s.stored.Some?
    ensures StoredIsLast(s) && s.stored.value in s.versions
  {
  }

  lemma IsUnderWay(w: Workflow)
    requires UnderWay(w)
    ensures ValidWorkflow(w) && ValidSteps(w.spec.steps) && IsWorkflowDefaulted(w) && !w.deleting
    ensures w.status.startTime.Some?
    ensures forall i :: 0 <= i < |w.spec.steps| ==> w.spec.steps[i].jobTemplate.Some?
  {
  }

  lemma GoodSyncStores(s: World, r: Replies)
    requires s.stored.Some? && ReachesPass(s.stored.value, s.clock) && !r.updateLost
    requires !Manage(s.stored.value, r.answers, s.clock + r.elapsed).panicked
    ensures var p, s' := Manage(s.stored.value, r.answers, s.clock + r.elapsed), SyncWorld(s, s.stored.value, r);
      s'.stored == (if p.toBeUpdated then Some(Serialize(p.w)) else s.stored) && s'.jobs == s.jobs + p.created
  {
    hide Manage, ValidWorkflow, DefaultSpec, Surviving, PassEvents, Serialize;
    NothingDeleted(s.jobs);
  }

  lemma StillAllComplete(w: Workflow, w': Workflow)
    requires AllComplete(w) && w'.spec.steps == w.spec.steps && w'.status.statuses == w.status.statuses
    ensures AllComplete(w')
  {
  }

  lemma InvReadsVersions(s: World, s': World)
    requires Inv(s) && s'.stored == s.stored && s'.versions == s.versions && s'.log == s.log
    ensures Inv(s')
  {
  }

  lemma FinishingStaysReady(s: World, r: Round, d: Labelling)
    requires Ready(s, d)
    ensures Ready(AfterJobs(s, r), d) && AllFinished(AfterJobs(s, r).jobs)
    ensures forall i :: 0 <= i <= |s.stored.value.spec.steps| ==>
      Measure(s.stored.value, AfterJobs(s, r).jobs, i) == Measure(s.stored.value, s.jobs, i)
    ensures forall i :: 0 <= i < |s.stored.value.spec.steps| ==>
      (Blocked(s.stored.value, AfterJobs(s, r).jobs, i) <==> Blocked(s.stored.value, s.jobs, i))
    ensures SomeBlocked(s.stored.value, AfterJobs(s, r).jobs) <==> SomeBlocked(s.stored.value, s.jobs)
  {
    hide Inv, Labelled, VersionsObey, AllFinished, HasJob, Measure, UnderWay, Admissible, OwnJobs, IsComplete;
    var w := s.stored.value;
    FinishingKeepsLabels(s.jobs, r.outcome);
    SameLabelsKeepInv(s.jobs, AfterJobs(s, r).jobs, d, w.name);
    InvReadsVersions(s, AfterJobs(s, r));
    forall i | 0 <= i <= |w.spec.steps| ensures Measure(w, AfterJobs(s, r).jobs, i) == Measure(w, s.jobs, i) {
      FinishingKeepsMeasure(w, s.jobs, AfterJobs(s, r).jobs, i);
    }
  }

  /** Every good round keeps what the theorem is about, hindered or not. */
  lemma RoundStaysReady(s: World, r: Round, d: Labelling)
    requires Ready(s, d) && GoodReplies(AfterJobs(s, r), r.replies) && !PastActiveDeadline(s.stored.value, s.clock)
    ensures Ready(PlayRound(s, r), d)
  {
    hide UnderWay, Labelled, Inv, AllFinished, VersionsObey, SyncWorld, FreshReplies, Measure, PastActiveDeadline,
         Admissible, SomeBlocked, Blocked;
    var s1 := AfterJobs(s, r);
    FinishingStaysReady(s, r, d);
    ApplyKeepsLabels(s1, Sync(None, r.replies), d, s.stored.value.name);
    ApplyKeepsInv(s1, Sync(None, r.replies));
    SyncKeepsUnderWay(s1, r.replies);
  }

  /** What a sync on a workflow under way stores. */
  lemma SyncKeepsUnderWay(s: World, r: Replies)
    requires s.stored.Some? && UnderWay(s.stored.value) && !PastActiveDeadline(s.stored.value, s.clock)
    ensures var s' := SyncWorld(s, s.stored.value, r);
      s'.stored.Some? && UnderWay(s'.stored.value) && s'.stored.value.name == s.stored.value.name
  {
    hide UnderWay, Manage, PastActiveDeadline, ValidWorkflow, DefaultSpec, Surviving, PassEvents, Serialize;
    IsUnderWay(s.stored.value);
    StillUnderWay(s.stored.value, r.answers, s.clock + r.elapsed);
    ManageKeepsName(s.stored.value, r.answers, s.clock + r.elapsed);
  }

  lemma ManageKeepsName(w: Workflow, answers: Answers, now: int)
    ensures Serialize(Manage(w, answers, now).w).name == w.name
  {
    hide ManageStep;
    BeforeExtends(w, answers, 0, |w.spec.steps|);
  }

  /** One round: an incomplete workflow gets nearer to completion, a complete one
      is recorded as such, and the next round finds the workflow ready again. */
  lemma RoundMoves(s: World, r: Round, d: Labelling)
    requires Ready(s, d) && Unhindered(s.stored.value, s.jobs) && GoodReplies(AfterJobs(s, r), r.replies)
    requires !PastActiveDeadline(s.stored.value, s.clock)
    ensures Ready(PlayRound(s, r), d) && Unhindered(PlayRound(s, r).stored.value, PlayRound(s, r).jobs)
    ensures if AllComplete(s.stored.value) then CompleteStored(PlayRound(s, r))
            else MeasureOf(PlayRound(s, r)) < MeasureOf(s)
    ensures PlayRound(s, r).stored.value.spec.activeDeadlineSeconds == s.stored.value.spec.activeDeadlineSeconds
  {
    hide AllComplete, UnderWay, LabelInv, Inv, AllFinished, SyncWorld, FreshReplies, Measure, PastActiveDeadline,
         HasJob, Admissible, SomeBlocked, Blocked;
    FinishingStaysReady(s, r, d);
    SyncOfRoundMoves(AfterJobs(s, r), r.replies, d);
    RoundStaysReady(s, r, d);
  }

  lemma {:induction false} RoundsComplete(s: World, rounds: seq<Round>, d: Labelling)
    requires Ready(s, d) && Unhindered(s.stored.value, s.jobs) && GoodRounds(s, rounds) && MeasureOf(s) < |rounds|
    ensures CompleteStored(PlayRounds(s, rounds))
    decreases |rounds|
  {
    hide Ready, Unhindered, AllComplete, PlayRound, GoodReplies, Measure;
    var s' := PlayRound(s, rounds[0]);
    ReadyIsStored(s, d);
    RoundMoves(s, rounds[0], d);
    ReadyIsStored(s', d);
    CompleteIffNothingLeft(s);
    CompleteIffNothingLeft(s');
    if |rounds| == 1 {
      assert PlayRounds(s', []) == s' && rounds[1..] == [];
    } else {
      RoundsComplete(s', rounds[1..], d);
    }
  }

  lemma ReadyIsStored(s: World, d: Labelling)
    requires Ready(s, d)
    ensures s.stored.Some? && UnderWay(s.stored.value)
  {
  }

  lemma CompleteIffNothingLeft(s: World)
    requires s.stored.Some?
    ensures AllComplete(s.stored.value) <==> MeasureOf(s) == 0
  {
    MeasureBound(s.stored.value, s.jobs, |s.stored.value.spec.steps|);
  }

  // ------------------------------------------------------- without a label map

  /** A round on an incomplete workflow without a label map: the sync panics, and
      all that changes are the jobs that finish and the clock. */
  lemma StuckRound(s: World, r: Round, d: Labelling)
    requires Ready(s, d) && !AllComplete(s.stored.value) && MatchLabels(s.stored.value).None?
    requires !PastActiveDeadline(s.stored.value, s.clock)
    ensures var s' := PlayRound(s, r);
      Ready(s', d) && s'.stored == s.stored && SyncEffect(s.stored.value, s.clock, r.replies).panicked
  {
    hide IsComplete, UnderWay, Inv, Labelled, VersionsObey, Admissible, ManageStep, Manage, HasJob, PastActiveDeadline,
         DueStep, AllFinished, SyncWorld, SomeBlocked, Blocked;
    var w, s1 := s.stored.value, AfterJobs(s, r);
    FinishingStaysReady(s, r, d);
    IsUnderWay(w);
    var i := ReadyStep(w);
    assert DueStep(w, i) by {
      ReadyIsDue(w, i);
    }
    SyncPanicsIff(w, s.clock, r.replies);
    PanicsIff(w, r.replies.answers, |w.spec.steps|);
    PanickedSync(s1, w, r.replies);
    InvReadsVersions(s1, PlayRound(s, r));
  }

  lemma ReadyIsDue(w: Workflow, i: nat)
    requires i < |w.spec.steps| && w.spec.steps[i].jobTemplate.Some?
    requires !IsComplete(w.status.statuses, w.spec.steps[i].name)
    requires DependenciesComplete(w.status.statuses, w.spec.steps[i].dependencies)
    ensures DueStep(w, i)
  {
  }

  lemma PanickedSync(s: World, w: Workflow, r: Replies)
    requires ReachesPass(w, s.clock) && MatchLabels(w).None? && SyncEffect(w, s.clock, r).panicked
    ensures SyncWorld(s, w, r) == s.(clock := s.clock + r.elapsed)
  {
    hide ValidWorkflow, Before;
    PanicsIff(w, r.answers, |w.spec.steps|);
    NoEventsWithoutMap(w, r.answers, |w.spec.steps|);
    NothingDeleted(s.jobs);
    assert s.jobs + [] == s.jobs && s.log + [] == s.log;
  }

  lemma {:induction false} StuckRounds(s: World, rounds: seq<Round>, d: Labelling)
    requires Ready(s, d) && !AllComplete(s.stored.value) && MatchLabels(s.stored.value).None? && GoodRounds(s, rounds)
    ensures PlayRounds(s, rounds).stored == s.stored
    decreases |rounds|
  {
    hide Ready, PlayRound, GoodReplies, AllComplete;
    if rounds != [] {
      ReadyIsStored(s, d);
      StuckRound(s, rounds[0], d);
      StuckRounds(PlayRound(s, rounds[0]), rounds[1..], d);
    }
  }

  // ------------------------------------------------------- a step with two jobs

  /** A turn adds a job to those of a step only if there was none. */
  lemma TurnKeepsOwn(p: Pass, i: nat, a: Answer, jobs: seq<Job>, d: Labelling, n: string)
    requires Admissible(d, p.w.name) && (p.panicked || ObeysAt(d, p.w, i)) && i < |p.w.spec.steps|
    requires Labelled(jobs + p.created, d, p.w.name) && p.w.spec.steps[i].jobTemplate.Some?
    requires a.listing == Some(Matching(jobs + p.created, StepLabels(p.w, p.w.spec.steps[i])))
    ensures var before := OwnJobs(jobs + p.created, p.w.name, n);
      var now := OwnJobs(jobs + ManageStep(p, p.w.spec.steps[i], a).created, p.w.name, n);
      |before| <= |now| && (|before| <= 1 ==> |now| <= 1)
  {
    hide Admissible, ObeysAt, Labelled, Known, Expected, ManageStep, DueStep, StepLabels, Matching, OwnJobs, IsJobOfStep;
    var step, q := p.w.spec.steps[i], ManageStep(p, p.w.spec.steps[i], a);
    CreatedForDue(p, i, a);
    if q.created != p.created {
      NotAfterPanic(p, i, a);
      DueLabels(d, p.w, i);
      LookupFindsOwnJobs(jobs + p.created, d, p.w.name, WriterOf(step));
      var job: Job :| job.labels == StepLabels(p.w, step) && q.created == p.created + [job];
      assert (jobs + p.created) + [job] == jobs + q.created;
      OwnJobsAppend(jobs + p.created, [job], p.w.name, n);
      NewJobIsOfStep(p.w, step, job);
      OwnOfOne(job, p.w.name, n);
    }
  }

  lemma OwnOfOne(job: Job, workflowName: string, n: string)
    ensures OwnJobs([job], workflowName, n) == if IsJobOfStep(job, workflowName, n) then [job] else []
  {
    hide IsJobOfStep;
    var own := (j: Job) => IsJobOfStep(j, workflowName, n);
    assert [job][1..] == [] && Filter([job][1..], own) == [];
    assert OwnJobs([job], workflowName, n) == Filter([job], own);
  }

  lemma ExactAt(jobs: seq<Job>, w: Workflow, answers: Answers, i: nat)
    requires i < |w.spec.steps| && w.spec.steps[i].jobTemplate.Some? && Exact(jobs, w, answers)
    ensures answers(i).listing
            == Some(Matching(jobs + Before(w, answers, i).created, StepLabels(Before(w, answers, i).w, w.spec.steps[i])))
  {
    hide Before, Matching, StepLabels;
  }

  lemma {:induction false} PassKeepsOwn(w: Workflow, answers: Answers, jobs: seq<Job>, d: Labelling, i: nat, n: string)
    requires i <= |w.spec.steps| && Admissible(d, w.name) && Obeys(d, w) && Labelled(jobs, d, w.name)
    requires Exact(jobs, w, answers) && forall k :: 0 <= k < |w.spec.steps| ==> w.spec.steps[k].jobTemplate.Some?
    ensures var before, now := OwnJobs(jobs, w.name, n), OwnJobs(JobsBefore(jobs, w, answers, i), w.name, n);
      |before| <= |now| && (|before| <= 1 ==> |now| <= 1)
  {
    hide Admissible, ObeysAt, Labelled, ManageStep, Matching, StepLabels, OwnJobs, OneJobPerStep, Exact, Extends, SameBut;
    if i == 0 {
      assert JobsBefore(jobs, w, answers, 0) == jobs;
    } else {
      PassKeepsOwn(w, answers, jobs, d, i - 1, n);
      PassKeepsJobs(jobs, w, answers, d, i - 1);
      PassObeys(d, w, answers, i - 1);
      SameButBefore(w, answers, i - 1);
      ExactAt(jobs, w, answers, i - 1);
      TurnKeepsOwn(Before(w, answers, i - 1), i - 1, answers(i - 1), jobs, d, n);
    }
  }

  lemma PassKeepsUnblocked(w: Workflow, answers: Answers, jobs: seq<Job>, d: Labelling)
    requires GoodPass(w, answers, jobs, d)
    ensures var q := Before(w, answers, |w.spec.steps|); !SomeBlocked(q.w, jobs + q.created)
  {
    hide Admissible, Obeys, Labelled, ManageStep, Exact, AllFinished, OwnJobs, IsComplete;
    var q := Before(w, answers, |w.spec.steps|);
    BeforeExtends(w, answers, 0, |w.spec.steps|);
    forall i | 0 <= i < |w.spec.steps| ensures !Blocked(q.w, jobs + q.created, i) {
      PassKeepsOwn(w, answers, jobs, d, |w.spec.steps|, w.spec.steps[i].name);
      assert !Blocked(w, jobs, i);
      if IsComplete(w.status.statuses, w.spec.steps[i].name) {
        GrowsKeepsComplete(w.status.statuses, q.w.status.statuses, w.spec.steps[i].name);
      }
    }
  }

  /** With two or more jobs listed, a turn does nothing for the step. */
  lemma TooManyTurn(p: Pass, i: nat, a: Answer)
    requires i < |p.w.spec.steps| && a.listing.Some? && |a.listing.value| >= 2
    ensures ManageStep(p, p.w.spec.steps[i], a).w.status.statuses == p.w.status.statuses
    ensures ManageStep(p, p.w.spec.steps[i], a).created == p.created
  {
    hide IsComplete, DependenciesComplete, StepLabels;
  }

  /** The turn of a step with two jobs does not make it Complete. */
  lemma BlockedTurn(p: Pass, i: nat, a: Answer, jobs: seq<Job>, d: Labelling)
    requires Admissible(d, p.w.name) && (p.panicked || ObeysAt(d, p.w, i)) && i < |p.w.spec.steps|
    requires Labelled(jobs + p.created, d, p.w.name) && p.w.spec.steps[i].jobTemplate.Some?
    requires a.listing == Some(Matching(jobs + p.created, StepLabels(p.w, p.w.spec.steps[i])))
    requires |OwnJobs(jobs + p.created, p.w.name, p.w.spec.steps[i].name)| >= 2
    requires !IsComplete(p.w.status.statuses, p.w.spec.steps[i].name)
    ensures !IsComplete(ManageStep(p, p.w.spec.steps[i], a).w.status.statuses, p.w.spec.steps[i].name)
  {
    hide Admissible, ObeysAt, Labelled, ManageStep, DueStep, StepLabels, Matching, OwnJobs, IsComplete, Known, Expected;
    if p.panicked || MatchLabels(p.w).None? || !DueStep(p.w, i) {
      OtherwiseUnchanged(p, i, a);
    } else {
      DueLabels(d, p.w, i);
      LookupFindsOwnJobs(jobs + p.created, d, p.w.name, WriterOf(p.w.spec.steps[i]));
      TooManyTurn(p, i, a);
    }
  }

  lemma {:induction false} PassKeepsBlocked(w: Workflow, answers: Answers, jobs: seq<Job>, d: Labelling, i: nat, k: nat)
    requires i <= |w.spec.steps| && k < |w.spec.steps| && UniqueNames(w.spec.steps) && Blocked(w, jobs, k)
    requires Admissible(d, w.name) && Obeys(d, w) && Labelled(jobs, d, w.name) && Exact(jobs, w, answers)
    requires forall j :: 0 <= j < |w.spec.steps| ==> w.spec.steps[j].jobTemplate.Some?
    ensures !IsComplete(Before(w, answers, i).w.status.statuses, w.spec.steps[k].name)
  {
    hide Admissible, ObeysAt, Labelled, ManageStep, Matching, StepLabels, OwnJobs, IsComplete, OneJobPerStep, Exact,
         Extends, SameBut, Grows, DistinctStatuses;
    if i > 0 {
      PassKeepsBlocked(w, answers, jobs, d, i - 1, k);
      var p := Before(w, answers, i - 1);
      PassKeepsOwn(w, answers, jobs, d, i - 1, w.spec.steps[k].name);
      PassKeepsJobs(jobs, w, answers, d, i - 1);
      PassObeys(d, w, answers, i - 1);
      SameButBefore(w, answers, i - 1);
      ExactAt(jobs, w, answers, i - 1);
      if i - 1 == k {
        BlockedTurn(p, k, answers(k), jobs, d);
      } else {
        ManageStepFrame(p, w.spec.steps[i - 1], answers(i - 1));
      }
    }
  }

  /** A good round leaves a blocked step blocked. */
  lemma BlockedRound(s: World, r: Round, d: Labelling, k: nat)
    requires Ready(s, d) && k < |s.stored.value.spec.steps| && Blocked(s.stored.value, s.jobs, k)
    requires GoodReplies(AfterJobs(s, r), r.replies) && !PastActiveDeadline(s.stored.value, s.clock)
    ensures var s' := PlayRound(s, r);
      && Ready(s', d) && s'.stored.value.spec.steps == s.stored.value.spec.steps
      && Blocked(s'.stored.value, s'.jobs, k)
  {
    hide UnderWay, Labelled, Inv, AllFinished, SyncWorld, Measure, PastActiveDeadline, Admissible, SomeBlocked, Blocked,
         Exact, Obeys;
    var s1, w := AfterJobs(s, r), s.stored.value;
    FinishingStaysReady(s, r, d);
    RoundStaysReady(s, r, d);
    IsUnderWay(w);
    StoredIsVersion(s1);
    StillBlocked(s1, r.replies, d, k);
  }

  lemma StillBlocked(s: World, r: Replies, d: Labelling, k: nat)
    requires s.stored.Some? && ReachesPass(s.stored.value, s.clock) && !r.updateLost
    requires var w := s.stored.value;
      && k < |w.spec.steps| && Blocked(w, s.jobs, k) && UniqueNames(w.spec.steps)
      && Admissible(d, w.name) && Obeys(d, w) && Labelled(s.jobs, d, w.name) && Exact(s.jobs, w, r.answers)
      && forall j :: 0 <= j < |w.spec.steps| ==> w.spec.steps[j].jobTemplate.Some?
    ensures var s' := SyncWorld(s, s.stored.value, r);
      && s'.stored.Some? && s'.stored.value.spec.steps == s.stored.value.spec.steps
      && Blocked(s'.stored.value, s'.jobs, k)
  {
    hide UnderWay, Labelled, PastActiveDeadline, Admissible, Exact, Obeys, OwnJobs, IsComplete, ValidWorkflow, SyncWorld,
         ManageStep, UniqueNames, Serialize;
    var w := s.stored.value;
    var n := |w.spec.steps|;
    PassKeepsBlocked(w, r.answers, s.jobs, d, n, k);
    PassKeepsOwn(w, r.answers, s.jobs, d, n, w.spec.steps[k].name);
    BeforeExtends(w, r.answers, 0, n);
    CompleteFlag(w, r.answers, n);
    PassIsStored(s, r);
    SerializeKeeps(Before(w, r.answers, n).w);
  }

  /** What a pass that does not complete leaves in the world. */
  lemma PassIsStored(s: World, r: Replies)
    requires s.stored.Some? && ReachesPass(s.stored.value, s.clock) && !r.updateLost
    requires !Before(s.stored.value, r.answers, |s.stored.value.spec.steps|).complete
    ensures var p, s' := Before(s.stored.value, r.answers, |s.stored.value.spec.steps|), SyncWorld(s, s.stored.value, r);
      && s'.jobs == s.jobs + p.created
      && (s'.stored == s.stored || s'.stored == Some(Serialize(p.w)))
  {
    hide Before, ValidWorkflow, DefaultSpec, Surviving, PassEvents, Serialize, PastActiveDeadline;
    NothingDeleted(s.jobs);
  }

  lemma {:induction false} BlockedRounds(s: World, rounds: seq<Round>, d: Labelling, k: nat)
    requires Ready(s, d) && k < |s.stored.value.spec.steps| && Blocked(s.stored.value, s.jobs, k)
    requires GoodRounds(s, rounds)
    ensures !CompleteStored(PlayRounds(s, rounds))
    decreases |rounds|
  {
    hide Ready, PlayRound, GoodReplies, OwnJobs, IsComplete;
    if rounds != [] {
      ReadyIsStored(s, d);
      BlockedRound(s, rounds[0], d, k);
      ReadyIsStored(PlayRound(s, rounds[0]), d);
      BlockedRounds(PlayRound(s, rounds[0]), rounds[1..], d, k);
    }
  }

  // ---------------------------------------------------------------- no deadlock

  /** After any run with labels that cannot drift, whatever the lister answered and
      whatever failed, was lost or was deleted in it: if the accepted and started
      workflow of n job steps is still there, 2n + 1 good rounds before its deadline
      complete every step and record the completion, if and only if it was complete
      before, or has a label map and no incomplete step with two jobs. */
  lemma NoReachableDeadlock(s: World, actions: seq<Action>, rounds: seq<Round>, d: Labelling, workflowName: string)
    requires FreshInit(s, d, workflowName) && Admissible(d, workflowName) && LabelActions(d, s, actions)
    requires var w := Run(s, actions).stored;
      w.Some? && UnderWay(w.value) && |rounds| == 2 * |w.value.spec.steps| + 1
    requires GoodRounds(Run(s, actions), rounds)
    ensures var s' := Run(s, actions);
      CompleteStored(PlayRounds(s', rounds)) <==>
        || AllComplete(s'.stored.value)
        || (MatchLabels(s'.stored.value).Some? && !SomeBlocked(s'.stored.value, s'.jobs))
  {
    hide Apply, Labelled, UnderWay, GoodRounds, AllComplete, LabelActions, Measure, Admissible, CreationsJustified,
         VersionsInv, Ascend, Blocked;
    var s' := Run(s, actions);
    RunKeepsLabels(s, actions, d, workflowName);
    RunKeepsInv(s, actions);
    StoredIsVersion(s');
    MeasureBound(s'.stored.value, s'.jobs, |s'.stored.value.spec.steps|);
    if Unhindered(s'.stored.value, s'.jobs) {
      RoundsComplete(s', rounds, d);
    } else if MatchLabels(s'.stored.value).None? {
      StuckRounds(s', rounds, d);
    } else {
      var k :| 0 <= k < |s'.stored.value.spec.steps| && Blocked(s'.stored.value, s'.jobs, k);
      BlockedRounds(s', rounds, d, k);
    }
  }

  /** After a run with an exact lister, no step has two jobs. */
  lemma ExactListerBlocksNothing(s: World, actions: seq<Action>, d: Labelling, workflowName: string)
    requires FreshInit(s, d, workflowName) && Admissible(d, workflowName) && FreshActions(d, s, actions)
    ensures var s' := Run(s, actions); s'.stored.Some? ==> !SomeBlocked(s'.stored.value, s'.jobs)
  {
    hide Run, Admissible, FreshActions, OneJobPerStep, Labelled, OwnJobs;
    var s' := Run(s, actions);
    RunKeepsOneJobPerStep(s, actions, d, workflowName);
    RunKeepsInv(s, actions);
    if s'.stored.Some? {
      StoredIsVersion(s');
      forall i | 0 <= i < |s'.stored.value.spec.steps| ensures !Blocked(s'.stored.value, s'.jobs, i) {
        AtMostOneFound(s'.jobs, workflowName, s'.stored.value.spec.steps[i].name);
      }
    }
  }

  // ------------------------------------------------------- good replies do exist

  /** A job name that none of the jobs has: longer than all of theirs. */
  function LongestName(jobs: seq<Job>): (n: nat)
    ensures forall j :: j in jobs ==> |j.name| <= n
  {
    if jobs == [] then 0
    else
      var n, last := LongestName(jobs[..|jobs| - 1]), |jobs[|jobs| - 1].name|;
      assert jobs == jobs[..|jobs| - 1] + [jobs[|jobs| - 1]];
      if last > n then last else n
  }

  function NewName(jobs: seq<Job>, i: nat): (name: string)
    ensures |name| == LongestName(jobs) + 1 + i
  {
    seq(LongestName(jobs) + 1 + i, _ => 'j')
  }

  /** The names that the API server gives to created jobs are new, and all different. */
  ghost predicate NewNames(s: World, r: Replies) {
    && (forall i, j :: j in s.jobs && r.answers(i).creation.Created? ==> r.answers(i).creation.jobName != j.name)
    && forall i, k :: i != k && r.answers(i).creation.Created? && r.answers(k).creation.Created? ==>
      r.answers(i).creation.jobName != r.answers(k).creation.jobName
  }

  ghost function ExactAnswer(jobs: seq<Job>, p: Pass, step: Step, i: nat): Answer {
    Answer(
      if step.jobTemplate.Some? then Some(Matching(jobs + p.created, StepLabels(p.w, step))) else None,
      true, Created(NewName(jobs, i)))
  }

  ghost function ExactBefore(jobs: seq<Job>, w: Workflow, i: nat): (p: Pass)
    requires i <= |w.spec.steps|
  {
    if i == 0 then Pass(w, false, true, [], false)
    else
      var p := ExactBefore(jobs, w, i - 1);
      ManageStep(p, w.spec.steps[i - 1], ExactAnswer(jobs, p, w.spec.steps[i - 1], i - 1))
  }

  ghost function ExactAnswers(jobs: seq<Job>, w: Workflow): Answers {
    (i: nat) =>
      if i < |w.spec.steps| then ExactAnswer(jobs, ExactBefore(jobs, w, i), w.spec.steps[i], i)
      else Answer(None, true, Created(NewName(jobs, i)))
  }

  lemma AnswerIs(jobs: seq<Job>, w: Workflow, i: nat)
    requires i < |w.spec.steps|
    ensures ExactAnswers(jobs, w)(i) == ExactAnswer(jobs, ExactBefore(jobs, w, i), w.spec.steps[i], i)
  {
    hide ExactBefore, ExactAnswer;
  }

  lemma {:induction false} ExactBeforeIsBefore(jobs: seq<Job>, w: Workflow, i: nat)
    requires i <= |w.spec.steps|
    ensures Before(w, ExactAnswers(jobs, w), i) == ExactBefore(jobs, w, i)
  {
    hide ManageStep, ExactAnswer, ExactAnswers;
    if i > 0 {
      ExactBeforeIsBefore(jobs, w, i - 1);
      AnswerIs(jobs, w, i - 1);
    }
  }

  /** In every state there are replies as the rounds assume, with new job names. */
  lemma GoodRepliesExist(s: World) returns (r: Replies)
    requires s.stored.Some?
    ensures GoodReplies(s, r) && NewNames(s, r) && r.elapsed == 0
  {
    hide ManageStep, Matching, StepLabels, LongestName;
    var w := s.stored.value;
    r := Replies(0, ExactAnswers(s.jobs, w), false, false, None, {});
    forall i: nat ensures r.answers(i).creation == Created(NewName(s.jobs, i)) {
    }
    forall i | 0 <= i < |w.spec.steps|
      ensures Before(w, r.answers, i) == ExactBefore(s.jobs, w, i)
    {
      ExactBeforeIsBefore(s.jobs, w, i);
    }
  }

  /** Without a deadline, good rounds exist from every ready state, any number of
      them; so every such workflow can be completed. */
  lemma {:induction false} GoodRoundsExist(s: World, d: Labelling, n: nat) returns (rounds: seq<Round>)
    requires Ready(s, d) && Unhindered(s.stored.value, s.jobs) && s.stored.value.spec.activeDeadlineSeconds.None?
    ensures |rounds| == n && GoodRounds(s, rounds)
    decreases n
  {
    hide Ready, Unhindered, GoodReplies, PlayRound, Measure;
    rounds := [];
    if n > 0 {
      ReadyIsStored(s, d);
      var outcome := (k: nat) => true;
      var replies := GoodRepliesExist(s.(jobs := FinishAll(s.jobs, outcome)));
      var round := Round(outcome, replies);
      assert AfterJobs(s, round) == s.(jobs := FinishAll(s.jobs, outcome));
      RoundMoves(s, round, d);
      ReadyIsStored(PlayRound(s, round), d);
      var rest := GoodRoundsExist(PlayRound(s, round), d, n - 1);
      rounds := [round] + rest;
      assert rounds[1..] == rest;
    }
  }
}
