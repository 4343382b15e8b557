/** Runs in which the job lister is exact and the labels cannot drift: no step of
    the workflow ever has two jobs. */
module FreshRun {
  import opened Prelude
  import opened WorkflowTypes
  import opened JobLabels
  import opened StepValidation
  import opened UpdateValidation
  import opened WorkflowPass
  import opened WorkflowSync
  import opened WorkflowRun
  import opened RunLabels

  // ------------------------------------------------------------ an exact lister

  function Matching(jobs: seq<Job>, selector: Labels): seq<Job> {
    Filter(jobs, (j: Job) => Matches(selector, j.labels))
  }

  /** The jobs the lister knows before step i: those of the cluster, with what
      this very pass has created. */
  function JobsBefore(jobs: seq<Job>, w: Workflow, answers: Answers, i: nat): seq<Job>
    requires i <= |w.spec.steps|
  {
    jobs + Before(w, answers, i).created
  }

  ghost predicate Exact(jobs: seq<Job>, w: Workflow, answers: Answers) {
    forall i :: 0 <= i < |w.spec.steps| && w.spec.steps[i].jobTemplate.Some? ==>
      answers(i).listing
      == Some(Matching(JobsBefore(jobs, w, answers, i), StepLabels(Before(w, answers, i).w, w.spec.steps[i])))
  }

  /** The lister is exact for a sync that reads w. */
  ghost predicate FreshReplies(s: World, w: Workflow, answers: Answers) {
    ReachesPass(w, s.clock) ==> Exact(s.jobs, w, answers)
  }

  /** Whatever happens, with any lister; but accepted edits keep to the labelling. */
  ghost predicate LabelAction(d: Labelling, s: World, a: Action) {
    a.Edit? && s.stored.Some? && Accepts(a.spec, s.stored.value) ==> KeepsLabels(d, a.spec)
  }

  ghost predicate LabelActions(d: Labelling, s: World, actions: seq<Action>) {
    forall k :: 0 <= k < |actions| ==> LabelAction(d, Run(s, actions[..k]), actions[k])
  }

  /** ... and with an exact lister, whatever version a sync reads. */
  ghost predicate FreshAction(d: Labelling, s: World, a: Action) {
    LabelAction(d, s, a)
    && match a
      case Sync(None, r) => s.stored.Some? ==> FreshReplies(s, s.stored.value, r.answers)
      case Sync(Some(k), r) => k < |s.versions| ==> FreshReplies(s, s.versions[k], r.answers)
      case _ => true
  }

  ghost predicate FreshActions(d: Labelling, s: World, actions: seq<Action>) {
    forall k :: 0 <= k < |actions| ==> FreshAction(d, Run(s, actions[..k]), actions[k])
  }

  // ------------------------------------------------------- the jobs of a workflow

  predicate IsJobOf(job: Job, workflowName: string) {
    WORKFLOW_LABEL_KEY in job.labels && job.labels[WORKFLOW_LABEL_KEY] == workflowName
  }

  predicate IsJobOfStep(job: Job, workflowName: string, stepName: string) {
    && IsJobOf(job, workflowName)
    && WORKFLOW_STEP_LABEL_KEY in job.labels && job.labels[WORKFLOW_STEP_LABEL_KEY] == stepName
  }

  /** The jobs that are labelled with the workflow and the step. */
  function OwnJobs(jobs: seq<Job>, workflowName: string, stepName: string): seq<Job> {
    Filter(jobs, (j: Job) => IsJobOfStep(j, workflowName, stepName))
  }

  /** No two jobs are labelled with the workflow and the same step. */
  ghost predicate OneJobPerStep(jobs: seq<Job>, workflowName: string) {
    forall i, j, n :: 0 <= i < j < |jobs| ==>
      !(IsJobOfStep(jobs[i], workflowName, n) && IsJobOfStep(jobs[j], workflowName, n))
  }

  /** The workflow's jobs have the labels that are expected for their steps. */
  ghost predicate Labelled(jobs: seq<Job>, d: Labelling, workflowName: string) {
    forall j :: j in jobs && IsJobOf(j, workflowName) ==>
      exists v :: Known(d, v) && j.labels == Expected(d, workflowName, v)
  }

  lemma KnownByName(d: Labelling, workflowName: string, v: Writer, u: Writer)
    requires Admissible(d, workflowName) && Known(d, v) && Known(d, u) && u.stepName == v.stepName
    ensures Expected(d, workflowName, u) == Expected(d, workflowName, v)
  {
  }

  /** The lookup for a step finds exactly the jobs labelled with the step. */
  lemma LookupFindsOwnJobs(jobs: seq<Job>, d: Labelling, workflowName: string, v: Writer)
    requires Labelled(jobs, d, workflowName) && Admissible(d, workflowName) && Known(d, v)
    ensures Matching(jobs, Expected(d, workflowName, v))
            == OwnJobs(jobs, workflowName, v.stepName)
  {
    hide Admissible, Known, Expected;
    var selector := Expected(d, workflowName, v);
    forall j | j in jobs ensures Matches(selector, j.labels) == IsJobOfStep(j, workflowName, v.stepName) {
      if Matches(selector, j.labels) {
        assert WORKFLOW_LABEL_KEY in selector && WORKFLOW_STEP_LABEL_KEY in selector;
      }
      if IsJobOfStep(j, workflowName, v.stepName) {
        var u :| Known(d, u) && j.labels == Expected(d, workflowName, u);
        KnownByName(d, workflowName, v, u);
      }
    }
    FilterSame(jobs, (j: Job) => Matches(selector, j.labels), (j: Job) => IsJobOfStep(j, workflowName, v.stepName));
  }

  /** ... which are none, or one. */
  lemma {:induction false} AtMostOneFound(jobs: seq<Job>, workflowName: string, n: string)
    requires OneJobPerStep(jobs, workflowName)
    ensures |OwnJobs(jobs, workflowName, n)| <= 1
  {
    var own := (j: Job) => IsJobOfStep(j, workflowName, n);
    if jobs != [] {
      AtMostOneFound(jobs[1..], workflowName, n);
      FilterMembers(jobs[1..], own);
      if Filter(jobs[1..], own) != [] {
        var j := Filter(jobs[1..], own)[0];
        assert j in Filter(jobs[1..], own);
        var k :| 0 <= k < |jobs[1..]| && jobs[1..][k] == j;
        assert jobs[k + 1] == j;
        assert !own(jobs[0]);
      }
    }
  }

  // -------------------------------------------------------------- the invariant

  ghost predicate JobsInv(jobs: seq<Job>, d: Labelling, workflowName: string) {
    OneJobPerStep(jobs, workflowName) && Labelled(jobs, d, workflowName)
  }

  ghost predicate VersionsObey(versions: seq<Workflow>, d: Labelling, workflowName: string) {
    forall w :: w in versions ==> w.name == workflowName && Obeys(d, w)
  }

  /** What every run keeps, with any lister. */
  ghost predicate LabelInv(s: World, d: Labelling, workflowName: string) {
    Labelled(s.jobs, d, workflowName) && VersionsObey(s.versions, d, workflowName)
  }

  /** What it keeps with an exact one. */
  ghost predicate FreshInv(s: World, d: Labelling, workflowName: string) {
    LabelInv(s, d, workflowName) && OneJobPerStep(s.jobs, workflowName)
  }

  lemma NewJobIsLabelled(jobs: seq<Job>, d: Labelling, workflowName: string, v: Writer, job: Job)
    requires Labelled(jobs, d, workflowName) && Known(d, v) && job.labels == Expected(d, workflowName, v)
    ensures Labelled(jobs + [job], d, workflowName)
  {
    hide Known, Expected;
  }

  lemma NewJobKeepsInv(jobs: seq<Job>, d: Labelling, workflowName: string, v: Writer, job: Job)
    requires JobsInv(jobs, d, workflowName) && Admissible(d, workflowName) && Known(d, v)
    requires job.labels == Expected(d, workflowName, v)
    requires Matching(jobs, Expected(d, workflowName, v)) == []
    ensures JobsInv(jobs + [job], d, workflowName)
  {
    hide Admissible, Known, Expected;
    var own := (j: Job) => IsJobOfStep(j, workflowName, v.stepName);
    LookupFindsOwnJobs(jobs, d, workflowName, v);
    FilterMembers(jobs, own);
    forall i | 0 <= i < |jobs| ensures !IsJobOfStep(jobs[i], workflowName, v.stepName) {
      assert jobs[i] in jobs;
    }
  }

  /** What an iteration of the loop gets stored: nothing, or one job for a due step
      that was looked up in vain. */
  lemma CreatedForDue(p: Pass, i: nat, a: Answer)
    requires i < |p.w.spec.steps|
    ensures var q, step := ManageStep(p, p.w.spec.steps[i], a), p.w.spec.steps[i];
      || q.created == p.created
      || (DueStep(p.w, i) && a.listing == Some([])
          && exists job: Job :: job.labels == StepLabels(p.w, step) && q.created == p.created + [job])
  {
    hide IsComplete, StepLabels, DependenciesComplete, IsJobFinished, RecordJob;
    var q := ManageStep(p, p.w.spec.steps[i], a);
    if q.created != p.created {
      assert q.created == p.created + [Job(a.creation.jobName, StepLabels(p.w, p.w.spec.steps[i]), [])];
    }
  }

  /** One iteration of the loop, with any listing: what it creates is labelled as
      expected; and with an exact one it is the only job of its step. */
  lemma StepKeepsJobs(p: Pass, i: nat, a: Answer, jobs: seq<Job>, d: Labelling)
    requires Admissible(d, p.w.name) && (p.panicked || ObeysAt(d, p.w, i)) && i < |p.w.spec.steps|
    requires Labelled(jobs + p.created, d, p.w.name)
    ensures var now := jobs + ManageStep(p, p.w.spec.steps[i], a).created;
      && Labelled(now, d, p.w.name)
      && (OneJobPerStep(jobs + p.created, p.w.name)
          && (p.w.spec.steps[i].jobTemplate.Some? ==>
               a.listing == Some(Matching(jobs + p.created, StepLabels(p.w, p.w.spec.steps[i]))))
          ==> OneJobPerStep(now, p.w.name))
  {
    hide Admissible, ObeysAt, OneJobPerStep, Labelled, Known, Expected, ManageStep, DueStep, StepLabels, Matching;
    var step, q := p.w.spec.steps[i], ManageStep(p, p.w.spec.steps[i], a);
    CreatedForDue(p, i, a);
    if q.created != p.created {
      NotAfterPanic(p, i, a);
      DueIsJob(p.w, i);
      DueLabels(d, p.w, i);
      var job: Job :| job.labels == StepLabels(p.w, step) && q.created == p.created + [job];
      assert (jobs + p.created) + [job] == jobs + q.created;
      NewJobIsLabelled(jobs + p.created, d, p.w.name, WriterOf(step), job);
      if OneJobPerStep(jobs + p.created, p.w.name)
         && a.listing == Some(Matching(jobs + p.created, StepLabels(p.w, step))) {
        NewJobKeepsInv(jobs + p.created, d, p.w.name, WriterOf(step), job);
      }
    }
  }

  lemma NotAfterPanic(p: Pass, i: nat, a: Answer)
    requires i < |p.w.spec.steps| && ManageStep(p, p.w.spec.steps[i], a).created != p.created
    ensures !p.panicked
  {
  }

  lemma {:induction false} PassKeepsJobs(jobs: seq<Job>, w: Workflow, answers: Answers, d: Labelling, i: nat)
    requires i <= |w.spec.steps| && Admissible(d, w.name) && Obeys(d, w) && Labelled(jobs, d, w.name)
    ensures Labelled(JobsBefore(jobs, w, answers, i), d, w.name)
    ensures OneJobPerStep(jobs, w.name) && Exact(jobs, w, answers) ==>
      OneJobPerStep(JobsBefore(jobs, w, answers, i), w.name)
  {
    hide Admissible, ObeysAt, OneJobPerStep, Labelled, ManageStep, Matching, StepLabels, Grows;
    if i == 0 {
      assert JobsBefore(jobs, w, answers, 0) == jobs;
    } else {
      PassKeepsJobs(jobs, w, answers, d, i - 1);
      PassObeys(d, w, answers, i - 1);
      BeforeExtends(w, answers, 0, i - 1);
      StepKeepsJobs(Before(w, answers, i - 1), i - 1, answers(i - 1), jobs, d);
    }
  }

  // ------------------------------------------------------------------- the runs

  lemma {:induction false} FilteringKeepsJobsInv(jobs: seq<Job>, keep: Job -> bool, d: Labelling, workflowName: string)
    requires JobsInv(jobs, d, workflowName)
    ensures JobsInv(Filter(jobs, keep), d, workflowName)
  {
    hide IsJobOfStep, IsJobOf, Known, Expected;
    if jobs != [] {
      var rest := jobs[1..];
      assert forall i :: 0 <= i < |rest| ==> rest[i] == jobs[i + 1];
      FilteringKeepsJobsInv(rest, keep, d, workflowName);
      FilterMembers(rest, keep);
      FilterMembers(jobs, keep);
      if keep(jobs[0]) {
        var left := Filter(jobs, keep);
        forall i, j, n | 0 <= i < j < |left|
          ensures !(IsJobOfStep(left[i], workflowName, n) && IsJobOfStep(left[j], workflowName, n))
        {
          assert left[j] == Filter(rest, keep)[j - 1];
          if i == 0 {
            assert Filter(rest, keep)[j - 1] in Filter(rest, keep);
            var k :| 0 <= k < |rest| && rest[k] == left[j];
            assert jobs[k + 1] == left[j] && jobs[0] == left[0];
          }
        }
      }
    }
  }

  lemma OtherActionsKeepJobs(s: World, a: Action, d: Labelling, workflowName: string)
    requires Labelled(s.jobs, d, workflowName) && !a.Sync?
    ensures Labelled(Apply(s, a).jobs, d, workflowName)
    ensures OneJobPerStep(s.jobs, workflowName) ==> OneJobPerStep(Apply(s, a).jobs, workflowName)
  {
    hide Known, Expected, IsJobOfStep, IsJobOf, Apply, OneJobPerStep;
    OldPlace(s, a);
    forall j | j in Apply(s, a).jobs ensures exists k: Job :: k in s.jobs && k.labels == j.labels {
      var i :| 0 <= i < |Apply(s, a).jobs| && Apply(s, a).jobs[i] == j;
      assert s.jobs[Place(a, i)] in s.jobs;
    }
    forall j: Job, k: Job | j.labels == k.labels ensures IsJobOf(j, workflowName) == IsJobOf(k, workflowName) {
      SameLabelsSameStep(j, k, workflowName, "");
    }
    if OneJobPerStep(s.jobs, workflowName) {
      PlacesKeepOneJob(s, a, workflowName);
    }
  }

  /** Where the job at i was before the action. */
  function Place(a: Action, i: nat): nat {
    if a.DeleteJob? && a.index <= i then i + 1 else i
  }

  lemma OldPlace(s: World, a: Action)
    requires !a.Sync?
    ensures forall i :: 0 <= i < |Apply(s, a).jobs| ==>
      Place(a, i) < |s.jobs| && Apply(s, a).jobs[i].labels == s.jobs[Place(a, i)].labels
  {
  }

  lemma SameLabelsSameStep(j: Job, k: Job, workflowName: string, n: string)
    requires j.labels == k.labels
    ensures IsJobOf(j, workflowName) == IsJobOf(k, workflowName)
    ensures IsJobOfStep(j, workflowName, n) == IsJobOfStep(k, workflowName, n)
  {
  }

  lemma PlacesKeepOneJob(s: World, a: Action, workflowName: string)
    requires OneJobPerStep(s.jobs, workflowName) && !a.Sync?
    ensures OneJobPerStep(Apply(s, a).jobs, workflowName)
  {
    hide IsJobOfStep, Apply;
    OldPlace(s, a);
    var jobs' := Apply(s, a).jobs;
    forall i, j, n | 0 <= i < j < |jobs'|
      ensures !(IsJobOfStep(jobs'[i], workflowName, n) && IsJobOfStep(jobs'[j], workflowName, n))
    {
      SameLabelsSameStep(jobs'[i], s.jobs[Place(a, i)], workflowName, n);
      SameLabelsSameStep(jobs'[j], s.jobs[Place(a, j)], workflowName, n);
    }
  }

  lemma SyncKeepsJobs(s: World, a: Action, w: Workflow, r: Replies, d: Labelling, workflowName: string)
    requires LabelInv(s, d, workflowName) && Admissible(d, workflowName) && Inv(s)
    requires IsSyncOf(s, a, w, r)
    ensures LabelInv(SyncWorld(s, w, r), d, workflowName)
    ensures OneJobPerStep(s.jobs, workflowName) && FreshReplies(s, w, r.answers) ==>
      OneJobPerStep(SyncWorld(s, w, r).jobs, workflowName)
  {
    hide Obeys, Admissible, OneJobPerStep, Labelled, SyncEffect, FreshReplies, Surviving, PassEvents, Apply,
         WorkflowInv, SeenFinished, CreationsJustified, Ascend;
    var e := SyncEffect(w, s.clock, r);
    SurvivingKeepsJobs(s.jobs, e.deleted, d, workflowName);
    SyncObeys(d, w, s.clock, r);
    SyncNameKept(w, s.clock, r);
    CreatedKeepsJobs(s, w, r, d);
    if e.created == [] {
      assert Surviving(s.jobs, e.deleted) + [] == Surviving(s.jobs, e.deleted);
    } else {
      NothingDeleted(s.jobs);
    }
  }

  lemma SyncNameKept(w: Workflow, start: int, r: Replies)
    requires WorkflowInv(w)
    ensures var e := SyncEffect(w, start, r); e.written.Some? ==> e.written.value.name == w.name
  {
    hide SyncEffect, WorkflowInv;
    WrittenIsLater(w, start, r);
  }

  /** The jobs a sync creates, next to those there are. */
  lemma CreatedKeepsJobs(s: World, w: Workflow, r: Replies, d: Labelling)
    requires Admissible(d, w.name) && Obeys(d, w) && Labelled(s.jobs, d, w.name)
    ensures var e := SyncEffect(w, s.clock, r);
      e.created != [] ==>
        && e.deleted == {} && Labelled(s.jobs + e.created, d, w.name)
        && (OneJobPerStep(s.jobs, w.name) && FreshReplies(s, w, r.answers) ==>
             OneJobPerStep(s.jobs + e.created, w.name))
  {
    hide Obeys, Admissible, OneJobPerStep, Labelled, ValidWorkflow, Before, Exact, DefaultSpec;
    if ReachesPass(w, s.clock) {
      PassKeepsJobs(s.jobs, w, r.answers, d, |w.spec.steps|);
    }
  }

  lemma SurvivingKeepsJobs(jobs: seq<Job>, deleted: set<string>, d: Labelling, workflowName: string)
    requires Labelled(jobs, d, workflowName)
    ensures Labelled(Surviving(jobs, deleted), d, workflowName)
    ensures OneJobPerStep(jobs, workflowName) ==> OneJobPerStep(Surviving(jobs, deleted), workflowName)
  {
    hide Known, Expected, IsJobOfStep;
    FilterMembers(jobs, (j: Job) => j.name !in deleted);
    if OneJobPerStep(jobs, workflowName) {
      FilteringKeepsJobsInv(jobs, (j: Job) => j.name !in deleted, d, workflowName);
    }
  }

  ghost predicate FreshInit(s: World, d: Labelling, workflowName: string) {
    && Init(s) && s.stored.Some?
    && s.stored.value.name == workflowName && LabelMap(s.stored.value) == d.base
    && KeepsLabels(d, s.stored.value.spec)
    && forall j :: j in s.jobs ==> !IsJobOf(j, workflowName)
  }

  lemma InitOfFresh(s: World, d: Labelling, workflowName: string)
    requires FreshInit(s, d, workflowName)
    ensures Init(s)
  {
  }

  lemma InitialJobs(s: World, d: Labelling, workflowName: string)
    requires FreshInit(s, d, workflowName)
    ensures FreshInv(s, d, workflowName)
  {
    hide Obeys, LabelMap, KeepsLabels;
    InitialObeys(d, s.stored.value);
    forall i, n | 0 <= i < |s.jobs| ensures !IsJobOfStep(s.jobs[i], workflowName, n) {
      assert s.jobs[i] in s.jobs;
    }
  }

  lemma ApplyKeepsLabels(s: World, a: Action, d: Labelling, workflowName: string)
    requires LabelInv(s, d, workflowName) && Admissible(d, workflowName) && LabelAction(d, s, a) && Inv(s)
    ensures LabelInv(Apply(s, a), d, workflowName)
  {
    hide Admissible, OneJobPerStep, Labelled, Obeys, SyncWorld, Accepts, CreationsJustified, VersionsInv, Ascend, KeepsLabels;
    if a.Sync? {
      if Apply(s, a) != s {
        var w, r := SyncReadsVersion(s, a);
        SyncKeepsJobs(s, a, w, r, d, workflowName);
      }
    } else {
      OtherActionsKeepJobs(s, a, d, workflowName);
      if a.Edit? && s.stored.Some? && Accepts(a.spec, s.stored.value) {
        EditObeys(d, s.stored.value, a.spec);
      }
    }
  }

  /** Over every run, whatever the lister answers: the jobs of the workflow carry the
      labels that are expected for their steps, and every version would look for them
      with these. */
  lemma {:induction false} RunKeepsLabels(s: World, actions: seq<Action>, d: Labelling, workflowName: string)
    requires FreshInit(s, d, workflowName) && Admissible(d, workflowName) && LabelActions(d, s, actions)
    ensures LabelInv(Run(s, actions), d, workflowName)
  {
    hide Admissible, Apply, Labelled, LabelAction, Inv, VersionsObey, OneJobPerStep;
    if actions == [] {
      InitialJobs(s, d, workflowName);
    } else {
      var most, last := actions[..|actions| - 1], actions[|actions| - 1];
      assert LabelActions(d, s, most) by {
        forall k | 0 <= k < |most| ensures LabelAction(d, Run(s, most[..k]), most[k]) {
          assert most[..k] == actions[..k];
        }
      }
      RunKeepsLabels(s, most, d, workflowName);
      RunKeepsInv(s, most);
      ApplyKeepsLabels(Run(s, most), last, d, workflowName);
    }
  }

  /** Over every run with an exact lister and labels that cannot drift, with lagging
      workflow caches, failing creations, lost updates and deleted jobs: no step has two
      jobs, and each lookup finds just its own. */
  lemma {:induction false} RunKeepsOneJobPerStep(s: World, actions: seq<Action>, d: Labelling, workflowName: string)
    requires FreshInit(s, d, workflowName) && Admissible(d, workflowName) && FreshActions(d, s, actions)
    ensures FreshInv(Run(s, actions), d, workflowName)
    ensures OneJobPerStep(Run(s, actions).jobs, workflowName)
  {
    hide Admissible, Apply, OneJobPerStep, LabelInv, FreshAction, Inv;
    if actions == [] {
      InitialJobs(s, d, workflowName);
    } else {
      var most, last := actions[..|actions| - 1], actions[|actions| - 1];
      assert FreshActions(d, s, most) by {
        forall k | 0 <= k < |most| ensures FreshAction(d, Run(s, most[..k]), most[k]) {
          assert most[..k] == actions[..k];
        }
      }
      RunKeepsOneJobPerStep(s, most, d, workflowName);
      RunKeepsInv(s, most);
      FreshApplyKeepsInv(Run(s, most), last, d, workflowName);
    }
  }

  lemma FreshApplyKeepsInv(s: World, a: Action, d: Labelling, workflowName: string)
    requires FreshInv(s, d, workflowName) && Admissible(d, workflowName) && FreshAction(d, s, a) && Inv(s)
    ensures FreshInv(Apply(s, a), d, workflowName)
  {
    hide Admissible, OneJobPerStep, LabelInv, SyncWorld, FreshReplies, CreationsJustified, VersionsInv, Ascend, LabelAction;
    ApplyKeepsLabels(s, a, d, workflowName);
    if a.Sync? {
      if Apply(s, a) != s {
        var w, r := SyncReadsVersion(s, a);
        SyncKeepsJobs(s, a, w, r, d, workflowName);
      }
    } else {
      LabelsAreKept(s, d, workflowName);
      OtherActionsKeepJobs(s, a, d, workflowName);
    }
  }

  lemma LabelsAreKept(s: World, d: Labelling, workflowName: string)
    requires LabelInv(s, d, workflowName)
    ensures Labelled(s.jobs, d, workflowName)
  {
  }
}
