/** Workflows of steps without dependencies: a run with an exact lister gives some step
    two jobs, if and only if the labels of the steps do not agree as PassHistories
    says. */
module IndependentSteps {
  import opened Prelude
  import opened WorkflowTypes
  import opened JobLabels
  import opened Topology
  import opened OrderedLabels
  import opened PassHistories
  import opened StepValidation
  import opened WorkflowPass
  import opened WorkflowSync
  import opened WorkflowRun
  import opened RunLabels
  import opened FreshRun
  import opened Progress
  import opened EditedLabels
  import opened DriftRun

  ghost predicate Independent(steps: seq<Step>) {
    UniqueNames(steps) && forall i :: 0 <= i < |steps| ==> steps[i].jobTemplate.Some? && steps[i].dependencies == []
  }

  /** The workflow is started, has a label map with some label, and no deadline. */
  ghost predicate Going(s: World, name: string, steps: seq<Step>) {
    && s.stored.Some? && UnderWay(s.stored.value)
    && s.stored.value.name == name && s.stored.value.spec.steps == steps
    && s.stored.value.spec.activeDeadlineSeconds.None?
    && MatchLabels(s.stored.value).Some? && LabelMap(s.stored.value) != map[]
  }

  ghost predicate Open(s: World, i: nat)
    requires s.stored.Some? && i < |s.stored.value.spec.steps|
  {
    !IsComplete(s.stored.value.status.statuses, s.stored.value.spec.steps[i].name)
  }

  lemma GoingReaches(s: World, name: string, steps: seq<Step>)
    requires Going(s, name, steps)
    ensures ReachesPass(s.stored.value, s.clock) && UniqueNames(steps)
  {
    hide ValidWorkflow, DefaultSpec;
    ValidIsUnique(s.stored.value);
  }

  lemma OpenIsDue(s: World, name: string, steps: seq<Step>, i: nat)
    requires Going(s, name, steps) && Independent(steps) && i < |steps|
    ensures DueStep(s.stored.value, i) <==> Open(s, i)
  {
    hide IsComplete, UnderWay;
  }

  // --------------------------------------------------------------- a good sync

  /** What a good sync stores, if some step is open. */
  lemma SyncGoes(s: World, r: Replies, name: string, steps: seq<Step>, n: nat)
    requires Going(s, name, steps) && GoodReplies(s, r) && n < |steps| && Open(s, n)
    ensures var p, s' := Before(s.stored.value, r.answers, |steps|), Apply(s, Sync(None, r));
      && Going(s', name, steps) && s'.jobs == s.jobs + p.created
      && s'.stored.value.status.statuses == p.w.status.statuses
      && (p.toBeUpdated ==> LabelMap(s'.stored.value) == LabelMap(p.w))
  {
    hide IsComplete, Before, UnderWay, ReachesPass, Serialize, SyncWorld, Exact, PastActiveDeadline, Grows, MatchLabels;
    var w, k := s.stored.value, |steps|;
    GoodMeans(s, r) by {
      GoingReaches(s, name, steps);
    }
    GoingReaches(s, name, steps);
    CompleteFlag(w, r.answers, k);
    var p := Before(w, r.answers, k);
    BeforeExtends(w, r.answers, 0, k);
    NotPanicked(w, r.answers, k);
    assert Before(w, r.answers, 0).w == w by {
      FirstIs(w, r.answers);
    }
    NotPastDeadline(w, s.clock);
    SyncKeepsUnderWay(s, r);
    GoodSyncStores(s, r);
    SerializeKeeps(p.w);
    LabelStays(w, p.w);
    if !p.toBeUpdated {
      NotUpdatedUnchanged(w, r.answers, k);
    }
  }

  lemma FirstIs(w: Workflow, answers: Answers)
    ensures Before(w, answers, 0).w == w
  {
  }

  lemma NotPanicked(w: Workflow, answers: Answers, i: nat)
    requires MatchLabels(w).Some? && i <= |w.spec.steps|
    ensures !Before(w, answers, i).panicked
  {
    hide Before;
    PanicsIff(w, answers, i);
  }

  lemma NotPastDeadline(w: Workflow, now: int)
    requires w.spec.activeDeadlineSeconds.None?
    ensures !PastActiveDeadline(w, now)
  {
  }

  // ------------------------------------------------------- the map at a step's turn

  /** The value of k in the map before turn i: what the last open step before it sets,
      or what the map had. */
  function LastValue(w: Workflow, k: string, i: nat): Option<string>
    requires i <= |w.spec.steps| && forall j :: 0 <= j < |w.spec.steps| ==> w.spec.steps[j].jobTemplate.Some?
  {
    if i == 0 then LabelIn(LabelMap(w), k)
    else if !IsComplete(w.status.statuses, w.spec.steps[i - 1].name)
            && k in w.spec.steps[i - 1].jobTemplate.value.podLabels
    then Some(w.spec.steps[i - 1].jobTemplate.value.podLabels[k])
    else LastValue(w, k, i - 1)
  }

  lemma {:induction false} KeyBefore(w: Workflow, answers: Answers, k: string, i: nat)
    requires Independent(w.spec.steps) && MatchLabels(w).Some? && i <= |w.spec.steps| && !Reserved(k)
    ensures LabelIn(LabelMap(Before(w, answers, i).w), k) == LastValue(w, k, i)
  {
    hide ManageStep, IsComplete, LabelMap, UniqueNames, MatchLabels;
    if i > 0 {
      KeyBefore(w, answers, k, i - 1);
      var p := Before(w, answers, i - 1);
      SameButBefore(w, answers, i - 1);
      if IsComplete(w.status.statuses, w.spec.steps[i - 1].name) {
        StatusUntouchedBefore(w, answers, i - 1, i - 1);
        CompleteIsNotDue(p.w, i - 1);
        OtherwiseUnchanged(p, i - 1, answers(i - 1));
      } else {
        StillDue(w, answers, i - 1);
        DueStepWrites(p, i - 1, answers(i - 1));
      }
    }
  }

  lemma CompleteIsNotDue(w: Workflow, i: nat)
    requires i < |w.spec.steps| && IsComplete(w.status.statuses, w.spec.steps[i].name)
    ensures !DueStep(w, i)
  {
  }

  // ------------------------------------------------------- what becomes of a step

  lemma TurnCompletesIff(p: Pass, i: nat, a: Answer)
    requires i < |p.w.spec.steps| && DueStep(p.w, i) && MatchLabels(p.w).Some? && !p.panicked
    requires a.listing.Some? && a.referenceOk
    ensures IsComplete(ManageStep(p, p.w.spec.steps[i], a).w.status.statuses, p.w.spec.steps[i].name)
            <==> |a.listing.value| == 1 && IsJobFinished(a.listing.value[0])
  {
    hide IsComplete, DependenciesComplete, LabelsFor, RecordJob, IsJobFinished;
    if |a.listing.value| == 1 {
      RecordJobUpdates(p.w.status.statuses, p.w.spec.steps[i].name, a.listing.value[0]);
    }
  }

  lemma {:induction false} StatusUntouchedAfter(w: Workflow, answers: Answers, i: nat, j: nat)
    requires i < j <= |w.spec.steps| && UniqueNames(w.spec.steps)
    ensures IsComplete(Before(w, answers, j).w.status.statuses, w.spec.steps[i].name)
            <==> IsComplete(Before(w, answers, i + 1).w.status.statuses, w.spec.steps[i].name)
  {
    hide ManageStep, IsComplete, Extends;
    if j > i + 1 {
      StatusUntouchedAfter(w, answers, i, j - 1);
      ManageStepFrame(Before(w, answers, j - 1), w.spec.steps[j - 1], answers(j - 1));
    }
  }

  /** In the sync an open step without a second job afterwards finds its job, if it has
      one, and completes if that is finished. */
  lemma OpenStepAfter(s: World, r: Replies, name: string, steps: seq<Step>, i: nat)
    requires Going(s, name, steps) && Independent(steps) && GoodReplies(s, r) && i < |steps| && Open(s, i)
    requires |OwnJobs(Apply(s, Sync(None, r)).jobs, name, steps[i].name)| <= 1
    ensures var s', own := Apply(s, Sync(None, r)), OwnJobs(s.jobs, name, steps[i].name);
      && Going(s', name, steps)
      && (Open(s', i) <==> own == [] || !IsJobFinished(own[0]))
      && |own| <= 1 && |OwnJobs(s'.jobs, name, steps[i].name)| == 1
      && (own != [] ==> OwnJobs(s'.jobs, name, steps[i].name) == own)
  {
    hide UnderWay, Apply, IsComplete, Exact, GoodReplies, OwnJobs, Before, DueStep, LabelsFor, Matching, MapAtTurn,
         Within, ReachesPass, MatchLabels, UniqueNames;
    var w := s.stored.value;
    GoingReaches(s, name, steps);
    OpenIsDue(s, name, steps, i);
    GoodMeans(s, r);
    SyncGoes(s, r, name, steps, i);
    NextSyncMakes(s, r, i);
    StillDue(w, r.answers, i);
    ExactReadsOldJobs(w, r.answers, s.jobs, i);
    var p, v, own := Before(w, r.answers, i), WriterOf(steps[i]), OwnJobs(s.jobs, name, steps[i].name);
    var found := Matching(s.jobs, StepLabels(p.w, steps[i]));
    TurnFindsMap(s, r, i);
    LookupFinds(s.jobs, LabelMap(p.w), name, v);
    FoundOfOne(own, MapAtTurn(s.jobs, w, i) + v.podLabels);
    TurnCompletesIff(p, i, r.answers(i));
    StepIs(w, r.answers, i);
    StatusUntouchedAfter(w, r.answers, i, |steps|);
  }

  lemma StepIs(w: Workflow, answers: Answers, i: nat)
    requires i < |w.spec.steps|
    ensures Before(w, answers, i + 1) == ManageStep(Before(w, answers, i), w.spec.steps[i], answers(i))
  {
    hide ManageStep;
  }

  lemma FoundOfOne(own: seq<Job>, l: Labels)
    requires |own| <= 1
    ensures Filter(own, (j: Job) => Within(l, j.labels)) == if exists j :: j in own && Within(l, j.labels) then own else []
  {
    hide Within;
    if own != [] {
      assert own[1..] == [] && Filter(own[1..], (j: Job) => Within(l, j.labels)) == [];
    }
  }

  /** A complete step stays so. */
  lemma CompleteStepAfter(s: World, r: Replies, name: string, steps: seq<Step>, i: nat, n: nat)
    requires Going(s, name, steps) && GoodReplies(s, r) && i < |steps| && n < |steps| && !Open(s, i) && Open(s, n)
    ensures var s' := Apply(s, Sync(None, r)); Going(s', name, steps) && !Open(s', i)
  {
    hide UnderWay, Apply, IsComplete, GoodReplies, Before, MatchLabels;
    SyncGoes(s, r, name, steps, n);
    BeforeExtends(s.stored.value, r.answers, 0, |steps|);
    FirstIs(s.stored.value, r.answers);
    GrowsKeepsComplete(s.stored.value.status.statuses, Before(s.stored.value, r.answers, |steps|).w.status.statuses,
                       steps[i].name);
  }

  // --------------------------------------------------------------------- the runs

  /** The workflow as it is submitted, with no job of its name around. */
  ghost predicate Submitted(s: World, name: string, base: Labels, steps: seq<Step>) {
    && Init(s) && s.stored.Some? && (forall j :: j in s.jobs ==> !IsJobOf(j, name))
    && Independent(steps) && base != map[]
    && var w := s.stored.value;
    && w.name == name && w.spec.steps == steps && MatchLabels(w) == Some(base) && w.spec.activeDeadlineSeconds.None?
    && IsWorkflowDefaulted(w) && ValidWorkflow(w) && !w.deleting
  }

  /** No run with an exact lister gives a step two jobs. */
  ghost predicate NoDoubles(s: World, d: Labelling, name: string) {
    forall actions :: FreshActions(d, s, actions) ==> OneJobPerStep(Run(s, actions).jobs, name)
  }

  lemma OneMoreSync(s: World, d: Labelling, name: string, actions: seq<Action>) returns (longer: seq<Action>, r: Replies)
    requires NoDoubles(s, d, name) && FreshActions(d, s, actions) && Run(s, actions).stored.Some?
    ensures FreshActions(d, s, longer) && GoodReplies(Run(s, actions), r)
    ensures Run(s, longer) == Apply(Run(s, actions), Sync(None, r))
    ensures forall n :: |OwnJobs(Run(s, longer).jobs, name, n)| <= 1
  {
    hide Run, FreshActions, GoodReplies, NewNames, Apply, OneJobPerStep, OwnJobs;
    r := SyncOnceMore(s, actions, d);
    longer := actions + [Sync(None, r)];
    forall n ensures |OwnJobs(Run(s, longer).jobs, name, n)| <= 1 {
      AtMostOneFound(Run(s, longer).jobs, name, n);
    }
  }

  lemma FirstSync(s: World, name: string, base: Labels, steps: seq<Step>, r: Replies)
    requires Submitted(s, name, base, steps) && !r.updateLost
    ensures var s' := Apply(s, Sync(None, r));
      && Going(s', name, steps) && s'.jobs == s.jobs && LabelMap(s'.stored.value) == base
      && s'.stored.value.status.statuses == []
  {
    hide ValidSteps, DefaultSpec;
    NothingDeleted(s.jobs);
    assert s.jobs + [] == s.jobs;
  }

  /** The value of k in the map before turn i, if all steps before it write. */
  function FirstValue(base: Labels, steps: seq<Step>, k: string, i: nat): Option<string>
    requires i <= |steps| && forall j :: 0 <= j < |steps| ==> steps[j].jobTemplate.Some?
  {
    if i == 0 then LabelIn(base, k)
    else if k in steps[i - 1].jobTemplate.value.podLabels then Some(steps[i - 1].jobTemplate.value.podLabels[k])
    else FirstValue(base, steps, k, i - 1)
  }

  lemma {:induction false} AllOpenWrite(w: Workflow, k: string, i: nat)
    requires i <= |w.spec.steps| && w.status.statuses == []
    requires forall j :: 0 <= j < |w.spec.steps| ==> w.spec.steps[j].jobTemplate.Some?
    ensures LastValue(w, k, i) == FirstValue(LabelMap(w), w.spec.steps, k, i)
  {
    if i > 0 {
      AllOpenWrite(w, k, i - 1);
    }
  }

  /** Every step is open, and has one job, that has not finished. */
  ghost predicate AllRunning(s: World, name: string, steps: seq<Step>) {
    && Going(s, name, steps)
    && forall i :: 0 <= i < |steps| ==>
      && Open(s, i) && |OwnJobs(s.jobs, name, steps[i].name)| == 1
      && !IsJobFinished(OwnJobs(s.jobs, name, steps[i].name)[0])
  }

  /** The second sync makes the jobs. */
  lemma SecondSync(s: World, r: Replies, name: string, base: Labels, steps: seq<Step>, n: nat, k: string)
    requires Going(s, name, steps) && Independent(steps) && GoodReplies(s, r) && n < |steps| && !Reserved(k)
    requires LabelMap(s.stored.value) == base && s.stored.value.status.statuses == []
    requires forall j :: j in s.jobs ==> !IsJobOf(j, name)
    requires forall m :: |OwnJobs(Apply(s, Sync(None, r)).jobs, name, m)| <= 1
    requires k !in steps[n].jobTemplate.value.podLabels
    ensures var s' := Apply(s, Sync(None, r));
      && AllRunning(s', name, steps)
      && LabelIn(OwnJobs(s'.jobs, name, steps[n].name)[0].labels, k) == FirstValue(base, steps, k, n)
  {
    hide Going, Apply, GoodReplies, OwnJobs, Independent, LabelsFor, MapAtTurn, IsJobFinished, Within, ReachesPass,
         LastValue, FirstValue, IsComplete, Before, MatchLabels, DueStep;
    GoingFacts(s, name, steps);
    GoingReaches(s, name, steps);
    GoodMeans(s, r);
    var w, s' := s.stored.value, Apply(s, Sync(None, r));
    NoneComplete(w, n);
    SyncGoes(s, r, name, steps, n);
    GoingFacts(s', name, steps);
    forall i | 0 <= i < |steps|
      ensures Going(s', name, steps) && Open(s, i) && Open(s', i)
      ensures var own := OwnJobs(s'.jobs, name, steps[i].name);
        && |own| == 1 && !IsJobFinished(own[0])
        && own[0].labels == LabelsFor(MapAtTurn(s.jobs, w, i), name, WriterOf(steps[i]))
    {
      NoOwnJobs(s.jobs, name, steps[i].name);
      NoneComplete(w, i);
      OpenStepAfter(s, r, name, steps, i);
      OpenIsDue(s, name, steps, i);
      NextSyncMakes(s, r, i);
      var job := Job(r.answers(i).creation.jobName, LabelsFor(MapAtTurn(s.jobs, w, i), name, WriterOf(steps[i])), []);
      NewIsUnfinished(job);
      assert OwnJobs(s'.jobs, name, steps[i].name) == [job];
    }
    TurnFindsMap(s, r, n);
    KeyBefore(w, r.answers, k, n);
    AllOpenWrite(w, k, n);
    LabelOfJob(MapAtTurn(s.jobs, w, n), name, WriterOf(steps[n]), k);
  }

  lemma GoingFacts(s: World, name: string, steps: seq<Step>)
    requires Going(s, name, steps)
    ensures s.stored.Some? && s.stored.value.spec.steps == steps && s.stored.value.name == name
    ensures MatchLabels(s.stored.value).Some? && forall i :: 0 <= i < |steps| ==> steps[i].jobTemplate.Some?
  {
  }

  lemma NoOwnJobs(jobs: seq<Job>, name: string, n: string)
    requires forall j :: j in jobs ==> !IsJobOf(j, name)
    ensures OwnJobs(jobs, name, n) == []
  {
    forall x | 0 <= x < |jobs| ensures !IsJobOfStep(jobs[x], name, n) {
      assert jobs[x] in jobs;
    }
    HasJobIff(jobs, name, n);
  }

  lemma NoneComplete(w: Workflow, i: nat)
    requires w.status.statuses == [] && i < |w.spec.steps|
    ensures !IsComplete(w.status.statuses, w.spec.steps[i].name)
  {
  }

  lemma NewIsUnfinished(job: Job)
    requires job.conditions == []
    ensures !IsJobFinished(job)
  {
  }

  lemma LabelOfJob(m: Labels, name: string, v: Writer, k: string)
    requires !Reserved(k) && k !in v.podLabels
    ensures LabelIn(LabelsFor(m, name, v), k) == LabelIn(m, k)
  {
  }

  // ------------------------------------------------------- finishing all other jobs

  predicate Spared(job: Job, name: string, a: string, b: string) {
    IsJobOfStep(job, name, a) || IsJobOfStep(job, name, b)
  }

  function FinishedUpTo(jobs: seq<Job>, name: string, a: string, b: string, i: nat): seq<Job> {
    seq(|jobs|, x requires 0 <= x < |jobs| =>
      if x < i && !Spared(jobs[x], name, a, b) then Finish(jobs[x], true) else jobs[x])
  }

  lemma {:induction false} FinishOthers(
    s: World, d: Labelling, actions: seq<Action>, name: string, a: string, b: string, i: nat)
    returns (longer: seq<Action>)
    requires FreshActions(d, s, actions) && i <= |Run(s, actions).jobs|
    ensures FreshActions(d, s, longer)
    ensures Run(s, longer)
            == Run(s, actions).(jobs := FinishedUpTo(Run(s, actions).jobs, name, a, b, i))
  {
    hide Run, FreshActions, Spared, Finish;
    var jobs := Run(s, actions).jobs;
    if i == 0 {
      longer := actions;
      assert FinishedUpTo(jobs, name, a, b, 0) == jobs;
    } else {
      longer := FinishOthers(s, d, actions, name, a, b, i - 1);
      var before, now := FinishedUpTo(jobs, name, a, b, i - 1), FinishedUpTo(jobs, name, a, b, i);
      if Spared(jobs[i - 1], name, a, b) {
        assert now == before;
      } else {
        assert now == before[i - 1 := Finish(before[i - 1], true)];
        FreshOneMore(d, s, longer, FinishJob(i - 1, true));
        RunOneMore(s, longer, FinishJob(i - 1, true));
        longer := longer + [FinishJob(i - 1, true)];
      }
    }
  }

  lemma {:induction false} SameOwn(jobs: seq<Job>, jobs': seq<Job>, name: string, n: string)
    requires |jobs| == |jobs'|
    requires forall x :: 0 <= x < |jobs| ==> jobs'[x].labels == jobs[x].labels
    requires forall x :: 0 <= x < |jobs| && IsJobOfStep(jobs[x], name, n) ==> jobs'[x] == jobs[x]
    ensures OwnJobs(jobs', name, n) == OwnJobs(jobs, name, n)
  {
    if jobs != [] {
      SameOwn(jobs[1..], jobs'[1..], name, n);
    }
  }

  lemma FinishedJobs(jobs: seq<Job>, name: string, a: string, b: string, n: string)
    ensures var jobs', own := FinishedUpTo(jobs, name, a, b, |jobs|), OwnJobs(jobs, name, n);
      && |OwnJobs(jobs', name, n)| == |own|
      && if n == a || n == b then OwnJobs(jobs', name, n) == own
         else forall j :: j in OwnJobs(jobs', name, n) ==> IsJobFinished(j)
  {
    hide OwnJobs;
    var jobs' := FinishedUpTo(jobs, name, a, b, |jobs|);
    OwnJobsReadLabels(jobs', jobs, name, n);
    if n == a || n == b {
      SameOwn(jobs, jobs', name, n);
    } else {
      FilterMembers(jobs', (j: Job) => IsJobOfStep(j, name, n));
      assert OwnJobs(jobs', name, n) == Filter(jobs', (j: Job) => IsJobOfStep(j, name, n)) by {
        OwnIs(jobs', name, n);
      }
      forall j | j in OwnJobs(jobs', name, n) ensures IsJobFinished(j) {
        var x :| 0 <= x < |jobs'| && jobs'[x] == j;
        assert !Spared(jobs[x], name, a, b);
        var c := j.conditions;
        assert c[|c| - 1].isTrue;
      }
    }
  }

  lemma OwnIs(jobs: seq<Job>, name: string, n: string)
    ensures OwnJobs(jobs, name, n) == Filter(jobs, (j: Job) => IsJobOfStep(j, name, n))
  {
  }

  /** Only two steps are still open, each with its one unfinished job. */
  ghost predicate TwoOpen(s: World, name: string, steps: seq<Step>, n: nat, c: nat)
    requires n < |steps| && c < |steps|
  {
    && Going(s, name, steps) && Open(s, n) && Open(s, c)
    && forall i :: 0 <= i < |steps| && i != n && i != c ==> !Open(s, i)
  }

  lemma ClosedMeans(s: World, name: string, steps: seq<Step>, n: nat, c: nat)
    requires n < |steps| && c < |steps| && TwoOpen(s, name, steps, n, c)
    ensures s.stored.Some? && s.stored.value.spec.steps == steps
    ensures var statuses := s.stored.value.status.statuses;
      && !IsComplete(statuses, steps[c].name) && !IsComplete(statuses, steps[n].name)
      && forall i :: 0 <= i < |steps| && i != n && i != c ==> IsComplete(statuses, steps[i].name)
  {
    hide IsComplete, UnderWay;
    forall i | 0 <= i < |steps| && i != n && i != c ensures IsComplete(s.stored.value.status.statuses, steps[i].name) {
      assert !Open(s, i);
    }
  }

  /** All others finish, and the third sync records it. */
  lemma ThirdSync(s: World, r: Replies, name: string, steps: seq<Step>, n: nat, c: nat)
    requires Independent(steps) && n < |steps| && c < |steps| && AllRunning(s, name, steps)
    requires var s1 := s.(jobs := FinishedUpTo(s.jobs, name, steps[n].name, steps[c].name, |s.jobs|));
      GoodReplies(s1, r) && forall m :: |OwnJobs(Apply(s1, Sync(None, r)).jobs, name, m)| <= 1
    ensures var s' := Apply(s.(jobs := FinishedUpTo(s.jobs, name, steps[n].name, steps[c].name, |s.jobs|)), Sync(None, r));
      && TwoOpen(s', name, steps, n, c)
      && OwnJobs(s'.jobs, name, steps[n].name) == OwnJobs(s.jobs, name, steps[n].name)
      && OwnJobs(s'.jobs, name, steps[c].name) == OwnJobs(s.jobs, name, steps[c].name)
  {
    hide UnderWay, Apply, GoodReplies, OwnJobs, IsComplete, FinishedUpTo, IsJobFinished, MatchLabels;
    var s1 := s.(jobs := FinishedUpTo(s.jobs, name, steps[n].name, steps[c].name, |s.jobs|));
    forall i | 0 <= i < |steps|
      ensures Going(Apply(s1, Sync(None, r)), name, steps)
      ensures Open(Apply(s1, Sync(None, r)), i) <==> i == n || i == c
    {
      FinishedJobs(s.jobs, name, steps[n].name, steps[c].name, steps[i].name);
      OpenStepAfter(s1, r, name, steps, i);
      var own := OwnJobs(s1.jobs, name, steps[i].name);
      assert own[0] in own;
      NamesTellSteps(steps, i, n);
      NamesTellSteps(steps, i, c);
    }
    FinishedJobs(s.jobs, name, steps[n].name, steps[c].name, steps[n].name);
    FinishedJobs(s.jobs, name, steps[n].name, steps[c].name, steps[c].name);
    OpenStepAfter(s1, r, name, steps, n);
    OpenStepAfter(s1, r, name, steps, c);
  }

  lemma NamesTellSteps(steps: seq<Step>, i: nat, j: nat)
    requires UniqueNames(steps) && i < |steps| && j < |steps|
    ensures steps[i].name == steps[j].name <==> i == j
  {
  }

  // ------------------------------------------------------- one job is deleted

  lemma DeletingOwn(jobs: seq<Job>, name: string, c: string) returns (x: nat)
    requires |OwnJobs(jobs, name, c)| == 1
    ensures x < |jobs|
    ensures var jobs' := jobs[..x] + jobs[x + 1..];
      && OwnJobs(jobs', name, c) == []
      && forall n :: n != c ==> OwnJobs(jobs', name, n) == OwnJobs(jobs, name, n)
  {
    hide OwnJobs;
    var own := OwnJobs(jobs, name, c);
    OwnIs(jobs, name, c);
    FilterMembers(jobs, (j: Job) => IsJobOfStep(j, name, c));
    assert own[0] in own;
    x :| 0 <= x < |jobs| && jobs[x] == own[0];
    assert jobs == jobs[..x] + ([jobs[x]] + jobs[x + 1..]);
    forall n ensures OwnJobs(jobs, name, n)
                     == OwnJobs(jobs[..x], name, n)
                        + ((if IsJobOfStep(jobs[x], name, n) then [jobs[x]] else []) + OwnJobs(jobs[x + 1..], name, n))
    {
      OwnJobsAppend(jobs[..x], [jobs[x]] + jobs[x + 1..], name, n);
      OwnJobsAppend([jobs[x]], jobs[x + 1..], name, n);
      OwnOfOne(jobs[x], name, n);
    }
    forall n ensures OwnJobs(jobs[..x] + jobs[x + 1..], name, n)
                     == OwnJobs(jobs[..x], name, n) + OwnJobs(jobs[x + 1..], name, n)
    {
      OwnJobsAppend(jobs[..x], jobs[x + 1..], name, n);
    }
    assert IsJobOfStep(jobs[x], name, c);
    forall n | n != c ensures OwnJobs(jobs[..x] + jobs[x + 1..], name, n) == OwnJobs(jobs, name, n) {
      assert !IsJobOfStep(jobs[x], name, n);
      assert [] + OwnJobs(jobs[x + 1..], name, n) == OwnJobs(jobs[x + 1..], name, n);
    }
  }

  /** Of the two open steps only c sets the key. */
  lemma {:induction false} OnlyOneSets(w: Workflow, k: string, n: nat, c: nat, i: nat)
    requires i <= |w.spec.steps| && n < |w.spec.steps| && c < |w.spec.steps|
    requires forall j :: 0 <= j < |w.spec.steps| ==> w.spec.steps[j].jobTemplate.Some?
    requires k !in w.spec.steps[n].jobTemplate.value.podLabels && k in w.spec.steps[c].jobTemplate.value.podLabels
    requires forall j :: 0 <= j < |w.spec.steps| && j != n && j != c ==>
      IsComplete(w.status.statuses, w.spec.steps[j].name)
    requires !IsComplete(w.status.statuses, w.spec.steps[c].name)
    ensures LastValue(w, k, i)
            == if c < i then Some(w.spec.steps[c].jobTemplate.value.podLabels[k]) else LabelIn(LabelMap(w), k)
  {
    hide IsComplete, LabelMap;
    if i > 0 {
      OnlyOneSets(w, k, n, c, i - 1);
    }
  }

  /** The fourth sync makes the deleted job of c again, and stores its label. */
  lemma FourthSync(s: World, r: Replies, name: string, steps: seq<Step>, n: nat, c: nat, k: string)
    requires Independent(steps) && n < |steps| && c < |steps| && n != c && !Reserved(k) && TwoOpen(s, name, steps, n, c)
    requires k !in steps[n].jobTemplate.value.podLabels && k in steps[c].jobTemplate.value.podLabels
    requires OwnJobs(s.jobs, name, steps[c].name) == []
    requires var own := OwnJobs(s.jobs, name, steps[n].name); |own| == 1 && !IsJobFinished(own[0])
    requires GoodReplies(s, r) && forall m :: |OwnJobs(Apply(s, Sync(None, r)).jobs, name, m)| <= 1
    ensures var s' := Apply(s, Sync(None, r));
      && TwoOpen(s', name, steps, n, c)
      && OwnJobs(s'.jobs, name, steps[n].name) == OwnJobs(s.jobs, name, steps[n].name)
      && LabelIn(LabelMap(s'.stored.value), k) == Some(steps[c].jobTemplate.value.podLabels[k])
  {
    hide Going, Apply, GoodReplies, OwnJobs, IsComplete, IsJobFinished, MatchLabels, LabelMap, LastValue, Before,
         ReachesPass;
    GoingFacts(s, name, steps);
    var w, p := s.stored.value, Before(s.stored.value, r.answers, |steps|);
    OpenStepAfter(s, r, name, steps, n);
    OpenStepAfter(s, r, name, steps, c);
    GoingFacts(Apply(s, Sync(None, r)), name, steps);
    forall i | 0 <= i < |steps| && i != n && i != c ensures !Open(Apply(s, Sync(None, r)), i) {
      CompleteStepAfter(s, r, name, steps, i, n);
    }
    SyncGoes(s, r, name, steps, n);
    GoingReaches(s, name, steps);
    GoodMeans(s, r);
    assert s.jobs + [] == s.jobs;
    if !p.toBeUpdated {
      NotUpdatedUnchanged(w, r.answers, |steps|);
      assert false;
    }
    KeyBefore(w, r.answers, k, |steps|);
    ClosedMeans(s, name, steps, n, c);
    OnlyOneSets(w, k, n, c, |steps|);
  }

  /** The fifth sync looks for n's job with that label. */
  lemma FifthSync(s: World, r: Replies, name: string, steps: seq<Step>, n: nat, c: nat, k: string)
    requires Independent(steps) && n < |steps| && c < |steps| && n != c && !Reserved(k) && TwoOpen(s, name, steps, n, c)
    requires k !in steps[n].jobTemplate.value.podLabels && k in steps[c].jobTemplate.value.podLabels
    requires LabelIn(LabelMap(s.stored.value), k) == Some(steps[c].jobTemplate.value.podLabels[k])
    requires var own := OwnJobs(s.jobs, name, steps[n].name);
      |own| == 1 && LabelIn(own[0].labels, k) != Some(steps[c].jobTemplate.value.podLabels[k])
    requires GoodReplies(s, r)
    ensures |OwnJobs(Apply(s, Sync(None, r)).jobs, name, steps[n].name)| == 2
  {
    hide Going, Apply, GoodReplies, OwnJobs, IsComplete, IsJobFinished, MatchLabels, LabelMap, LastValue, Before,
         ReachesPass, MapAtTurn, DueStep;
    GoingFacts(s, name, steps);
    var w, own := s.stored.value, OwnJobs(s.jobs, name, steps[n].name);
    ClosedMeans(s, name, steps, n, c);
    GoingReaches(s, name, steps);
    OpenIsDue(s, name, steps, n);
    NextSyncMakes(s, r, n);
    TurnFindsMap(s, r, n);
    KeyBefore(w, r.answers, k, n);
    OnlyOneSets(w, k, n, c, n);
    var m := MapAtTurn(s.jobs, w, n) + WriterOf(steps[n]).podLabels;
    assert k in m && m[k] == steps[c].jobTemplate.value.podLabels[k];
    forall j | j in own ensures !Within(m, j.labels) {
      assert j == own[0];
    }
  }

  // ------------------------------------------------------------------ the theorem

  /** Started, all jobs made, and all of them finished but those of n and c. */
  lemma AllButTwo(s: World, d: Labelling, name: string, base: Labels, steps: seq<Step>, n: nat, c: nat, k: string)
    returns (actions: seq<Action>)
    requires Submitted(s, name, base, steps) && NoDoubles(s, d, name)
    requires n < |steps| && c < |steps| && n != c && !Reserved(k) && k !in steps[n].jobTemplate.value.podLabels
    ensures FreshActions(d, s, actions)
    ensures var s' := Run(s, actions);
      && TwoOpen(s', name, steps, n, c) && |OwnJobs(s'.jobs, name, steps[c].name)| == 1
      && var own := OwnJobs(s'.jobs, name, steps[n].name);
      |own| == 1 && !IsJobFinished(own[0]) && LabelIn(own[0].labels, k) == FirstValue(base, steps, k, n)
  {
    hide Going, Apply, GoodReplies, OwnJobs, IsJobFinished, FirstValue, Run, FreshActions, NoDoubles, Open,
         FinishedUpTo, LabelMap;
    NoActions(s, d);
    var most, r := OneMoreSync(s, d, name, []);
    GoodIsNotLost(s, r);
    FirstSync(s, name, base, steps, r);
    var s1 := Run(s, most);
    GoingFacts(s1, name, steps);
    var longer, r1 := OneMoreSync(s, d, name, most);
    SecondSync(s1, r1, name, base, steps, n, k);
    var s2 := Run(s, longer);
    assert Going(s2, name, steps);
    GoingFacts(s2, name, steps);
    most := FinishOthers(s, d, longer, name, steps[n].name, steps[c].name, |s2.jobs|);
    var r2;
    longer, r2 := OneMoreSync(s, d, name, most);
    ThirdSync(s2, r2, name, steps, n, c);
    actions := longer;
  }

  lemma NoActions(s: World, d: Labelling)
    ensures FreshActions(d, s, []) && Run(s, []) == s
  {
  }

  /** If the label that n first finds in the map is not the one that c sets, some run
      gives a step two jobs. */
  lemma DisagreeingDoubles(
    s: World, d: Labelling, name: string, base: Labels, steps: seq<Step>, n: nat, c: nat, k: string)
    requires Submitted(s, name, base, steps)
    requires n < |steps| && c < |steps| && n != c && !Reserved(k)
    requires k !in steps[n].jobTemplate.value.podLabels && k in steps[c].jobTemplate.value.podLabels
    requires FirstValue(base, steps, k, n) != Some(steps[c].jobTemplate.value.podLabels[k])
    ensures !NoDoubles(s, d, name)
  {
    hide Going, Apply, GoodReplies, OwnJobs, IsJobFinished, FirstValue, Run, FreshActions, NoDoubles, Open, LabelMap,
         Submitted;
    if NoDoubles(s, d, name) {
      StepsOf(s, name, base, steps, n, c);
      var actions := AllButTwo(s, d, name, base, steps, n, c, k);
      var s3 := Run(s, actions);
      var x := DeletingOwn(s3.jobs, name, steps[c].name);
      FreshOneMore(d, s, actions, DeleteJob(x));
      RunOneMore(s, actions, DeleteJob(x));
      JobDeleted(s3, x);
      var deleted := actions + [DeleteJob(x)];
      var s4 := Run(s, deleted);
      SameOpen(s3, s4, name, steps, n, c);
      var longer, r := OneMoreSync(s, d, name, deleted);
      FourthSync(s4, r, name, steps, n, c, k);
      SameOpen(Run(s, longer), Run(s, longer), name, steps, n, c);
      var last, r' := OneMoreSync(s, d, name, longer);
      FifthSync(Run(s, longer), r', name, steps, n, c, k);
      assert false;
    }
  }

  lemma StepsOf(s: World, name: string, base: Labels, steps: seq<Step>, n: nat, c: nat)
    requires Submitted(s, name, base, steps) && n < |steps| && c < |steps| && n != c
    ensures Independent(steps) && steps[n].name != steps[c].name
  {
    NamesTellSteps(steps, n, c);
  }

  lemma JobDeleted(s: World, x: nat)
    requires x < |s.jobs|
    ensures Apply(s, DeleteJob(x)) == s.(jobs := s.jobs[..x] + s.jobs[x + 1..])
  {
  }

  /** Which steps are open does not depend on the jobs. */
  lemma SameOpen(s: World, s': World, name: string, steps: seq<Step>, n: nat, c: nat)
    requires n < |steps| && c < |steps| && TwoOpen(s, name, steps, n, c) && s'.stored == s.stored
    ensures TwoOpen(s', name, steps, n, c) && s'.stored.Some?
  {
    hide UnderWay, IsComplete;
    forall i | 0 <= i < |steps| && i != n && i != c ensures !Open(s', i) {
      assert !Open(s, i);
    }
  }

  /** What the template of a step sets. */
  lemma SetsIs(steps: seq<Step>, i: nat, k: string)
    requires Independent(steps) && i < |steps|
    ensures Sets(StepsMap(steps), steps[i].name, k) <==> k in steps[i].jobTemplate.value.podLabels
    ensures Value(steps, i, k) == LabelIn(steps[i].jobTemplate.value.podLabels, k)
  {
    UniqueStepsMap(steps, i);
  }

  /** Without a step that sets it before, the selector decides. */
  lemma {:induction false} NothingBefore(base: Labels, steps: seq<Step>, k: string, i: nat)
    requires i <= |steps| && forall j :: 0 <= j < |steps| ==> steps[j].jobTemplate.Some?
    requires forall j :: 0 <= j < i ==> k !in steps[j].jobTemplate.value.podLabels
    ensures FirstValue(base, steps, k, i) == LabelIn(base, k)
  {
    if i > 0 {
      NothingBefore(base, steps, k, i - 1);
    }
  }

  lemma PrecedingSets(steps: seq<Step>, n: nat, c: nat, k: string)
    requires Independent(steps) && n < |steps| && c < |steps| && MayPrecede(steps, k, n, c)
    ensures c != n && k in steps[c].jobTemplate.value.podLabels
    ensures Value(steps, c, k) == Some(steps[c].jobTemplate.value.podLabels[k])
  {
    hide Needs, CanRun, Sets, Value, NotOvertaken;
    SetsIs(steps, c, k);
  }

  /** A key that does not fit has some step that disagrees with what is found first. */
  lemma SomeDisagrees(base: Labels, steps: seq<Step>, n: nat, k: string) returns (c: nat)
    requires Independent(steps) && n < |steps| && !KeyFits(base, steps, n, k)
    ensures c < |steps| && c != n && k in steps[c].jobTemplate.value.podLabels
    ensures FirstValue(base, steps, k, n) != Some(steps[c].jobTemplate.value.podLabels[k])
  {
    hide MayPrecede, Value, FirstValue, SomeCompelled, UniqueNames;
    if a, b :| 0 <= a < |steps| && 0 <= b < |steps| && MayPrecede(steps, k, n, a) && MayPrecede(steps, k, n, b)
                    && Value(steps, a, k) != Value(steps, b, k) {
      PrecedingSets(steps, n, a, k);
      PrecedingSets(steps, n, b, k);
      c := if FirstValue(base, steps, k, n) != Value(steps, a, k) then a else b;
    } else {
      var a :| 0 <= a < |steps| && MayPrecede(steps, k, n, a) && Value(steps, a, k) != LabelIn(base, k);
      PrecedingSets(steps, n, a, k);
      NoneCompelledBefore(steps, n, k);
      NothingBefore(base, steps, k, n);
      c := a;
    }
  }

  lemma NoneCompelledBefore(steps: seq<Step>, n: nat, k: string)
    requires Independent(steps) && n < |steps| && !SomeCompelled(steps, k, n)
    ensures forall j :: 0 <= j < n ==> k !in steps[j].jobTemplate.value.podLabels
  {
    hide Needs;
    forall j | 0 <= j < n ensures k !in steps[j].jobTemplate.value.podLabels {
      SetsIs(steps, j, k);
      assert !Compelled(steps, k, -1, n, j);
    }
  }

  /** For each key that a step does not set itself, what it finds first, from the
      selector and the steps before it, is what every other step sets. */
  ghost predicate FirstFoundStays(base: Labels, steps: seq<Step>)
    requires forall i :: 0 <= i < |steps| ==> steps[i].jobTemplate.Some?
  {
    forall n, c, k :: 0 <= n < |steps| && 0 <= c < |steps| && n != c && !Reserved(k)
                      && k !in steps[n].jobTemplate.value.podLabels && k in steps[c].jobTemplate.value.podLabels ==>
      FirstValue(base, steps, k, n) == Some(steps[c].jobTemplate.value.podLabels[k])
  }

  /** For every workflow of independent steps: no run with an exact lister gives a step
      two jobs, over all interleavings, lagging caches, failures, deletions, and edits
      that keep the labels, if and only if what each step finds first stays; which is
      what the passes need for labels that are always the same. */
  lemma NoDoublesIff(s: World, name: string, base: Labels, steps: seq<Step>)
    requires Submitted(s, name, base, steps)
    ensures NoDoubles(s, Ordered(base, steps), name) <==> FirstFoundStays(base, steps)
    ensures FirstFoundStays(base, steps) <==> SpecKeys(base, steps)
  {
    hide Submitted, KeyFits, PassStable, FreshActions, Run, OneJobPerStep, UniqueNames, CanRun, Sets, FirstValue;
    var d := Ordered(base, steps);
    SubmittedFacts(s, name, base, steps);
    if SpecKeys(base, steps) {
      StableIffSpecKeys(base, name, steps);
      forall actions | FreshActions(d, s, actions) ensures OneJobPerStep(Run(s, actions).jobs, name) {
        RunKeepsOneJobPerStep(s, actions, d, name);
      }
    } else {
      var n, k :| 0 <= n < |steps| && !Sets(StepsMap(steps), steps[n].name, k) && !Reserved(k)
                  && !KeyFits(base, steps, n, k);
      var c := SomeDisagrees(base, steps, n, k);
      SetsIs(steps, n, k);
      assert !FirstFoundStays(base, steps);
    }
    if !FirstFoundStays(base, steps) {
      var n, c, k :| 0 <= n < |steps| && 0 <= c < |steps| && n != c && !Reserved(k)
                     && k !in steps[n].jobTemplate.value.podLabels && k in steps[c].jobTemplate.value.podLabels
                     && FirstValue(base, steps, k, n) != Some(steps[c].jobTemplate.value.podLabels[k]);
      DisagreeingDoubles(s, d, name, base, steps, n, c, k);
    }
  }

  lemma SubmittedFacts(s: World, name: string, base: Labels, steps: seq<Step>)
    requires Submitted(s, name, base, steps)
    ensures Independent(steps) && InOrder(steps) && FreshInit(s, Ordered(base, steps), name)
  {
    hide ValidSteps, DefaultSpec;
  }
}
