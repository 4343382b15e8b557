/** What an accepted edit of a step's template labels does to a step that has a job
    and no status yet: the next sync finds the job, or makes another one. */
module EditedLabels {
  import opened Prelude
  import opened WorkflowTypes
  import opened JobLabels
  import opened StepValidation
  import opened UpdateValidation
  import opened WorkflowPass
  import opened WorkflowSync
  import opened WorkflowRun
  import opened RunLabels
  import opened FreshRun
  import opened Progress

  // ------------------------------------------------------------ what is looked up

  /** All labels are among more, but for the two that every lookup sets. */
  predicate Within(labels: Labels, more: Labels) {
    forall k :: k in labels && !Reserved(k) ==> k in more && more[k] == labels[k]
  }

  /** Of the step's jobs, a lookup finds those that have the labels of the map and of
      the template. */
  lemma LookupFinds(jobs: seq<Job>, m: Labels, workflowName: string, v: Writer)
    ensures Matching(jobs, LabelsFor(m, workflowName, v))
            == Filter(OwnJobs(jobs, workflowName, v.stepName), (j: Job) => Within(m + v.podLabels, j.labels))
  {
    var selector := LabelsFor(m, workflowName, v);
    var own := (j: Job) => IsJobOfStep(j, workflowName, v.stepName);
    var found := (j: Job) => Matches(selector, j.labels);
    assert WORKFLOW_LABEL_KEY in selector && WORKFLOW_STEP_LABEL_KEY in selector;
    FilterNarrower(jobs, found, own);
    FilterMembers(jobs, own);
    forall j | j in OwnJobs(jobs, workflowName, v.stepName) ensures found(j) == Within(m + v.podLabels, j.labels) {
      OwnIsFoundIff(j, m, workflowName, v);
    }
    FilterSame(OwnJobs(jobs, workflowName, v.stepName), found, (j: Job) => Within(m + v.podLabels, j.labels));
  }

  lemma OwnIsFoundIff(job: Job, m: Labels, workflowName: string, v: Writer)
    requires IsJobOfStep(job, workflowName, v.stepName)
    ensures Matches(LabelsFor(m, workflowName, v), job.labels) <==> Within(m + v.podLabels, job.labels)
  {
    var selector := LabelsFor(m, workflowName, v);
    if Matches(selector, job.labels) {
      forall k | k in m + v.podLabels && !Reserved(k)
        ensures k in job.labels && job.labels[k] == (m + v.podLabels)[k]
      {
        assert k in selector && selector[k] == (m + v.podLabels)[k];
      }
    }
  }

  // --------------------------------------------------------------- the step's turn

  /** With unique names, the lister's answer for a step does not depend on what the
      pass has created. */
  lemma ExactReadsOldJobs(w: Workflow, answers: Answers, jobs: seq<Job>, i: nat)
    requires UniqueNames(w.spec.steps) && i < |w.spec.steps| && w.spec.steps[i].jobTemplate.Some?
    requires Exact(jobs, w, answers)
    ensures var p, step := Before(w, answers, i), w.spec.steps[i];
      && p.w.name == w.name && OwnJobs(jobs + p.created, w.name, step.name) == OwnJobs(jobs, w.name, step.name)
      && answers(i).listing == Some(Matching(jobs, StepLabels(p.w, step)))
  {
    hide Exact, Before, LabelsFor, Matching, OwnJobs, UniqueNames, HasJob;
    var p, step := Before(w, answers, i), w.spec.steps[i];
    ExactAt(jobs, w, answers, i);
    SameButBefore(w, answers, i);
    NoJobBeforeTurn(w, answers, i, i);
    HasJobIff(p.created, w.name, step.name);
    OwnJobsAppend(jobs, p.created, w.name, step.name);
    assert OwnJobs(jobs, w.name, step.name) + [] == OwnJobs(jobs, w.name, step.name);
    LookupFinds(jobs + p.created, LabelMap(p.w), w.name, WriterOf(step));
    LookupFinds(jobs, LabelMap(p.w), w.name, WriterOf(step));
  }

  ghost predicate NoneRefused(w: Workflow, answers: Answers) {
    forall k :: 0 <= k < |w.spec.steps| ==> answers(k).referenceOk && answers(k).creation.Created?
  }

  /** With an exact lister and nothing refused, what a pass leaves of the workflow
      depends on the workflow and the jobs alone. */
  lemma {:induction false} GoodPassesAgree(w: Workflow, jobs: seq<Job>, a: Answers, b: Answers, i: nat)
    requires UniqueNames(w.spec.steps) && i <= |w.spec.steps|
    requires Exact(jobs, w, a) && Exact(jobs, w, b) && NoneRefused(w, a) && NoneRefused(w, b)
    ensures Before(w, a, i).w == Before(w, b, i).w && Before(w, a, i).panicked == Before(w, b, i).panicked
  {
    hide Exact, LabelsFor, Matching, UniqueNames, ManageStep;
    if i > 0 {
      GoodPassesAgree(w, jobs, a, b, i - 1);
      if w.spec.steps[i - 1].jobTemplate.Some? {
        ExactReadsOldJobs(w, a, jobs, i - 1);
        ExactReadsOldJobs(w, b, jobs, i - 1);
      }
      TurnReads(Before(w, a, i - 1), Before(w, b, i - 1), w.spec.steps[i - 1], a(i - 1), b(i - 1));
    }
  }

  lemma TurnReads(p: Pass, q: Pass, step: Step, a: Answer, b: Answer)
    requires p.w == q.w && p.panicked == q.panicked && a.referenceOk && b.referenceOk
    requires step.jobTemplate.Some? ==> a.listing == b.listing
    requires a.creation.Created? && b.creation.Created?
    ensures ManageStep(p, step, a).w == ManageStep(q, step, b).w
    ensures ManageStep(p, step, a).panicked == ManageStep(q, step, b).panicked
  {
    hide IsComplete, DependenciesComplete, LabelsFor, RecordJob, IsJobFinished;
  }

  /** The selector's map when the turn of step i comes in such a pass. */
  ghost function MapAtTurn(jobs: seq<Job>, w: Workflow, i: nat): Labels
    requires i <= |w.spec.steps|
  {
    LabelMap(ExactBefore(jobs, w, i).w)
  }

  lemma TurnFindsMap(s: World, r: Replies, i: nat)
    requires GoodReplies(s, r) && ReachesPass(s.stored.value, s.clock) && i <= |s.stored.value.spec.steps|
    ensures var w := s.stored.value; LabelMap(Before(w, r.answers, i).w) == MapAtTurn(s.jobs, w, i)
  {
    hide Exact, Before, ValidSteps, DefaultSpec, PastActiveDeadline, ExactBefore, MatchLabels, UniqueNames;
    var w, b := s.stored.value, ExactAnswers(s.jobs, s.stored.value);
    ReachedIsUnique(w, s.clock);
    ExactAnswersAreGood(s.jobs, w);
    GoodPassesAgree(w, s.jobs, r.answers, b, i);
    ExactBeforeIsBefore(s.jobs, w, i);
  }

  lemma ReachedIsUnique(w: Workflow, now: int)
    requires ReachesPass(w, now)
    ensures UniqueNames(w.spec.steps)
  {
  }

  lemma ExactAnswersAreGood(jobs: seq<Job>, w: Workflow)
    ensures Exact(jobs, w, ExactAnswers(jobs, w)) && NoneRefused(w, ExactAnswers(jobs, w))
  {
    hide ManageStep, Matching, StepLabels, LongestName;
    forall i | 0 <= i < |w.spec.steps| ensures Before(w, ExactAnswers(jobs, w), i) == ExactBefore(jobs, w, i) {
      ExactBeforeIsBefore(jobs, w, i);
    }
  }

  /** The turn of a due step: a job unless one of its own is found. */
  lemma DueTurnMakes(w: Workflow, answers: Answers, jobs: seq<Job>, i: nat)
    requires UniqueNames(w.spec.steps) && i < |w.spec.steps| && DueStep(w, i) && MatchLabels(w).Some?
    requires Exact(jobs, w, answers) && answers(i).creation.Created?
    ensures w.spec.steps[i].jobTemplate.Some?
    ensures var p, q, step := Before(w, answers, i), Before(w, answers, i + 1), w.spec.steps[i];
      q.created == p.created
        + if Matching(jobs, LabelsFor(LabelMap(p.w), w.name, WriterOf(step))) != [] then []
          else [Job(answers(i).creation.jobName, LabelsFor(LabelMap(p.w), w.name, WriterOf(step)), [])]
  {
    hide Exact, DueStep, LabelsFor, Matching, UniqueNames, ManageStep;
    DueIsJob(w, i);
    StillDue(w, answers, i);
    ExactReadsOldJobs(w, answers, jobs, i);
    DueTurn(Before(w, answers, i), i, answers(i));
  }

  lemma DueTurn(p: Pass, i: nat, a: Answer)
    requires i < |p.w.spec.steps| && DueStep(p.w, i) && MatchLabels(p.w).Some? && !p.panicked
    requires a.listing.Some? && a.creation.Created?
    ensures ManageStep(p, p.w.spec.steps[i], a).created == p.created
      + if a.listing.value != [] then [] else [Job(a.creation.jobName, StepLabels(p.w, p.w.spec.steps[i]), [])]
  {
    hide IsComplete, DependenciesComplete, LabelsFor, RecordJob, IsJobFinished;
  }

  /** After its turn, a pass creates no job for a step. */
  lemma {:induction false} NoJobAfterTurn(w: Workflow, answers: Answers, i: nat, j: nat)
    requires UniqueNames(w.spec.steps) && i < j <= |w.spec.steps|
    ensures OwnJobs(Before(w, answers, j).created, w.name, w.spec.steps[i].name)
            == OwnJobs(Before(w, answers, i + 1).created, w.name, w.spec.steps[i].name)
  {
    hide ManageStep, OwnJobs, Extends, SameBut, IsJobOfStep;
    if j > i + 1 {
      NoJobAfterTurn(w, answers, i, j - 1);
      SameButBefore(w, answers, j - 1);
      var p := Before(w, answers, j - 1);
      CreatedForDue(p, j - 1, answers(j - 1));
      var q := ManageStep(p, w.spec.steps[j - 1], answers(j - 1));
      if q.created != p.created {
        DueIsJob(p.w, j - 1);
        var job: Job :| job.labels == StepLabels(p.w, w.spec.steps[j - 1]) && q.created == p.created + [job];
        NewJobIsOfStep(p.w, w.spec.steps[j - 1], job);
        OwnJobsAppend(p.created, [job], w.name, w.spec.steps[i].name);
        OwnOfOne(job, w.name, w.spec.steps[i].name);
      }
    }
  }

  // --------------------------------------------------------------- the next sync

  /** What the next good sync does for a due step, however its labels came about: it
      makes a job if and only if none of the step's jobs has all labels that the map
      has at its turn, and all of the template. */
  lemma NextSyncMakes(s: World, r: Replies, i: nat)
    requires GoodReplies(s, r) && ReachesPass(s.stored.value, s.clock)
    requires var w := s.stored.value; i < |w.spec.steps| && DueStep(w, i) && MatchLabels(w).Some?
    ensures var w := s.stored.value;
      && w.spec.steps[i].jobTemplate.Some?
      && var v, m := WriterOf(w.spec.steps[i]), MapAtTurn(s.jobs, w, i);
      var own := OwnJobs(s.jobs, w.name, v.stepName);
      OwnJobs(Apply(s, Sync(None, r)).jobs, w.name, v.stepName)
      == own + if exists j :: j in own && Within(m + v.podLabels, j.labels) then []
               else [Job(r.answers(i).creation.jobName, LabelsFor(m, w.name, v), [])]
  {
    hide Exact, DueStep, LabelsFor, Matching, UniqueNames, Before, OwnJobs, MapAtTurn, Within, Apply, MatchLabels,
         GoodReplies, ReachesPass;
    GoodMeans(s, r);
    var w := s.stored.value;
    ReachedIsUnique(w, s.clock);
    DueTurnMakes(w, r.answers, s.jobs, i);
    TurnFindsMap(s, r, i);
    var v, m := WriterOf(w.spec.steps[i]), MapAtTurn(s.jobs, w, i);
    var own := OwnJobs(s.jobs, w.name, v.stepName);
    LookupFinds(s.jobs, m, w.name, v);
    FilterMembers(own, (j: Job) => Within(m + v.podLabels, j.labels));
    var found := Matching(s.jobs, LabelsFor(m, w.name, v));
    assert found != [] <==> exists j :: j in own && Within(m + v.podLabels, j.labels) by {
      if found != [] {
        assert found[0] in found;
      }
    }
    OwnCreated(s, r, i);
  }

  lemma GoodMeans(s: World, r: Replies)
    requires GoodReplies(s, r) && ReachesPass(s.stored.value, s.clock)
    ensures s.stored.Some? && !r.updateLost
    ensures Exact(s.jobs, s.stored.value, r.answers) && NoneRefused(s.stored.value, r.answers)
  {
    hide Exact, ReachesPass;
  }

  /** The step's jobs after the sync are those from before, and what its turn made. */
  lemma OwnCreated(s: World, r: Replies, i: nat)
    requires GoodReplies(s, r) && ReachesPass(s.stored.value, s.clock)
    requires var w := s.stored.value; i < |w.spec.steps| && DueStep(w, i) && MatchLabels(w).Some?
    ensures var w := s.stored.value;
      && w.spec.steps[i].jobTemplate.Some?
      && var n, m := w.spec.steps[i].name, LabelMap(Before(w, r.answers, i).w);
      var l := LabelsFor(m, w.name, WriterOf(w.spec.steps[i]));
      OwnJobs(Apply(s, Sync(None, r)).jobs, w.name, n)
      == OwnJobs(s.jobs, w.name, n)
         + if Matching(s.jobs, l) != [] then [] else [Job(r.answers(i).creation.jobName, l, [])]
  {
    hide Exact, DueStep, LabelsFor, Matching, UniqueNames, Before, OwnJobs, MatchLabels, GoodReplies, ReachesPass,
         SyncWorld, HasJob;
    GoodMeans(s, r);
    var w, k := s.stored.value, |s.stored.value.spec.steps|;
    ReachedIsUnique(w, s.clock);
    DueTurnMakes(w, r.answers, s.jobs, i);
    IncompletePass(w, r.answers, i);
    PassIsStored(s, r);
    var p, n := Before(w, r.answers, i), w.spec.steps[i].name;
    var l := LabelsFor(LabelMap(p.w), w.name, WriterOf(w.spec.steps[i]));
    var job := Job(r.answers(i).creation.jobName, l, []);
    NoJobAfterTurn(w, r.answers, i, k);
    NoJobBeforeTurn(w, r.answers, i, i);
    HasJobIff(p.created, w.name, n);
    OwnJobsAppend(s.jobs, Before(w, r.answers, k).created, w.name, n);
    OwnJobsAppend(p.created, [job], w.name, n);
    OwnOfOne(job, w.name, n);
    LabelsOfStep(LabelMap(p.w), w.name, WriterOf(w.spec.steps[i]), job);
    assert p.created + [] == p.created;
  }

  lemma LabelsOfStep(m: Labels, workflowName: string, v: Writer, job: Job)
    requires job.labels == LabelsFor(m, workflowName, v)
    ensures IsJobOfStep(job, workflowName, v.stepName)
  {
  }

  lemma IncompletePass(w: Workflow, answers: Answers, i: nat)
    requires i < |w.spec.steps| && DueStep(w, i)
    ensures !Before(w, answers, |w.spec.steps|).complete
  {
    hide Before, IsComplete;
    CompleteFlag(w, answers, |w.spec.steps|);
    DueIsIncomplete(w, i);
  }

  // ------------------------------------------------------------ after an edit

  /** An accepted edit, and then a good sync that reaches the pass. */
  ghost predicate EditThenSync(s: World, spec: Spec, r: Replies) {
    && s.stored.Some? && Accepts(spec, s.stored.value)
    && GoodReplies(Apply(s, Edit(spec)), r)
    && ReachesPass(s.stored.value.(spec := spec), s.clock)
  }

  /** Step i of the edited workflow is due when that sync begins. */
  ghost predicate DueAfterEdit(s: World, spec: Spec, i: nat) {
    && s.stored.Some? && i < |spec.steps|
    && DueStep(s.stored.value.(spec := spec), i) && MatchLabels(s.stored.value.(spec := spec)).Some?
  }

  ghost function AfterEdit(s: World, spec: Spec, r: Replies): World {
    Apply(Apply(s, Edit(spec)), Sync(None, r))
  }

  lemma EditStores(s: World, spec: Spec)
    requires s.stored.Some? && Accepts(spec, s.stored.value)
    ensures var s' := Apply(s, Edit(spec));
      s'.stored == Some(s.stored.value.(spec := spec)) && s'.jobs == s.jobs && s'.clock == s.clock
  {
    hide Accepts;
  }

  lemma EditedSyncMakes(s: World, spec: Spec, r: Replies, i: nat) returns (job: Job)
    requires DueAfterEdit(s, spec, i) && EditThenSync(s, spec, r)
    ensures spec.steps[i].jobTemplate.Some?
    ensures var w, v := s.stored.value.(spec := spec), WriterOf(spec.steps[i]);
      var m, own := MapAtTurn(s.jobs, w, i), OwnJobs(s.jobs, w.name, v.stepName);
      OwnJobs(AfterEdit(s, spec, r).jobs, w.name, v.stepName)
      == own + if exists j :: j in own && Within(m + v.podLabels, j.labels) then [] else [job]
  {
    hide Accepts, GoodReplies, ReachesPass, DueStep, MatchLabels, LabelsFor, OwnJobs, MapAtTurn, Within, Apply;
    EditStores(s, spec);
    NextSyncMakes(Apply(s, Edit(spec)), r, i);
    GoodMeans(Apply(s, Edit(spec)), r);
    var w, v := s.stored.value.(spec := spec), WriterOf(spec.steps[i]);
    job := Job(r.answers(i).creation.jobName, LabelsFor(MapAtTurn(s.jobs, w, i), w.name, v), []);
  }

  /** An edit before the step has a job: the sync makes its one job. */
  lemma EditBeforeJob(s: World, spec: Spec, r: Replies, i: nat)
    requires EditThenSync(s, spec, r) && DueAfterEdit(s, spec, i)
    requires OwnJobs(s.jobs, s.stored.value.name, spec.steps[i].name) == []
    ensures |OwnJobs(AfterEdit(s, spec, r).jobs, s.stored.value.name, spec.steps[i].name)| == 1
  {
    hide Accepts, GoodReplies, ReachesPass, DueStep, MatchLabels, LabelsFor, OwnJobs, MapAtTurn, Within, AfterEdit;
    var job := EditedSyncMakes(s, spec, r, i);
  }

  /** The jobs of a step, in a world whose jobs have the expected labels. */
  lemma OwnAreExpected(jobs: seq<Job>, d: Labelling, workflowName: string, v: Writer)
    requires Labelled(jobs, d, workflowName) && Admissible(d, workflowName) && Known(d, v)
    ensures forall j :: j in OwnJobs(jobs, workflowName, v.stepName) ==> j.labels == Expected(d, workflowName, v)
  {
    hide Admissible, Known, Expected;
    FilterMembers(jobs, (j: Job) => IsJobOfStep(j, workflowName, v.stepName));
    forall j | j in OwnJobs(jobs, workflowName, v.stepName) ensures j.labels == Expected(d, workflowName, v) {
      var u :| Known(d, u) && j.labels == Expected(d, workflowName, u);
      KnownByName(d, workflowName, v, u);
    }
  }

  /** After any run with labels that cannot drift, whatever the lister answered: an
      accepted edit, and a good sync, leave a due step that has a job without another
      one if and only if the labels that the map has at its turn, with those of the new
      template, are among the labels of the old template's jobs. */
  lemma EditAfterRunIff(
    s: World, actions: seq<Action>, d: Labelling, name: string, spec: Spec, r: Replies, i: nat, v: Writer)
    requires FreshInit(s, d, name) && Admissible(d, name) && LabelActions(d, s, actions)
    requires EditThenSync(Run(s, actions), spec, r) && DueAfterEdit(Run(s, actions), spec, i)
    requires Known(d, v) && v.stepName == spec.steps[i].name && OwnJobs(Run(s, actions).jobs, name, v.stepName) != []
    ensures spec.steps[i].jobTemplate.Some?
    ensures var s', w := Run(s, actions), Run(s, actions).stored.value.(spec := spec);
      var m, own := MapAtTurn(s'.jobs, w, i), OwnJobs(s'.jobs, name, v.stepName);
      var own' := OwnJobs(AfterEdit(s', spec, r).jobs, name, v.stepName);
      && (own' == own <==> Within(m + WriterOf(spec.steps[i]).podLabels, Expected(d, name, v)))
      && (own' != own ==> |own'| == |own| + 1)
  {
    hide Accepts, GoodReplies, ReachesPass, DueStep, MatchLabels, LabelsFor, OwnJobs, MapAtTurn, Within, AfterEdit,
         Admissible, Known, Expected, FreshInit, LabelActions, Run, Inv, Labelled, Obeys;
    var s' := Run(s, actions);
    RunKeepsLabels(s, actions, d, name);
    InitOfFresh(s, d, name);
    RunKeepsInv(s, actions);
    StoredIsVersion(s');
    var job := EditedSyncMakes(s', spec, r, i);
    OwnAreExpected(s'.jobs, d, name, v);
    var own := OwnJobs(s'.jobs, name, v.stepName);
    assert own[0] in own;
  }

  // ------------------------------------------------- ... with templates sharing keys

  /** If each step before i has a template of the family, the map is settled at i's
      turn. */
  lemma {:induction false} SettledBefore(d: Labelling, w: Workflow, answers: Answers, i: nat)
    requires d.Shared? && SharedKeys(d.base, d.writers) && i <= |w.spec.steps|
    requires Settled(LabelMap(w), d.base, w.name, d.writers) && Writers(w.spec.steps[..i]) <= d.writers
    ensures Settled(LabelMap(Before(w, answers, i).w), d.base, w.name, d.writers)
    ensures Before(w, answers, i).w.name == w.name
  {
    hide ManageStep, Settled, SharedKeys, DueStep, Extends, SameBut;
    SameButBefore(w, answers, i);
    if i > 0 {
      var p, steps := Before(w, answers, i - 1), w.spec.steps;
      assert Writers(steps[..i - 1]) <= Writers(steps[..i]) by {
        FewerWriters(steps, i);
      }
      SettledBefore(d, w, answers, i - 1);
      SameButBefore(w, answers, i - 1);
      if p.panicked || MatchLabels(p.w).None? || !DueStep(p.w, i - 1) {
        OtherwiseUnchanged(p, i - 1, answers(i - 1));
      } else {
        DueIsJob(p.w, i - 1);
        DueStepWrites(p, i - 1, answers(i - 1));
        assert WriterOf(steps[..i][i - 1]) in Writers(steps[..i]);
        WritingKeepsSettled(LabelMap(p.w), d.base, w.name, d.writers, WriterOf(steps[i - 1]));
      }
    }
  }

  lemma FewerWriters(steps: seq<Step>, i: nat)
    requires 0 < i <= |steps|
    ensures Writers(steps[..i - 1]) <= Writers(steps[..i])
  {
    var fewer, more := steps[..i - 1], steps[..i];
    forall k | 0 <= k < |fewer| && fewer[k].jobTemplate.Some? ensures WriterOf(fewer[k]) in Writers(more) {
      assert more[k] == fewer[k];
    }
  }

  /** On a settled map the condition splits: the new template's labels are among those
      of the old one and of the original selector; and where it drops a label, the map
      has no other value for the key at the step's turn. */
  ghost predicate SparesJob(base: Labels, m: Labels, v: Writer, v': Writer) {
    && Within(v'.podLabels, base + v.podLabels)
    && forall k :: k in v.podLabels && k !in v'.podLabels && k in m && !Reserved(k) ==> m[k] == v.podLabels[k]
  }

  lemma SettledSplits(base: Labels, m: Labels, workflowName: string, v: Writer, v': Writer)
    requires LabelsFor(m, workflowName, v) == LabelsFor(base, workflowName, v)
    ensures Within(m + v'.podLabels, LabelsFor(base, workflowName, v)) <==> SparesJob(base, m, v, v')
  {
    var l := LabelsFor(base, workflowName, v);
    forall k | !Reserved(k)
      ensures k in l <==> k in base + v.podLabels
      ensures k in l <==> k in m + v.podLabels
      ensures k in l ==> l[k] == (base + v.podLabels)[k] == (m + v.podLabels)[k]
    {
      assert k in LabelsFor(m, workflowName, v) <==> k in m + v.podLabels;
    }
    if Within(m + v'.podLabels, l) {
      forall k | k in v.podLabels && k !in v'.podLabels && k in m && !Reserved(k) ensures m[k] == v.podLabels[k] {
        assert k in m + v'.podLabels && (m + v'.podLabels)[k] == m[k];
      }
      forall k | k in v'.podLabels && !Reserved(k)
        ensures k in base + v.podLabels && (base + v.podLabels)[k] == v'.podLabels[k]
      {
        assert k in m + v'.podLabels;
      }
    }
  }

  /** After any run in which the templates share their keys, an accepted edit of a due
      step that has a job costs it a second one, unless the edit only drops labels, or
      adds some of the original selector's, and the map has no other value for the
      dropped ones at the step's turn. The steps before it keep their labels. */
  lemma EditSparesJobIff(
    s: World, actions: seq<Action>, d: Labelling, name: string, spec: Spec, r: Replies, i: nat, v: Writer)
    requires FreshInit(s, d, name) && Admissible(d, name) && LabelActions(d, s, actions) && d.Shared?
    requires EditThenSync(Run(s, actions), spec, r) && DueAfterEdit(Run(s, actions), spec, i)
    requires v in d.writers && v.stepName == spec.steps[i].name && OwnJobs(Run(s, actions).jobs, name, v.stepName) != []
    requires Writers(spec.steps[..i]) <= d.writers
    ensures spec.steps[i].jobTemplate.Some?
    ensures var s', w := Run(s, actions), Run(s, actions).stored.value.(spec := spec);
      OwnJobs(AfterEdit(s', spec, r).jobs, name, v.stepName) == OwnJobs(s'.jobs, name, v.stepName)
      <==> SparesJob(d.base, MapAtTurn(s'.jobs, w, i), v, WriterOf(spec.steps[i]))
  {
    hide Accepts, GoodReplies, ReachesPass, DueStep, MatchLabels, LabelsFor, OwnJobs, MapAtTurn, Within, AfterEdit,
         FreshInit, LabelActions, Run, Inv, SparesJob, Labelled, SharedKeys, Agreeing, Writers;
    EditAfterRunIff(s, actions, d, name, spec, r, i, v);
    SettledAtTurn(s, actions, d, name, spec, i);
    var s' := Run(s, actions);
    var m := MapAtTurn(s'.jobs, s'.stored.value.(spec := spec), i);
    assert Expected(d, name, v) == LabelsFor(d.base, name, v);
    SettledSplits(d.base, m, name, v, WriterOf(spec.steps[i]));
  }

  lemma SettledAtTurn(s: World, actions: seq<Action>, d: Labelling, name: string, spec: Spec, i: nat)
    requires FreshInit(s, d, name) && Admissible(d, name) && LabelActions(d, s, actions) && d.Shared?
    requires Run(s, actions).stored.Some? && Accepts(spec, Run(s, actions).stored.value) && i <= |spec.steps|
    requires Writers(spec.steps[..i]) <= d.writers
    ensures var s', w := Run(s, actions), Run(s, actions).stored.value.(spec := spec);
      Settled(MapAtTurn(s'.jobs, w, i), d.base, name, d.writers)
  {
    hide FreshInit, LabelActions, Run, Inv, Labelled, SharedKeys, Agreeing, Writers, Settled, ExactAnswers,
         ExactBefore, KeepsSteps, ValidSpec, AllComplete;
    var s' := Run(s, actions);
    RunKeepsLabels(s, actions, d, name);
    InitOfFresh(s, d, name);
    RunKeepsInv(s, actions);
    StoredIsVersion(s');
    var w, w' := s'.stored.value, s'.stored.value.(spec := spec);
    assert LabelMap(w') == LabelMap(w);
    SettledBefore(d, w', ExactAnswers(s'.jobs, w'), i);
    ExactBeforeIsBefore(s'.jobs, w', i);
  }

  /** Dropping a label can cost a second job too: where another step has left its own
      value for the key in the map. */
  lemma DroppingCosts()
    ensures var a, a', b := Writer("a", map["x" := "1"]), Writer("a", map[]), Writer("b", map["x" := "2"]);
      && SharedKeys(map[], {a, b})
      && !SparesJob(map[], Accumulate(map[], "wf", [a, b]), a, a')
  {
    var a, b := Writer("a", map["x" := "1"]), Writer("b", map["x" := "2"]);
    AccumulateIsLastWriterWins(map[], "wf", [a, b]);
    assert LastWriter([a, b], "x") == 1;
    assert !Reserved("x") by {
      assert |"x"| == 1;
    }
    assert "1" != "2";
  }
}
