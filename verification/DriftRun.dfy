/** Why the theorems about runs ask for what they ask. Each run begins with a workflow
    as a user creates it. Three get a second job for a step, because of label keys
    that differ, of an accepted edit, and of a lister that lags by one job, which also
    keeps the workflow from ever completing; in one a lagging cache gets a job created
    for a step stored as Complete; in one a job left from an earlier workflow of the
    name completes a step that was never run. */
module DriftRun {
  import opened Prelude
  import opened WorkflowTypes
  import opened JobLabels
  import opened Topology
  import opened StepValidation
  import opened UpdateValidation
  import opened WorkflowPass
  import opened WorkflowSync
  import opened WorkflowRun
  import opened RunLabels
  import opened FreshRun
  import opened Progress

  // -------------------------------------------------------------- the workflows

  function StepWith(name: string, labels: Labels): Step {
    Step(name, Some(JobTemplate(labels, Some(1), Some(1), true)), None, [])
  }

  const A := StepWith("a", map["x" := "1"])
  const B := StepWith("b", map["y" := "2"])

  /** a with another value for its label. */
  const A2 := StepWith("a", map["x" := "2"])

  const SELECTOR: Labels := map["app" := "wf"]

  function SpecOf(steps: seq<Step>, labels: Labels): Spec {
    Spec(steps, Some(Selector(Some(labels), [], true)), None)
  }

  function Submitted(steps: seq<Step>): Workflow {
    Workflow("wf", true, false, SpecOf(steps, SELECTOR), EMPTY_STATUS)
  }

  /** The workflow once it is started, with the labels and statuses it has by then. */
  function Current(steps: seq<Step>, labels: Labels, statuses: seq<StepStatus>): Workflow {
    Workflow("wf", true, false, SpecOf(steps, labels), Status([], Some(0), None, statuses))
  }

  function StartAmong(steps: seq<Step>, jobs: seq<Job>): World {
    World(Some(Submitted(steps)), [Submitted(steps)], jobs, 0, [])
  }

  function Start(steps: seq<Step>): World {
    StartAmong(steps, [])
  }

  /** Independent steps with distinct names. */
  ghost predicate Plain(steps: seq<Step>) {
    UniqueNames(steps)
    && forall i :: 0 <= i < |steps| ==>
      steps[i].jobTemplate.Some? && steps[i] == StepWith(steps[i].name, steps[i].jobTemplate.value.podLabels)
  }

  lemma PlainIsValid(steps: seq<Step>)
    requires Plain(steps)
    ensures ValidSteps(steps)
    ensures forall labels :: DefaultSpec(SpecOf(steps, labels)) == SpecOf(steps, labels)
  {
    hide UniqueNames;
    var g := StepsMap(steps);
    StepsMapNames(steps);
    forall n, m ensures !DependsOn(g, n, m) {
      if n in g {
        var i :| 0 <= i < |steps| && steps[i] == g[n];
        assert steps[i].dependencies == [];
      }
    }
    assert Acyclic(g) by {
      forall c ensures !ClosedWalk(g, c) {
      }
    }
    forall labels ensures DefaultSpec(SpecOf(steps, labels)).steps == steps {
      forall i | 0 <= i < |steps| ensures DefaultSpec(SpecOf(steps, labels)).steps[i] == steps[i] {
      }
    }
  }

  lemma CurrentReachesPass(steps: seq<Step>, labels: Labels, statuses: seq<StepStatus>)
    requires Plain(steps)
    ensures ReachesPass(Current(steps, labels, statuses), 0)
  {
    hide ValidSteps, DefaultSpec;
    PlainIsValid(steps);
  }

  // -------------------------------------------------------------- the single syncs

  /** The first sync writes the start time. */
  lemma StartingSync(steps: seq<Step>, jobs: seq<Job>, r: Replies)
    requires Plain(steps) && !r.updateLost && r.elapsed == 0
    ensures Apply(StartAmong(steps, jobs), Sync(None, r))
            == World(Some(Current(steps, SELECTOR, [])), [Submitted(steps), Current(steps, SELECTOR, [])], jobs, 0, [])
  {
    hide ValidSteps, DefaultSpec;
    PlainIsValid(steps);
    NothingDeleted(jobs);
    assert jobs + [] == jobs;
    assert SELECTOR != map[] by {
      assert "app" in SELECTOR;
    }
  }

  /** A sync on the started workflow stores what its pass leaves. */
  lemma SyncStoresPass(s: World, steps: seq<Step>, labels: Labels, statuses: seq<StepStatus>, r: Replies)
    requires Plain(steps) && s.stored == Some(Current(steps, labels, statuses)) && s.clock == 0
    requires !r.updateLost && r.elapsed == 0 && labels != map[]
    ensures var w := Current(steps, labels, statuses);
      var p, s' := Before(w, r.answers, |steps|), Apply(s, Sync(None, r));
      && s'.clock == 0 && s'.jobs == s.jobs + p.created && s'.log == s.log + PassEvents(w, r.answers, |steps|)
      && (p.toBeUpdated && !p.complete ==> s'.stored == Some(p.w) && s'.versions == s.versions + [p.w])
  {
    hide Before, PassEvents, ReachesPass, DefaultSpec, SyncWorld, Serialize, Plain;
    var w := Current(steps, labels, statuses);
    CurrentReachesPass(steps, labels, statuses);
    MapStays(w, r.answers);
    SerializeKeeps(Before(w, r.answers, |steps|).w);
    PassStored(s, w, r);
  }

  lemma PassingSync(s: World, steps: seq<Step>, labels: Labels, statuses: seq<StepStatus>, r: Replies)
    requires Plain(steps) && s.stored == Some(Current(steps, labels, statuses)) && s.clock == 0
    requires GoodReplies(s, r) && r.elapsed == 0 && labels != map[]
    ensures var w := Current(steps, labels, statuses);
      var p, s' := Before(w, r.answers, |steps|), Apply(s, Sync(None, r));
      && s'.clock == 0 && s'.jobs == s.jobs + p.created && s'.log == s.log + PassEvents(w, r.answers, |steps|)
      && (p.toBeUpdated && !p.complete ==> s'.stored == Some(p.w) && s'.versions == s.versions + [p.w])
  {
    hide Before, PassEvents, GoodReplies, Apply, Plain;
    GoodIsNotLost(s, r);
    SyncStoresPass(s, steps, labels, statuses, r);
  }

  lemma PassStored(s: World, w: Workflow, r: Replies)
    requires ReachesPass(w, s.clock) && !r.updateLost && !Before(w, r.answers, |w.spec.steps|).panicked
    requires r.elapsed == 0
    ensures var p, s' := Before(w, r.answers, |w.spec.steps|), SyncWorld(s, w, r);
      && s'.clock == s.clock && s'.jobs == s.jobs + p.created && s'.log == s.log + PassEvents(w, r.answers, |w.spec.steps|)
      && (p.toBeUpdated && !p.complete ==>
           s'.stored == Some(Serialize(p.w)) && s'.versions == s.versions + [Serialize(p.w)])
  {
    hide Before, PassEvents, ValidWorkflow, DefaultSpec, Surviving, Serialize, PastActiveDeadline;
    NothingDeleted(s.jobs);
  }

  lemma MapStays(w: Workflow, answers: Answers)
    requires MatchLabels(w).Some? && LabelMap(w) != map[]
    ensures var p := Before(w, answers, |w.spec.steps|); !p.panicked && LabelMap(p.w) != map[]
  {
    hide ManageStep;
    BeforeExtends(w, answers, 0, |w.spec.steps|);
    PanicsIff(w, answers, |w.spec.steps|);
    LabelStays(w, Before(w, answers, |w.spec.steps|).w);
  }

  // --------------------------------------------------------------- the single turns

  function NewJob(w: Workflow, step: Step, a: Answer): Job
    requires step.jobTemplate.Some? && a.creation.Created?
  {
    Job(a.creation.jobName, StepLabels(w, step), [])
  }

  /** A due step that is looked up in vain gets a job. */
  lemma CreatingTurn(p: Pass, i: nat, a: Answer)
    requires i < |p.w.spec.steps| && DueStep(p.w, i) && MatchLabels(p.w).Some? && !p.panicked
    requires a.listing == Some([]) && a.creation.Created?
    ensures var step := p.w.spec.steps[i];
      && ManageStep(p, step, a)
         == Pass(WithLabels(p.w, StepLabels(p.w, step)), true, false, p.created + [NewJob(p.w, step, a)], false)
      && StepEvents(p, step, a) == [JobCreated(step.name, step.dependencies)]
  {
    hide IsComplete, DependenciesComplete, StepLabels;
  }

  /** A due step whose one job has finished becomes Complete. */
  lemma CompletingTurn(p: Pass, i: nat, a: Answer, job: Job)
    requires i < |p.w.spec.steps| && DueStep(p.w, i) && MatchLabels(p.w).Some? && !p.panicked
    requires p.w.status.statuses == []
    requires a.listing == Some([job]) && a.referenceOk && IsJobFinished(job)
    ensures var step := p.w.spec.steps[i];
      var done := [StepStatus(step.name, true, job.name)];
      && ManageStep(p, step, a)
         == Pass(WithStatuses(WithLabels(p.w, StepLabels(p.w, step)), done), true, false, p.created, false)
      && IsComplete(done, step.name)
  {
    hide DependenciesComplete, StepLabels, IsJobFinished;
    assert [] + [StepStatus(p.w.spec.steps[i].name, true, job.name)]
        == [StepStatus(p.w.spec.steps[i].name, true, job.name)];
  }

  lemma PlainIsDue(w: Workflow, i: nat)
    requires Plain(w.spec.steps) && i < |w.spec.steps| && w.status.statuses == []
    ensures DueStep(w, i)
  {
    assert w.spec.steps[i].dependencies == [];
  }

  lemma {:induction false} NotMatching(jobs: seq<Job>, selector: Labels)
    requires forall j :: 0 <= j < |jobs| ==> !Matches(selector, jobs[j].labels)
    ensures Matching(jobs, selector) == []
  {
    if jobs != [] {
      NotMatching(jobs[1..], selector);
    }
  }

  /** The first turn of a good sync, if its step is not found. */
  lemma FirstTurn(s: World, steps: seq<Step>, labels: Labels, r: Replies)
    requires Plain(steps) && steps != [] && s.stored == Some(Current(steps, labels, [])) && s.clock == 0
    requires GoodReplies(s, r)
    requires Matching(s.jobs, LabelsFor(labels, "wf", WriterOf(steps[0]))) == []
    ensures var w, l := Current(steps, labels, []), LabelsFor(labels, "wf", WriterOf(steps[0]));
      && r.answers(0).creation.Created?
      && Before(w, r.answers, 1)
         == Pass(Current(steps, l, []), true, false, [Job(r.answers(0).creation.jobName, l, [])], false)
      && PassEvents(w, r.answers, 1) == [JobCreated(steps[0].name, steps[0].dependencies)]
  {
    hide LabelsFor, Matching, ReachesPass, ManageStep, StepEvents, DueStep, Plain;
    var w := Current(steps, labels, []);
    CurrentReachesPass(steps, labels, []);
    PlainIsDue(w, 0);
    var p := Before(w, r.answers, 0);
    assert JobsBefore(s.jobs, w, r.answers, 0) == s.jobs;
    DueIsJob(w, 0);
    assert StepLabels(w, steps[0]) == LabelsFor(labels, "wf", WriterOf(steps[0]));
    CreatingTurn(p, 0, r.answers(0));
    assert [] + [NewJob(w, steps[0], r.answers(0))] == [NewJob(w, steps[0], r.answers(0))];
    assert PassEvents(w, r.answers, 1) == [] + StepEvents(p, steps[0], r.answers(0));
  }

  // ------------------------------------------------------------------ runs of syncs

  lemma RunOneMore(s: World, actions: seq<Action>, a: Action)
    ensures Run(s, actions + [a]) == Apply(Run(s, actions), a)
  {
    hide Apply;
    assert (actions + [a])[..|actions|] == actions;
  }

  lemma FreshOneMore(d: Labelling, s: World, actions: seq<Action>, a: Action)
    requires FreshActions(d, s, actions) && FreshAction(d, Run(s, actions), a)
    ensures FreshActions(d, s, actions + [a])
  {
    hide Run, FreshAction;
    var longer := actions + [a];
    forall k | 0 <= k < |longer| ensures FreshAction(d, Run(s, longer[..k]), longer[k]) {
      if k < |actions| {
        assert longer[..k] == actions[..k];
      } else {
        assert longer[..k] == actions;
      }
    }
  }

  ghost predicate DistinctNames(jobs: seq<Job>) {
    forall i, j :: 0 <= i < j < |jobs| ==> jobs[i].name != jobs[j].name
  }

  ghost predicate NamedBefore(jobs: seq<Job>, r: Replies, i: nat) {
    forall j :: j in jobs ==> exists k :: 0 <= k < i && r.answers(k).creation.Created? && j.name == r.answers(k).creation.jobName
  }

  /** New names keep the names of the jobs distinct. */
  lemma {:induction false} PassKeepsNames(s: World, w: Workflow, r: Replies, i: nat)
    requires i <= |w.spec.steps| && NewNames(s, r) && DistinctNames(s.jobs)
    requires forall k :: 0 <= k < |w.spec.steps| ==> r.answers(k).creation.Created?
    ensures DistinctNames(s.jobs + Before(w, r.answers, i).created)
    ensures NamedBefore(Before(w, r.answers, i).created, r, i)
  {
    hide ManageStep;
    if i == 0 {
      assert s.jobs + [] == s.jobs;
    } else {
      PassKeepsNames(s, w, r, i - 1);
      TurnCreatesOne(Before(w, r.answers, i - 1), w.spec.steps[i - 1], r.answers(i - 1));
      var before, now := Before(w, r.answers, i - 1).created, Before(w, r.answers, i).created;
      if now != before {
        var job: Job :| now == before + [job] && job.name == r.answers(i - 1).creation.jobName;
        assert s.jobs + now == (s.jobs + before) + [job];
        forall j | j in s.jobs + before ensures j.name != job.name {
          if j !in s.jobs {
            assert j in before;
          }
        }
      }
    }
  }

  lemma TurnCreatesOne(p: Pass, step: Step, a: Answer)
    requires a.creation.Created?
    ensures var q := ManageStep(p, step, a).created;
      q == p.created || exists job: Job :: q == p.created + [job] && job.name == a.creation.jobName
  {
    hide IsComplete, StepLabels, DependenciesComplete, IsJobFinished, RecordJob;
    var q := ManageStep(p, step, a).created;
    if q != p.created {
      assert q == p.created + [Job(a.creation.jobName, StepLabels(p.w, step), [])];
    }
  }

  /** A run goes on with one more good sync. */
  lemma SyncOnceMore(s: World, actions: seq<Action>, d: Labelling) returns (r: Replies)
    requires FreshActions(d, s, actions) && Run(s, actions).stored.Some?
    ensures GoodReplies(Run(s, actions), r) && NewNames(Run(s, actions), r) && r.elapsed == 0
    ensures FreshActions(d, s, actions + [Sync(None, r)])
    ensures Run(s, actions + [Sync(None, r)]) == Apply(Run(s, actions), Sync(None, r))
  {
    hide Run, FreshActions, NewNames, Apply, FreshReplies;
    r := GoodRepliesExist(Run(s, actions));
    FreshOneMore(d, s, actions, Sync(None, r));
    RunOneMore(s, actions, Sync(None, r));
  }

  lemma StartIsFresh(steps: seq<Step>, d: Labelling)
    requires d == Shared(SELECTOR, Writers(steps)) || d == Ordered(SELECTOR, steps)
    ensures FreshInit(Start(steps), d, "wf") && FreshActions(d, Start(steps), [])
  {
    hide Writers;
  }

  /** The first two syncs of every such run: start, and a job for the first step. */
  lemma FirstJob(steps: seq<Step>, d: Labelling) returns (r0: Replies, r1: Replies)
    requires Plain(steps) && steps != []
    requires d == Shared(SELECTOR, Writers(steps)) || d == Ordered(SELECTOR, steps)
    ensures var s0, actions := Start(steps), [Sync(None, r0), Sync(None, r1)];
      var s1, w, l := Run(s0, [Sync(None, r0)]), Current(steps, SELECTOR, []), LabelsFor(SELECTOR, "wf", WriterOf(steps[0]));
      && FreshActions(d, s0, actions) && Run(s0, actions) == Apply(s1, Sync(None, r1))
      && s1 == World(Some(w), [Submitted(steps), w], [], 0, [])
      && GoodReplies(s1, r1) && NewNames(s1, r1) && r1.elapsed == 0 && r1.answers(0).creation.Created?
      && Before(w, r1.answers, 1)
         == Pass(Current(steps, l, []), true, false, [Job(r1.answers(0).creation.jobName, l, [])], false)
      && PassEvents(w, r1.answers, 1) == [JobCreated(steps[0].name, steps[0].dependencies)]
  {
    hide Run, FreshActions, GoodReplies, NewNames, Apply, LabelsFor, Plain, Before, PassEvents, Writers;
    var s0 := Start(steps);
    PlainHasJobs(steps);
    StartIsFresh(steps, d);
    RunOf(s0);
    r0 := SyncOnceMore(s0, [], d);
    assert [] + [Sync(None, r0)] == [Sync(None, r0)];
    GoodIsNotLost(s0, r0);
    StartingSync(steps, [], r0);
    r1 := SyncOnceMore(s0, [Sync(None, r0)], d);
    assert [Sync(None, r0)] + [Sync(None, r1)] == [Sync(None, r0), Sync(None, r1)];
    NotMatching([], LabelsFor(SELECTOR, "wf", WriterOf(steps[0])));
    FirstTurn(Run(s0, [Sync(None, r0)]), steps, SELECTOR, r1);
  }

  lemma PlainHasJobs(steps: seq<Step>)
    requires Plain(steps)
    ensures forall i :: 0 <= i < |steps| ==> steps[i].jobTemplate.Some?
  {
  }

  lemma RunOf(s: World)
    ensures Run(s, []) == s
  {
  }

  lemma GoodIsNotLost(s: World, r: Replies)
    requires GoodReplies(s, r)
    ensures !r.updateLost
  {
  }

  lemma FreshWithoutEdits(d: Labelling, d': Labelling, s: World, actions: seq<Action>)
    requires FreshActions(d, s, actions) && Unedited(actions)
    ensures FreshActions(d', s, actions)
  {
    hide Run, FreshReplies;
    forall k | 0 <= k < |actions| ensures FreshAction(d', Run(s, actions[..k]), actions[k]) {
      assert FreshAction(d, Run(s, actions[..k]), actions[k]);
    }
  }

  // ------------------------------------------------------ two steps, different keys

  /** The second turn of the second sync: b is not found either, and created. */
  lemma SecondTurn(s: World, r: Replies)
    requires s.stored == Some(Current([A, B], SELECTOR, [])) && s.clock == 0 && s.jobs == [] && GoodReplies(s, r)
    ensures r.answers(0).creation.Created? && r.answers(1).creation.Created?
    ensures var la := LabelsFor(SELECTOR, "wf", WriterOf(A));
      var lb := LabelsFor(la, "wf", WriterOf(B));
      var ja, jb := Job(r.answers(0).creation.jobName, la, []), Job(r.answers(1).creation.jobName, lb, []);
      Before(s.stored.value, r.answers, 2) == Pass(Current([A, B], lb, []), true, false, [ja, jb], false)
  {
    hide LabelsFor, Matching, ReachesPass, ManageStep, DueStep, Matches;
    var w, la := s.stored.value, LabelsFor(SELECTOR, "wf", WriterOf(A));
    TwoArePlain();
    NotMatching([], la);
    FirstTurn(s, [A, B], SELECTOR, r);
    CurrentReachesPass([A, B], SELECTOR, []);
    var p := Before(w, r.answers, 1);
    PlainIsDue(p.w, 1);
    assert JobsBefore([], w, r.answers, 1) == p.created;
    LabelFacts();
    NotMatching(p.created, LabelsFor(la, "wf", WriterOf(B)));
    CreatingTurn(p, 1, r.answers(1));
  }

  lemma TwoArePlain()
    ensures Plain([A, B]) && Plain([A]) && Plain([A2])
  {
    assert A.name != B.name;
  }

  /** Two good syncs after the start, and step a has two jobs: the labels of b,
      written into the selector and stored, hide the first job of a. */
  lemma DriftDuplicatesJob(s1: World, r1: Replies, r2: Replies)
    requires s1.stored == Some(Current([A, B], SELECTOR, [])) && s1.clock == 0 && s1.jobs == []
    requires GoodReplies(s1, r1) && r1.elapsed == 0 && NewNames(s1, r1)
    requires GoodReplies(Apply(s1, Sync(None, r1)), r2) && r2.elapsed == 0 && NewNames(Apply(s1, Sync(None, r1)), r2)
    ensures var s := Apply(Apply(s1, Sync(None, r1)), Sync(None, r2));
      !OneJobPerStep(s.jobs, "wf") && DistinctNames(s.jobs)
  {
    hide LabelsFor, Before, GoodReplies, Matches, NewNames, Apply, Plain, PassEvents;
    var steps, la := [A, B], LabelsFor(SELECTOR, "wf", WriterOf(A));
    var lb := LabelsFor(la, "wf", WriterOf(B));
    var la' := LabelsFor(lb, "wf", WriterOf(A));
    var w1, s2 := Current(steps, SELECTOR, []), Apply(s1, Sync(None, r1));
    TwoArePlain();
    LabelFacts();
    SelectorIsNotEmpty(la);
    SecondTurn(s1, r1);
    PassingSync(s1, steps, SELECTOR, [], r1);
    GoodCreates(s1, r1);
    PassKeepsNames(s1, w1, r1, 2);
    assert s2.jobs == [] + Before(w1, r1.answers, 2).created == Before(w1, r1.answers, 2).created;
    assert s2.stored == Some(Current(steps, lb, []));
    NotMatching(s2.jobs, la');
    FirstTurn(s2, steps, lb, r2);
    PassingSync(s2, steps, lb, [], r2);
    GoodCreates(s2, r2);
    PassKeepsNames(s2, Current(steps, lb, []), r2, 2);
    BeforeExtends(Current(steps, lb, []), r2.answers, 1, 2);
    var s3 := Apply(s2, Sync(None, r2));
    var later := Before(Current(steps, lb, []), r2.answers, 2).created;
    assert s3.jobs[0] == s2.jobs[0] && s3.jobs[2] == later[0] == Job(r2.answers(0).creation.jobName, la', []);
    assert IsJobOfStep(s3.jobs[0], "wf", "a") && IsJobOfStep(s3.jobs[2], "wf", "a");
  }

  lemma GoodCreates(s: World, r: Replies)
    requires GoodReplies(s, r)
    ensures forall k :: 0 <= k < |s.stored.value.spec.steps| ==> r.answers(k).creation.Created?
  {
  }

  /** A run of three syncs from a submitted workflow, with an exact lister, nothing
      failing and new job names, that gives step a two jobs: its label keys are
      neither shared nor agreed on by the order of the steps. */
  lemma DriftHappens() returns (actions: seq<Action>)
    ensures UpToDate(actions) && |actions| == 3
    ensures forall d :: d == Shared(SELECTOR, Writers([A, B])) || d == Ordered(SELECTOR, [A, B]) ==>
      FreshInit(Start([A, B]), d, "wf") && FreshActions(d, Start([A, B]), actions) && !Admissible(d, "wf")
    ensures !OneJobPerStep(Run(Start([A, B]), actions).jobs, "wf")
    ensures DistinctNames(Run(Start([A, B]), actions).jobs)
  {
    hide Run, Apply, GoodReplies, OneJobPerStep, Before, PassEvents, FreshActions, LabelsFor, Plain, Writers,
         NewNames, DistinctNames, FreshInit, Admissible;
    var s0, d0 := Start([A, B]), Shared(SELECTOR, Writers([A, B]));
    TwoArePlain();
    var r0, r1 := FirstJob([A, B], d0);
    var s1, first := Run(s0, [Sync(None, r0)]), [Sync(None, r0), Sync(None, r1)];
    assert Run(s0, first).stored.Some? by {
      StaysStored(s1, r1);
    }
    var r2 := SyncOnceMore(s0, first, d0);
    actions := first + [Sync(None, r2)];
    DriftDuplicatesJob(s1, r1, r2);
    forall d | d == d0 || d == Ordered(SELECTOR, [A, B])
      ensures FreshInit(s0, d, "wf") && FreshActions(d, s0, actions) && !Admissible(d, "wf")
    {
      StartIsFresh([A, B], d);
      FreshWithoutEdits(d0, d, s0, actions);
      if Admissible(d, "wf") {
        RunKeepsOneJobPerStep(s0, actions, d, "wf");
        assert false;
      }
    }
  }

  /** A good sync on the started workflow does not remove it. */
  lemma StaysStored(s: World, r: Replies)
    requires s.stored == Some(Current([A, B], SELECTOR, [])) && s.clock == 0
    ensures Apply(s, Sync(None, r)).stored.Some?
  {
    hide ValidWorkflow, Manage, DefaultSpec, Surviving, PassEvents, Serialize;
    TwoArePlain();
    CurrentReachesPass([A, B], SELECTOR, []);
  }

  lemma SelectorIsNotEmpty(la: Labels)
    requires la == LabelsFor(SELECTOR, "wf", WriterOf(A))
    ensures SELECTOR != map[] && la != map[] && LabelsFor(la, "wf", WriterOf(B)) != map[]
  {
    assert "app" in SELECTOR && "app" in la && "app" in LabelsFor(la, "wf", WriterOf(B));
  }

  lemma LabelFacts()
    ensures var a, b := WriterOf(A), WriterOf(B);
      var la := LabelsFor(SELECTOR, "wf", a);
      var lb := LabelsFor(la, "wf", b);
      var la' := LabelsFor(lb, "wf", a);
      && !Matches(lb, la) && !Matches(la', la) && !Matches(la', lb)
      && (forall n, l :: IsJobOfStep(Job(n, la, l), "wf", "a"))
      && (forall n, l :: IsJobOfStep(Job(n, la', l), "wf", "a"))
  {
    var a, b := WriterOf(A), WriterOf(B);
    var la := LabelsFor(SELECTOR, "wf", a);
    var lb := LabelsFor(la, "wf", b);
    var la' := LabelsFor(lb, "wf", a);
    assert "a" != "b" && "x" != "y" && "app" != "y";
    assert |"y"| == 1 && |WORKFLOW_LABEL_KEY| > 3 && |WORKFLOW_STEP_LABEL_KEY| > 3;
    assert WORKFLOW_STEP_LABEL_KEY in lb && WORKFLOW_STEP_LABEL_KEY in la';
    assert "y" in la' && "y" !in la;
  }

  // ------------------------------------------------------------- an accepted edit

  /** The one step of the workflow has its first job. */
  lemma OneJobMade(s1: World, r1: Replies)
    requires s1.stored == Some(Current([A], SELECTOR, [])) && s1.clock == 0 && s1.jobs == []
    requires GoodReplies(s1, r1) && r1.elapsed == 0
    ensures var la := LabelsFor(SELECTOR, "wf", WriterOf(A));
      var s2 := Apply(s1, Sync(None, r1));
      && r1.answers(0).creation.Created?
      && s2.stored == Some(Current([A], la, [])) && s2.versions == s1.versions + [Current([A], la, [])]
      && s2.jobs == [Job(r1.answers(0).creation.jobName, la, [])] && s2.clock == 0
  {
    hide LabelsFor, Before, GoodReplies, Apply, Plain, PassEvents, Matches;
    TwoArePlain();
    SelectorIsNotEmpty(LabelsFor(SELECTOR, "wf", WriterOf(A)));
    NotMatching([], LabelsFor(SELECTOR, "wf", WriterOf(A)));
    FirstTurn(s1, [A], SELECTOR, r1);
    PassingSync(s1, [A], SELECTOR, [], r1);
    assert [] + Before(s1.stored.value, r1.answers, 1).created == Before(s1.stored.value, r1.answers, 1).created;
  }

  lemma EditIsAccepted(labels: Labels)
    ensures Accepts(SpecOf([A2], labels), Current([A], labels, []))
  {
    hide ValidSteps;
    TwoArePlain();
    PlainIsValid([A2]);
    var w := Current([A], labels, []);
    assert !AllComplete(w) by {
      assert !IsComplete(w.status.statuses, w.spec.steps[0].name);
    }
    assert RunningSteps(w) + CompletedSteps(w) == {};
  }

  lemma EditedLabelFacts()
    ensures var la := LabelsFor(SELECTOR, "wf", WriterOf(A));
      var la2 := LabelsFor(la, "wf", WriterOf(A2));
      && !Matches(la2, la)
      && (forall n, l :: IsJobOfStep(Job(n, la, l), "wf", "a"))
      && (forall n, l :: IsJobOfStep(Job(n, la2, l), "wf", "a"))
  {
    var la := LabelsFor(SELECTOR, "wf", WriterOf(A));
    var la2 := LabelsFor(la, "wf", WriterOf(A2));
    assert "1" != "2" && "app" != "x";
    assert |"x"| == 1 && |WORKFLOW_LABEL_KEY| > 3 && |WORKFLOW_STEP_LABEL_KEY| > 3;
    assert "x" in la2 && la2["x"] == "2" && la["x"] == "1";
  }

  /** A step with a job but no status yet may be edited. After an accepted edit that
      gives a label of its template another value, which leaves the keys shared, the
      next sync does not find the job, and makes a second one. */
  lemma EditHappens() returns (actions: seq<Action>)
    ensures |actions| == 4 && actions[2].Edit? && UpToDate(actions)
    ensures var s2 := Run(Start([A]), actions[..2]);
      s2.stored.Some? && Accepts(actions[2].spec, s2.stored.value)
    ensures FreshActions(Shared(SELECTOR, Writers([A])), Start([A]), actions[..2])
    ensures actions[3].Sync? && GoodReplies(Run(Start([A]), actions[..3]), actions[3].replies)
    ensures SharedKeys(SELECTOR, {WriterOf(A), WriterOf(A2)}) && !Agreeing(SELECTOR, "wf", {WriterOf(A), WriterOf(A2)})
    ensures !OneJobPerStep(Run(Start([A]), actions).jobs, "wf")
  {
    hide Run, Apply, GoodReplies, Before, PassEvents, FreshActions, LabelsFor, Plain, Writers, NewNames, Accepts,
         FreshReplies, OneJobPerStep, IsJobOfStep;
    var s0, d, la := Start([A]), Shared(SELECTOR, Writers([A])), LabelsFor(SELECTOR, "wf", WriterOf(A));
    TwoArePlain();
    var r0, r1 := FirstJob([A], d);
    var first := [Sync(None, r0), Sync(None, r1)];
    OneJobMade(Run(s0, [Sync(None, r0)]), r1);
    EditIsAccepted(la);
    var edit := Edit(SpecOf([A2], la));
    RunOneMore(s0, first, edit);
    EditApplies(Run(s0, first), SpecOf([A2], la));
    EditedDisagree();
    var s3 := Run(s0, first + [edit]);
    assert s3.stored == Some(Current([A2], la, []));
    var r2 := GoodRepliesExist(s3);
    RunOneMore(s0, first + [edit], Sync(None, r2));
    actions := first + [edit] + [Sync(None, r2)];
    assert actions[..2] == first && actions[..3] == first + [edit];
    SecondJobMade(s3, r2);
  }

  lemma EditedDisagree()
    ensures SharedKeys(SELECTOR, {WriterOf(A), WriterOf(A2)})
    ensures !Agreeing(SELECTOR, "wf", {WriterOf(A), WriterOf(A2)})
  {
    var l, l2 := LabelsFor(SELECTOR, "wf", WriterOf(A)), LabelsFor(SELECTOR, "wf", WriterOf(A2));
    assert |"x"| == 1 && |WORKFLOW_LABEL_KEY| > 3 && |WORKFLOW_STEP_LABEL_KEY| > 3;
    assert l["x"] == "1" && l2["x"] == "2" && "1" != "2";
  }

  lemma EditApplies(s: World, spec: Spec)
    requires s.stored.Some? && Accepts(spec, s.stored.value)
    ensures Apply(s, Edit(spec)) == Store(s, s.stored.value.(spec := spec))
  {
    hide Accepts;
  }

  lemma SecondJobMade(s3: World, r2: Replies)
    requires var la := LabelsFor(SELECTOR, "wf", WriterOf(A));
      && s3.stored == Some(Current([A2], la, [])) && s3.clock == 0
      && |s3.jobs| == 1 && s3.jobs[0].labels == la
    requires GoodReplies(s3, r2) && r2.elapsed == 0
    ensures !OneJobPerStep(Apply(s3, Sync(None, r2)).jobs, "wf")
  {
    hide LabelsFor, Before, GoodReplies, Apply, Plain, PassEvents, Matches;
    var la := LabelsFor(SELECTOR, "wf", WriterOf(A));
    var la2 := LabelsFor(la, "wf", WriterOf(A2));
    TwoArePlain();
    SelectorIsNotEmpty(la);
    EditedLabelFacts();
    NotMatching(s3.jobs, la2);
    FirstTurn(s3, [A2], la, r2);
    PassingSync(s3, [A2], la, [], r2);
    var s4 := Apply(s3, Sync(None, r2));
    assert s4.jobs[0] == s3.jobs[0] == Job(s3.jobs[0].name, la, s3.jobs[0].conditions);
    assert s4.jobs[1] == Job(r2.answers(0).creation.jobName, la2, []);
    assert IsJobOfStep(s4.jobs[0], "wf", "a") && IsJobOfStep(s4.jobs[1], "wf", "a");
  }

  // ------------------------------------------------------------- a lagging lister

  /** The one step has a job with its labels, but the sync finds none. */
  lemma LaggingSync(s: World, r: Replies)
    requires var la := LabelsFor(SELECTOR, "wf", WriterOf(A));
      s.stored == Some(Current([A], la, [])) && s.clock == 0 && |s.jobs| == 1 && s.jobs[0].labels == la
    requires r.answers(0).listing == Some([]) && r.answers(0).creation.Created? && !r.updateLost && r.elapsed == 0
    ensures var s' := Apply(s, Sync(None, r));
      && s'.stored == s.stored && s'.clock == 0
      && |s'.jobs| == 2 && s'.jobs[0].labels == s'.jobs[1].labels == s.jobs[0].labels
  {
    hide LabelsFor, DueStep, Plain, PassEvents, ManageStep, Apply;
    var w, la := s.stored.value, s.jobs[0].labels;
    TwoArePlain();
    SelectorIsNotEmpty(la);
    PlainIsDue(w, 0);
    DueIsJob(w, 0);
    LabelsForIdempotent(SELECTOR, "wf", WriterOf(A));
    assert StepLabels(w, A) == la;
    CreatingTurn(Before(w, r.answers, 0), 0, r.answers(0));
    assert Before(w, r.answers, 1) == ManageStep(Before(w, r.answers, 0), A, r.answers(0));
    SyncStoresPass(s, [A], la, [], r);
  }

  lemma TwoOwnJobs(jobs: seq<Job>, workflowName: string, n: string)
    requires |jobs| == 2 && IsJobOfStep(jobs[0], workflowName, n) && IsJobOfStep(jobs[1], workflowName, n)
    ensures OwnJobs(jobs, workflowName, n) == jobs
  {
    var own := (j: Job) => IsJobOfStep(j, workflowName, n);
    assert jobs[1..][1..] == [];
    assert Filter(jobs[1..], own) == [jobs[1]] + Filter(jobs[1..][1..], own);
    assert Filter(jobs, own) == [jobs[0]] + Filter(jobs[1..], own);
  }

  lemma OneStepIsAdmissible()
    ensures Admissible(Shared(SELECTOR, Writers([A])), "wf")
  {
    assert forall v :: v in Writers([A]) ==> v == WriterOf(A);
  }

  lemma UneditedLabels(d: Labelling, s: World, actions: seq<Action>)
    requires Unedited(actions)
    ensures LabelActions(d, s, actions)
  {
    hide Run;
  }

  /** A world with two jobs of the one step is stuck. */
  lemma TwoJobsBlock(s: World, d: Labelling)
    requires var la := LabelsFor(SELECTOR, "wf", WriterOf(A));
      && s.stored == Some(Current([A], la, []))
      && |s.jobs| == 2 && s.jobs[0].labels == s.jobs[1].labels == la
    requires Inv(s) && LabelInv(s, d, "wf") && Admissible(d, "wf")
    ensures UnderWay(s.stored.value) && SomeBlocked(s.stored.value, s.jobs)
    ensures forall rounds | GoodRounds(s, rounds) :: !CompleteStored(PlayRounds(s, rounds))
  {
    hide Inv, LabelInv, Admissible, GoodRounds, CompleteStored, ValidSteps, DefaultSpec, OwnJobs;
    TwoArePlain();
    PlainIsValid([A]);
    TwoOwnJobs(s.jobs, "wf", "a");
    assert !IsComplete(s.stored.value.status.statuses, "a");
    assert Blocked(s.stored.value, s.jobs, 0);
    assert Ready(s, d);
    forall rounds | GoodRounds(s, rounds) ensures !CompleteStored(PlayRounds(s, rounds)) {
      BlockedRounds(s, rounds, d, 0);
    }
  }

  /** Replies to a sync whose lister does not know the newest job yet. */
  lemma LaggingReplies(s: World) returns (r: Replies)
    requires s.stored.Some? && s.stored.value.spec.steps == [A] && |s.jobs| == 1
    ensures r.answers(0).listing == Some([]) && r.answers(0).creation.Created? && r.elapsed == 0
    ensures !r.updateLost && NewNames(s, r) && Exact([], s.stored.value, r.answers)
  {
    hide NewNames, StepLabels;
    var good := GoodRepliesExist(s);
    r := good.(answers := (i: nat) => Answer(Some([]), true, good.answers(i).creation));
    assert forall i :: r.answers(i).creation == good.answers(i).creation;
    SameNamesAreNew(s, good, r);
    var w := s.stored.value;
    assert JobsBefore([], w, r.answers, 0) == [];
    assert Matching([], StepLabels(w, A)) == [];
  }

  lemma SameNamesAreNew(s: World, r: Replies, r': Replies)
    requires NewNames(s, r) && forall i :: r'.answers(i).creation == r.answers(i).creation
    ensures NewNames(s, r')
  {
  }

  /** Started, a job made, and then a sync whose lister does not know that job yet but
      is exact in all else: the step gets a second job with the same labels, although
      its labels cannot drift, and from then on no sync completes the workflow. */
  lemma LaggingListerHappens() returns (actions: seq<Action>)
    ensures UpToDate(actions) && |actions| == 3 && actions[2].Sync?
    ensures var d := Shared(SELECTOR, Writers([A]));
      && FreshInit(Start([A]), d, "wf") && Admissible(d, "wf") && LabelActions(d, Start([A]), actions)
      && FreshActions(d, Start([A]), actions[..2])
    ensures var s, r := Run(Start([A]), actions[..2]), actions[2].replies;
      && s.stored.Some? && |s.jobs| == 1 && Exact([], s.stored.value, r.answers) && NewNames(s, r) && !r.updateLost
    ensures var s := Run(Start([A]), actions);
      && s.stored.Some? && UnderWay(s.stored.value) && SomeBlocked(s.stored.value, s.jobs)
      && forall rounds | GoodRounds(s, rounds) :: !CompleteStored(PlayRounds(s, rounds))
  {
    hide Run, Apply, GoodReplies, Before, PassEvents, FreshActions, LabelsFor, Plain, Writers, NewNames, Exact,
         FreshInit, LabelActions, UnderWay, SomeBlocked, GoodRounds, CompleteStored, PlayRounds, Admissible, Inv,
         LabelInv;
    var s0, d := Start([A]), Shared(SELECTOR, Writers([A]));
    TwoArePlain();
    var r0, r1 := FirstJob([A], d);
    var first := [Sync(None, r0), Sync(None, r1)];
    OneJobMade(Run(s0, [Sync(None, r0)]), r1);
    var s2 := Run(s0, first);
    var r2 := LaggingReplies(s2);
    actions := first + [Sync(None, r2)];
    assert actions[..2] == first;
    RunOneMore(s0, first, Sync(None, r2));
    LaggingSync(s2, r2);
    StartIsFresh([A], d);
    OneStepIsAdmissible();
    UneditedLabels(d, s0, actions);
    RunKeepsLabels(s0, actions, d, "wf");
    InitOfFresh(s0, d, "wf");
    RunKeepsInv(s0, actions);
    TwoJobsBlock(Run(s0, actions), d);
  }

  // ------------------------------------------------- jobs of an earlier workflow

  /** A workflow that is created under the name of an earlier one, of which a finished
      job is left: its first pass takes that job for its own, and the workflow is
      complete without a job of its own. */
  lemma LeftoverHappens() returns (job: Job, actions: seq<Action>)
    ensures IsJobOfStep(job, "wf", "a") && IsJobFinished(job)
    ensures var s0 := StartAmong([A], [job]);
      && Init(s0) && |actions| == 2 && UpToDate(actions) && actions[0].Sync? && actions[1].Sync?
      && GoodReplies(s0, actions[0].replies) && GoodReplies(Run(s0, actions[..1]), actions[1].replies)
    ensures var s := Run(StartAmong([A], [job]), actions);
      && s.stored.Some? && AllComplete(s.stored.value) && s.jobs == [job]
      && forall e :: e in s.log ==> !e.JobCreated?
  {
    hide Run, Apply, GoodReplies, LabelsFor, Plain, IsJobFinished, IsComplete;
    var la := LabelsFor(SELECTOR, "wf", WriterOf(A));
    job := Job("old", la, [JobCondition(JobComplete, true)]);
    LeftoverFacts(job);
    TwoArePlain();
    var s0 := StartAmong([A], [job]);
    var r0 := GoodRepliesExist(s0);
    GoodIsNotLost(s0, r0);
    StartingSync([A], [job], r0);
    RunOf(s0);
    RunOneMore(s0, [], Sync(None, r0));
    assert [] + [Sync(None, r0)] == [Sync(None, r0)];
    var s1 := Run(s0, [Sync(None, r0)]);
    var r1 := GoodRepliesExist(s1);
    RunOneMore(s0, [Sync(None, r0)], Sync(None, r1));
    actions := [Sync(None, r0)] + [Sync(None, r1)];
    assert actions[..1] == [Sync(None, r0)];
    SelectorIsNotEmpty(la);
    JobRecorded(s1, SELECTOR, job, r1);
  }

  lemma LeftoverFacts(job: Job)
    requires job.conditions == [JobCondition(JobComplete, true)] && job.labels == LabelsFor(SELECTOR, "wf", WriterOf(A))
    ensures IsJobFinished(job) && IsJobOfStep(job, "wf", "a")
  {
    assert job.conditions[0].isTrue;
  }

  // ------------------------------------------------------------- a lagging cache

  /** A good sync finds the one finished job, and stores the step as Complete. */
  lemma JobRecorded(s: World, labels: Labels, job: Job, r: Replies)
    requires s.stored == Some(Current([A], labels, [])) && s.clock == 0 && s.jobs == [job]
    requires LabelsFor(labels, "wf", WriterOf(A)) == job.labels && labels != map[] && IsJobFinished(job)
    requires GoodReplies(s, r) && r.elapsed == 0
    ensures var s' := Apply(s, Sync(None, r));
      && s'.stored.Some? && s'.stored.value.spec.steps == [A]
      && IsComplete(s'.stored.value.status.statuses, "a") && s.versions <= s'.versions
      && s'.jobs == [job] && s'.clock == 0
      && forall e :: e in s'.log ==> e in s.log || e == JobSeenFinished("a")
  {
    hide LabelsFor, DueStep, Plain, PassEvents, Matches, ManageStep, IsJobFinished, ReachesPass, Matching, IsComplete,
         Apply;
    var w := s.stored.value;
    TwoArePlain();
    CurrentReachesPass([A], labels, []);
    PlainIsDue(w, 0);
    assert JobsBefore(s.jobs, w, r.answers, 0) == s.jobs;
    assert StepLabels(w, A) == job.labels;
    OwnJobFound(job);
    CompletingTurn(Before(w, r.answers, 0), 0, r.answers(0), job);
    assert Before(w, r.answers, 1) == ManageStep(Before(w, r.answers, 0), A, r.answers(0));
    OneTurnSees(w, r.answers, job);
    PassingSync(s, [A], labels, [], r);
    assert [job] + [] == [job];
  }

  lemma OneTurnSees(w: Workflow, answers: Answers, job: Job)
    requires w.spec.steps == [A] && answers(0).listing == Some([job])
    ensures forall e :: e in PassEvents(w, answers, 1) ==> e == JobSeenFinished("a")
  {
    hide IsComplete, DependenciesComplete, IsJobFinished;
    assert PassEvents(w, answers, 1) == [] + StepEvents(Before(w, answers, 0), A, answers(0));
  }

  lemma OwnJobFound(job: Job)
    ensures Matching([job], job.labels) == [job]
  {
    assert [job][1..] == [];
    assert Filter([job][1..], (j: Job) => Matches(job.labels, j.labels)) == [];
  }

  /** A sync on an older version, in which step a has no status, when its job is gone. */
  lemma StaleSyncCreates(s: World, k: nat, labels: Labels, r: Replies)
    requires k < |s.versions| && s.versions[k] == Current([A], labels, []) && s.clock == 0 && s.jobs == []
    requires GoodReplies(s.(stored := Some(s.versions[k])), r)
    ensures Apply(s, Sync(Some(k), r)).log == s.log + [JobCreated("a", [])]
    ensures FreshReplies(s, s.versions[k], r.answers)
  {
    hide LabelsFor, Before, GoodReplies, Plain, SyncEffect, Matching, Surviving, ReachesPass, FreshReplies;
    TwoArePlain();
    CurrentReachesPass([A], labels, []);
    NotMatching([], LabelsFor(labels, "wf", WriterOf(A)));
    FirstTurn(s.(stored := Some(s.versions[k])), [A], labels, r);
    StaleIsFresh(s, k, r);
  }

  lemma StaleIsFresh(s: World, k: nat, r: Replies)
    requires k < |s.versions| && GoodReplies(s.(stored := Some(s.versions[k])), r)
    ensures FreshReplies(s, s.versions[k], r.answers)
  {
    hide ReachesPass, Exact;
  }

  /** Started, a job made, finished, recorded and deleted; then a sync whose cache
      still holds the version before the record makes another job for the step. */
  lemma StaleViewHappens() returns (actions: seq<Action>, stale: Action)
    ensures stale.Sync? && stale.view.Some? && UpToDate(actions)
    ensures var d := Shared(SELECTOR, Writers([A]));
      FreshInit(Start([A]), d, "wf") && FreshActions(d, Start([A]), actions + [stale])
    ensures !SparesComplete(Run(Start([A]), actions), Run(Start([A]), actions + [stale]))
  {
    hide Run, GoodReplies, Before, PassEvents, FreshActions, LabelsFor, Plain, Writers, NewNames, SyncWorld,
         IsComplete, FreshReplies, FreshInit;
    var s0, d, la := Start([A]), Shared(SELECTOR, Writers([A])), LabelsFor(SELECTOR, "wf", WriterOf(A));
    TwoArePlain();
    var r0, r1 := FirstJob([A], d);
    actions := [Sync(None, r0), Sync(None, r1)];
    OneJobMade(Run(s0, [Sync(None, r0)]), r1);
    var s2 := Run(s0, actions);
    var job := Finish(s2.jobs[0], true);
    assert IsJobFinished(job) by {
      assert job.conditions[0].isTrue;
    }
    RunOneMore(s0, actions, FinishJob(0, true));
    FreshOneMore(d, s0, actions, FinishJob(0, true));
    actions := actions + [FinishJob(0, true)];
    var s3 := Run(s0, actions);
    assert s3.jobs == [job];
    var r3 := GoodRepliesExist(s3);
    RunOneMore(s0, actions, Sync(None, r3));
    GoodIsFresh(s3, r3);
    FreshOneMore(d, s0, actions, Sync(None, r3));
    SelectorIsNotEmpty(la);
    LabelsForIdempotent(SELECTOR, "wf", WriterOf(A));
    JobRecorded(s3, la, job, r3);
    actions := actions + [Sync(None, r3)];
    RunOneMore(s0, actions, DeleteJob(0));
    FreshOneMore(d, s0, actions, DeleteJob(0));
    actions := actions + [DeleteJob(0)];
    var s5 := Run(s0, actions);
    assert s5.jobs == [] && s5.versions[2] == Current([A], la, []);
    var r5 := GoodRepliesExist(s5.(stored := Some(s5.versions[2])));
    stale := Sync(Some(2), r5);
    RunOneMore(s0, actions, stale);
    StaleSyncCreates(s5, 2, la, r5);
    FreshOneMore(d, s0, actions, stale);
    StartIsFresh([A], d);
    CreatedAgain(s5, Run(s0, actions + [stale]));
  }

  lemma GoodIsFresh(s: World, r: Replies)
    requires GoodReplies(s, r)
    ensures s.stored.Some? && FreshReplies(s, s.stored.value, r.answers)
  {
  }

  lemma CreatedAgain(s: World, s': World)
    requires s.stored.Some? && IsComplete(s.stored.value.status.statuses, "a")
    requires s'.log == s.log + [JobCreated("a", [])]
    ensures !SparesComplete(s, s')
  {
    hide IsComplete;
    assert IsCreationOf(s'.log[|s.log|], "a");
  }
}
