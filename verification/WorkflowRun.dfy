/** Runs of the workflow controller against a cluster: any interleaving of syncs,
    on the stored workflow or on a version that a lagging cache still holds, of job
    completions and deletions, clock ticks and accepted spec updates, with any
    replies to the controller. */
module WorkflowRun {
  import opened Prelude
  import opened WorkflowTypes
  import opened StepValidation
  import opened WorkflowPass
  import opened StatusInvariant
  import opened UpdateValidation
  import opened WorkflowSync

  // --------------------------------------------------------------- the events

  datatype Event =
    | JobCreated(step: string, dependencies: seq<string>)
    | JobSeenFinished(step: string)

  /** What one iteration of the loop did or saw. */
  function StepEvents(p: Pass, step: Step, a: Answer): seq<Event> {
    if p.panicked || IsComplete(p.w.status.statuses, step.name) || step.jobTemplate.None?
       || !DependenciesComplete(p.w.status.statuses, step.dependencies)
       || MatchLabels(p.w).None? || a.listing.None?
    then []
    else if a.listing.value == [] then
      if a.creation.Refused? then [] else [JobCreated(step.name, step.dependencies)]
    else if |a.listing.value| == 1 && a.referenceOk && IsJobFinished(a.listing.value[0]) then
      [JobSeenFinished(step.name)]
    else []
  }

  function PassEvents(w: Workflow, answers: Answers, i: nat): seq<Event>
    requires i <= |w.spec.steps|
  {
    if i == 0 then []
    else PassEvents(w, answers, i - 1)
         + StepEvents(Before(w, answers, i - 1), w.spec.steps[i - 1], answers(i - 1))
  }

  // ------------------------------------------------------------ the transitions

  /** versions are all that was ever stored, oldest first; jobs are those of the
      workflow's namespace; log is a history variable. */
  datatype World = World(
    stored: Option<Workflow>,
    versions: seq<Workflow>,
    jobs: seq<Job>,
    clock: int,
    log: seq<Event>)

  /** view is the version the cache of a sync holds, or None for the stored one. */
  datatype Action =
    | Sync(view: Option<nat>, replies: Replies)
    | FinishJob(index: nat, succeeded: bool)
    | DeleteJob(index: nat)
    | Tick(duration: nat)
    | Edit(spec: Spec)
    | Remove

  function Surviving(jobs: seq<Job>, deleted: set<string>): (left: seq<Job>)
    ensures forall j :: j in left <==> j in jobs && j.name !in deleted
  {
    FilterMembers(jobs, (j: Job) => j.name !in deleted);
    Filter(jobs, (j: Job) => j.name !in deleted)
  }

  lemma {:induction false} NothingDeleted(jobs: seq<Job>)
    ensures Surviving(jobs, {}) == jobs
  {
    if jobs != [] {
      NothingDeleted(jobs[1..]);
      FilterSame(jobs[1..], (j: Job) => j.name !in {}, (j: Job) => true);
    }
  }

  function Finish(job: Job, succeeded: bool): Job {
    job.(conditions := job.conditions + [JobCondition(if succeeded then JobComplete else JobFailed, true)])
  }

  function Store(s: World, w: Workflow): World {
    s.(stored := Some(w), versions := s.versions + [w])
  }

  ghost predicate Writes(e: Effect, r: Replies) {
    e.written.Some? && !r.updateLost
  }

  ghost function SyncWorld(s: World, w: Workflow, r: Replies): World {
    var e := SyncEffect(w, s.clock, r);
    World(
      if e.removed then None else if Writes(e, r) then e.written else s.stored,
      if Writes(e, r) then s.versions + [e.written.value] else s.versions,
      Surviving(s.jobs, e.deleted) + e.created,
      s.clock + r.elapsed,
      if ReachesPass(w, s.clock) then s.log + PassEvents(w, r.answers, |w.spec.steps|) else s.log)
  }

  /** The update of a version that is not the stored one is refused as a conflict;
      its other requests get through. */
  ghost function Apply(s: World, a: Action): World {
    match a
    case Sync(None, r) => if s.stored.None? then s else SyncWorld(s, s.stored.value, r)
    case Sync(Some(k), r) =>
      if k < |s.versions| then SyncWorld(s, s.versions[k], r.(updateLost := true)) else s
    case FinishJob(k, succeeded) =>
      if k < |s.jobs| then s.(jobs := s.jobs[k := Finish(s.jobs[k], succeeded)]) else s
    case DeleteJob(k) =>
      if k < |s.jobs| then s.(jobs := s.jobs[..k] + s.jobs[k + 1..]) else s
    case Tick(d) => s.(clock := s.clock + d)
    case Edit(spec) =>
      if s.stored.Some? && Accepts(spec, s.stored.value) then Store(s, s.stored.value.(spec := spec)) else s
    case Remove => s.(stored := None)
  }

  ghost function Run(s: World, actions: seq<Action>): World {
    if actions == [] then s
    else Apply(Run(s, actions[..|actions| - 1]), actions[|actions| - 1])
  }

  /** A workflow is created with an empty status, or removed on sight. */
  ghost predicate Init(s: World) {
    && s.log == []
    && if s.stored.None? then s.versions == []
       else s.versions == [s.stored.value] && s.stored.value.status == EMPTY_STATUS
  }

  /** The sync that an action stands for: the version it reads, and its replies. */
  ghost predicate IsSyncOf(s: World, a: Action, w: Workflow, r: Replies) {
    && a.Sync? && w in s.versions
    && (match a.view
        case None => s.stored == Some(w)
        case Some(k) => k < |s.versions| && s.versions[k] == w)
    && Apply(s, a) == SyncWorld(s, w, r) && r == a.replies.(updateLost := r.updateLost)
    && (!r.updateLost ==> s.stored == Some(w))
  }

  ghost predicate StoredIsLast(s: World) {
    s.stored.Some? ==> s.versions != [] && s.versions[|s.versions| - 1] == s.stored.value
  }

  /** Every sync reads some version, and updates only the stored one. */
  lemma SyncReadsVersion(s: World, a: Action) returns (w: Workflow, r: Replies)
    requires a.Sync? && StoredIsLast(s) && Apply(s, a) != s
    ensures IsSyncOf(s, a, w, r)
  {
    hide SyncWorld;
    match a.view
    case None => w, r := s.stored.value, a.replies;
    case Some(k) => w, r := s.versions[k], a.replies.(updateLost := true);
  }

  // -------------------------------------------------------------- the invariant

  /** A job was created only after one of each dependency was seen finished. */
  ghost predicate CreationsJustified(log: seq<Event>) {
    forall k, d :: 0 <= k < |log| && log[k].JobCreated? && d in log[k].dependencies ==>
      JobSeenFinished(d) in log[..k]
  }

  ghost predicate SeenFinished(statuses: seq<StepStatus>, log: seq<Event>) {
    forall n :: IsComplete(statuses, n) ==> JobSeenFinished(n) in log
  }

  ghost predicate WorkflowInv(w: Workflow) {
    && Consistent(w)
    && (w.status.statuses != [] ==> UniqueNames(w.spec.steps))
    && (w.status.startTime.None? ==> w.status.statuses == [] && w.status.conditions == [])
    && (w.status.completionTime.Some? <==> w.status.conditions != [])
  }

  /** w' is a later stored state of w. */
  ghost predicate Later(w: Workflow, w': Workflow) {
    && w'.name == w.name
    && Grows(w.status.statuses, w'.status.statuses)
    && w.status.conditions <= w'.status.conditions
    && (w.status.startTime.Some? ==> w'.status.startTime == w.status.startTime)
  }

  ghost predicate Ascend(versions: seq<Workflow>) {
    forall i, j :: 0 <= i <= j < |versions| ==> Later(versions[i], versions[j])
  }

  ghost predicate VersionsInv(versions: seq<Workflow>, log: seq<Event>) {
    forall w :: w in versions ==> WorkflowInv(w) && SeenFinished(w.status.statuses, log)
  }

  ghost predicate Inv(s: World) {
    CreationsJustified(s.log) && VersionsInv(s.versions, s.log) && Ascend(s.versions) && StoredIsLast(s)
  }

  // ------------------------------------------------------- a pass and its events

  /** The log so far, followed by what the pass did up to step i. */
  function LogAt(log: seq<Event>, w: Workflow, answers: Answers, i: nat): seq<Event>
    requires i <= |w.spec.steps|
  {
    log + PassEvents(w, answers, i)
  }

  lemma StepKeepsLog(p: Pass, step: Step, a: Answer, log: seq<Event>)
    requires CreationsJustified(log) && SeenFinished(p.w.status.statuses, log)
    ensures var log' := log + StepEvents(p, step, a);
      CreationsJustified(log') && SeenFinished(ManageStep(p, step, a).w.status.statuses, log')
  {
    hide IsComplete, IsJobFinished, StepLabels, Grows, DistinctStatuses;
    var log' := log + StepEvents(p, step, a);
    EventsKeepCreationsJustified(p, step, a, log);
    ManageStepFrame(p, step, a);
    forall n | IsComplete(ManageStep(p, step, a).w.status.statuses, n) ensures JobSeenFinished(n) in log' {
      if IsComplete(p.w.status.statuses, n) {
        assert JobSeenFinished(n) in log;
      } else {
        assert n == step.name;
        CompletedWasSeen(p, step, a);
        assert log'[|log|] == JobSeenFinished(n);
      }
    }
  }

  lemma EventsKeepCreationsJustified(p: Pass, step: Step, a: Answer, log: seq<Event>)
    requires CreationsJustified(log) && SeenFinished(p.w.status.statuses, log)
    ensures CreationsJustified(log + StepEvents(p, step, a))
  {
    hide IsComplete, IsJobFinished;
    var log' := log + StepEvents(p, step, a);
    forall k, d | 0 <= k < |log'| && log'[k].JobCreated? && d in log'[k].dependencies
      ensures JobSeenFinished(d) in log'[..k]
    {
      if k < |log| {
        assert log'[..k] == log[..k];
      } else {
        assert log'[..k] == log;
        assert IsComplete(p.w.status.statuses, d);
      }
    }
  }

  /** A step becomes Complete only where one finished job was listed for it. */
  lemma CompletedWasSeen(p: Pass, step: Step, a: Answer)
    requires !IsComplete(p.w.status.statuses, step.name)
    requires IsComplete(ManageStep(p, step, a).w.status.statuses, step.name)
    ensures StepEvents(p, step, a) == [JobSeenFinished(step.name)]
  {
    hide IsComplete, IsJobFinished, StepLabels, RecordJob;
    if a.listing.Some? && |a.listing.value| == 1 {
      RecordJobUpdates(p.w.status.statuses, step.name, a.listing.value[0]);
    }
  }

  lemma {:induction false} PassKeepsLog(w: Workflow, answers: Answers, log: seq<Event>, i: nat)
    requires i <= |w.spec.steps|
    requires CreationsJustified(log) && SeenFinished(w.status.statuses, log)
    ensures CreationsJustified(LogAt(log, w, answers, i))
    ensures SeenFinished(Before(w, answers, i).w.status.statuses, LogAt(log, w, answers, i))
  {
    hide ManageStep, StepEvents, CreationsJustified, SeenFinished;
    if i == 0 {
      assert LogAt(log, w, answers, 0) == log;
    } else {
      PassKeepsLog(w, answers, log, i - 1);
      var p, step, a := Before(w, answers, i - 1), w.spec.steps[i - 1], answers(i - 1);
      StepKeepsLog(p, step, a, LogAt(log, w, answers, i - 1));
      assert LogAt(log, w, answers, i) == LogAt(log, w, answers, i - 1) + StepEvents(p, step, a);
    }
  }

  // --------------------------------------------------- every step keeps the invariant

  lemma LongerLogSees(statuses: seq<StepStatus>, log: seq<Event>, log': seq<Event>)
    requires SeenFinished(statuses, log) && log <= log'
    ensures SeenFinished(statuses, log')
  {
    hide IsComplete;
    forall n | IsComplete(statuses, n) ensures JobSeenFinished(n) in log' {
      var k :| 0 <= k < |log| && log[k] == JobSeenFinished(n);
      assert log'[k] == log[k];
    }
  }

  lemma DefaultKeepsInv(w: Workflow)
    requires WorkflowInv(w)
    ensures WorkflowInv(DefaultWorkflow(w))
  {
    hide DependenciesComplete, DefaultTemplate, DistinctStatuses;
    var d := DefaultWorkflow(w);
    forall j | 0 <= j < |d.status.statuses| ensures Justified(d.spec.steps, d.status.statuses, j) {
      assert Justified(w.spec.steps, w.status.statuses, j);
      var i :| 0 <= i < |w.spec.steps|
               && w.spec.steps[i].name == w.status.statuses[j].name && w.spec.steps[i].jobTemplate.Some?
               && DependenciesComplete(w.status.statuses[..j], w.spec.steps[i].dependencies);
      assert d.spec.steps[i] == DefaultStep(w.spec.steps[i]);
    }
    forall i, j | 0 <= i < j < |d.spec.steps| && w.status.statuses != []
      ensures d.spec.steps[i].name != d.spec.steps[j].name
    {
      assert w.spec.steps[i].name != w.spec.steps[j].name;
    }
  }

  lemma PassKeepsInv(w: Workflow, answers: Answers, now: int)
    requires WorkflowInv(w) && ValidWorkflow(w) && w.status.startTime.Some?
    ensures WorkflowInv(Manage(w, answers, now).w)
  {
    hide Consistent, Before, IsComplete, AllComplete;
    ManageKeepsConsistent(w, answers, now);
    CompleteAppendedIff(w, answers, now);
  }

  /** The invariant reads the steps and the status only. */
  lemma InvReads(w: Workflow, w': Workflow)
    requires WorkflowInv(w) && w'.spec.steps == w.spec.steps && w'.status == w.status
    ensures WorkflowInv(w')
  {
  }

  lemma StartedInv(w: Workflow, w': Workflow)
    requires w'.spec.steps == w.spec.steps && w'.status.statuses == [] && w'.status.startTime.Some?
    requires w'.status.conditions == w.status.conditions && w'.status.completionTime == w.status.completionTime
    requires WorkflowInv(w)
    ensures WorkflowInv(w')
  {
  }

  lemma LateInv(w: Workflow, c: Condition, now: int)
    requires WorkflowInv(w) && w.status.startTime.Some?
    ensures WorkflowInv(AppendCondition(w, c, now))
  {
  }

  /** What a sync writes. */
  lemma WrittenKeepsInv(w: Workflow, start: int, r: Replies)
    requires WorkflowInv(w)
    ensures var e := SyncEffect(w, start, r); e.written.Some? ==> WorkflowInv(e.written.value)
  {
    hide WorkflowInv, Manage, ValidSteps, DefaultSpec, PastActiveDeadline, Serialize;
    var now := start + r.elapsed;
    if !IsWorkflowDefaulted(w) {
      DefaultKeepsInv(w);
      SerializedInv(DefaultWorkflow(w));
    } else if ReachesPass(w, start) {
      PassKeepsInv(w, r.answers, now);
      SerializedInv(Manage(w, r.answers, now).w);
    } else if ValidWorkflow(w) && !w.deleting {
      if w.status.startTime.None? {
        var started := w.(status := w.status.(statuses := [], startTime := Some(now)));
        StartedInv(w, started);
        SerializedInv(started);
      } else {
        LateInv(w, Condition(Failed, now, "DeadlineExceeded"), now);
        SerializedInv(AppendCondition(w, Condition(Failed, now, "DeadlineExceeded"), now));
      }
    }
  }

  lemma SerializedInv(w: Workflow)
    requires WorkflowInv(w)
    ensures WorkflowInv(Serialize(w))
  {
    hide WorkflowInv;
    InvReads(w, Serialize(w));
  }

  lemma ManageGrows(w: Workflow, answers: Answers, now: int)
    ensures Grows(w.status.statuses, Manage(w, answers, now).w.status.statuses)
  {
    BeforeExtends(w, answers, 0, |w.spec.steps|);
  }

  lemma WrittenIsLater(w: Workflow, start: int, r: Replies)
    requires WorkflowInv(w)
    ensures var e := SyncEffect(w, start, r); e.written.Some? ==> Later(w, e.written.value)
  {
    hide IsComplete, AllComplete, ValidWorkflow, Consistent, Before, DefaultSpec;
    if ReachesPass(w, start) {
      ManageGrows(w, r.answers, start + r.elapsed);
      CompleteAppendedIff(w, r.answers, start + r.elapsed);
    }
  }

  lemma LaterTransitive(a: Workflow, b: Workflow, c: Workflow)
    requires Later(a, b) && Later(b, c)
    ensures Later(a, c)
  {
  }

  lemma StoreKeepsAscend(versions: seq<Workflow>, w: Workflow)
    requires Ascend(versions) && versions != [] && Later(versions[|versions| - 1], w)
    ensures Ascend(versions + [w])
  {
    hide Later;
    var last := |versions| - 1;
    forall i, j | 0 <= i <= j < |versions + [w]| ensures Later((versions + [w])[i], (versions + [w])[j]) {
      if j == |versions| {
        if i < j {
          LaterTransitive(versions[i], versions[last], w);
        } else {
          LaterItself(w);
        }
      }
    }
  }

  lemma LaterItself(w: Workflow)
    ensures Later(w, w)
  {
  }

  lemma PassKeepsVersions(versions: seq<Workflow>, w: Workflow, answers: Answers, log: seq<Event>)
    requires w in versions && VersionsInv(versions, log) && CreationsJustified(log)
    ensures var log' := LogAt(log, w, answers, |w.spec.steps|);
      && VersionsInv(versions, log') && CreationsJustified(log') && log <= log'
      && SeenFinished(Before(w, answers, |w.spec.steps|).w.status.statuses, log')
  {
    hide WorkflowInv, SeenFinished, CreationsJustified, Before, PassEvents;
    PassKeepsLog(w, answers, log, |w.spec.steps|);
    forall v | v in versions ensures SeenFinished(v.status.statuses, LogAt(log, w, answers, |w.spec.steps|)) {
      LongerLogSees(v.status.statuses, log, LogAt(log, w, answers, |w.spec.steps|));
    }
  }

  lemma SyncKeepsLog(s: World, w: Workflow, r: Replies)
    requires Inv(s) && w in s.versions
    ensures var s', e := SyncWorld(s, w, r), SyncEffect(w, s.clock, r);
      && CreationsJustified(s'.log) && VersionsInv(s.versions, s'.log) && s.log <= s'.log
      && (e.written.Some? ==> SeenFinished(e.written.value.status.statuses, s'.log))
  {
    hide WorkflowInv, Manage, CreationsJustified, SeenFinished, ValidWorkflow, Before, Surviving, PassEvents,
         PastActiveDeadline;
    if ReachesPass(w, s.clock) {
      PassKeepsVersions(s.versions, w, r.answers, s.log);
      ManageStatuses(w, r.answers, s.clock + r.elapsed);
    } else {
      OtherWritesCompleteNothing(w, s.clock, r, s.log);
    }
  }

  lemma SyncKeepsInv(s: World, a: Action, w: Workflow, r: Replies)
    requires Inv(s) && IsSyncOf(s, a, w, r)
    ensures Inv(SyncWorld(s, w, r))
  {
    hide WorkflowInv, CreationsJustified, SeenFinished, SyncEffect, Surviving, Later, PassEvents, ReachesPass, Apply;
    var s', e := SyncWorld(s, w, r), SyncEffect(w, s.clock, r);
    SyncKeepsLog(s, w, r);
    WrittenKeepsInv(w, s.clock, r);
    WrittenIsLater(w, s.clock, r);
    if Writes(e, r) {
      StoreKeepsAscend(s.versions, e.written.value);
    }
    RemovedWritesNothing(w, s.clock, r);
  }

  lemma RemovedWritesNothing(w: Workflow, start: int, r: Replies)
    ensures SyncEffect(w, start, r).removed ==> SyncEffect(w, start, r).written.None?
  {
  }

  lemma ManageStatuses(w: Workflow, answers: Answers, now: int)
    ensures Serialize(Manage(w, answers, now).w).status.statuses == Before(w, answers, |w.spec.steps|).w.status.statuses
  {
  }

  /** Outside a pass, a sync writes the statuses as they are, or none. */
  lemma OtherWritesCompleteNothing(w: Workflow, start: int, r: Replies, log: seq<Event>)
    requires !ReachesPass(w, start) && SeenFinished(w.status.statuses, log)
    ensures var e := SyncEffect(w, start, r);
      e.written.Some? ==> SeenFinished(e.written.value.status.statuses, log)
  {
    hide ValidWorkflow, DefaultStep;
  }

  lemma ApplyKeepsInv(s: World, a: Action)
    requires Inv(s)
    ensures Inv(Apply(s, a))
  {
    hide SyncWorld, CreationsJustified, SeenFinished, Accepts, AllComplete, WorkflowInv, Later;
    match a
    case Sync(_, _) =>
      if Apply(s, a) != s {
        var w, r := SyncReadsVersion(s, a);
        SyncKeepsInv(s, a, w, r);
      }
    case Edit(spec) =>
      if s.stored.Some? && Accepts(spec, s.stored.value) {
        EditKeepsInv(spec, s.stored.value);
        StoreKeepsAscend(s.versions, s.stored.value.(spec := spec));
      }
    case FinishJob(_, _) =>
    case DeleteJob(_) =>
    case Tick(_) =>
    case Remove =>
  }

  lemma EditKeepsInv(spec: Spec, w: Workflow)
    requires WorkflowInv(w) && Accepts(spec, w)
    ensures WorkflowInv(w.(spec := spec)) && Later(w, w.(spec := spec))
  {
    if w.status.statuses != [] {
      AcceptedKeepsConsistent(spec, w);
    }
  }

  /** Over every run, with lagging caches: jobs are created after their dependencies
      were seen finished; in every stored version the statuses are distinct,
      justified in order and backed by a finished job, and conditions and completion
      time agree; no version withdraws what an earlier one says. */
  lemma {:induction false} RunKeepsInv(s: World, actions: seq<Action>)
    requires Init(s)
    ensures Inv(Run(s, actions))
  {
    hide Apply;
    if actions != [] {
      RunKeepsInv(s, actions[..|actions| - 1]);
      ApplyKeepsInv(Run(s, actions[..|actions| - 1]), actions[|actions| - 1]);
    }
  }

  // ----------------------------------------------- what is final in every run

  ghost predicate Follows(s: World, s': World) {
    && s.clock <= s'.clock && s.log <= s'.log && s.versions <= s'.versions
    && (s'.stored.Some? ==> s.stored.Some?)
  }

  lemma ApplyFollows(s: World, a: Action)
    ensures Follows(s, Apply(s, a))
  {
    hide SyncEffect, Accepts, ReachesPass, Surviving, PassEvents;
    if a.Sync? && a.view.Some? && a.view.value < |s.versions| {
      assert SyncWorld(s, s.versions[a.view.value], a.replies.(updateLost := true)).versions == s.versions;
    }
  }

  /** Over every run, from any reachable point on: what is logged or was stored
      stays so, and the stored workflow is a later state of the one stored then:
      statuses keep their places and their completion, conditions are only
      appended, the start time is set once. */
  lemma {:induction false} RunFollows(s: World, actions: seq<Action>, more: seq<Action>)
    requires Init(s)
    ensures var s1, s2 := Run(s, actions), Run(s, actions + more);
      && Follows(s1, s2)
      && (s2.stored.Some? ==> Later(s1.stored.value, s2.stored.value))
  {
    hide Apply, Follows, Later;
    RunFollowsStep(s, actions, more);
    RunKeepsInv(s, actions);
    RunKeepsInv(s, actions + more);
    LastVersions(Run(s, actions), Run(s, actions + more));
  }

  lemma {:induction false} RunFollowsStep(s: World, actions: seq<Action>, more: seq<Action>)
    ensures Follows(Run(s, actions), Run(s, actions + more))
  {
    hide Apply;
    if more == [] {
      assert actions + more == actions;
    } else {
      var longer := actions + more;
      assert longer[..|longer| - 1] == actions + more[..|more| - 1];
      RunFollowsStep(s, actions, more[..|more| - 1]);
      ApplyFollows(Run(s, longer[..|longer| - 1]), longer[|longer| - 1]);
    }
  }

  lemma LastVersions(s: World, s': World)
    requires Inv(s) && Inv(s') && Follows(s, s')
    ensures s'.stored.Some? ==> Later(s.stored.value, s'.stored.value)
  {
    hide Later, CreationsJustified, VersionsInv;
    if s'.stored.Some? {
      assert s'.versions[|s.versions| - 1] == s.stored.value;
    }
  }

  /** A workflow found finished stays finished, until it is removed. */
  lemma FinishedForGood(s: World, actions: seq<Action>, more: seq<Action>)
    requires Init(s) && Run(s, actions).stored.Some? && IsWorkflowFinished(Run(s, actions).stored.value)
    ensures var s' := Run(s, actions + more); s'.stored.Some? ==> IsWorkflowFinished(s'.stored.value)
  {
    hide Run;
    RunFollows(s, actions, more);
    var s' := Run(s, actions + more);
    if s'.stored.Some? {
      var c, c' := Run(s, actions).stored.value.status.conditions, s'.stored.value.status.conditions;
      var k :| 0 <= k < |c| && (c[k].kind == Complete || c[k].kind == Failed);
      assert c'[k] == c[k];
    }
  }

  // --------------------------------------- what needs a cache that does not lag

  predicate IsCreationOf(e: Event, name: string) {
    e.JobCreated? && e.step == name
  }

  predicate CreatesNothingFor(log: seq<Event>, name: string, start: nat) {
    forall k :: start <= k < |log| ==> !IsCreationOf(log[k], name)
  }

  /** Every sync reads the stored workflow. */
  predicate UpToDate(actions: seq<Action>) {
    forall k :: 0 <= k < |actions| && actions[k].Sync? ==> actions[k].view.None?
  }

  /** No job is created after s for a step that s stores as Complete, or for any
      step if s stores no workflow. */
  ghost predicate SparesComplete(s: World, s': World) {
    && (s.stored.None? ==> s'.log == s.log)
    && (s.stored.Some? ==>
         forall n :: IsComplete(s.stored.value.status.statuses, n) ==> CreatesNothingFor(s'.log, n, |s.log|))
  }

  /** A pass creates nothing for a step that was Complete when it began. */
  lemma {:induction false} PassSparesComplete(w: Workflow, answers: Answers, i: nat, n: string)
    requires i <= |w.spec.steps| && IsComplete(w.status.statuses, n)
    ensures CreatesNothingFor(PassEvents(w, answers, i), n, 0)
  {
    hide IsComplete, IsJobFinished, ManageStep;
    if i > 0 {
      PassSparesComplete(w, answers, i - 1, n);
      BeforeExtends(w, answers, 0, i - 1);
      GrowsKeepsComplete(w.status.statuses, Before(w, answers, i - 1).w.status.statuses, n);
    }
  }

  lemma ApplySparesComplete(s: World, a: Action)
    requires a.Sync? ==> a.view.None?
    ensures SparesComplete(s, Apply(s, a))
  {
    hide IsComplete, SyncEffect, Accepts, Surviving, ValidSteps, PassEvents;
    if a.Sync? && s.stored.Some? && ReachesPass(s.stored.value, s.clock) {
      var w := s.stored.value;
      forall n | IsComplete(w.status.statuses, n) ensures CreatesNothingFor(Apply(s, a).log, n, |s.log|) {
        PassSparesComplete(w, a.replies.answers, |w.spec.steps|, n);
      }
    }
  }

  lemma SparesCompleteTransitive(a: World, b: World, c: World)
    requires SparesComplete(a, b) && SparesComplete(b, c) && Follows(a, b) && Follows(b, c)
    requires b.stored.Some? ==> Later(a.stored.value, b.stored.value)
    ensures SparesComplete(a, c)
  {
    hide IsComplete;
    if a.stored.Some? {
      forall n | IsComplete(a.stored.value.status.statuses, n) ensures CreatesNothingFor(c.log, n, |a.log|) {
        if b.stored.Some? {
          GrowsKeepsComplete(a.stored.value.status.statuses, b.stored.value.status.statuses, n);
          forall k | |a.log| <= k < |b.log| ensures !IsCreationOf(b.log[k], n) {
          }
        }
        LogOf(b, c, n, |a.log|);
      }
    }
  }

  lemma LogOf(b: World, c: World, n: string, start: nat)
    requires SparesComplete(b, c) && CreatesNothingFor(b.log, n, start)
    requires b.stored.Some? ==> IsComplete(b.stored.value.status.statuses, n)
    requires b.log <= c.log
    ensures CreatesNothingFor(c.log, n, start)
  {
    forall k | start <= k < |c.log| ensures !IsCreationOf(c.log[k], n) {
      if k < |b.log| {
        assert c.log[k] == b.log[k];
      }
    }
  }

  /** With a cache that does not lag, a step stored as Complete gets no further
      job, and after the workflow is gone no step gets one. */
  lemma {:induction false} RunSparesComplete(s: World, actions: seq<Action>, more: seq<Action>)
    requires Init(s) && UpToDate(more)
    ensures SparesComplete(Run(s, actions), Run(s, actions + more))
  {
    hide Apply, Follows, Later, SparesComplete;
    if more == [] {
      assert actions + more == actions;
      SparesItself(Run(s, actions));
    } else {
      var longer, fewer := actions + more, more[..|more| - 1];
      assert longer[..|longer| - 1] == actions + fewer;
      RunSparesComplete(s, actions, fewer);
      RunFollows(s, actions, fewer);
      RunFollows(s, actions + fewer, [longer[|longer| - 1]]);
      assert actions + fewer + [longer[|longer| - 1]] == longer;
      ApplySparesComplete(Run(s, actions + fewer), longer[|longer| - 1]);
      SparesCompleteTransitive(Run(s, actions), Run(s, actions + fewer), Run(s, longer));
    }
  }

  lemma SparesItself(s: World)
    ensures SparesComplete(s, s)
  {
  }

  /** A sync on whatever version, older or stored: it creates nothing for the steps
      that are Complete in the version it reads. */
  lemma SyncSparesRead(s: World, a: Action, w: Workflow, r: Replies, n: string)
    requires IsSyncOf(s, a, w, r) && IsComplete(w.status.statuses, n)
    ensures CreatesNothingFor(Apply(s, a).log, n, |s.log|)
  {
    hide IsComplete, SyncEffect, Surviving, PassEvents, Apply;
    PassSparesComplete(w, r.answers, |w.spec.steps|, n);
  }

  lemma {:induction false} EventsExtend(w: Workflow, answers: Answers, i: nat, j: nat)
    requires i <= j <= |w.spec.steps|
    ensures PassEvents(w, answers, i) <= PassEvents(w, answers, j)
  {
    hide StepEvents, Before;
    if i < j {
      EventsExtend(w, answers, i, j - 1);
    }
  }

  lemma DueTurnCreates(w: Workflow, answers: Answers, i: nat)
    requires UniqueNames(w.spec.steps) && i < |w.spec.steps| && DueStep(w, i) && MatchLabels(w).Some?
    requires answers(i).listing == Some([]) && !answers(i).creation.Refused?
    ensures !CreatesNothingFor(PassEvents(w, answers, |w.spec.steps|), w.spec.steps[i].name, 0)
  {
    hide Before, IsComplete, DependenciesComplete;
    StillDue(w, answers, i);
    EventsExtend(w, answers, i + 1, |w.spec.steps|);
    var k, events := |PassEvents(w, answers, i)|, PassEvents(w, answers, |w.spec.steps|);
    assert PassEvents(w, answers, i + 1)[k] == JobCreated(w.spec.steps[i].name, w.spec.steps[i].dependencies);
    assert IsCreationOf(events[k], w.spec.steps[i].name);
  }

  /** ... and nothing for these only: a lagging sync never creates a job for a step
      whose dependencies are Complete in the version it reads, whatever it is answered,
      if and only if the step itself is Complete in that version. */
  lemma StaleSyncSparesIff(s: World, k: nat, i: nat)
    requires k < |s.versions| && ReachesPass(s.versions[k], s.clock) && MatchLabels(s.versions[k]).Some?
    requires var w := s.versions[k];
      && i < |w.spec.steps| && w.spec.steps[i].jobTemplate.Some?
      && DependenciesComplete(w.status.statuses, w.spec.steps[i].dependencies)
    ensures var w := s.versions[k];
      (forall r :: CreatesNothingFor(Apply(s, Sync(Some(k), r)).log, w.spec.steps[i].name, |s.log|))
      <==> IsComplete(w.status.statuses, w.spec.steps[i].name)
  {
    hide IsComplete, SyncEffect, Surviving, PassEvents, ValidSteps, DefaultSpec, PastActiveDeadline, DependenciesComplete;
    var w := s.versions[k];
    var n := w.spec.steps[i].name;
    if IsComplete(w.status.statuses, n) {
      forall r ensures CreatesNothingFor(Apply(s, Sync(Some(k), r)).log, n, |s.log|) {
        PassSparesComplete(w, r.answers, |w.spec.steps|, n);
      }
    } else {
      var answers: Answers := (j: nat) => Answer(Some([]), true, TimedOut(""));
      var r := Replies(0, answers, true, false, None, {});
      ValidIsUnique(w);
      DueTurnCreates(w, answers, i);
      var j :| 0 <= j < |PassEvents(w, answers, |w.spec.steps|)|
               && IsCreationOf(PassEvents(w, answers, |w.spec.steps|)[j], n);
      assert IsCreationOf(Apply(s, Sync(Some(k), r)).log[|s.log| + j], n);
      assert !CreatesNothingFor(Apply(s, Sync(Some(k), r)).log, n, |s.log|);
    }
  }

  lemma ValidIsUnique(w: Workflow)
    requires ValidWorkflow(w)
    ensures UniqueNames(w.spec.steps)
  {
  }

  // --------------------------------------------------------- runs without edits

  predicate Unedited(actions: seq<Action>) {
    forall k :: 0 <= k < |actions| ==> !actions[k].Edit?
  }

  /** The specs agree up to defaulting and the labels. */
  ghost predicate SameShape(a: Spec, b: Spec) {
    DefaultSpec(a).steps == DefaultSpec(b).steps && a.activeDeadlineSeconds == b.activeDeadlineSeconds
  }

  lemma SameShapeItself(spec: Spec)
    ensures SameShape(spec, spec)
  {
  }

  lemma SameShapeSteps(a: Spec, b: Spec)
    requires SameShape(a, b)
    ensures |a.steps| == |b.steps|
    ensures forall i :: 0 <= i < |a.steps| ==>
      && a.steps[i].name == b.steps[i].name && a.steps[i].dependencies == b.steps[i].dependencies
      && a.steps[i].jobTemplate.Some? == b.steps[i].jobTemplate.Some?
      && (a.steps[i].jobTemplate.Some? ==>
           a.steps[i].jobTemplate.value.podLabels == b.steps[i].jobTemplate.value.podLabels)
  {
    forall i | 0 <= i < |a.steps| ensures DefaultStep(a.steps[i]) == DefaultStep(b.steps[i]) {
      assert DefaultSpec(a).steps[i] == DefaultStep(a.steps[i]);
      assert DefaultSpec(b).steps[i] == DefaultStep(b.steps[i]);
    }
  }

  /** What a sync writes has the spec it read, up to defaulting and the labels, and
      the conditions it read with at most one more: Complete only if all steps are. */
  lemma WrittenKeepsSpec(w: Workflow, start: int, r: Replies)
    ensures var e := SyncEffect(w, start, r);
      e.written.Some? ==>
        && SameShape(w.spec, e.written.value.spec)
        && (e.written.value.status.conditions == w.status.conditions
            || exists c :: e.written.value.status.conditions == w.status.conditions + [c]
                           && (c.kind == Complete ==> AllComplete(w)))
  {
    hide AllComplete, ValidWorkflow, Manage, PastActiveDeadline, DefaultSpec, SameShape;
    SameShapeItself(w.spec);
    if !IsWorkflowDefaulted(w) {
      DefaultedShape(w);
    }
    ManageKeepsSpec(w, r.answers, start + r.elapsed);
  }

  lemma DefaultedShape(w: Workflow)
    ensures SameShape(w.spec, Serialize(DefaultWorkflow(w)).spec)
  {
    DefaultedOnce(w);
  }

  lemma ManageKeepsSpec(w: Workflow, answers: Answers, now: int)
    ensures var p := Manage(w, answers, now).w;
      && SameShape(w.spec, Serialize(p).spec) && SameShape(w.spec, Serialize(w).spec)
      && (p.status.conditions == w.status.conditions
          || (p.status.conditions == w.status.conditions + [Condition(Complete, now, "")] && AllComplete(w)))
  {
    hide AllComplete, Manage, DefaultStep;
    CompleteAppendedIff(w, answers, now);
  }

  // --------------------------------------------------------------- the deadline

  /** Past the deadline that the stored workflow and every older version that was
      started has. */
  ghost predicate PastDeadline(s: World) {
    && (s.stored.Some? ==> PastActiveDeadline(s.stored.value, s.clock))
    && forall w :: w in s.versions && w.status.startTime.Some? ==> PastActiveDeadline(w, s.clock)
  }

  /** Every job is one of the old ones, perhaps further along. */
  ghost predicate NoNewJobs(jobs: seq<Job>, jobs': seq<Job>) {
    forall j :: j in jobs' ==> exists i :: i in jobs && i.name == j.name && i.labels == j.labels
  }

  /** Past the deadline, no sync reaches the pass: whatever happens except an edit
      of the spec, the workflow stays past it and no job is created or observed. */
  lemma {:induction false} NothingAfterDeadline(s: World, actions: seq<Action>)
    requires PastDeadline(s) && StoredIsLast(s) && Unedited(actions)
    ensures var s' := Run(s, actions);
      PastDeadline(s') && StoredIsLast(s') && s'.log == s.log && NoNewJobs(s.jobs, s'.jobs)
  {
    hide PastDeadline, Apply, StoredIsLast;
    if actions != [] {
      NothingAfterDeadline(s, actions[..|actions| - 1]);
      var s1 := Run(s, actions[..|actions| - 1]);
      LateStep(s1, actions[|actions| - 1]);
    }
  }

  lemma LateStep(s: World, a: Action)
    requires PastDeadline(s) && StoredIsLast(s) && !a.Edit?
    ensures var s' := Apply(s, a);
      PastDeadline(s') && StoredIsLast(s') && s'.log == s.log && NoNewJobs(s.jobs, s'.jobs)
  {
    hide NoNewJobs, SyncWorld, Finish, StoredIsLast;
    JobsOfStep(s, a);
    if a.Sync? {
      if Apply(s, a) != s {
        var w, r := SyncReadsVersion(s, a);
        LateSync(s, a, w, r);
      }
    } else {
      assert StoredIsLast(Apply(s, a)) by {
        StillLast(s, a);
      }
    }
  }

  lemma StillLast(s: World, a: Action)
    requires StoredIsLast(s) && !a.Sync?
    ensures StoredIsLast(Apply(s, a))
  {
  }

  lemma LateSync(s: World, a: Action, w: Workflow, r: Replies)
    requires PastDeadline(s) && StoredIsLast(s) && IsSyncOf(s, a, w, r)
    ensures var s' := SyncWorld(s, w, r);
      PastDeadline(s') && StoredIsLast(s') && s'.log == s.log && NoNewJobs(s.jobs, s'.jobs)
  {
    hide ValidWorkflow, SyncEffect, Apply;
    var e := SyncEffect(w, s.clock, r);
    LateEffect(w, s.clock, r);
    assert Surviving(s.jobs, e.deleted) + [] == Surviving(s.jobs, e.deleted);
    LaterIsLate(s, s.clock + r.elapsed);
    if Writes(e, r) {
      LaterIsLate(s.(versions := [e.written.value]), s.clock);
    }
  }

  lemma LateEffect(w: Workflow, start: int, r: Replies)
    requires w.status.startTime.Some? ==> PastActiveDeadline(w, start)
    ensures var e := SyncEffect(w, start, r);
      && !ReachesPass(w, start) && e.created == [] && (e.removed ==> e.written.None?)
      && (e.written.Some? && w.status.startTime.Some? ==>
           PastActiveDeadline(e.written.value, start + r.elapsed))
  {
    hide ValidWorkflow, Manage, DefaultStep;
  }

  lemma LaterIsLate(s: World, clock: int)
    requires s.clock <= clock
    ensures forall w :: w in s.versions && PastActiveDeadline(w, s.clock) ==> PastActiveDeadline(w, clock)
  {
  }

  lemma JobsOfStep(s: World, a: Action)
    ensures !a.Sync? || Apply(s, a) == s ==> NoNewJobs(s.jobs, Apply(s, a).jobs)
  {
    hide SyncWorld;
    if !a.Sync? {
      var jobs' := Apply(s, a).jobs;
      forall j | j in jobs' ensures exists i :: i in s.jobs && i.name == j.name && i.labels == j.labels {
        var k :| 0 <= k < |jobs'| && jobs'[k] == j;
        var i := s.jobs[if a.DeleteJob? && a.index <= k then k + 1 else k];
        assert i in s.jobs && i.name == j.name && i.labels == j.labels;
      }
    }
  }

  /** All versions stored in a run without edits have the spec the run began with,
      up to defaulting and the labels. */
  lemma {:induction false} UneditedKeepsShape(s: World, actions: seq<Action>, spec: Spec)
    requires Init(s) && Unedited(actions) && (s.stored.Some? ==> SameShape(spec, s.stored.value.spec))
    ensures forall w :: w in Run(s, actions).versions ==> SameShape(spec, w.spec)
  {
    hide Apply, SameShape;
    if actions != [] {
      var s1, a := Run(s, actions[..|actions| - 1]), actions[|actions| - 1];
      UneditedKeepsShape(s, actions[..|actions| - 1], spec);
      RunKeepsInv(s, actions[..|actions| - 1]);
      if a.Sync? && Apply(s1, a) != s1 {
        var w, r := SyncReadsVersion(s1, a);
        SyncKeepsShape(s1, w, r, spec);
      } else {
        SameVersions(s1, a);
      }
    }
  }

  lemma SameVersions(s: World, a: Action)
    requires !a.Edit? && (a.Sync? ==> Apply(s, a) == s)
    ensures Apply(s, a).versions == s.versions
  {
    hide SyncWorld;
  }

  lemma SyncKeepsShape(s: World, w: Workflow, r: Replies, spec: Spec)
    requires w in s.versions && forall v :: v in s.versions ==> SameShape(spec, v.spec)
    ensures forall v :: v in SyncWorld(s, w, r).versions ==> SameShape(spec, v.spec)
  {
    hide SyncEffect, DefaultSpec, Surviving;
    WrittenKeepsSpec(w, s.clock, r);
  }

  /** For deadlines of up to 9223372036 seconds, and without edits, past means the
      exact time after the start that the stored workflow records. */
  lemma PastDeadlineIsExact(s: World, actions: seq<Action>, start: int, deadline: int)
    requires Init(s) && Unedited(actions) && Run(s, actions).stored.Some?
    requires Run(s, actions).stored.value.status.startTime == Some(start)
    requires Run(s, actions).stored.value.spec.activeDeadlineSeconds == Some(deadline)
    requires 0 <= deadline <= MAX_EXACT_SECONDS
    ensures PastDeadline(Run(s, actions)) <==> Run(s, actions).clock >= start + deadline * SECOND
  {
    hide Run, Init, DefaultSpec, WorkflowInv, CreationsJustified, SeenFinished;
    var s' := Run(s, actions);
    DeadlineExactIff(deadline);
    RunKeepsInv(s, actions);
    var last := |s'.versions| - 1;
    var spec := RunBeganWith(s, actions);
    UneditedKeepsShape(s, actions, spec);
    assert s'.versions[last] in s'.versions;
    forall w | w in s'.versions && w.status.startTime.Some?
      ensures PastActiveDeadline(w, s'.clock) <==> s'.clock >= start + deadline * SECOND
    {
      var k :| 0 <= k < |s'.versions| && s'.versions[k] == w;
      assert Later(s'.versions[k], s'.versions[last]);
    }
  }

  lemma RunBeganWith(s: World, actions: seq<Action>) returns (spec: Spec)
    requires Init(s) && Run(s, actions).stored.Some?
    ensures s.stored.Some? && spec == s.stored.value.spec
  {
    RunFollows(s, [], actions);
    assert [] + actions == actions;
    spec := s.stored.value.spec;
  }

  // ------------------------------------------------------------- external steps

  /** Only a job makes a step Complete. */
  lemma ExternalIsIncomplete(w: Workflow, i: nat)
    requires WorkflowInv(w) && i < |w.spec.steps| && w.spec.steps[i].jobTemplate.None?
    ensures !IsComplete(w.status.statuses, w.spec.steps[i].name)
  {
    forall k | 0 <= k < |w.status.statuses| ensures w.status.statuses[k].name != w.spec.steps[i].name {
      assert Justified(w.spec.steps, w.status.statuses, k);
    }
  }

  ghost predicate NeverComplete(versions: seq<Workflow>) {
    forall w, c :: w in versions && c in w.status.conditions ==> c.kind != Complete
  }

  /** A workflow with a step that is not a job never gets the condition Complete,
      in no run without edits: the code has no way to complete an external step. */
  lemma {:induction false} ExternalNeverCompletes(s: World, actions: seq<Action>, i: nat)
    requires Init(s) && Unedited(actions) && s.stored.Some?
    requires i < |s.stored.value.spec.steps| && s.stored.value.spec.steps[i].jobTemplate.None?
    ensures NeverComplete(Run(s, actions).versions)
    ensures forall w :: w in Run(s, actions).versions ==> !AllComplete(w)
  {
    hide Apply, AllComplete, SameShape, WorkflowInv, IsComplete, CreationsJustified, SeenFinished, Ascend,
         NeverComplete;
    var spec, s' := s.stored.value.spec, Run(s, actions);
    SameShapeItself(spec);
    UneditedKeepsShape(s, actions, spec);
    RunKeepsInv(s, actions);
    forall w | w in s'.versions ensures !AllComplete(w) {
      SameShapeSteps(spec, w.spec);
      ExternalIsIncomplete(w, i);
      OneIncomplete(w, i);
    }
    if actions == [] {
      EmptyStatusNeverComplete(s);
    } else {
      var before, a := actions[..|actions| - 1], actions[|actions| - 1];
      ExternalNeverCompletes(s, before, i);
      RunKeepsInv(s, before);
      var s1 := Run(s, before);
      if a.Sync? && Apply(s1, a) != s1 {
        var w, r := SyncReadsVersion(s1, a);
        IncompleteSync(s1, w, r);
      } else {
        SameVersions(s1, a);
      }
    }
  }

  lemma OneIncomplete(w: Workflow, i: nat)
    requires i < |w.spec.steps| && !IsComplete(w.status.statuses, w.spec.steps[i].name)
    ensures !AllComplete(w)
  {
  }

  lemma EmptyStatusNeverComplete(s: World)
    requires Init(s)
    ensures NeverComplete(s.versions)
  {
  }

  lemma IncompleteSync(s: World, w: Workflow, r: Replies)
    requires w in s.versions && !AllComplete(w) && NeverComplete(s.versions)
    ensures NeverComplete(SyncWorld(s, w, r).versions)
  {
    hide SyncEffect, AllComplete, Surviving, SameShape;
    WrittenKeepsSpec(w, s.clock, r);
  }

  // ------------------------------------------------- workflows without a label map

  /** No labels, no status; and once started, no map either. */
  ghost predicate Mapless(versions: seq<Workflow>) {
    forall w :: w in versions ==>
      && LabelMap(w) == map[] && w.status.statuses == []
      && (w.status.startTime.Some? ==> MatchLabels(w).None?)
  }

  lemma {:induction false} NoEventsWithoutMap(w: Workflow, answers: Answers, i: nat)
    requires i <= |w.spec.steps| && MatchLabels(w).None?
    ensures PassEvents(w, answers, i) == []
  {
    hide ManageStep, IsComplete, DependenciesComplete, IsJobFinished, DueStep;
    if i > 0 {
      NoEventsWithoutMap(w, answers, i - 1);
      PanicsIff(w, answers, i - 1);
    }
  }

  lemma MaplessSync(s: World, w: Workflow, r: Replies)
    requires w in s.versions && Mapless(s.versions)
    ensures var s' := SyncWorld(s, w, r);
      Mapless(s'.versions) && s'.log == s.log && SyncEffect(w, s.clock, r).created == []
  {
    hide SyncEffect, Surviving, PassEvents;
    MaplessEffect(w, s.clock, r);
    if ReachesPass(w, s.clock) {
      NoEventsWithoutMap(w, r.answers, |w.spec.steps|);
    }
  }

  lemma SerializedMapless(w: Workflow)
    requires LabelMap(w) == map[]
    ensures LabelMap(Serialize(w)) == map[] && MatchLabels(Serialize(w)).None?
    ensures Serialize(w).status == w.status
  {
  }

  lemma MaplessEffect(w: Workflow, start: int, r: Replies)
    requires Mapless([w])
    ensures var e := SyncEffect(w, start, r);
      e.created == [] && (e.written.Some? ==> Mapless([e.written.value]))
  {
    hide Before, ValidWorkflow, PastActiveDeadline, DefaultStep, Serialize;
    var now := start + r.elapsed;
    assert w in [w];
    SerializedMapless(DefaultWorkflow(w));
    SerializedMapless(w.(status := w.status.(statuses := [], startTime := Some(now))));
    SerializedMapless(AppendCondition(w, Condition(Failed, now, "DeadlineExceeded"), now));
    if ReachesPass(w, start) {
      PanicsIff(w, r.answers, |w.spec.steps|);
      SerializedMapless(Manage(w, r.answers, now).w);
    }
  }

  /** A workflow created with a nil or an empty matchLabels is accepted, but the
      write of its start time leaves it without a map: in no run without edits is a
      job ever created or seen for it, or a status recorded. Its syncs panic, as
      SyncPanicsIff says. */
  lemma {:induction false} NothingRunsWithoutLabels(s: World, actions: seq<Action>)
    requires Init(s) && Unedited(actions) && (s.stored.Some? ==> LabelMap(s.stored.value) == map[])
    ensures Mapless(Run(s, actions).versions) && Run(s, actions).log == []
  {
    hide Apply, Mapless;
    if actions == [] {
      assert Mapless(s.versions) by {
        InitialMapless(s);
      }
    } else {
      var s1, a := Run(s, actions[..|actions| - 1]), actions[|actions| - 1];
      NothingRunsWithoutLabels(s, actions[..|actions| - 1]);
      RunKeepsInv(s, actions[..|actions| - 1]);
      if a.Sync? && Apply(s1, a) != s1 {
        var w, r := SyncReadsVersion(s1, a);
        MaplessSync(s1, w, r);
      } else {
        SameVersions(s1, a);
        SameLog(s1, a);
      }
    }
  }

  lemma InitialMapless(s: World)
    requires Init(s) && (s.stored.Some? ==> LabelMap(s.stored.value) == map[])
    ensures Mapless(s.versions)
  {
  }

  lemma SameLog(s: World, a: Action)
    requires a.Sync? ==> Apply(s, a) == s
    ensures Apply(s, a).log == s.log
  {
    hide SyncWorld;
  }
}
