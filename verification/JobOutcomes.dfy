/** What the workflow controller goes by when it looks at jobs, said of the conditions,
    replies and names themselves: when a step becomes Complete, what a status refers to,
    when an update is asked for, what is created, and what the sweep deletes. */
module JobOutcomes {
  import opened Prelude
  import opened WorkflowTypes
  import opened JobLabels
  import opened StepValidation
  import opened WorkflowPass
  import opened StatusInvariant
  import opened WorkflowSync
  import opened WorkflowRun

  // ------------------------------------------------------------- finished jobs

  /** When the turn of an incomplete step makes it Complete: its dependencies are, one
      job is listed, its reference can be taken, and it has a true condition Complete or
      Failed. With any other conditions the step stays incomplete. */
  lemma BecomesCompleteIff(p: Pass, i: nat, a: Answer)
    requires i < |p.w.spec.steps| && !IsComplete(p.w.status.statuses, p.w.spec.steps[i].name)
    ensures var step := p.w.spec.steps[i];
      IsComplete(ManageStep(p, step, a).w.status.statuses, step.name) <==>
        && !p.panicked && MatchLabels(p.w).Some? && step.jobTemplate.Some?
        && DependenciesComplete(p.w.status.statuses, step.dependencies)
        && a.referenceOk && a.listing.Some? && |a.listing.value| == 1
        && exists c :: c in a.listing.value[0].conditions && c.isTrue && (c.kind == JobComplete || c.kind == JobFailed)
  {
    hide IsComplete, DependenciesComplete, LabelsFor, RecordJob, IsJobFinished;
    if a.listing.Some? && |a.listing.value| == 1 {
      RecordJobUpdates(p.w.status.statuses, p.w.spec.steps[i].name, a.listing.value[0]);
      FinishedMeans(a.listing.value[0]);
    }
  }

  /** One of the replies lists a job with a true condition Complete or Failed. */
  ghost predicate ListsFinished(answers: Answers, i: nat) {
    && answers(i).listing.Some? && |answers(i).listing.value| == 1
    && exists c :: c in answers(i).listing.value[0].conditions && c.isTrue && (c.kind == JobComplete || c.kind == JobFailed)
  }

  lemma {:induction false} PassSeesFinished(w: Workflow, answers: Answers, n: string, j: nat) returns (i: nat)
    requires j <= |w.spec.steps| && JobSeenFinished(n) in PassEvents(w, answers, j)
    ensures i < |w.spec.steps| && w.spec.steps[i].name == n && ListsFinished(answers, i)
  {
    hide StepEvents, Before, ListsFinished;
    if JobSeenFinished(n) in PassEvents(w, answers, j - 1) {
      i := PassSeesFinished(w, answers, n, j - 1);
    } else {
      i := j - 1;
      TurnSeesFinished(Before(w, answers, j - 1), w.spec.steps[i], answers, i, n);
    }
  }

  lemma TurnSeesFinished(p: Pass, step: Step, answers: Answers, i: nat, n: string)
    requires JobSeenFinished(n) in StepEvents(p, step, answers(i))
    ensures step.name == n && ListsFinished(answers, i)
  {
    hide IsComplete, DependenciesComplete, IsJobFinished;
    FinishedMeans(answers(i).listing.value[0]);
  }

  /** Over every run: a step is Complete in a version only if one of the syncs so far
      was given, for a step of that name, one job with a true condition Complete or
      Failed. */
  lemma RunCompletesFinishedOnly(s: World, actions: seq<Action>, w: Workflow, n: string) returns (k: nat, i: nat)
    requires Init(s) && w in Run(s, actions).versions && IsComplete(w.status.statuses, n)
    ensures k < |actions| && actions[k].Sync? && ListsFinished(actions[k].replies.answers, i)
    ensures exists v :: v in Run(s, actions[..k]).versions && i < |v.spec.steps| && v.spec.steps[i].name == n
  {
    hide Run, IsComplete, ListsFinished;
    RunKeepsInv(s, actions);
    k, i := LoggedWasListed(s, actions, n);
  }

  lemma {:induction false} LoggedWasListed(s: World, actions: seq<Action>, n: string) returns (k: nat, i: nat)
    requires Init(s) && JobSeenFinished(n) in Run(s, actions).log
    ensures k < |actions| && actions[k].Sync? && ListsFinished(actions[k].replies.answers, i)
    ensures exists v :: v in Run(s, actions[..k]).versions && i < |v.spec.steps| && v.spec.steps[i].name == n
  {
    hide Apply, ListsFinished, Inv;
    var most, a := actions[..|actions| - 1], actions[|actions| - 1];
    if JobSeenFinished(n) in Run(s, most).log {
      k, i := LoggedWasListed(s, most, n);
      assert actions[..k] == most[..k];
    } else {
      RunKeepsInv(s, most);
      k := |actions| - 1;
      i := SyncSawFinished(Run(s, most), a, n);
    }
  }

  lemma SyncSawFinished(s: World, a: Action, n: string) returns (i: nat)
    requires Inv(s) && JobSeenFinished(n) in Apply(s, a).log && JobSeenFinished(n) !in s.log
    ensures a.Sync? && ListsFinished(a.replies.answers, i)
    ensures exists v :: v in s.versions && i < |v.spec.steps| && v.spec.steps[i].name == n
  {
    hide SyncEffect, Surviving, PassEvents, ReachesPass, ListsFinished, CreationsJustified, VersionsInv, Ascend;
    var w, r := SyncReadsVersion(s, a);
    i := PassSeesFinished(w, r.answers, n, |w.spec.steps|);
  }

  // --------------------------------------------------------- what a status refers to

  /** A pass leaves the statuses there are where they are, with their references, and a
      new one refers to the one job that was listed for its step. */
  lemma {:induction false} PassReferences(w: Workflow, answers: Answers, i: nat)
    requires i <= |w.spec.steps|
    ensures var old', new' := w.status.statuses, Before(w, answers, i).w.status.statuses;
      && |old'| <= |new'|
      && (forall j :: 0 <= j < |old'| ==> new'[j].name == old'[j].name && new'[j].reference == old'[j].reference)
      && forall j :: |old'| <= j < |new'| ==> exists k :: 0 <= k < i && RefersTo(new'[j], w.spec.steps[k], answers(k))
  {
    hide ManageStep, RefersTo;
    if i > 0 {
      PassReferences(w, answers, i - 1);
      var p := Before(w, answers, i - 1);
      TurnReferences(p, w.spec.steps[i - 1], answers(i - 1));
      var old', mid, new' := w.status.statuses, p.w.status.statuses, Before(w, answers, i).w.status.statuses;
      forall j | |old'| <= j < |new'| ensures exists k :: 0 <= k < i && RefersTo(new'[j], w.spec.steps[k], answers(k)) {
        if j < |mid| {
          var k :| 0 <= k < i - 1 && RefersTo(mid[j], w.spec.steps[k], answers(k));
          SameReference(mid[j], new'[j], w.spec.steps[k], answers(k));
        } else {
          assert RefersTo(new'[j], w.spec.steps[i - 1], answers(i - 1));
        }
      }
    }
  }

  predicate RefersTo(status: StepStatus, step: Step, a: Answer) {
    && status.name == step.name && a.listing.Some? && |a.listing.value| == 1
    && status.reference == a.listing.value[0].name
  }

  lemma SameReference(status: StepStatus, later: StepStatus, step: Step, a: Answer)
    requires RefersTo(status, step, a) && later.name == status.name && later.reference == status.reference
    ensures RefersTo(later, step, a)
  {
  }

  lemma RecordReferences(statuses: seq<StepStatus>, name: string, job: Job)
    ensures var new' := RecordJob(statuses, name, job);
      && |statuses| <= |new'|
      && (forall j :: 0 <= j < |statuses| ==>
           new'[j].name == statuses[j].name && new'[j].reference == statuses[j].reference)
      && forall j :: |statuses| <= j < |new'| ==> new'[j].name == name && new'[j].reference == job.name
  {
  }

  lemma TurnReferences(p: Pass, step: Step, a: Answer)
    ensures var old', new' := p.w.status.statuses, ManageStep(p, step, a).w.status.statuses;
      && |old'| <= |new'|
      && (forall j :: 0 <= j < |old'| ==> new'[j].name == old'[j].name && new'[j].reference == old'[j].reference)
      && forall j :: |old'| <= j < |new'| ==> RefersTo(new'[j], step, a)
  {
    hide IsComplete, DependenciesComplete, IsJobFinished, LabelsFor, RecordJob;
    if a.listing.Some? && |a.listing.value| == 1 {
      RecordReferences(p.w.status.statuses, step.name, a.listing.value[0]);
    }
  }

  // ------------------------------------------------------ when an update is asked for

  /** The turn of a step asks for the update that stores what it did: a changed status,
      or a job whose creation was acknowledged; and always for an incomplete step that
      is an external reference. A write to the labels alone is not stored. */
  lemma TurnUpdatesIff(p: Pass, step: Step, a: Answer)
    requires !p.toBeUpdated
    ensures var q := ManageStep(p, step, a);
      q.toBeUpdated <==>
        || q.w.status.statuses != p.w.status.statuses
        || (q.created != p.created && a.creation.Created?)
        || (!p.panicked && !IsComplete(p.w.status.statuses, step.name) && step.jobTemplate.None? && step.externalRef.Some?)
  {
    hide DependenciesComplete, LabelsFor, IsJobFinished;
    if !IsComplete(p.w.status.statuses, step.name) && a.listing.Some? && |a.listing.value| == 1 {
      RecordChangesIff(p.w.status.statuses, step.name, a.listing.value[0]);
    }
  }

  lemma RecordChangesIff(statuses: seq<StepStatus>, name: string, job: Job)
    requires !IsComplete(statuses, name)
    ensures RecordJob(statuses, name, job) != statuses <==> StatusIndex(statuses, name) < 0 || IsJobFinished(job)
  {
    hide IsJobFinished;
    var k := StatusIndex(statuses, name);
    if k < 0 {
      assert |RecordJob(statuses, name, job)| == |statuses| + 1;
    } else if IsJobFinished(job) {
      assert RecordJob(statuses, name, job)[k].complete;
    }
  }

  // ------------------------------------------------------------ what a turn creates

  /** A job is stored if and only if the step is due, no job is listed for it, and the
      API server does not refuse it; it has the name that the server gives it, the
      step's labels and no conditions, even if the creation seems to have failed. */
  lemma TurnCreatesIff(p: Pass, i: nat, a: Answer)
    requires i < |p.w.spec.steps| && !p.panicked && MatchLabels(p.w).Some?
    ensures var step, q := p.w.spec.steps[i], ManageStep(p, p.w.spec.steps[i], a);
      if DueStep(p.w, i) && a.listing == Some([]) && !a.creation.Refused? then
        q.created == p.created + [Job(a.creation.jobName, StepLabels(p.w, step), [])]
      else q.created == p.created
  {
    hide IsComplete, DependenciesComplete, LabelsFor, RecordJob, IsJobFinished;
  }

  // --------------------------------------------------------- the log tells the jobs

  /** The steps that jobs were created for, in order. */
  function CreatedFor(log: seq<Event>): seq<string> {
    if log == [] then []
    else
      CreatedFor(log[..|log| - 1])
      + match log[|log| - 1] { case JobCreated(n, _) => [n] case JobSeenFinished(_) => [] }
  }

  /** The steps that jobs are labelled with. */
  function LabelledWith(jobs: seq<Job>): seq<string> {
    seq(|jobs|, k requires 0 <= k < |jobs| =>
      if WORKFLOW_STEP_LABEL_KEY in jobs[k].labels then jobs[k].labels[WORKFLOW_STEP_LABEL_KEY] else "")
  }

  lemma {:induction false} CreatedForAppend(a: seq<Event>, b: seq<Event>)
    ensures CreatedFor(a + b) == CreatedFor(a) + CreatedFor(b)
  {
    if b == [] {
      assert a + b == a;
    } else {
      CreatedForAppend(a, b[..|b| - 1]);
      assert (a + b)[..|a + b| - 1] == a + b[..|b| - 1];
    }
  }

  /** The log of a pass has one creation for each job that it gets stored, with the
      step that the job is labelled with, in the order of the jobs. */
  lemma {:induction false} EventsTellJobs(w: Workflow, answers: Answers, i: nat)
    requires i <= |w.spec.steps|
    ensures CreatedFor(PassEvents(w, answers, i)) == LabelledWith(Before(w, answers, i).created)
  {
    hide ManageStep, StepEvents;
    if i > 0 {
      EventsTellJobs(w, answers, i - 1);
      var p, step, a := Before(w, answers, i - 1), w.spec.steps[i - 1], answers(i - 1);
      CreatedForAppend(PassEvents(w, answers, i - 1), StepEvents(p, step, a));
      TurnIsLogged(p, step, a);
    }
  }

  lemma TurnIsLogged(p: Pass, step: Step, a: Answer)
    ensures LabelledWith(ManageStep(p, step, a).created)
            == LabelledWith(p.created) + CreatedFor(StepEvents(p, step, a))
    ensures forall e :: e in StepEvents(p, step, a) && e.JobCreated? ==>
      e.dependencies == step.dependencies && DependenciesComplete(p.w.status.statuses, step.dependencies)
  {
    hide IsComplete, DependenciesComplete, RecordJob, IsJobFinished;
    var events := StepEvents(p, step, a);
    if events != [] {
      assert events[..0] == [] && CreatedFor([]) == [];
    }
    var q := ManageStep(p, step, a);
    if q.created != p.created {
      assert q.created == p.created + [Job(a.creation.jobName, StepLabels(p.w, step), [])];
    }
  }

  // -------------------------------------------------------------------- the sweep

  /** The sweep asks for the deletion of a name if and only if a listed job of that
      name has no true condition Complete or Failed. */
  lemma SweepAsksIff(listing: seq<Job>, name: string)
    ensures name in SweepTargets(Some(listing)) <==>
      exists i :: 0 <= i < |listing| && listing[i].name == name
                  && !exists c :: c in listing[i].conditions && c.isTrue && (c.kind == JobComplete || c.kind == JobFailed)
  {
    hide IsJobFinished;
    forall i | 0 <= i < |listing|
      ensures IsJobFinished(listing[i]) <==>
              exists c :: c in listing[i].conditions && c.isTrue && (c.kind == JobComplete || c.kind == JobFailed)
    {
      FinishedMeans(listing[i]);
    }
  }

  /** Some listed job of the name has not finished. */
  predicate ListedUnfinished(listing: seq<Job>, name: string) {
    exists i :: 0 <= i < |listing| && listing[i].name == name && !IsJobFinished(listing[i])
  }

  lemma TargetsAre(listing: seq<Job>)
    ensures forall n :: n in SweepTargets(Some(listing)) <==> ListedUnfinished(listing, n)
    ensures SweepTargets(None) == {}
  {
    hide IsJobFinished;
  }

  /** What a sync past the deadline leaves of the jobs: all but those whose deletion it
      asks for and is not refused. */
  lemma DeadlineSyncSweeps(s: World, r: Replies, listing: seq<Job>)
    requires s.stored.Some? && MatchLabels(s.stored.value).Some? && r.sweepListing == Some(listing)
    requires var w := s.stored.value;
      IsWorkflowDefaulted(w) && ValidWorkflow(w) && !w.deleting && w.status.startTime.Some? && PastActiveDeadline(w, s.clock)
    ensures forall j :: j in Apply(s, Sync(None, r)).jobs <==>
      j in s.jobs && (ListedUnfinished(listing, j.name) ==> j.name in r.sweepRefused)
  {
    hide ValidWorkflow, DefaultSpec, SweepTargets, Manage, ListedUnfinished, PastActiveDeadline;
    TargetsAre(listing);
  }

  // ------------------------------------------------------------ removal and errors

  /** The workflow is removed if and only if it is defaulted, not accepted, and the API
      server does not refuse; by nothing else that a sync does. */
  lemma RemovedIff(s: World, r: Replies)
    requires s.stored.Some?
    ensures Apply(s, Sync(None, r)).stored.None? <==>
      IsWorkflowDefaulted(s.stored.value) && !ValidWorkflow(s.stored.value) && !r.removalRefused
  {
    hide ValidWorkflow, DefaultSpec, Manage, Surviving;
  }

  /** Nothing happens to an accepted workflow that is being deleted. */
  lemma DeletingIsLeftAlone(s: World, r: Replies)
    requires s.stored.Some? && s.stored.value.deleting
    requires IsWorkflowDefaulted(s.stored.value) && ValidWorkflow(s.stored.value)
    ensures Apply(s, Sync(None, r)) == s.(clock := s.clock + r.elapsed)
  {
    hide ValidWorkflow, DefaultSpec;
    NothingDeleted(s.jobs);
    assert s.jobs + [] == s.jobs;
  }

  /** A sync returns an error if and only if a removal or a deletion of the sweep was
      refused, or the listing for the sweep failed; a lost update is none. */
  lemma SyncFailsIff(w: Workflow, start: int, r: Replies)
    ensures SyncEffect(w, start, r).failed <==>
      && IsWorkflowDefaulted(w)
      && if !ValidWorkflow(w) then r.removalRefused
         else
           && !w.deleting && w.status.startTime.Some? && PastActiveDeadline(w, start) && MatchLabels(w).Some?
           && (r.sweepListing.None? || exists n :: n in r.sweepRefused && ListedUnfinished(r.sweepListing.value, n))
  {
    hide ValidWorkflow, DefaultSpec, Manage, SweepTargets, ListedUnfinished, PastActiveDeadline;
    TargetsAre(r.sweepListing.GetOr([]));
    if r.sweepListing.Some? {
      var targets := SweepTargets(r.sweepListing);
      if n :| n in r.sweepRefused && ListedUnfinished(r.sweepListing.value, n) {
        assert n in targets * r.sweepRefused;
      }
      if targets * r.sweepRefused != {} {
        var n :| n in targets * r.sweepRefused;
        assert n in r.sweepRefused && ListedUnfinished(r.sweepListing.value, n);
      }
    }
  }

  // ------------------------------------------------------------------ defaulting

  /** What a workflow is stored with after a sync that finds it undefaulted. */
  lemma DefaultsStored(s: World, r: Replies)
    requires s.stored.Some? && !IsWorkflowDefaulted(s.stored.value) && !r.updateLost
    ensures var s' := Apply(s, Sync(None, r));
      && s'.stored.Some? && Defaults(s.stored.value.spec, s'.stored.value.spec)
      && s'.stored.value.status == s.stored.value.status && s'.jobs == s.jobs
  {
    hide DefaultSpec, SerializeSpec, Defaults, Surviving;
    NothingDeleted(s.jobs);
    assert s.jobs + [] == s.jobs;
    SpecDefaults(s.stored.value.spec);
  }
}
