/** The times that runs of the workflow controller write: when a workflow started,
    when its conditions were added, and when it was done. */
module Timestamps {
  import opened Prelude
  import opened WorkflowTypes
  import opened StepValidation
  import opened WorkflowPass
  import opened StatusInvariant
  import opened UpdateValidation
  import opened WorkflowSync
  import opened WorkflowRun

  /** The deadline of w, if it is one that the test is exact for, is over at t. */
  predicate DeadlineOver(w: Workflow, t: int) {
    && w.status.startTime.Some? && w.spec.activeDeadlineSeconds.Some?
    && t >= w.status.startTime.value + w.spec.activeDeadlineSeconds.value * SECOND
  }

  predicate ExactDeadline(w: Workflow) {
    w.spec.activeDeadlineSeconds.Some? ==> 0 <= w.spec.activeDeadlineSeconds.value <= MAX_EXACT_SECONDS
  }

  /** What the version w' that is stored at now, after w was read at before, says of
      times. */
  ghost predicate Stamps(w: Workflow, w': Workflow, before: int, now: int) {
    var old', new' := w.status, w'.status;
    && (if old'.startTime.Some? then new'.startTime == old'.startTime
        else new'.startTime.Some? ==> new'.startTime == Some(now) && new'.statuses == [] && new'.conditions == [])
    && (new'.conditions == old'.conditions ==> new'.completionTime == old'.completionTime)
    && (new'.conditions != old'.conditions ==>
         && |new'.conditions| == |old'.conditions| + 1 && old'.conditions <= new'.conditions
         && var c := new'.conditions[|old'.conditions|];
         && c.time == now && new'.completionTime == Some(now) && old'.startTime.Some?
         && (c.kind == Failed <==> c.reason == "DeadlineExceeded")
         && (c.kind == Complete ==> AllComplete(w))
         && (ExactDeadline(w) ==> (c.kind == Failed <==> DeadlineOver(w, before))))
  }

  lemma ExactTest(w: Workflow, t: int)
    requires ExactDeadline(w)
    ensures PastActiveDeadline(w, t) <==> DeadlineOver(w, t)
  {
    if w.spec.activeDeadlineSeconds.Some? {
      var d := w.spec.activeDeadlineSeconds.value * SECOND;
      assert Wrap64(d) == d;
    }
  }

  /** What a sync stores. */
  lemma WrittenIsStamped(w: Workflow, start: int, r: Replies)
    requires WorkflowInv(w)
    ensures var e := SyncEffect(w, start, r);
      e.written.Some? ==> Stamps(w, e.written.value, start, start + r.elapsed)
  {
    hide SyncEffect, Stamps, WorkflowInv, ReachesPass;
    if ReachesPass(w, start) {
      PassIsStamped(w, start, r);
    } else {
      OtherIsStamped(w, start, r);
    }
  }

  lemma PassIsStamped(w: Workflow, start: int, r: Replies)
    requires WorkflowInv(w) && ReachesPass(w, start)
    ensures var e := SyncEffect(w, start, r);
      e.written.Some? ==> Stamps(w, e.written.value, start, start + r.elapsed)
  {
    hide AllComplete, ValidWorkflow, Before, DefaultSpec, WorkflowInv, PastActiveDeadline, DeadlineOver, ExactDeadline;
    if ExactDeadline(w) {
      ExactTest(w, start);
    }
    CompleteAppendedIff(w, r.answers, start + r.elapsed);
    SameStart(w, r.answers);
  }

  lemma OtherIsStamped(w: Workflow, start: int, r: Replies)
    requires WorkflowInv(w) && !ReachesPass(w, start)
    ensures var e := SyncEffect(w, start, r);
      e.written.Some? ==> Stamps(w, e.written.value, start, start + r.elapsed)
  {
    hide AllComplete, ValidWorkflow, Manage, DefaultSpec, Consistent, PastActiveDeadline, DeadlineOver, ExactDeadline;
    if ExactDeadline(w) {
      ExactTest(w, start);
    }
  }

  lemma SameStart(w: Workflow, answers: Answers)
    ensures Before(w, answers, |w.spec.steps|).w.status.startTime == w.status.startTime
  {
    hide ManageStep;
    BeforeExtends(w, answers, 0, |w.spec.steps|);
  }

  /** Whatever the action: a new version is stamped with the clock at its end. */
  lemma NewVersionIsStamped(s: World, a: Action)
    requires Inv(s) && Apply(s, a).versions != s.versions
    ensures var s' := Apply(s, a);
      && s.stored.Some? && |s'.versions| == |s.versions| + 1 && s.versions <= s'.versions
      && s'.clock >= s.clock && Stamps(s.stored.value, s'.versions[|s.versions|], s.clock, s'.clock)
  {
    hide SyncEffect, Accepts, Surviving, PassEvents, ReachesPass, CreationsJustified, Ascend, Stamps, WorkflowInv;
    match a
    case Sync(view, r) =>
      if view.None? && s.stored.Some? {
        assert s.stored.value in s.versions;
        WrittenIsStamped(s.stored.value, s.clock, r);
      }
    case Edit(spec) =>
      if s.stored.Some? && Accepts(spec, s.stored.value) {
        EditIsStamped(s.stored.value, spec, s.clock);
      }
    case _ =>
  }

  lemma EditIsStamped(w: Workflow, spec: Spec, now: int)
    ensures Stamps(w, w.(spec := spec), now, now)
  {
  }

  /** Over every run: the version that first has a start time has that of the clock
      after the sync that stored it; conditions and completion time are stamped in
      the same way. */
  lemma RunIsStamped(s: World, actions: seq<Action>, a: Action)
    requires Init(s) && Apply(Run(s, actions), a).versions != Run(s, actions).versions
    ensures var s1, s2 := Run(s, actions), Apply(Run(s, actions), a);
      && s1.stored.Some? && |s2.versions| == |s1.versions| + 1
      && Stamps(s1.stored.value, s2.versions[|s1.versions|], s1.clock, s2.clock)
  {
    hide Run, Apply, Stamps, Inv;
    RunKeepsInv(s, actions);
    NewVersionIsStamped(Run(s, actions), a);
  }

  /** ... and it is started by the first sync that gets its update through. */
  lemma FirstSyncStarts(s: World, r: Replies)
    requires s.stored.Some? && !r.updateLost
    requires var w := s.stored.value;
      IsWorkflowDefaulted(w) && ValidWorkflow(w) && !w.deleting && w.status.startTime.None?
    ensures var s' := Apply(s, Sync(None, r));
      && s'.stored.Some? && s'.stored.value.status.startTime == Some(s'.clock)
      && s'.jobs == s.jobs && s'.stored.value.status.statuses == []
  {
    hide ValidWorkflow, DefaultSpec;
    NothingDeleted(s.jobs);
    assert s.jobs + [] == s.jobs;
  }

  // -------------------------------------------------------------- over whole runs

  ghost predicate InTime(w: Workflow, from: int, now: int) {
    var status := w.status;
    && (status.startTime.Some? ==> from <= status.startTime.value <= now)
    && (status.conditions != [] ==> status.startTime.Some?)
    && (forall i :: 0 <= i < |status.conditions| ==> status.startTime.value <= status.conditions[i].time <= now)
    && (forall i, j :: 0 <= i < j < |status.conditions| ==> status.conditions[i].time <= status.conditions[j].time)
    && (forall i :: 0 <= i < |status.conditions| ==>
         (status.conditions[i].kind == Failed <==> status.conditions[i].reason == "DeadlineExceeded"))
    && status.completionTime
       == if status.conditions == [] then None else Some(status.conditions[|status.conditions| - 1].time)
  }

  lemma StampKeepsTime(w: Workflow, w': Workflow, from: int, before: int, now: int)
    requires InTime(w, from, before) && Stamps(w, w', before, now) && from <= before <= now
    ensures InTime(w', from, now)
  {
    hide AllComplete, DeadlineOver, ExactDeadline;
  }

  lemma LaterInTime(w: Workflow, from: int, now: int, later: int)
    requires InTime(w, from, now) && now <= later
    ensures InTime(w, from, later)
  {
  }

  /** Over every run, in every version: the start time lies between the beginning and
      the clock, the conditions are stamped in order after it, the completion time is
      the stamp of the last one, and the failed ones are those of the deadline. */
  lemma {:induction false} RunKeepsTime(s: World, actions: seq<Action>)
    requires Init(s)
    ensures s.clock <= Run(s, actions).clock
    ensures forall w :: w in Run(s, actions).versions ==> InTime(w, s.clock, Run(s, actions).clock)
  {
    hide Apply, InTime, Inv, Stamps;
    if actions == [] {
      FirstInTime(s);
    } else {
      var most, a := actions[..|actions| - 1], actions[|actions| - 1];
      RunKeepsTime(s, most);
      RunKeepsInv(s, most);
      var s1, s2 := Run(s, most), Apply(Run(s, most), a);
      ApplyFollows(s1, a);
      ClockGoesOn(s1, a);
      forall w | w in s2.versions ensures InTime(w, s.clock, s2.clock) {
        var k :| 0 <= k < |s2.versions| && s2.versions[k] == w;
        if k < |s1.versions| {
          assert s1.versions[k] == w;
          LaterInTime(w, s.clock, s1.clock, s2.clock);
        } else {
          NewVersionIsStamped(s1, a);
          StoredIsKnown(s1);
          StampKeepsTime(s1.stored.value, w, s.clock, s1.clock, s2.clock);
        }
      }
    }
  }

  /** In every version of every run the workflow counts as finished if and only if the
      completion time is set. */
  lemma FinishedIffCompleted(s: World, actions: seq<Action>, w: Workflow)
    requires Init(s) && w in Run(s, actions).versions
    ensures IsWorkflowFinished(w) <==> w.status.completionTime.Some?
  {
    hide Run;
    RunKeepsTime(s, actions);
    if w.status.conditions != [] {
      assert w.status.conditions[0].kind == Complete || w.status.conditions[0].kind == Failed;
    }
  }

  lemma FirstInTime(s: World)
    requires Init(s)
    ensures forall w :: w in s.versions ==> InTime(w, s.clock, s.clock)
  {
  }

  lemma ClockGoesOn(s: World, a: Action)
    ensures s.clock <= Apply(s, a).clock
  {
    hide SyncEffect, Accepts, Surviving, PassEvents, ReachesPass;
  }

  lemma StoredIsKnown(s: World)
    requires Inv(s) && s.stored.Some?
    ensures s.stored.value in s.versions
  {
  }
}
