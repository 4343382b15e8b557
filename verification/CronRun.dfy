/** Runs of syncOne for one CronWorkflow with a fixed spec, among others of its
    namespace: the clock does not go back and no workflow is deleted. */
module CronRun {
  import opened Prelude
  import opened WorkflowSync
  import opened CronSchedule
  import opened CronWorkflowController

  /** A workflow created for a schedule time, by a sync at a time. */
  datatype Entry = Entry(scheduled: int, at: int)

  /** workflows are those of the namespace, active the stored active list of the
      CronWorkflow; log is a history. */
  datatype World = World(workflows: seq<ListedWorkflow>, active: seq<string>, clock: int, log: seq<Entry>)

  datatype Action =
    | Sync(updateFails: bool, refused: bool, newUid: string)
    | OtherSync(other: CronWorkflow, scheduled: int, newUid: string)
    | FinishWorkflow(index: nat)
    | Tick(duration: nat)

  /** A schedule that is due at whole seconds, and its Next. */
  ghost predicate Schedule(cw: CronWorkflow, next: int -> int, due: int -> bool, horizon: int -> int) {
    NextOf(cw, next, due, horizon) && forall t :: due(t) ==> t % SECOND == 0
  }

  /** An object as the API server lets it be: the name is a DNS subdomain, and no
      time is before the year 1. */
  predicate ValidObject(cw: CronWorkflow) {
    && !EndsInDash(cw.name) && ZERO_TIME <= cw.creation
    && (cw.lastScheduleTime.Some? ==> ZERO_TIME <= cw.lastScheduleTime.value)
  }

  predicate ValidAction(cw: CronWorkflow, a: Action) {
    a.OtherSync? ==> a.other.name != cw.name && ValidObject(a.other)
  }

  function Apply(s: World, cw: CronWorkflow, next: int -> int, a: Action): World {
    match a
    case Sync(updateFails, refused, newUid) =>
      var active := if updateFails then s.active else Pruned(s.active, ChildrenOf(s.workflows, cw.uid));
      var created := Creates(cw, s.clock, next, NamesOf(s.workflows), updateFails, refused);
      if created.None? then s.(active := active)
      else
        World(s.workflows + [InferWorkflow(cw, created.value, newUid)], active, s.clock,
              s.log + [Entry(created.value, s.clock)])
    case OtherSync(other, scheduled, newUid) =>
      if WorkflowName(other.name, scheduled) in NamesOf(s.workflows) then s
      else s.(workflows := s.workflows + [InferWorkflow(other, scheduled, newUid)])
    case FinishWorkflow(k) =>
      if k < |s.workflows| then s.(workflows := s.workflows[k := s.workflows[k].(finished := true)]) else s
    case Tick(d) => s.(clock := s.clock + d)
  }

  function Run(s: World, cw: CronWorkflow, next: int -> int, actions: seq<Action>): World {
    if actions == [] then s
    else Apply(Run(s, cw, next, actions[..|actions| - 1]), cw, next, actions[|actions| - 1])
  }

  predicate HasWorkflowFor(s: World, cw: CronWorkflow, t: int) {
    WorkflowName(cw.name, t) in NamesOf(s.workflows)
  }

  predicate Logged(log: seq<Entry>, t: int) {
    exists k :: 0 <= k < |log| && log[k].scheduled == t
  }

  ghost predicate Init(s: World, cw: CronWorkflow, due: int -> bool) {
    s.log == [] && forall t :: due(t) ==> !HasWorkflowFor(s, cw, t)
  }

  /** The scheduled time is the latest due one at the time of the sync, after the
      earliest that counts, with no more than 100 in between and no gap that Next
      gives up in. */
  ghost predicate Latest(cw: CronWorkflow, due: int -> bool, horizon: int -> int, e: Entry) {
    && due(e.scheduled) && EarliestTime(cw, e.at) < e.scheduled <= e.at
    && (forall u :: e.scheduled < u <= e.at ==> !due(u))
    && !MoreDueThan(MAX_MISSED, due, EarliestTime(cw, e.at), e.at)
    && !GivesUp(due, horizon, EarliestTime(cw, e.at), e.at)
  }

  ghost predicate Inv(s: World, cw: CronWorkflow, due: int -> bool, horizon: int -> int) {
    && (forall t :: due(t) ==> (HasWorkflowFor(s, cw, t) <==> Logged(s.log, t)))
    && (forall k :: 0 <= k < |s.log| ==> Latest(cw, due, horizon, s.log[k]) && s.log[k].at <= s.clock)
    && forall i, j :: 0 <= i < j < |s.log| ==>
      s.log[i].scheduled < s.log[j].scheduled && s.log[i].at <= s.log[j].at
  }

  /** Due times of one CronWorkflow get different names. */
  lemma DueNamesDiffer(cw: CronWorkflow, next: int -> int, due: int -> bool, horizon: int -> int, s: int, t: int)
    requires Schedule(cw, next, due, horizon) && ValidObject(cw)
    requires due(s) && due(t) && WorkflowName(cw.name, s) == WorkflowName(cw.name, t)
    ensures s == t
  {
    hide NextOf;
    NameInjective(cw.name, s, cw.name, t);
  }

  lemma EarliestIsValid(cw: CronWorkflow, now: int)
    requires ValidObject(cw)
    ensures ZERO_TIME <= EarliestTime(cw, now)
  {
  }

  /** When a sync creates a workflow, and for which time. */
  lemma CreatesIff(
    s: World, cw: CronWorkflow, next: int -> int, due: int -> bool, horizon: int -> int,
    updateFails: bool, refused: bool, t: int)
    requires Schedule(cw, next, due, horizon) && ValidObject(cw) && Inv(s, cw, due, horizon)
    ensures Creates(cw, s.clock, next, NamesOf(s.workflows), updateFails, refused) == Some(t) <==>
      && !updateFails && !refused && !cw.deleting && cw.suspend != Some(true) && cw.parses
      && Latest(cw, due, horizon, Entry(t, s.clock)) && !Logged(s.log, t)
  {
    hide RecentUnmet, EarliestTime, WorkflowName, MoreDueThan, NextOf, GivesUp, NamesOf;
    if cw.parses {
      EarliestIsValid(cw, s.clock);
      UnmetMeans(cw, s.clock, next, due, horizon);
      match RecentUnmet(cw, s.clock, next) {
        case Times(ts) => LastIsLatest(cw, due, horizon, ts, s.clock, t);
        case TooMany =>
      }
    } else {
      NothingUnparsed(cw, s.clock, next);
    }
  }

  lemma NothingUnparsed(cw: CronWorkflow, now: int, next: int -> int)
    requires !cw.parses
    ensures RecentUnmet(cw, now, next) == Unparsable
  {
  }

  lemma LastIsLatest(cw: CronWorkflow, due: int -> bool, horizon: int -> int, ts: seq<int>, now: int, t: int)
    requires DueBetween(ts, due, EarliestTime(cw, now), now) && !MoreDueThan(MAX_MISSED, due, EarliestTime(cw, now), now)
    requires !GivesUp(due, horizon, EarliestTime(cw, now), now)
    ensures Latest(cw, due, horizon, Entry(t, now)) <==> ts != [] && ts[|ts| - 1] == t
    ensures ts != [] ==> due(ts[|ts| - 1])
  {
    hide EarliestTime, MoreDueThan, GivesUp;
    assert t in ts <==> EarliestTime(cw, now) < t <= now && due(t);
    if ts != [] {
      var last := ts[|ts| - 1];
      assert last in ts;
      forall u | last < u <= now ensures !due(u) {
        assert forall i :: 0 <= i < |ts| ==> ts[i] <= last;
        assert u !in ts;
      }
    }
  }

  lemma NamesGrow(workflows: seq<ListedWorkflow>, w: ListedWorkflow)
    ensures NamesOf(workflows + [w]) == NamesOf(workflows) + {w.name}
  {
    var longer := workflows + [w];
    assert longer[|workflows|] == w;
    forall v | v in workflows ensures v in longer && v.name in NamesOf(longer) {
      var k :| 0 <= k < |workflows| && workflows[k] == v;
      assert longer[k] == v;
    }
  }

  lemma SyncKeepsInv(
    s: World, cw: CronWorkflow, next: int -> int, due: int -> bool, horizon: int -> int,
    updateFails: bool, refused: bool, newUid: string)
    requires Schedule(cw, next, due, horizon) && ValidObject(cw) && Inv(s, cw, due, horizon)
    ensures Inv(Apply(s, cw, next, Sync(updateFails, refused, newUid)), cw, due, horizon)
  {
    hide Creates, Latest, WorkflowName, NextOf, NamesOf, Pruned, ChildrenOf, ValidObject;
    var created := Creates(cw, s.clock, next, NamesOf(s.workflows), updateFails, refused);
    if created.Some? {
      var t, s' := created.value, Apply(s, cw, next, Sync(updateFails, refused, newUid));
      CreatesIff(s, cw, next, due, horizon, updateFails, refused, t);
      LatestIsDue(cw, due, horizon, Entry(t, s.clock));
      NamesGrow(s.workflows, InferWorkflow(cw, t, newUid));
      assert s'.log[|s.log|] == Entry(t, s.clock);
      forall u | due(u) ensures HasWorkflowFor(s', cw, u) <==> Logged(s'.log, u) {
        if WorkflowName(cw.name, u) == WorkflowName(cw.name, t) {
          DueNamesDiffer(cw, next, due, horizon, u, t);
        }
        LoggedGrows(s.log, Entry(t, s.clock), u);
      }
      forall i | 0 <= i < |s.log| ensures s.log[i].scheduled < t {
        LatestGrows(cw, due, horizon, s.log[i], Entry(t, s.clock));
        assert Logged(s.log, s.log[i].scheduled);
      }
    }
  }

  lemma LatestIsDue(cw: CronWorkflow, due: int -> bool, horizon: int -> int, e: Entry)
    requires Latest(cw, due, horizon, e)
    ensures due(e.scheduled)
  {
  }

  lemma LatestGrows(cw: CronWorkflow, due: int -> bool, horizon: int -> int, a: Entry, b: Entry)
    requires Latest(cw, due, horizon, a) && Latest(cw, due, horizon, b) && a.at <= b.at
    ensures a.scheduled <= b.scheduled
  {
  }

  lemma LoggedGrows(log: seq<Entry>, e: Entry, t: int)
    ensures Logged(log + [e], t) <==> Logged(log, t) || e.scheduled == t
  {
    var longer := log + [e];
    assert longer[|log|] == e;
    if Logged(log, t) {
      var k :| 0 <= k < |log| && log[k].scheduled == t;
      assert longer[k].scheduled == t;
    }
  }

  /** The names that count stay the same. */
  lemma SameNamesKeepInv(s: World, s': World, cw: CronWorkflow, due: int -> bool, horizon: int -> int)
    requires Inv(s, cw, due, horizon) && s'.log == s.log && s.clock <= s'.clock
    requires forall t :: due(t) ==> (HasWorkflowFor(s', cw, t) <==> HasWorkflowFor(s, cw, t))
    ensures Inv(s', cw, due, horizon)
  {
    hide Latest, Logged, HasWorkflowFor;
  }

  lemma OtherNames(s: World, cw: CronWorkflow, other: CronWorkflow, scheduled: int, newUid: string, t: int)
    requires ValidObject(cw) && ValidObject(other) && other.name != cw.name
    ensures var s' := s.(workflows := s.workflows + [InferWorkflow(other, scheduled, newUid)]);
      HasWorkflowFor(s', cw, t) <==> HasWorkflowFor(s, cw, t)
  {
    hide WorkflowName, NamesOf;
    NamesGrow(s.workflows, InferWorkflow(other, scheduled, newUid));
    if WorkflowName(cw.name, t) == WorkflowName(other.name, scheduled) {
      NameInjective(cw.name, t, other.name, scheduled);
    }
  }

  lemma FinishingKeepsNames(workflows: seq<ListedWorkflow>, k: nat)
    requires k < |workflows|
    ensures NamesOf(workflows[k := workflows[k].(finished := true)]) == NamesOf(workflows)
  {
    var after := workflows[k := workflows[k].(finished := true)];
    forall i | 0 <= i < |workflows| ensures workflows[i].name == after[i].name {
    }
    forall n | n in NamesOf(workflows) ensures n in NamesOf(after) {
      var i :| 0 <= i < |workflows| && workflows[i].name == n;
      assert after[i] in after;
    }
    forall n | n in NamesOf(after) ensures n in NamesOf(workflows) {
      var i :| 0 <= i < |after| && after[i].name == n;
      assert workflows[i] in workflows;
    }
  }

  lemma ApplyKeepsInv(s: World, cw: CronWorkflow, next: int -> int, due: int -> bool, horizon: int -> int, a: Action)
    requires Schedule(cw, next, due, horizon) && ValidObject(cw) && Inv(s, cw, due, horizon) && ValidAction(cw, a)
    ensures Inv(Apply(s, cw, next, a), cw, due, horizon)
  {
    hide Latest, Logged, WorkflowName, NextOf, Creates, Inv, Pruned, ChildrenOf, NamesOf, InferWorkflow, ValidObject;
    var s' := Apply(s, cw, next, a);
    match a
    case Sync(updateFails, refused, newUid) =>
      SyncKeepsInv(s, cw, next, due, horizon, updateFails, refused, newUid);
    case Tick(_) => SameNamesKeepInv(s, s', cw, due, horizon);
    case FinishWorkflow(k) =>
      if k < |s.workflows| {
        FinishingKeepsNames(s.workflows, k);
      }
      SameNamesKeepInv(s, s', cw, due, horizon);
    case OtherSync(other, scheduled, newUid) =>
      forall t ensures HasWorkflowFor(s', cw, t) <==> HasWorkflowFor(s, cw, t) {
        OtherNames(s, cw, other, scheduled, newUid, t);
      }
      SameNamesKeepInv(s, s', cw, due, horizon);
  }

  /** Over every run: the created workflows have strictly increasing schedule
      times, each the latest due when it was created, so at most one per schedule
      time, whatever other CronWorkflows of the namespace create. */
  lemma {:induction false} RunKeepsInv(
    s: World, cw: CronWorkflow, next: int -> int, due: int -> bool, horizon: int -> int, actions: seq<Action>)
    requires Schedule(cw, next, due, horizon) && ValidObject(cw) && Init(s, cw, due)
    requires forall k :: 0 <= k < |actions| ==> ValidAction(cw, actions[k])
    ensures Inv(Run(s, cw, next, actions), cw, due, horizon)
  {
    hide Apply, Schedule, ValidAction, ValidObject;
    if actions != [] {
      var most := actions[..|actions| - 1];
      RunKeepsInv(s, cw, next, due, horizon, most);
      ApplyKeepsInv(Run(s, cw, next, most), cw, next, due, horizon, actions[|actions| - 1]);
    }
  }

  // ------------------------------------------------- the limit of 100 over a life

  /** The last schedule time is never written, so without a starting deadline the
      limit on missed times counts from the creation of the CronWorkflow: it
      gets at most 100 workflows, ever. */
  lemma AtMostHundredWithoutDeadline(
    s: World, cw: CronWorkflow, next: int -> int, due: int -> bool, horizon: int -> int, actions: seq<Action>)
    requires Schedule(cw, next, due, horizon) && ValidObject(cw) && Init(s, cw, due)
    requires cw.startingDeadlineSeconds.None?
    requires forall k :: 0 <= k < |actions| ==> ValidAction(cw, actions[k])
    ensures |Run(s, cw, next, actions).log| <= 100
  {
    hide Run, Schedule, ValidAction, Init, HasWorkflowFor;
    RunKeepsInv(s, cw, next, due, horizon, actions);
    var log := Run(s, cw, next, actions).log;
    if |log| > MAX_MISSED {
      EarliestIsFixed(cw);
      assert Latest(cw, due, horizon, log[MAX_MISSED]);
      LoggedAreDue(log, due, EarliestTime(cw, 0), log[MAX_MISSED].at);
      assert false;
    }
  }

  lemma EarliestIsFixed(cw: CronWorkflow)
    requires cw.startingDeadlineSeconds.None?
    ensures forall now :: EarliestTime(cw, now) == EarliestTime(cw, 0)
  {
  }

  lemma LoggedAreDue(log: seq<Entry>, due: int -> bool, lo: int, hi: int)
    requires |log| > MAX_MISSED
    requires forall k :: 0 <= k <= MAX_MISSED ==> due(log[k].scheduled) && lo < log[k].scheduled <= hi
    requires forall i, j :: 0 <= i < j < |log| ==> log[i].scheduled < log[j].scheduled
    ensures MoreDueThan(MAX_MISSED, due, lo, hi)
  {
    var times := seq(MAX_MISSED + 1, k requires 0 <= k < MAX_MISSED + 1 => log[k].scheduled);
    assert Ascending(times) && forall i :: 0 <= i < |times| ==> lo < times[i] <= hi && due(times[i]);
  }

  /** More times are due since the earliest than the loop takes, or there was a gap
      that Next gives up in. */
  ghost predicate Starved(cw: CronWorkflow, due: int -> bool, horizon: int -> int, now: int) {
    || MoreDueThan(MAX_MISSED, due, EarliestTime(cw, now), now)
    || GivesUp(due, horizon, EarliestTime(cw, now), now)
  }

  /** From that moment on no sync creates anything any more. */
  lemma {:induction false} StarvedForGood(
    s: World, cw: CronWorkflow, next: int -> int, due: int -> bool, horizon: int -> int, actions: seq<Action>)
    requires Schedule(cw, next, due, horizon) && ValidObject(cw) && cw.startingDeadlineSeconds.None?
    requires Starved(cw, due, horizon, s.clock)
    ensures var s' := Run(s, cw, next, actions); s'.log == s.log && Starved(cw, due, horizon, s'.clock)
  {
    hide Starved, RecentUnmet, Schedule, ValidObject, Pruned, NamesOf, InferWorkflow, WorkflowName;
    if actions != [] {
      StarvedForGood(s, cw, next, due, horizon, actions[..|actions| - 1]);
      var s1, a := Run(s, cw, next, actions[..|actions| - 1]), actions[|actions| - 1];
      StaysStarved(cw, due, horizon, s1.clock, Apply(s1, cw, next, a).clock);
      StarvedFindsNothing(cw, next, due, horizon, s1.clock);
    }
  }

  lemma StarvedFindsNothing(cw: CronWorkflow, next: int -> int, due: int -> bool, horizon: int -> int, now: int)
    requires Schedule(cw, next, due, horizon) && ValidObject(cw) && Starved(cw, due, horizon, now)
    ensures !RecentUnmet(cw, now, next).Times?
  {
    hide RecentUnmet, EarliestTime, MoreDueThan, GivesUp;
    if cw.parses {
      EarliestIsValid(cw, now);
      UnmetMeans(cw, now, next, due, horizon);
    } else {
      NothingUnparsed(cw, now, next);
    }
  }

  lemma StaysStarved(cw: CronWorkflow, due: int -> bool, horizon: int -> int, now: int, later: int)
    requires Starved(cw, due, horizon, now) && cw.startingDeadlineSeconds.None? && now <= later
    ensures Starved(cw, due, horizon, later)
  {
    hide NothingAhead;
    EarliestIsFixed(cw);
  }

  // ------------------------------------------------------- what a sync creates

  /** The workflow that a sync adds: the template's labels with the name of the
      CronWorkflow over them, its annotations, its spec with the defaults, no owner. */
  lemma CreatedIs(
    s: World, cw: CronWorkflow, next: int -> int, updateFails: bool, refused: bool, newUid: string)
    requires Apply(s, cw, next, Sync(updateFails, refused, newUid)).workflows != s.workflows
    ensures var s' := Apply(s, cw, next, Sync(updateFails, refused, newUid));
      && |s'.workflows| == |s.workflows| + 1 && s.workflows <= s'.workflows && |s'.log| == |s.log| + 1
      && var w := s'.workflows[|s.workflows|];
      && w.name == WorkflowName(cw.name, s'.log[|s.log|].scheduled) && w.uid == newUid
      && w.controller == None && !w.finished && w.annotations == cw.templateAnnotations
      && w.labels.Keys == cw.templateLabels.Keys + {"kubernetes.io/cronworkflow"}
      && (forall k :: k in w.labels ==>
           w.labels[k] == if k == "kubernetes.io/cronworkflow" then cw.name else cw.templateLabels[k])
      && Defaults(cw.templateSpec, w.spec)
  {
    hide Creates, Pruned, ChildrenOf, NamesOf, WorkflowName, Defaults, DefaultSpec, SerializeSpec;
    SpecDefaults(cw.templateSpec);
  }

  // -------------------------------------------------------- children and active list

  /** The workflow is controlled by the CronWorkflow, and has the uid. */
  predicate IsChild(w: ListedWorkflow, cronUid: string, u: string) {
    w.controller == Some(("CronWorkflow", cronUid)) && w.uid == u
  }

  predicate SomeChild(workflows: seq<ListedWorkflow>, cronUid: string, u: string) {
    exists k :: 0 <= k < |workflows| && IsChild(workflows[k], cronUid, u)
  }

  predicate SomeFinished(workflows: seq<ListedWorkflow>, cronUid: string, u: string) {
    exists k :: 0 <= k < |workflows| && IsChild(workflows[k], cronUid, u) && workflows[k].finished
  }

  predicate Has(children: seq<Child>, u: string) {
    exists i :: 0 <= i < |children| && children[i].uid == u
  }

  lemma {:induction false} StaysIff(workflows: seq<ListedWorkflow>, cronUid: string, u: string)
    ensures Has(ChildrenOf(workflows, cronUid), u) <==> SomeChild(workflows, cronUid, u)
    ensures FinishedAmong(ChildrenOf(workflows, cronUid), u) <==> SomeFinished(workflows, cronUid, u)
  {
    if workflows != [] {
      var most, w := workflows[..|workflows| - 1], workflows[|workflows| - 1];
      StaysIff(most, cronUid, u);
      var before, all := ChildrenOf(most, cronUid), ChildrenOf(workflows, cronUid);
      assert workflows == most + [w];
      if ControlledBy(w, cronUid) {
        assert all == before + [Child(w.uid, w.finished)];
        OneMoreChild(before, Child(w.uid, w.finished), u);
      } else {
        assert all == before;
      }
      OneMoreListed(most, w, cronUid, u);
    }
  }

  lemma OneMoreChild(children: seq<Child>, c: Child, u: string)
    ensures Has(children + [c], u) <==> Has(children, u) || c.uid == u
    ensures FinishedAmong(children + [c], u) <==> FinishedAmong(children, u) || (c.uid == u && c.finished)
  {
    var all := children + [c];
    assert all[|children|] == c;
    if i :| 0 <= i < |children| && children[i].uid == u {
      assert all[i] == children[i];
    }
    if i :| 0 <= i < |children| && children[i].uid == u && children[i].finished {
      assert all[i] == children[i];
    }
  }

  lemma OneMoreListed(workflows: seq<ListedWorkflow>, w: ListedWorkflow, cronUid: string, u: string)
    ensures SomeChild(workflows + [w], cronUid, u) <==> SomeChild(workflows, cronUid, u) || IsChild(w, cronUid, u)
    ensures SomeFinished(workflows + [w], cronUid, u)
            <==> SomeFinished(workflows, cronUid, u) || (IsChild(w, cronUid, u) && w.finished)
  {
    var all := workflows + [w];
    assert all[|workflows|] == w;
    if k :| 0 <= k < |workflows| && IsChild(workflows[k], cronUid, u) {
      assert all[k] == workflows[k];
    }
    if k :| 0 <= k < |workflows| && IsChild(workflows[k], cronUid, u) && workflows[k].finished {
      assert all[k] == workflows[k];
    }
  }

  /** What is active after a sync that gets its update through: what was, and is the uid
      of a child, of which none that has it is finished. */
  lemma ActiveAfterSyncIff(
    s: World, cw: CronWorkflow, next: int -> int, refused: bool, newUid: string, u: string)
    ensures u in Apply(s, cw, next, Sync(false, refused, newUid)).active <==>
      u in s.active && SomeChild(s.workflows, cw.uid, u) && !SomeFinished(s.workflows, cw.uid, u)
  {
    hide Creates, ChildrenOf, NamesOf, InferWorkflow, SomeChild, SomeFinished;
    var children := ChildrenOf(s.workflows, cw.uid);
    StaysIff(s.workflows, cw.uid, u);
    FilterMembers(s.active, v => StaysActive(children, v));
  }

  /** ... and if its update fails, what was. */
  lemma ActiveIfUpdateFails(s: World, cw: CronWorkflow, next: int -> int, refused: bool, newUid: string)
    ensures Apply(s, cw, next, Sync(true, refused, newUid)) == s
  {
  }

  /** A child that has finished is gone from the list after the next sync that gets its
      update through. */
  lemma FinishedLeaves(
    s: World, cw: CronWorkflow, next: int -> int, actions: seq<Action>, refused: bool, newUid: string, k: nat)
    requires k < |Run(s, cw, next, actions).workflows|
    requires var w := Run(s, cw, next, actions).workflows[k];
      w.controller == Some(("CronWorkflow", cw.uid)) && w.finished
    ensures Run(s, cw, next, actions).workflows[k].uid
            !in Run(s, cw, next, actions + [Sync(false, refused, newUid)]).active
  {
    hide Apply;
    var s1, sync := Run(s, cw, next, actions), Sync(false, refused, newUid);
    assert (actions + [sync])[..|actions|] == actions;
    assert SomeFinished(s1.workflows, cw.uid, s1.workflows[k].uid);
    ActiveAfterSyncIff(s1, cw, next, refused, newUid, s1.workflows[k].uid);
  }

  /** Nothing that is listed goes away, or is no longer finished. */
  lemma ListedStays(s: World, cw: CronWorkflow, next: int -> int, a: Action, cronUid: string, u: string)
    ensures var s' := Apply(s, cw, next, a);
      && (SomeChild(s.workflows, cronUid, u) ==> SomeChild(s'.workflows, cronUid, u))
      && (SomeFinished(s.workflows, cronUid, u) ==> SomeFinished(s'.workflows, cronUid, u))
  {
    hide Creates, Pruned, ChildrenOf, NamesOf, WorkflowName;
    var s' := Apply(s, cw, next, a);
    forall k | 0 <= k < |s.workflows|
      ensures k < |s'.workflows| && s'.workflows[k].uid == s.workflows[k].uid
      ensures s'.workflows[k].controller == s.workflows[k].controller && (s.workflows[k].finished ==> s'.workflows[k].finished)
    {
    }
  }

  /** Over every run: a child that does not finish stays on the list. */
  lemma {:induction false} UnfinishedStays(
    s: World, cw: CronWorkflow, next: int -> int, actions: seq<Action>, u: string)
    requires u in s.active && SomeChild(s.workflows, cw.uid, u)
    requires !SomeFinished(Run(s, cw, next, actions).workflows, cw.uid, u)
    ensures u in Run(s, cw, next, actions).active && SomeChild(Run(s, cw, next, actions).workflows, cw.uid, u)
  {
    hide Apply, SomeChild, SomeFinished;
    if actions != [] {
      var most, a := actions[..|actions| - 1], actions[|actions| - 1];
      var s1 := Run(s, cw, next, most);
      ListedStays(s1, cw, next, a, cw.uid, u);
      UnfinishedStays(s, cw, next, most, u);
      match a
      case Sync(updateFails, refused, newUid) =>
        if updateFails {
          ActiveIfUpdateFails(s1, cw, next, refused, newUid);
        } else {
          ActiveAfterSyncIff(s1, cw, next, refused, newUid, u);
        }
      case _ => OthersKeepActive(s1, cw, next, a);
    }
  }

  lemma OthersKeepActive(s: World, cw: CronWorkflow, next: int -> int, a: Action)
    requires !a.Sync?
    ensures Apply(s, cw, next, a).active == s.active
  {
    hide NamesOf, WorkflowName;
  }

  function ChildUids(workflows: seq<ListedWorkflow>, cronUid: string): seq<string> {
    if workflows == [] then []
    else
      var w := workflows[|workflows| - 1];
      ChildUids(workflows[..|workflows| - 1], cronUid) + if ControlledBy(w, cronUid) then [w.uid] else []
  }

  lemma {:induction false} ChildUidsAre(workflows: seq<ListedWorkflow>, cronUid: string)
    ensures |ChildUids(workflows, cronUid)| == |ChildrenOf(workflows, cronUid)|
    ensures forall i :: 0 <= i < |ChildUids(workflows, cronUid)| ==>
      ChildrenOf(workflows, cronUid)[i].uid == ChildUids(workflows, cronUid)[i]
  {
    if workflows != [] {
      ChildUidsAre(workflows[..|workflows| - 1], cronUid);
    }
  }

  lemma {:induction false} FinishingKeepsChildren(workflows: seq<ListedWorkflow>, k: nat, cronUid: string)
    requires k < |workflows|
    ensures ChildUids(workflows[k := workflows[k].(finished := true)], cronUid) == ChildUids(workflows, cronUid)
  {
    var last := |workflows| - 1;
    var after := workflows[k := workflows[k].(finished := true)];
    if k < last {
      FinishingKeepsChildren(workflows[..last], k, cronUid);
      assert after[..last] == workflows[..last][k := workflows[..last][k].(finished := true)];
    } else {
      assert after[..last] == workflows[..last];
    }
  }

  /** No run gives any CronWorkflow a child: what syncOne creates has no owner. */
  lemma {:induction false} ChildrenNeverChange(
    s: World, cw: CronWorkflow, next: int -> int, actions: seq<Action>, cronUid: string)
    ensures ChildUids(Run(s, cw, next, actions).workflows, cronUid) == ChildUids(s.workflows, cronUid)
  {
    hide Creates, NamesOf, Pruned, ChildrenOf, WorkflowName;
    if actions != [] {
      var s1, a := Run(s, cw, next, actions[..|actions| - 1]), actions[|actions| - 1];
      ChildrenNeverChange(s, cw, next, actions[..|actions| - 1], cronUid);
      var after := Apply(s1, cw, next, a).workflows;
      if a.FinishWorkflow? && a.index < |s1.workflows| {
        FinishingKeepsChildren(s1.workflows, a.index, cronUid);
      } else if after != s1.workflows {
        assert after[..|after| - 1] == s1.workflows && !ControlledBy(after[|after| - 1], cronUid);
      }
    }
  }

  /** The active list is never added to: an entry at the end was one at the beginning,
      and the list of a new CronWorkflow stays empty. */
  lemma {:induction false} ActiveOnlyShrinks(s: World, cw: CronWorkflow, next: int -> int, actions: seq<Action>)
    ensures forall u :: u in Run(s, cw, next, actions).active ==> u in s.active
    ensures s.active == [] ==> Run(s, cw, next, actions).active == []
  {
    hide Creates, NamesOf, ChildrenOf, WorkflowName, StaysActive;
    if actions != [] {
      var s1, a := Run(s, cw, next, actions[..|actions| - 1]), actions[|actions| - 1];
      ActiveOnlyShrinks(s, cw, next, actions[..|actions| - 1]);
      FilterMembers(s1.active, u => StaysActive(ChildrenOf(s1.workflows, cw.uid), u));
    }
  }

  /** So a sync that gets its update through leaves of the list only what was there
      and is still the uid of one of the children that there were at the beginning. */
  lemma ActiveAreOldChildren(
    s: World, cw: CronWorkflow, next: int -> int, actions: seq<Action>, refused: bool, newUid: string, u: string)
    requires u in Run(s, cw, next, actions + [Sync(false, refused, newUid)]).active
    ensures u in s.active && u in ChildUids(s.workflows, cw.uid)
  {
    hide Run, Apply, StaysActive, Pruned;
    var sync := Sync(false, refused, newUid);
    var s1 := Run(s, cw, next, actions);
    ActiveOnlyShrinks(s, cw, next, actions);
    ChildrenNeverChange(s, cw, next, actions, cw.uid);
    assert Run(s, cw, next, actions + [sync]).active == Pruned(s1.active, ChildrenOf(s1.workflows, cw.uid)) by {
      SyncPrunes(s, cw, next, actions, refused, newUid);
    }
    PrunedAreChildren(s1, cw.uid, u);
  }

  lemma SyncPrunes(s: World, cw: CronWorkflow, next: int -> int, actions: seq<Action>, refused: bool, newUid: string)
    ensures var s1 := Run(s, cw, next, actions);
      Run(s, cw, next, actions + [Sync(false, refused, newUid)]).active == Pruned(s1.active, ChildrenOf(s1.workflows, cw.uid))
  {
    hide Creates, NamesOf, ChildrenOf, WorkflowName, Pruned;
    var longer := actions + [Sync(false, refused, newUid)];
    assert longer[..|longer| - 1] == actions;
  }

  lemma PrunedAreChildren(s: World, cronUid: string, u: string)
    requires u in Pruned(s.active, ChildrenOf(s.workflows, cronUid))
    ensures u in s.active && u in ChildUids(s.workflows, cronUid)
  {
    var children := ChildrenOf(s.workflows, cronUid);
    ChildUidsAre(s.workflows, cronUid);
    FilterMembers(s.active, v => StaysActive(children, v));
    var i :| 0 <= i < |children| && children[i].uid == u;
    assert ChildUids(s.workflows, cronUid)[i] == u;
  }
}
