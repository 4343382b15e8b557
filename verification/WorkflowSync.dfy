/** sync of pkg/controller/workflow.go as a function of the stored workflow, the
    clock and the replies: defaulting, validation, start, deadline, pass. */
module WorkflowSync {
  import opened Prelude
  import opened WorkflowTypes
  import opened StepValidation
  import opened WorkflowPass

  // --------------------------------------------------------------- defaulting

  /** SetDefaults_Job, on the fields it sets in the template. */
  function DefaultTemplate(t: JobTemplate): JobTemplate {
    if t.completions.None? && t.parallelism.None? then t.(completions := Some(1), parallelism := Some(1))
    else if t.parallelism.None? then t.(parallelism := Some(1))
    else t
  }

  function DefaultStep(step: Step): Step {
    if step.jobTemplate.None? then step
    else step.(jobTemplate := Some(DefaultTemplate(step.jobTemplate.value)))
  }

  function DefaultSpec(spec: Spec): Spec {
    spec.(steps := seq(|spec.steps|, i requires 0 <= i < |spec.steps| => DefaultStep(spec.steps[i])))
  }

  function DefaultWorkflow(w: Workflow): Workflow {
    w.(spec := DefaultSpec(w.spec))
  }

  predicate IsWorkflowDefaulted(w: Workflow) {
    DefaultWorkflow(w).spec == w.spec
  }

  /** The write that defaults a workflow is not repeated. */
  lemma DefaultedOnce(w: Workflow)
    ensures IsWorkflowDefaulted(DefaultWorkflow(w))
  {
    var d := DefaultWorkflow(w);
    assert DefaultWorkflow(d).spec.steps == d.spec.steps;
  }

  // ----------------------------------------------------------------- deadline

  /** pastActiveDeadline, with the int64 arithmetic of time.Duration. */
  predicate PastActiveDeadline(w: Workflow, now: int) {
    && w.spec.activeDeadlineSeconds.Some? && w.status.startTime.Some?
    && TimeSub(now, w.status.startTime.value) >= Wrap64(w.spec.activeDeadlineSeconds.value * SECOND)
  }

  /** The test compares exact times, whatever the elapsed time, if and only if the
      deadline is at most 9223372036 seconds. */
  lemma DeadlineExactIff(deadline: int)
    requires 0 <= deadline <= MAX_INT64
    ensures (forall now, start :: TimeSub(now, start) >= Wrap64(deadline * SECOND) <==> now - start >= deadline * SECOND)
            <==> deadline <= MAX_EXACT_SECONDS
  {
    if deadline > MAX_EXACT_SECONDS {
      assert TimeSub(MAX_INT64, 0) >= Wrap64(deadline * SECOND);
    }
  }

  /** A deadline one second longer is past as soon as the workflow starts. */
  lemma DeadlineWraps(w: Workflow, start: int)
    requires w.status.startTime == Some(start)
    requires w.spec.activeDeadlineSeconds == Some(MAX_EXACT_SECONDS + 1)
    ensures PastActiveDeadline(w, start)
  {
    assert (MAX_EXACT_SECONDS + 1) * SECOND == 9_223_372_037_000_000_000;
  }

  // ------------------------------------------------------------------- updates

  /** What is stored of a spec that the controller writes: the JSON encoding omits
      an empty matchLabels, which is then read back as nil. */
  function SerializeSpec(spec: Spec): Spec {
    if spec.selector.Some? && spec.selector.value.matchLabels == Some(map[])
    then spec.(selector := Some(spec.selector.value.(matchLabels := None)))
    else spec
  }

  function Serialize(w: Workflow): Workflow {
    w.(spec := SerializeSpec(w.spec))
  }

  lemma SerializeKeeps(w: Workflow)
    ensures var u := Serialize(w);
      && LabelMap(u) == LabelMap(w) && u.spec.steps == w.spec.steps && u.status == w.status && u.name == w.name
      && u.spec.activeDeadlineSeconds == w.spec.activeDeadlineSeconds
      && (ValidWorkflow(u) <==> ValidWorkflow(w)) && (IsWorkflowDefaulted(u) <==> IsWorkflowDefaulted(w))
      && (LabelMap(w) != map[] ==> u == w)
  {
    var u := Serialize(w);
    assert DefaultWorkflow(u).spec.steps == DefaultWorkflow(w).spec.steps;
  }

  // ------------------------------------------------- what defaulting comes to

  /** Fields that were given are kept; the number of pods at a time becomes 1 if it was
      not given, the number of completions only if neither was. */
  ghost predicate TemplateDefaults(t: JobTemplate, t': JobTemplate) {
    && t'.podLabels == t.podLabels && t'.specValid == t.specValid
    && (t.parallelism.Some? ==> t'.parallelism == t.parallelism)
    && (t.parallelism.None? ==> t'.parallelism == Some(1))
    && (t.completions.Some? || t.parallelism.Some? ==> t'.completions == t.completions)
    && (t.completions.None? && t.parallelism.None? ==> t'.completions == Some(1))
  }

  /** A spec as it is stored once it is defaulted: the same steps but for the defaults in
      their templates, and the same selector but that an empty map is nil. */
  ghost predicate Defaults(spec: Spec, stored: Spec) {
    && |stored.steps| == |spec.steps| && stored.activeDeadlineSeconds == spec.activeDeadlineSeconds
    && (forall i :: 0 <= i < |spec.steps| ==>
         && stored.steps[i].name == spec.steps[i].name && stored.steps[i].dependencies == spec.steps[i].dependencies
         && stored.steps[i].externalRef == spec.steps[i].externalRef
         && (stored.steps[i].jobTemplate.Some? <==> spec.steps[i].jobTemplate.Some?)
         && (spec.steps[i].jobTemplate.Some? ==>
              TemplateDefaults(spec.steps[i].jobTemplate.value, stored.steps[i].jobTemplate.value)))
    && (stored.selector.Some? <==> spec.selector.Some?)
    && (spec.selector.Some? ==>
         && stored.selector.value.matchExpressions == spec.selector.value.matchExpressions
         && stored.selector.value.wellFormed == spec.selector.value.wellFormed
         && stored.selector.value.matchLabels
            == if spec.selector.value.matchLabels == Some(map[]) then None else spec.selector.value.matchLabels)
  }

  lemma SpecDefaults(spec: Spec)
    ensures Defaults(spec, SerializeSpec(DefaultSpec(spec)))
  {
    hide DefaultTemplate, TemplateDefaults;
    forall i | 0 <= i < |spec.steps| && spec.steps[i].jobTemplate.Some?
      ensures TemplateDefaults(spec.steps[i].jobTemplate.value, DefaultTemplate(spec.steps[i].jobTemplate.value))
    {
      TemplateIsDefaulted(spec.steps[i].jobTemplate.value);
    }
  }

  /** A workflow needs no defaulting if and only if every job template gives the number
      of pods at a time. */
  lemma DefaultedIff(w: Workflow)
    ensures IsWorkflowDefaulted(w) <==>
      forall i :: 0 <= i < |w.spec.steps| && w.spec.steps[i].jobTemplate.Some? ==>
        w.spec.steps[i].jobTemplate.value.parallelism.Some?
  {
    var steps, d := w.spec.steps, DefaultWorkflow(w).spec.steps;
    forall i | 0 <= i < |steps|
      ensures d[i] == steps[i]
              <==> (steps[i].jobTemplate.Some? ==> steps[i].jobTemplate.value.parallelism.Some?)
    {
    }
    if forall i :: 0 <= i < |steps| ==> d[i] == steps[i] {
      assert d == steps;
    }
  }

  lemma TemplateIsDefaulted(t: JobTemplate)
    ensures TemplateDefaults(t, DefaultTemplate(t))
  {
  }

  // --------------------------------------------------------------------- sync

  /** What the outside does during one sync. elapsed separates the two readings
      of the clock; sweepListing and sweepRefused (job names) are the replies to
      deleteJobsFromLabelSelector. */
  datatype Replies = Replies(
    elapsed: nat,
    answers: Answers,
    updateLost: bool,
    removalRefused: bool,
    sweepListing: Option<seq<Job>>,
    sweepRefused: set<string>)

  /** What one sync does: the workflow it writes, if any, whether it removes the
      workflow, the jobs it gets stored, the names it gets deleted, its error, and
      whether it ends in a panic. */
  datatype Effect = Effect(
    written: Option<Workflow>,
    removed: bool,
    created: seq<Job>,
    deleted: set<string>,
    failed: bool,
    panicked: bool)

  const NOTHING := Effect(None, false, [], {}, false, false)

  /** deleteJobsFromLabelSelector asks for every unfinished job of the listing. */
  function SweepTargets(listing: Option<seq<Job>>): set<string> {
    if listing.None? then {}
    else set i | 0 <= i < |listing.value| && !IsJobFinished(listing.value[i]) :: listing.value[i].name
  }

  ghost predicate ReachesPass(w: Workflow, now: int) {
    && IsWorkflowDefaulted(w) && ValidWorkflow(w) && !w.deleting
    && w.status.startTime.Some? && !PastActiveDeadline(w, now)
  }

  ghost function SyncEffect(w: Workflow, start: int, r: Replies): Effect {
    var now := start + r.elapsed;
    if !IsWorkflowDefaulted(w) then NOTHING.(written := Some(Serialize(DefaultWorkflow(w))))
    else if !ValidWorkflow(w) then NOTHING.(removed := !r.removalRefused, failed := r.removalRefused)
    else if w.deleting then NOTHING
    else if w.status.startTime.None? then
      NOTHING.(written := Some(Serialize(w.(status := w.status.(statuses := [], startTime := Some(now))))))
    else if PastActiveDeadline(w, start) then
      var late := Some(Serialize(AppendCondition(w, Condition(Failed, now, "DeadlineExceeded"), now)));
      var targets := SweepTargets(r.sweepListing);
      if MatchLabels(w).None? then NOTHING.(written := late, panicked := true)
      else
        Effect(late, false, [], targets - r.sweepRefused,
               r.sweepListing.None? || targets * r.sweepRefused != {}, false)
    else
      var p := Manage(w, r.answers, now);
      if p.panicked then NOTHING.(created := p.created, panicked := true)
      else NOTHING.(written := if p.toBeUpdated then Some(Serialize(p.w)) else None, created := p.created)
  }

  /** Which syncs panic, for any replies: those of an accepted and started workflow
      without a label map that is past its deadline or has a due step. */
  lemma SyncPanicsIff(w: Workflow, start: int, r: Replies)
    ensures SyncEffect(w, start, r).panicked <==>
      && MatchLabels(w).None?
      && IsWorkflowDefaulted(w) && ValidWorkflow(w) && !w.deleting && w.status.startTime.Some?
      && (PastActiveDeadline(w, start) || exists k :: 0 <= k < |w.spec.steps| && DueStep(w, k))
  {
    hide ValidWorkflow, Before, DueStep, DefaultWorkflow;
    PanicsIff(w, r.answers, |w.spec.steps|);
  }
}
