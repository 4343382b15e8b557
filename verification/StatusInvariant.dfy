/** What every pass of manageWorkflow keeps of Status.Statuses, for any replies,
    and what it means for a workflow to be found complete. */
module StatusInvariant {
  import opened Prelude
  import opened WorkflowTypes
  import opened Topology
  import opened StepValidation
  import opened WorkflowPass

  /** The status at j is of a job step, and each dependency of that step is
      Complete strictly before j. */
  ghost predicate Justified(steps: seq<Step>, statuses: seq<StepStatus>, j: nat)
    requires j < |statuses|
  {
    exists i :: 0 <= i < |steps|
                && steps[i].name == statuses[j].name && steps[i].jobTemplate.Some?
                && DependenciesComplete(statuses[..j], steps[i].dependencies)
  }

  ghost predicate Consistent(w: Workflow) {
    && DistinctStatuses(w.status.statuses)
    && forall j :: 0 <= j < |w.status.statuses| ==> Justified(w.spec.steps, w.status.statuses, j)
  }

  lemma GrowthKeepsJustified(steps: seq<Step>, a: seq<StepStatus>, b: seq<StepStatus>, j: nat)
    requires Grows(a, b) && j < |a| && Justified(steps, a, j)
    ensures Justified(steps, b, j)
  {
    hide IsComplete;
    var i :| 0 <= i < |steps| && steps[i].name == a[j].name && steps[i].jobTemplate.Some?
             && DependenciesComplete(a[..j], steps[i].dependencies);
    assert Grows(a[..j], b[..j]);
    forall d | 0 <= d < |steps[i].dependencies| ensures IsComplete(b[..j], steps[i].dependencies[d]) {
      GrowsKeepsComplete(a[..j], b[..j], steps[i].dependencies[d]);
    }
    assert steps[i].name == b[j].name;
  }

  lemma ManageStepKeepsConsistent(p: Pass, i: nat, a: Answer)
    requires i < |p.w.spec.steps| && Consistent(p.w)
    ensures Consistent(ManageStep(p, p.w.spec.steps[i], a).w)
  {
    hide IsComplete, IsJobFinished, StepLabels;
    var steps, step := p.w.spec.steps, p.w.spec.steps[i];
    ManageStepFrame(p, step, a);
    var old', new' := p.w.status.statuses, ManageStep(p, step, a).w.status.statuses;
    forall j | 0 <= j < |new'| ensures Justified(steps, new', j) {
      if j < |old'| {
        GrowthKeepsJustified(steps, old', new', j);
      } else {
        AppendedIsReady(p, step, a, j);
      }
    }
  }

  /** A status is only appended for a job step whose dependencies are Complete. */
  lemma AppendedIsReady(p: Pass, step: Step, a: Answer, j: nat)
    requires |p.w.status.statuses| <= j < |ManageStep(p, step, a).w.status.statuses|
    ensures var s := ManageStep(p, step, a).w.status.statuses;
      && j == |p.w.status.statuses| && s[..j] == p.w.status.statuses && s[j].name == step.name
      && step.jobTemplate.Some? && DependenciesComplete(p.w.status.statuses, step.dependencies)
  {
    hide IsComplete, DependenciesComplete, IsJobFinished, StepLabels;
  }

  lemma {:induction false} PassKeepsConsistent(w: Workflow, answers: Answers, i: nat)
    requires i <= |w.spec.steps| && Consistent(w)
    ensures Consistent(Before(w, answers, i).w)
  {
    hide Consistent, ManageStep;
    if i > 0 {
      PassKeepsConsistent(w, answers, i - 1);
      BeforeExtends(w, answers, 0, i - 1);
      ManageStepKeepsConsistent(Before(w, answers, i - 1), i - 1, answers(i - 1));
    }
  }

  /** The run invariant is kept by a whole pass, for any replies. */
  lemma ManageKeepsConsistent(w: Workflow, answers: Answers, now: int)
    requires Consistent(w)
    ensures Consistent(Manage(w, answers, now).w)
    ensures Grows(w.status.statuses, Manage(w, answers, now).w.status.statuses)
    ensures w.status.conditions <= Manage(w, answers, now).w.status.conditions
  {
    hide ManageStep, Grows, DistinctStatuses;
    PassKeepsConsistent(w, answers, |w.spec.steps|);
    BeforeExtends(w, answers, 0, |w.spec.steps|);
  }

  // -------------------------------------------------------- complete workflows

  function StatusNames(statuses: seq<StepStatus>): seq<string> {
    seq(|statuses|, i requires 0 <= i < |statuses| => statuses[i].name)
  }

  /** If a pass finds the workflow complete, the dependencies have no cycle and
      name existing steps, and the statuses list the steps in a topological
      order: validation plays no part in this. */
  lemma CompleteMeansSorted(w: Workflow)
    requires UniqueNames(w.spec.steps) && Consistent(w) && AllComplete(w)
    ensures TopologicalOrder(StepsMap(w.spec.steps), StatusNames(w.status.statuses))
    ensures Closed(StepsMap(w.spec.steps)) && Acyclic(StepsMap(w.spec.steps))
    ensures |w.status.statuses| == |w.spec.steps|
  {
    hide IsComplete;
    var steps, statuses := w.spec.steps, w.status.statuses;
    var g, names := StepsMap(steps), StatusNames(statuses);
    StepsMapNames(steps);
    StatusesNameSteps(w);
    forall k, m | 0 <= k < |names| && DependsOn(g, names[k], m) ensures m in names[..k] {
      DependencyStandsBefore(w, k, m);
    }
    OrderExcludesCycles(g, names);
    NoDupCardinality(names);
    StepsMapSize(steps);
  }

  lemma StatusesNameSteps(w: Workflow)
    requires UniqueNames(w.spec.steps) && Consistent(w) && AllComplete(w)
    ensures Elements(StatusNames(w.status.statuses)) == StepsMap(w.spec.steps).Keys
  {
    var steps, statuses := w.spec.steps, w.status.statuses;
    var names := StatusNames(statuses);
    StepsMapNames(steps);
    forall n | n in names ensures n in StepsMap(steps) {
      var j :| 0 <= j < |names| && names[j] == n;
      assert Justified(steps, statuses, j);
    }
    forall n | n in StepsMap(steps) ensures n in names {
      var i :| 0 <= i < |steps| && steps[i].name == n;
      assert IsComplete(statuses, n);
      assert names[StatusIndex(statuses, n)] == n;
    }
  }

  lemma DependencyStandsBefore(w: Workflow, k: nat, m: string)
    requires UniqueNames(w.spec.steps) && Consistent(w) && k < |w.status.statuses|
    requires DependsOn(StepsMap(w.spec.steps), w.status.statuses[k].name, m)
    ensures m in StatusNames(w.status.statuses)[..k]
  {
    var steps, statuses := w.spec.steps, w.status.statuses;
    assert Justified(steps, statuses, k);
    var i :| 0 <= i < |steps| && steps[i].name == statuses[k].name
             && DependenciesComplete(statuses[..k], steps[i].dependencies);
    UniqueStepsMap(steps, i);
    var d :| 0 <= d < |steps[i].dependencies| && steps[i].dependencies[d] == m;
    assert IsComplete(statuses[..k], m);
    var j := StatusIndex(statuses[..k], m);
    assert StatusNames(statuses)[..k][j] == m;
  }

  lemma {:induction false} StepsMapSize(steps: seq<Step>)
    requires UniqueNames(steps)
    ensures |StepsMap(steps)| == |steps|
  {
    if steps != [] {
      var init := steps[..|steps| - 1];
      StepsMapSize(init);
      StepsMapNames(init);
      assert StepsMap(steps).Keys == StepsMap(init).Keys + {steps[|steps| - 1].name};
    }
  }
}
