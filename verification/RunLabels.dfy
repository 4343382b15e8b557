/** What a run keeps of the selector's map, if the labels of the steps cannot
    drift: either because all templates share their keys, or because of the order in
    which the passes let the steps write. */
module RunLabels {
  import opened Prelude
  import opened WorkflowTypes
  import opened JobLabels
  import opened Topology
  import opened OrderedLabels
  import opened PassHistories
  import opened StepValidation
  import opened UpdateValidation
  import opened WorkflowPass
  import opened StatusInvariant
  import opened WorkflowSync
  import opened WorkflowRun

  /** Why the labels do not drift. Shared: writers are all the templates that the
      workflow ever has, over its edits. Ordered: steps are
      the ones it keeps, up to fields that the labels do not depend on. base is the
      selector the workflow is created with. */
  datatype Labelling =
    | Shared(base: Labels, writers: set<Writer>)
    | Ordered(base: Labels, steps: seq<Step>)

  function Writers(steps: seq<Step>): set<Writer> {
    set i | 0 <= i < |steps| && steps[i].jobTemplate.Some? :: WriterOf(steps[i])
  }

  /** The steps agree in all that decides who writes which labels when. */
  ghost predicate SameGraph(a: seq<Step>, b: seq<Step>) {
    && |a| == |b|
    && forall i :: 0 <= i < |a| ==>
      && a[i].name == b[i].name && a[i].dependencies == b[i].dependencies
      && a[i].jobTemplate.Some? == b[i].jobTemplate.Some?
      && (a[i].jobTemplate.Some? ==> a[i].jobTemplate.value.podLabels == b[i].jobTemplate.value.podLabels)
  }

  ghost predicate Admissible(d: Labelling, workflowName: string) {
    match d
    case Shared(base, writers) => SharedKeys(base, writers) && Agreeing(base, workflowName, writers)
    case Ordered(base, steps) => UniqueNames(steps) && PassStable(base, workflowName, steps)
  }

  /** v writes the labels of a step of the workflow. */
  ghost predicate Known(d: Labelling, v: Writer) {
    match d
    case Shared(_, writers) => v in writers
    case Ordered(_, steps) =>
      var g := StepsMap(steps);
      IsJobStep(g, v.stepName) && v == WriterFor(g, v.stepName)
  }

  /** Step n of the name writes after h. */
  ghost predicate HistoryFor(steps: seq<Step>, name: string, n: nat, h: seq<string>) {
    n < |steps| && steps[n].name == name && PassHistory(steps, n, h)
  }

  /** The labels of the jobs of v's step. */
  ghost function Expected(d: Labelling, workflowName: string, v: Writer): (l: Labels)
    ensures WORKFLOW_LABEL_KEY in l && l[WORKFLOW_LABEL_KEY] == workflowName
    ensures WORKFLOW_STEP_LABEL_KEY in l && l[WORKFLOW_STEP_LABEL_KEY] == v.stepName
  {
    match d
    case Shared(base, _) => LabelsFor(base, workflowName, v)
    case Ordered(base, steps) =>
      if n, h :| HistoryFor(steps, v.stepName, n, h)
      then LabelsFor(MapAfter(base, workflowName, StepsMap(steps), h), workflowName, v)
      else LabelsFor(base, workflowName, v)
  }

  /** The selector map may have grown, but gives every writer the same labels. */
  ghost predicate Settled(m: Labels, base: Labels, workflowName: string, writers: set<Writer>) {
    forall v :: v in writers ==> LabelsFor(m, workflowName, v) == LabelsFor(base, workflowName, v)
  }

  /** The passes behind a state, and the turns of the pass it is in: they have left
      the statuses and the labels it has. */
  ghost predicate Lineage(d: Labelling, w: Workflow, passes: seq<set<string>>, completes: set<string>, i: nat)
    requires d.Ordered? && i <= |d.steps|
  {
    var p := Turns(d.steps, After(d.steps, passes), completes, i);
    && LabelMap(w) == MapAfter(d.base, w.name, StepsMap(d.steps), p.wrote)
    && forall n :: IsComplete(w.status.statuses, n) <==> n in p.done
  }

  /** What is kept before turn i of a pass. */
  ghost predicate ObeysAt(d: Labelling, w: Workflow, i: nat) {
    match d
    case Shared(base, writers) =>
      Writers(w.spec.steps) <= writers && Settled(LabelMap(w), base, w.name, writers)
    case Ordered(base, steps) =>
      && SameGraph(steps, w.spec.steps) && i <= |steps|
      && exists passes, completes :: Lineage(d, w, passes, completes, i)
  }

  /** What every version of the workflow keeps. */
  ghost predicate Obeys(d: Labelling, w: Workflow) {
    ObeysAt(d, w, 0)
  }

  // ------------------------------------------------------------------- writing

  lemma WritingKeepsSettled(m: Labels, base: Labels, workflowName: string, writers: set<Writer>, v: Writer)
    requires Settled(m, base, workflowName, writers) && SharedKeys(base, writers) && v in writers
    ensures Settled(LabelsFor(m, workflowName, v), base, workflowName, writers)
  {
    forall w | w in writers
      ensures LabelsFor(LabelsFor(m, workflowName, v), workflowName, w) == LabelsFor(base, workflowName, w)
    {
      SharedKeysStep(base, workflowName, v, w, writers);
    }
  }

  lemma MapAfterOneMore(m: Labels, workflowName: string, g: Graph, h: seq<string>, n: string)
    ensures MapAfter(m, workflowName, g, h + [n]) == LabelsFor(MapAfter(m, workflowName, g, h), workflowName, WriterFor(g, n))
  {
    var ws := WritersFor(g, h + [n]);
    assert ws[..|ws| - 1] == WritersFor(g, h);
  }

  /** The step of a version, in the graph of the steps kept. */
  lemma StepInGraph(d: Labelling, w: Workflow, i: nat)
    requires d.Ordered? && UniqueNames(d.steps) && SameGraph(d.steps, w.spec.steps) && i < |w.spec.steps|
    ensures var g, step := StepsMap(d.steps), w.spec.steps[i];
      && step.name == d.steps[i].name && step.dependencies == d.steps[i].dependencies
      && (step.jobTemplate.Some? <==> d.steps[i].jobTemplate.Some?)
      && (step.jobTemplate.Some? ==> IsJobStep(g, step.name) && WriterFor(g, step.name) == WriterOf(step))
  {
    UniqueStepsMap(d.steps, i);
  }

  /** A step is due when it may write. */
  lemma DueIffCanWrite(d: Labelling, w: Workflow, passes: seq<set<string>>, completes: set<string>, i: nat)
    requires d.Ordered? && UniqueNames(d.steps) && SameGraph(d.steps, w.spec.steps) && i < |w.spec.steps|
    requires Lineage(d, w, passes, completes, i)
    ensures DueStep(w, i) <==> CanWrite(d.steps, Turns(d.steps, After(d.steps, passes), completes, i), i)
  {
    hide IsComplete, Turns, After, MapAfter;
    StepInGraph(d, w, i);
    var dependencies := w.spec.steps[i].dependencies;
    if DueStep(w, i) {
      forall m | m in dependencies ensures IsComplete(w.status.statuses, m) {
        var k :| 0 <= k < |dependencies| && dependencies[k] == m;
      }
    }
    if CanWrite(d.steps, Turns(d.steps, After(d.steps, passes), completes, i), i) {
      forall k | 0 <= k < |dependencies| ensures IsComplete(w.status.statuses, dependencies[k]) {
        assert dependencies[k] in dependencies;
      }
    }
  }

  /** The labels of a due step are the expected ones. */
  lemma DueLabels(d: Labelling, w: Workflow, i: nat)
    requires Admissible(d, w.name) && ObeysAt(d, w, i) && i < |w.spec.steps| && DueStep(w, i)
    ensures Known(d, WriterOf(w.spec.steps[i]))
    ensures StepLabels(w, w.spec.steps[i]) == Expected(d, w.name, WriterOf(w.spec.steps[i]))
  {
    hide DueStep, LabelsFor, SharedKeys, Turns, After, CanWrite, PassHistory, UniqueNames;
    DueIsJob(w, i);
    var v := WriterOf(w.spec.steps[i]);
    match d
    case Shared(base, writers) =>
      assert v in Writers(w.spec.steps);
    case Ordered(base, steps) =>
      var passes, completes :| Lineage(d, w, passes, completes, i);
      DueIffCanWrite(d, w, passes, completes, i);
      StepInGraph(d, w, i);
      var h := Turns(steps, After(steps, passes), completes, i).wrote;
      TurnIsHistory(steps, passes, completes, i);
      assert HistoryFor(steps, v.stepName, i, h);
      assert LabelsAfter(base, w.name, StepsMap(steps), h, v.stepName) == StepLabels(w, w.spec.steps[i]);
      SameForAll(d, w.name, v, i, h);
  }

  lemma TurnIsHistory(steps: seq<Step>, passes: seq<set<string>>, completes: set<string>, i: nat)
    requires i < |steps| && CanWrite(steps, Turns(steps, After(steps, passes), completes, i), i)
    ensures PassHistory(steps, i, Turns(steps, After(steps, passes), completes, i).wrote)
  {
    hide CanWrite, Turns, After;
    assert AtTurn(steps, passes, completes, i, Turns(steps, After(steps, passes), completes, i).wrote);
  }

  lemma SameForAll(d: Labelling, workflowName: string, v: Writer, i: nat, h: seq<string>)
    requires d.Ordered? && Admissible(d, workflowName) && Known(d, v) && HistoryFor(d.steps, v.stepName, i, h)
    ensures LabelsAfter(d.base, workflowName, StepsMap(d.steps), h, v.stepName) == Expected(d, workflowName, v)
  {
    hide PassHistory, LabelsFor, MapAfter;
    var n: nat, h': seq<string> :| HistoryFor(d.steps, v.stepName, n, h')
                 && Expected(d, workflowName, v)
                    == LabelsFor(MapAfter(d.base, workflowName, StepsMap(d.steps), h'), workflowName, v);
    assert HistoryFor(d.steps, v.stepName, n, h') && HistoryFor(d.steps, v.stepName, i, h);
    OneOfName(d.steps, n, i);
  }

  lemma OneOfName(steps: seq<Step>, n: nat, i: nat)
    requires UniqueNames(steps) && n < |steps| && i < |steps| && steps[n].name == steps[i].name
    ensures n == i
  {
  }

  /** The turn of a due step leaves one more write, and perhaps one more Complete step. */
  lemma LineageGrows(d: Labelling, w: Workflow, passes: seq<set<string>>, completes: set<string>, i: nat, w': Workflow)
    returns (completes': set<string>)
    requires d.Ordered? && UniqueNames(d.steps) && SameGraph(d.steps, w.spec.steps) && i < |w.spec.steps|
    requires Lineage(d, w, passes, completes, i) && DueStep(w, i)
    requires w'.name == w.name && LabelMap(w') == StepLabels(w, w.spec.steps[i])
    requires Updates(w.status.statuses, w'.status.statuses, w.spec.steps[i].name)
    ensures Lineage(d, w', passes, completes', i + 1)
  {
    hide IsComplete, LabelsFor, MapAfter, CanWrite, After, Grows;
    var n, start := w.spec.steps[i].name, After(d.steps, passes);
    completes' := completes - {n} + if IsComplete(w'.status.statuses, n) then {n} else {};
    var p := Turns(d.steps, start, completes, i);
    StepInGraph(d, w, i);
    DueIffCanWrite(d, w, passes, completes, i);
    assert forall j :: 0 <= j < i ==> d.steps[j].name != n;
    TurnsAgree(d.steps, start, completes, completes', i);
    MapAfterOneMore(d.base, w.name, StepsMap(d.steps), p.wrote, n);
    assert n !in p.done by {
      DueIsIncomplete(w, i);
    }
  }

  lemma DueIsIncomplete(w: Workflow, i: nat)
    requires i < |w.spec.steps| && DueStep(w, i)
    ensures !IsComplete(w.status.statuses, w.spec.steps[i].name)
  {
  }

  /** The turn of a step that is not due leaves nothing. */
  lemma LineageStays(d: Labelling, w: Workflow, passes: seq<set<string>>, completes: set<string>, i: nat)
    requires d.Ordered? && UniqueNames(d.steps) && SameGraph(d.steps, w.spec.steps) && i < |w.spec.steps|
    requires Lineage(d, w, passes, completes, i) && !DueStep(w, i)
    ensures Lineage(d, w, passes, completes, i + 1)
  {
    hide IsComplete, DueStep, MapAfter, CanWrite, After;
    DueIffCanWrite(d, w, passes, completes, i);
  }

  lemma DueStepWrites(p: Pass, i: nat, a: Answer)
    requires !p.panicked && MatchLabels(p.w).Some? && i < |p.w.spec.steps| && DueStep(p.w, i)
    ensures var q := ManageStep(p, p.w.spec.steps[i], a);
      LabelMap(q.w) == StepLabels(p.w, p.w.spec.steps[i])
  {
    hide IsComplete, StepLabels, DependenciesComplete, IsJobFinished, RecordJob;
  }

  lemma OtherwiseUnchanged(p: Pass, i: nat, a: Answer)
    requires i < |p.w.spec.steps|
    requires p.panicked || MatchLabels(p.w).None? || !DueStep(p.w, i)
    ensures var q := ManageStep(p, p.w.spec.steps[i], a); q.w == p.w && q.created == p.created
  {
    hide IsComplete, StepLabels, DependenciesComplete, IsJobFinished, RecordJob;
  }

  lemma DuePanics(p: Pass, i: nat, a: Answer)
    requires !p.panicked && MatchLabels(p.w).None? && i < |p.w.spec.steps| && DueStep(p.w, i)
    ensures ManageStep(p, p.w.spec.steps[i], a).panicked
  {
    hide IsComplete, DependenciesComplete;
  }

  lemma ManageStepObeys(d: Labelling, p: Pass, i: nat, a: Answer)
    requires Admissible(d, p.w.name) && ObeysAt(d, p.w, i) && i < |p.w.spec.steps| && !p.panicked
    ensures var q := ManageStep(p, p.w.spec.steps[i], a); !q.panicked ==> ObeysAt(d, q.w, i + 1)
  {
    hide ManageStep, DueStep, SharedKeys, PassStable, Settled, SameGraph, Lineage, Updates, IsComplete, Grows, LabelMap;
    var w, w', step := p.w, ManageStep(p, p.w.spec.steps[i], a).w, p.w.spec.steps[i];
    if !DueStep(w, i) {
      OtherwiseUnchanged(p, i, a);
      if d.Ordered? {
        GraphLength(d.steps, w.spec.steps);
        var passes, completes :| Lineage(d, w, passes, completes, i);
        LineageStays(d, w, passes, completes, i);
      }
    } else if MatchLabels(w).None? {
      DuePanics(p, i, a);
    } else {
      DueStepWrites(p, i, a);
      ManageStepFrame(p, step, a);
      DueIsJob(w, i);
      if d.Shared? {
        assert WriterOf(step) in Writers(w.spec.steps);
        WritingKeepsSettled(LabelMap(w), d.base, w.name, d.writers, WriterOf(step));
      } else {
        GraphLength(d.steps, w.spec.steps);
        var passes, completes :| Lineage(d, w, passes, completes, i);
        var completes' := LineageGrows(d, w, passes, completes, i, w');
      }
    }
  }

  lemma GraphLength(a: seq<Step>, b: seq<Step>)
    requires SameGraph(a, b)
    ensures |a| == |b|
  {
  }

  lemma DueIsJob(w: Workflow, i: nat)
    requires i < |w.spec.steps| && DueStep(w, i)
    ensures w.spec.steps[i].jobTemplate.Some?
  {
  }

  lemma {:induction false} PassObeys(d: Labelling, w: Workflow, answers: Answers, i: nat)
    requires Admissible(d, w.name) && Obeys(d, w) && i <= |w.spec.steps|
    ensures !Before(w, answers, i).panicked ==> ObeysAt(d, Before(w, answers, i).w, i)
  {
    hide ManageStep, ObeysAt, Admissible, Grows;
    if i > 0 {
      PassObeys(d, w, answers, i - 1);
      BeforeExtends(w, answers, 0, i - 1);
      BeforeExtends(w, answers, i - 1, i);
      if !Before(w, answers, i - 1).panicked {
        ManageStepObeys(d, Before(w, answers, i - 1), i - 1, answers(i - 1));
      }
    }
  }

  /** At its end, the pass is one more of those behind the version. */
  lemma PassOver(d: Labelling, w: Workflow)
    requires ObeysAt(d, w, |w.spec.steps|)
    ensures Obeys(d, w)
  {
    hide Turns, After, MapAfter, IsComplete;
    if d.Ordered? {
      var passes, completes :| Lineage(d, w, passes, completes, |w.spec.steps|);
      OnePassMore(d.steps, passes, completes);
      NothingBeforeFirst(d.steps, After(d.steps, passes + [completes]), {});
      assert Lineage(d, w, passes + [completes], {}, 0);
    }
  }

  // -------------------------------------------------------------- other updates

  lemma SameShapeSameGraph(a: Spec, b: Spec)
    requires SameShape(a, b)
    ensures SameGraph(a.steps, b.steps)
  {
    hide SameShape;
    SameShapeSteps(a, b);
  }

  lemma GraphKeepsWriters(a: seq<Step>, b: seq<Step>)
    requires SameGraph(a, b)
    ensures Writers(a) == Writers(b)
  {
    forall i | 0 <= i < |a| && a[i].jobTemplate.Some?
      ensures b[i].jobTemplate.Some? && WriterOf(a[i]) == WriterOf(b[i])
    {
    }
    forall i | 0 <= i < |b| && b[i].jobTemplate.Some?
      ensures a[i].jobTemplate.Some? && WriterOf(a[i]) == WriterOf(b[i])
    {
    }
  }

  lemma SameGraphTransitive(a: seq<Step>, b: seq<Step>, c: seq<Step>)
    requires SameGraph(a, b) && SameGraph(b, c)
    ensures SameGraph(a, c)
  {
  }

  /** What is kept reads the name, the graph of the steps, the labels and the statuses. */
  lemma ObeysReads(d: Labelling, w: Workflow, w': Workflow)
    requires Obeys(d, w) && w'.name == w.name && SameGraph(w.spec.steps, w'.spec.steps)
    requires LabelMap(w') == LabelMap(w) && w'.status.statuses == w.status.statuses
    ensures Obeys(d, w')
  {
    hide Settled, MapAfter, IsComplete, SameGraph, Turns, After;
    GraphKeepsWriters(w.spec.steps, w'.spec.steps);
    if d.Ordered? {
      SameGraphTransitive(d.steps, w.spec.steps, w'.spec.steps);
      var passes, completes :| Lineage(d, w, passes, completes, 0);
      assert Lineage(d, w', passes, completes, 0);
    }
  }

  /** The edits that the labelling allows: that take every template's labels out of
      the family; or leave all that decides the labels. */
  ghost predicate KeepsLabels(d: Labelling, spec: Spec) {
    match d
    case Shared(_, writers) => Writers(spec.steps) <= writers
    case Ordered(_, steps) => SameGraph(steps, spec.steps)
  }

  lemma EditObeys(d: Labelling, w: Workflow, spec: Spec)
    requires Obeys(d, w) && Accepts(spec, w) && KeepsLabels(d, spec)
    ensures Obeys(d, w.(spec := spec))
  {
    hide Settled, ValidSpec, KeepsSteps, AllComplete, MapAfter, IsComplete, SameGraph, Turns, After;
    var w' := w.(spec := spec);
    assert LabelMap(w') == LabelMap(w);
    if d.Ordered? {
      var passes, completes :| Lineage(d, w, passes, completes, 0);
      assert Lineage(d, w', passes, completes, 0);
    }
  }

  /** What a sync does to the name, the labels and the statuses outside a pass. */
  lemma OtherWritesKeep(w: Workflow, start: int, r: Replies)
    requires !ReachesPass(w, start) && WorkflowInv(w)
    ensures var e := SyncEffect(w, start, r);
      e.written.Some? ==>
        && e.written.value.name == w.name && LabelMap(e.written.value) == LabelMap(w)
        && e.written.value.status.statuses == w.status.statuses
  {
    hide ValidWorkflow, DefaultStep, Consistent;
  }

  lemma SyncObeys(d: Labelling, w: Workflow, start: int, r: Replies)
    requires Admissible(d, w.name) && Obeys(d, w) && WorkflowInv(w)
    ensures var e := SyncEffect(w, start, r); e.written.Some? ==> Obeys(d, e.written.value)
  {
    hide Obeys, Admissible, SyncEffect, WorkflowInv, SameShape, SameGraph, ObeysAt;
    WrittenKeepsSpec(w, start, r);
    var e := SyncEffect(w, start, r);
    if e.written.Some? {
      SameShapeSameGraph(w.spec, e.written.value.spec);
      if ReachesPass(w, start) {
        var w' := Before(w, r.answers, |w.spec.steps|).w;
        BeforeExtends(w, r.answers, 0, |w.spec.steps|);
        PassObeys(d, w, r.answers, |w.spec.steps|);
        PassWritesKeep(w, start, r);
        PassOver(d, w');
        ObeysReads(d, w', e.written.value);
      } else {
        OtherWritesKeep(w, start, r);
        ObeysReads(d, w, e.written.value);
      }
    }
  }

  lemma PassWritesKeep(w: Workflow, start: int, r: Replies)
    requires ReachesPass(w, start)
    ensures var e, p := SyncEffect(w, start, r), Before(w, r.answers, |w.spec.steps|);
      e.written.Some? ==>
        && !p.panicked && e.written.value.name == p.w.name && LabelMap(e.written.value) == LabelMap(p.w)
        && e.written.value.status.statuses == p.w.status.statuses
  {
    hide ValidWorkflow, Before, DefaultSpec;
  }

  // ---------------------------------------------------------------- the beginning

  lemma InitialObeys(d: Labelling, w: Workflow)
    requires w.status == EMPTY_STATUS && LabelMap(w) == d.base && KeepsLabels(d, w.spec)
    ensures Obeys(d, w)
  {
    hide DefaultSpec;
    if d.Ordered? {
      assert Lineage(d, w, [], {}, 0);
    }
  }
}
