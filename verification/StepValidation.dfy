/** ValidateWorkflow and the checks below it
    (pkg/api/workflow/v1/validation.go). */
module StepValidation {
  import opened Prelude
  import opened WorkflowTypes
  import opened Topology

  datatype FieldError =
    | InvalidMeta
    | NegativeDeadline
    | SelectorRequired
    | InvalidSelector
    | DuplicateStep(name: string)
    | UnknownDependency(name: string)
    | CyclicSteps(cycle: seq<string>)
    | TemplateOrReferenceRequired
    | InvalidJobTemplate

  // ----------------------------------------------------- what is accepted

  /** The graph the steps describe; of steps with one name, the first counts. */
  function StepsMap(steps: seq<Step>): Graph {
    if steps == [] then map[]
    else
      var g, last := StepsMap(steps[..|steps| - 1]), steps[|steps| - 1];
      if last.name in g then g else g[last.name := last]
  }

  ghost predicate Repeated(steps: seq<Step>, name: string) {
    exists i, j :: 0 <= i < j < |steps| && steps[i].name == name && steps[j].name == name
  }

  /** A step names a job template or an external object, and its template passes
      the checks of the job spec. */
  predicate RunnableStep(step: Step) {
    && (step.jobTemplate.Some? || step.externalRef.Some?)
    && (step.jobTemplate.Some? ==> step.jobTemplate.value.specValid)
  }

  ghost predicate ValidSteps(steps: seq<Step>) {
    && UniqueNames(steps)
    && Closed(StepsMap(steps)) && Acyclic(StepsMap(steps))
    && forall i :: 0 <= i < |steps| ==> RunnableStep(steps[i])
  }

  ghost predicate ValidSpec(spec: Spec) {
    && (spec.activeDeadlineSeconds.Some? ==> spec.activeDeadlineSeconds.value >= 0)
    && spec.selector.Some? && spec.selector.value.wellFormed
    && ValidSteps(spec.steps)
  }

  ghost predicate ValidWorkflow(w: Workflow) {
    w.metaValid && ValidSpec(w.spec)
  }

  lemma {:induction false} StepsMapNames(steps: seq<Step>)
    ensures forall n :: n in StepsMap(steps) <==> exists i :: 0 <= i < |steps| && steps[i].name == n
    ensures forall n :: n in StepsMap(steps) ==> StepsMap(steps)[n] in steps && StepsMap(steps)[n].name == n
  {
    if steps != [] {
      var init := steps[..|steps| - 1];
      StepsMapNames(init);
      assert steps == init + [steps[|steps| - 1]];
      forall n | exists i :: 0 <= i < |steps| && steps[i].name == n ensures n in StepsMap(steps) {
        var i :| 0 <= i < |steps| && steps[i].name == n;
        assert i < |init| ==> init[i].name == n;
      }
    }
  }

  /** Of the steps of one name, the graph holds the first. */
  lemma {:induction false} FirstIsKept(steps: seq<Step>, i: nat)
    requires i < |steps| && forall j :: 0 <= j < i ==> steps[j].name != steps[i].name
    ensures steps[i].name in StepsMap(steps) && StepsMap(steps)[steps[i].name] == steps[i]
  {
    var last := |steps| - 1;
    var init := steps[..last];
    StepsMapNames(init);
    if i < last {
      FirstIsKept(init, i);
    } else {
      assert forall j :: 0 <= j < |init| ==> init[j].name != steps[last].name;
    }
  }

  /** With unique names, the graph holds every step under its name. */
  lemma UniqueStepsMap(steps: seq<Step>, i: nat)
    requires UniqueNames(steps) && i < |steps|
    ensures steps[i].name in StepsMap(steps) && StepsMap(steps)[steps[i].name] == steps[i]
  {
    StepsMapNames(steps);
  }

  // ------------------------------------------------------------ the checks

  /** The steps by name, and an error for each further step of a name. */
  method IndexSteps(steps: seq<Step>) returns (stepsMap: Graph, allErrs: seq<FieldError>)
    ensures stepsMap == StepsMap(steps)
    ensures forall e :: e in allErrs ==> e.DuplicateStep?
    ensures forall n :: DuplicateStep(n) in allErrs <==> Repeated(steps, n)
  {
    allErrs, stepsMap := [], map[];
    for i := 0 to |steps|
      invariant stepsMap == StepsMap(steps[..i])
      invariant forall e :: e in allErrs ==> e.DuplicateStep?
      invariant forall n :: DuplicateStep(n) in allErrs <==> Repeated(steps[..i], n)
    {
      assert steps[..i + 1][..i] == steps[..i];
      RepeatedGrows(steps, i);
      if steps[i].name in stepsMap {
        allErrs := allErrs + [DuplicateStep(steps[i].name)];
        continue;
      }
      stepsMap := stepsMap[steps[i].name := steps[i]];
    }
    assert steps[..|steps|] == steps;
  }

  method CheckStepKinds(steps: seq<Step>) returns (allErrs: seq<FieldError>)
    ensures forall e :: e in allErrs ==> e == TemplateOrReferenceRequired || e == InvalidJobTemplate
    ensures allErrs == [] <==> forall i :: 0 <= i < |steps| ==> RunnableStep(steps[i])
    ensures TemplateOrReferenceRequired in allErrs <==>
      exists i :: 0 <= i < |steps| && steps[i].jobTemplate.None? && steps[i].externalRef.None?
    ensures InvalidJobTemplate in allErrs <==>
      exists i :: 0 <= i < |steps| && steps[i].jobTemplate.Some? && !steps[i].jobTemplate.value.specValid
  {
    allErrs := [];
    for i := 0 to |steps|
      invariant forall e :: e in allErrs ==> e == TemplateOrReferenceRequired || e == InvalidJobTemplate
      invariant allErrs == [] <==> forall j :: 0 <= j < i ==> RunnableStep(steps[j])
      invariant TemplateOrReferenceRequired in allErrs <==>
        exists j :: 0 <= j < i && steps[j].jobTemplate.None? && steps[j].externalRef.None?
      invariant InvalidJobTemplate in allErrs <==>
        exists j :: 0 <= j < i && steps[j].jobTemplate.Some? && !steps[j].jobTemplate.value.specValid
    {
      var step := steps[i];
      if step.jobTemplate.None? && step.externalRef.None? {
        allErrs := allErrs + [TemplateOrReferenceRequired];
        continue;
      }
      if step.jobTemplate.Some? && !step.jobTemplate.value.specValid {
        allErrs := allErrs + [InvalidJobTemplate];
      }
    }
  }

  predicate IsGraphError(e: FieldError) {
    e.UnknownDependency? || e.CyclicSteps?
  }

  function GraphErrors(errs: seq<FieldError>): seq<FieldError> {
    Filter(errs, (e: FieldError) => IsGraphError(e))
  }

  /** What the sort reports of the graph: nothing, or one error, of the alphabetically
      first step that cannot be resolved. */
  ghost predicate Reports(g: Graph, errs: seq<FieldError>, culprit: string, closing: string) {
    if errs == [] then Closed(g) && Acyclic(g)
    else
      && |errs| == 1 && culprit in g && !Resolvable(g, culprit)
      && (forall n :: n in g && Less(n, culprit) ==> Resolvable(g, n))
      && match errs[0]
         case UnknownDependency(n) => n !in g && IsDependency(g, n) && Needs(g, culprit, n)
         case CyclicSteps(c) =>
           && CycleAt(g, closing) && Needs(g, culprit, closing) && (c == [] <==> closing == "")
           && (c != [] ==> SimpleCycle(g, c) && c[|c| - 1] == closing)
         case _ => false
  }

  method SortErrors(g: Graph) returns (errs: seq<FieldError>, ghost culprit: string, ghost closing: string)
    ensures Reports(g, errs, culprit, closing)
    ensures errs == [] <==> Closed(g) && Acyclic(g)
    ensures |errs| <= 1 && forall e :: e in errs ==> IsGraphError(e)
  {
    hide SimpleCycle, IsDependency, Acyclic, Closed, CycleAt, TopologicalOrder, Resolvable, Needs, Less;
    var sorted;
    sorted, culprit, closing := TopologicalSort(g);
    errs := match sorted
      case Sorted(_) => []
      case NotFound(n) => [UnknownDependency(n)]
      case CycleDetected(c) => [CyclicSteps(c)];
  }

  /** culprit and closing are the steps that the error about the graph, if there is
      one, belongs to: the first that cannot be resolved, and the one where the cycle
      closes. */
  method ValidateWorkflowSteps(steps: seq<Step>)
    returns (allErrs: seq<FieldError>, ghost culprit: string, ghost closing: string)
    ensures allErrs == [] <==> ValidSteps(steps)
    ensures Reports(StepsMap(steps), GraphErrors(allErrs), culprit, closing)
    ensures |GraphErrors(allErrs)| == if Closed(StepsMap(steps)) && Acyclic(StepsMap(steps)) then 0 else 1
    ensures forall n :: DuplicateStep(n) in allErrs <==> Repeated(steps, n)
    ensures TemplateOrReferenceRequired in allErrs <==>
      exists i :: 0 <= i < |steps| && steps[i].jobTemplate.None? && steps[i].externalRef.None?
    ensures InvalidJobTemplate in allErrs <==>
      exists i :: 0 <= i < |steps| && steps[i].jobTemplate.Some? && !steps[i].jobTemplate.value.specValid
    ensures forall e :: e in allErrs ==>
      IsGraphError(e) || e.DuplicateStep? || e == TemplateOrReferenceRequired || e == InvalidJobTemplate
  {
    hide Repeated, Acyclic, Closed, UniqueNames, StepsMap, RunnableStep, Reports, GraphErrors;
    var stepsMap, duplicates := IndexSteps(steps);
    UniqueUnlessRepeated(steps);
    var graphErrs;
    graphErrs, culprit, closing := SortErrors(stepsMap);
    var kindErrs := CheckStepKinds(steps);
    allErrs := duplicates + graphErrs + kindErrs;
    OnlyGraphErrors(duplicates, graphErrs, kindErrs);
    if duplicates != [] {
      assert duplicates[0] in duplicates;
      assert DuplicateStep(duplicates[0].name) == duplicates[0];
    }
  }

  lemma OnlyGraphErrors(before: seq<FieldError>, errs: seq<FieldError>, after: seq<FieldError>)
    requires forall e :: e in before + after ==> !IsGraphError(e)
    requires |errs| <= 1 && forall e :: e in errs ==> IsGraphError(e)
    ensures GraphErrors(before + errs + after) == errs
  {
    var p := (e: FieldError) => IsGraphError(e);
    FilterAppend(before + errs, after, p);
    FilterAppend(before, errs, p);
    FilterSame(before, p, (e: FieldError) => false);
    FilterSame(after, p, (e: FieldError) => false);
    FilterNothing(before);
    FilterNothing(after);
    if errs != [] {
      assert errs[0] in errs && errs[1..] == [];
    }
  }

  lemma {:induction false} FilterNothing(errs: seq<FieldError>)
    ensures Filter(errs, (e: FieldError) => false) == []
  {
    if errs != [] {
      FilterNothing(errs[1..]);
    }
  }

  lemma RepeatedGrows(steps: seq<Step>, i: nat)
    requires i < |steps|
    ensures forall n :: Repeated(steps[..i + 1], n) <==>
                        Repeated(steps[..i], n) || (n == steps[i].name && n in StepsMap(steps[..i]))
  {
    StepsMapNames(steps[..i]);
    forall n | Repeated(steps[..i], n) || (n == steps[i].name && n in StepsMap(steps[..i]))
      ensures Repeated(steps[..i + 1], n)
    {
      if Repeated(steps[..i], n) {
        var j, k :| 0 <= j < k < i && steps[..i][j].name == n && steps[..i][k].name == n;
        assert steps[..i + 1][j].name == n && steps[..i + 1][k].name == n;
      } else {
        var j :| 0 <= j < i && steps[..i][j].name == n;
        assert steps[..i + 1][j].name == n && steps[..i + 1][i].name == n;
      }
    }
    forall n | Repeated(steps[..i + 1], n)
      ensures Repeated(steps[..i], n) || (n == steps[i].name && n in StepsMap(steps[..i]))
    {
      var j, k :| 0 <= j < k <= i && steps[..i + 1][j].name == n && steps[..i + 1][k].name == n;
      assert steps[..i][j].name == n;
      if k < i {
        assert steps[..i][k].name == n;
      }
    }
  }

  lemma UniqueUnlessRepeated(steps: seq<Step>)
    ensures UniqueNames(steps) <==> forall n :: !Repeated(steps, n)
  {
    if !UniqueNames(steps) {
      var i, j :| 0 <= i < j < |steps| && steps[i].name == steps[j].name;
      assert Repeated(steps, steps[i].name);
    }
  }

  method ValidateWorkflowSpec(spec: Spec) returns (allErrs: seq<FieldError>)
    ensures allErrs == [] <==> ValidSpec(spec)
    ensures NegativeDeadline in allErrs <==>
      spec.activeDeadlineSeconds.Some? && spec.activeDeadlineSeconds.value < 0
    ensures SelectorRequired in allErrs <==> spec.selector.None?
    ensures InvalidSelector in allErrs <==> spec.selector.Some? && !spec.selector.value.wellFormed
    ensures |GraphErrors(allErrs)|
            == if Closed(StepsMap(spec.steps)) && Acyclic(StepsMap(spec.steps)) then 0 else 1
    ensures InvalidMeta !in allErrs
  {
    hide Closed, Acyclic, StepsMap, UniqueNames, RunnableStep, Repeated, Reports, GraphErrors;
    allErrs := [];
    if spec.activeDeadlineSeconds.Some? && spec.activeDeadlineSeconds.value < 0 {
      allErrs := allErrs + [NegativeDeadline];
    }
    if spec.selector.None? {
      allErrs := allErrs + [SelectorRequired];
    } else if !spec.selector.value.wellFormed {
      allErrs := allErrs + [InvalidSelector];
    }
    var stepErrs, _, _ := ValidateWorkflowSteps(spec.steps);
    NoGraphErrors(allErrs, stepErrs);
    allErrs := allErrs + stepErrs;
  }

  lemma NoGraphErrors(before: seq<FieldError>, errs: seq<FieldError>)
    requires forall e :: e in before ==> !IsGraphError(e)
    ensures GraphErrors(before + errs) == GraphErrors(errs)
  {
    var p := (e: FieldError) => IsGraphError(e);
    FilterAppend(before, errs, p);
    FilterSame(before, p, (e: FieldError) => false);
    FilterNothing(before);
    assert [] + GraphErrors(errs) == GraphErrors(errs);
  }

  method ValidateWorkflow(w: Workflow) returns (allErrs: seq<FieldError>)
    ensures allErrs == [] <==> ValidWorkflow(w)
    ensures InvalidMeta in allErrs <==> !w.metaValid
  {
    allErrs := if w.metaValid then [] else [InvalidMeta];
    var specErrs := ValidateWorkflowSpec(w.spec);
    allErrs := allErrs + specErrs;
  }
}
