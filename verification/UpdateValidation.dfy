/** ValidateWorkflowUpdate and ValidateWorkflowSpecUpdate
    (pkg/api/workflow/v1/validation.go). */
module UpdateValidation {
  import opened Prelude
  import opened WorkflowTypes
  import opened StepValidation
  import opened WorkflowPass
  import opened StatusInvariant

  datatype UpdateError =
    | MetaChanged
    | CompletedWorkflow
    | InvalidNewSpec(error: FieldError)
    | SelectorChanged
    | RunningStepModified(name: string)
    | CompletedStepModified(name: string)
    | RunningStepDeleted(name: string)
    | CompletedStepDeleted(name: string)

  /** IndexOutOfRange: the code panics, for it reads the old step at the index of
      each new one. */
  datatype UpdateResult = Errors(errors: seq<UpdateError>) | IndexOutOfRange

  function StepNames(steps: seq<Step>): seq<string> {
    seq(|steps|, i requires 0 <= i < |steps| => steps[i].name)
  }

  function RunningSteps(w: Workflow): set<string> {
    set n | n in StepNames(w.spec.steps)
            && StatusIndex(w.status.statuses, n) >= 0 && !IsComplete(w.status.statuses, n)
  }

  function CompletedSteps(w: Workflow): set<string> {
    set n | n in StepNames(w.spec.steps) && IsComplete(w.status.statuses, n)
  }

  // -------------------------------------------------- what an update must meet

  ghost predicate KeepsSteps(spec: Spec, oldSpec: Spec, fixed: set<string>) {
    && |spec.steps| <= |oldSpec.steps|
    && (forall i :: 0 <= i < |spec.steps| && spec.steps[i].name in fixed ==> spec.steps[i] == oldSpec.steps[i])
    && forall n :: n in fixed && n in StepNames(oldSpec.steps) ==> n in StepNames(spec.steps)
  }

  /** Semantic.DeepEqual on the selectors: a nil and an empty map are equal. */
  predicate SameSelector(a: Option<Selector>, b: Option<Selector>) {
    if a.None? || b.None? then a.None? && b.None?
    else
      && a.value.matchLabels.GetOr(map[]) == b.value.matchLabels.GetOr(map[])
      && a.value.matchExpressions == b.value.matchExpressions
  }

  /** The label k that the selector asks for, if any. */
  function SelectedValue(s: Selector, k: string): Option<string> {
    if s.matchLabels.Some? && k in s.matchLabels.value then Some(s.matchLabels.value[k]) else None
  }

  ghost predicate Accepts(spec: Spec, old': Workflow) {
    && !(UniqueNames(old'.spec.steps) && AllComplete(old'))
    && ValidSpec(spec)
    && SameSelector(spec.selector, old'.spec.selector)
    && KeepsSteps(spec, old'.spec, RunningSteps(old') + CompletedSteps(old'))
  }

  predicate HasStatus(w: Workflow, n: string) {
    exists j :: 0 <= j < |w.status.statuses| && w.status.statuses[j].name == n
  }

  predicate HasStep(spec: Spec, n: string) {
    exists i :: 0 <= i < |spec.steps| && spec.steps[i].name == n
  }

  /** Which updates are accepted, on the fields: of a workflow that is not complete, to a
      valid spec that is not longer, with the expressions of the old selector and, key
      by key, its labels, and with every step that has a status as it was, at the index
      it has, and every name that has one still there. */
  lemma AcceptsIff(spec: Spec, old': Workflow)
    ensures Accepts(spec, old') <==>
      && !(UniqueNames(old'.spec.steps) && AllComplete(old')) && ValidSpec(spec)
      && old'.spec.selector.Some?
      && spec.selector.value.matchExpressions == old'.spec.selector.value.matchExpressions
      && (forall k :: SelectedValue(spec.selector.value, k) == SelectedValue(old'.spec.selector.value, k))
      && |spec.steps| <= |old'.spec.steps|
      && (forall i :: 0 <= i < |spec.steps| && spec.steps[i] != old'.spec.steps[i] ==>
           !(HasStatus(old', spec.steps[i].name) && HasStep(old'.spec, spec.steps[i].name)))
      && forall o :: 0 <= o < |old'.spec.steps| && HasStatus(old', old'.spec.steps[o].name) ==>
           HasStep(spec, old'.spec.steps[o].name)
  {
    hide AllComplete, ValidSteps, UniqueNames, HasStep, HasStatus, RunningSteps, CompletedSteps;
    if spec.selector.Some? && old'.spec.selector.Some? {
      SameLabelsIff(spec.selector.value, old'.spec.selector.value);
    }
    FixedIff(spec, old');
  }

  lemma SameLabelsIff(a: Selector, b: Selector)
    ensures a.matchLabels.GetOr(map[]) == b.matchLabels.GetOr(map[])
            <==> forall k :: SelectedValue(a, k) == SelectedValue(b, k)
  {
    var l, m := a.matchLabels.GetOr(map[]), b.matchLabels.GetOr(map[]);
    if forall k :: SelectedValue(a, k) == SelectedValue(b, k) {
      forall k ensures (k in l <==> k in m) && (k in l ==> l[k] == m[k]) {
        assert SelectedValue(a, k) == SelectedValue(b, k);
      }
      assert l == m;
    }
  }

  /** The names with a status are those of the old steps that are running or Complete. */
  lemma FixedNames(old': Workflow, n: string)
    ensures n in RunningSteps(old') + CompletedSteps(old') <==> HasStep(old'.spec, n) && HasStatus(old', n)
  {
    NameListed(old'.spec, n);
  }

  lemma RunningOrCompleted(old': Workflow, n: string)
    ensures n in RunningSteps(old') ==> HasStatus(old', n) && !IsComplete(old'.status.statuses, n)
    ensures n in CompletedSteps(old') ==> IsComplete(old'.status.statuses, n)
  {
  }

  lemma NameListed(spec: Spec, n: string)
    ensures n in StepNames(spec.steps) <==> HasStep(spec, n)
  {
    if HasStep(spec, n) {
      var i :| 0 <= i < |spec.steps| && spec.steps[i].name == n;
      assert StepNames(spec.steps)[i] == n;
    }
  }

  lemma FixedIff(spec: Spec, old': Workflow)
    ensures KeepsSteps(spec, old'.spec, RunningSteps(old') + CompletedSteps(old')) <==>
      && |spec.steps| <= |old'.spec.steps|
      && (forall i :: 0 <= i < |spec.steps| && spec.steps[i] != old'.spec.steps[i] ==>
           !(HasStatus(old', spec.steps[i].name) && HasStep(old'.spec, spec.steps[i].name)))
      && forall o :: 0 <= o < |old'.spec.steps| && HasStatus(old', old'.spec.steps[o].name) ==>
           HasStep(spec, old'.spec.steps[o].name)
  {
    hide RunningSteps, CompletedSteps, HasStatus, StepNames, HasStep;
    var fixed := RunningSteps(old') + CompletedSteps(old');
    forall n
      ensures n in fixed <==> HasStep(old'.spec, n) && HasStatus(old', n)
      ensures n in StepNames(old'.spec.steps) <==> HasStep(old'.spec, n)
      ensures n in StepNames(spec.steps) <==> HasStep(spec, n)
    {
      FixedNames(old', n);
      NameListed(old'.spec, n);
      NameListed(spec, n);
    }
    forall o | 0 <= o < |old'.spec.steps| ensures HasStep(old'.spec, old'.spec.steps[o].name) {
      assert StepNames(old'.spec.steps)[o] == old'.spec.steps[o].name by {
        NameAt(old'.spec.steps, o);
      }
      assert StepNames(old'.spec.steps)[o] in StepNames(old'.spec.steps);
    }
    if forall o :: 0 <= o < |old'.spec.steps| && HasStatus(old', old'.spec.steps[o].name) ==>
         HasStep(spec, old'.spec.steps[o].name)
    {
      forall n | n in fixed ensures HasStep(spec, n) {
        StepOfName(old'.spec, n);
      }
    }
  }

  lemma NameAt(steps: seq<Step>, o: nat)
    requires o < |steps|
    ensures |StepNames(steps)| == |steps| && StepNames(steps)[o] == steps[o].name
  {
  }

  lemma StepOfName(spec: Spec, n: string)
    requires HasStep(spec, n)
    ensures exists o :: 0 <= o < |spec.steps| && spec.steps[o].name == n
  {
  }

  /** Comparing the number of completed names with the number of steps tells
      whether all steps are Complete, unless two steps share a name: then the
      numbers never agree. */
  lemma CountedCompleteIff(w: Workflow)
    ensures |CompletedSteps(w)| == |w.spec.steps| <==> UniqueNames(w.spec.steps) && AllComplete(w)
  {
    hide IsComplete;
    var names, completed := StepNames(w.spec.steps), CompletedSteps(w);
    ElementsBound(names);
    SubsetCardinality(completed, Elements(names));
    if |completed| == |w.spec.steps| {
      forall i, j | 0 <= i < j < |w.spec.steps| ensures w.spec.steps[i].name != w.spec.steps[j].name {
        assert names[i] != names[j];
      }
      forall k | 0 <= k < |w.spec.steps| ensures IsComplete(w.status.statuses, w.spec.steps[k].name) {
        assert names[k] in Elements(names);
      }
    }
    if UniqueNames(w.spec.steps) && AllComplete(w) {
      NoDupCardinality(names);
      assert completed == Elements(names);
    }
  }

  /** An accepted update leaves each step that has a status as it was, at its
      index, and so keeps what passes keep of the statuses. */
  lemma AcceptedKeepsConsistent(spec: Spec, old': Workflow)
    requires Accepts(spec, old') && UniqueNames(old'.spec.steps) && Consistent(old')
    ensures Consistent(old'.(spec := spec))
    ensures forall i :: 0 <= i < |old'.spec.steps| && StatusIndex(old'.status.statuses, old'.spec.steps[i].name) >= 0 ==>
              i < |spec.steps| && spec.steps[i] == old'.spec.steps[i]
  {
    hide IsComplete, ValidSpec, AllComplete, DependenciesComplete;
    var statuses := old'.status.statuses;
    forall i | 0 <= i < |old'.spec.steps| && StatusIndex(statuses, old'.spec.steps[i].name) >= 0
      ensures i < |spec.steps| && spec.steps[i] == old'.spec.steps[i]
    {
      StepWithStatusKept(spec, old', i);
    }
    forall j | 0 <= j < |statuses| ensures Justified(spec.steps, statuses, j) {
      assert Justified(old'.spec.steps, statuses, j);
      var i :| 0 <= i < |old'.spec.steps|
               && old'.spec.steps[i].name == statuses[j].name && old'.spec.steps[i].jobTemplate.Some?
               && DependenciesComplete(statuses[..j], old'.spec.steps[i].dependencies);
      StatusFound(statuses, j);
      assert spec.steps[i] == old'.spec.steps[i];
    }
  }

  lemma StepWithStatusKept(spec: Spec, old': Workflow, i: nat)
    requires Accepts(spec, old') && UniqueNames(old'.spec.steps)
    requires i < |old'.spec.steps| && StatusIndex(old'.status.statuses, old'.spec.steps[i].name) >= 0
    ensures i < |spec.steps| && spec.steps[i] == old'.spec.steps[i]
  {
    hide IsComplete, ValidSpec, AllComplete;
    var n := old'.spec.steps[i].name;
    assert StepNames(old'.spec.steps)[i] == n;
    assert n in RunningSteps(old') + CompletedSteps(old');
    var k :| 0 <= k < |spec.steps| && StepNames(spec.steps)[k] == n;
    assert spec.steps[k] == old'.spec.steps[k];
  }

  // ------------------------------------------------------------- the checks

  method GetWorkflowUnmodifiableSteps(w: Workflow) returns (running: set<string>, completed: set<string>)
    ensures running == RunningSteps(w) && completed == CompletedSteps(w)
  {
    running, completed := {}, {};
    if w.status.statuses == [] {
      return;
    }
    for i := 0 to |w.spec.steps|
      invariant forall n :: n in running <==>
        n in StepNames(w.spec.steps)[..i] && StatusIndex(w.status.statuses, n) >= 0 && !IsComplete(w.status.statuses, n)
      invariant forall n :: n in completed <==> n in StepNames(w.spec.steps)[..i] && IsComplete(w.status.statuses, n)
    {
      var key := w.spec.steps[i].name;
      assert StepNames(w.spec.steps)[..i + 1] == StepNames(w.spec.steps)[..i] + [key];
      var k := StatusIndex(w.status.statuses, key);
      if k >= 0 {
        if w.status.statuses[k].complete {
          completed := completed + {key};
        } else {
          running := running + {key};
        }
      }
    }
    assert StepNames(w.spec.steps)[..|w.spec.steps|] == StepNames(w.spec.steps);
  }

  /** The first half of the spec comparison: a step with a status is unchanged. */
  method CompareSteps(spec: Spec, oldSpec: Spec, running: set<string>, completed: set<string>)
    returns (errs: seq<UpdateError>)
    requires |spec.steps| <= |oldSpec.steps|
    ensures forall e :: e in errs ==> e.RunningStepModified? || e.CompletedStepModified?
    ensures errs == [] <==> forall n :: n in running + completed ==> !Modified(spec, oldSpec, n)
    ensures forall n :: RunningStepModified(n) in errs <==> n in running && Modified(spec, oldSpec, n)
    ensures forall n :: CompletedStepModified(n) in errs <==> n in completed && Modified(spec, oldSpec, n)
  {
    errs := [];
    for i := 0 to |spec.steps|
      invariant forall e :: e in errs ==> e.RunningStepModified? || e.CompletedStepModified?
      invariant forall n :: RunningStepModified(n) in errs <==> n in running && ModifiedBefore(spec, oldSpec, n, i)
      invariant forall n :: CompletedStepModified(n) in errs <==> n in completed && ModifiedBefore(spec, oldSpec, n, i)
    {
      var k := spec.steps[i].name;
      assert forall n :: ModifiedBefore(spec, oldSpec, n, i + 1) <==>
        ModifiedBefore(spec, oldSpec, n, i) || (n == k && spec.steps[i] != oldSpec.steps[i]);
      if spec.steps[i] != oldSpec.steps[i] {
        if k in running {
          errs := errs + [RunningStepModified(k)];
        }
        if k in completed {
          errs := errs + [CompletedStepModified(k)];
        }
      }
    }
    assert forall n :: Modified(spec, oldSpec, n) <==> ModifiedBefore(spec, oldSpec, n, |spec.steps|);
    if errs != [] {
      assert errs[0] in errs;
    }
  }

  ghost predicate ModifiedBefore(spec: Spec, oldSpec: Spec, n: string, k: nat)
    requires |spec.steps| <= |oldSpec.steps| && k <= |spec.steps|
  {
    exists i :: 0 <= i < k && spec.steps[i].name == n && spec.steps[i] != oldSpec.steps[i]
  }

  /** The second half: a step with a status is not deleted. The removed names are
      gone through in an arbitrary order. */
  method CompareNames(spec: Spec, oldSpec: Spec, running: set<string>, completed: set<string>)
    returns (errs: seq<UpdateError>)
    ensures forall e :: e in errs ==> e.RunningStepDeleted? || e.CompletedStepDeleted?
    ensures errs == [] <==> forall n :: n in running + completed && HasStep(oldSpec, n) ==> HasStep(spec, n)
    ensures forall n :: RunningStepDeleted(n) in errs ==> n in running && HasStep(oldSpec, n) && !HasStep(spec, n)
    ensures forall n :: CompletedStepDeleted(n) in errs ==> n in completed && HasStep(oldSpec, n) && !HasStep(spec, n)
  {
    hide HasStep;
    errs := [];
    forall n ensures n in StepNames(oldSpec.steps) <==> HasStep(oldSpec, n)
             ensures n in StepNames(spec.steps) <==> HasStep(spec, n)
    {
      NameListed(oldSpec, n);
      NameListed(spec, n);
    }
    var removed := (set n | n in StepNames(oldSpec.steps)) - (set n | n in StepNames(spec.steps));
    while removed != {}
      invariant forall n :: n in removed ==> HasStep(oldSpec, n) && !HasStep(spec, n)
      invariant forall n :: n in running + completed && HasStep(oldSpec, n) && n !in removed ==> HasStep(spec, n)
      invariant errs == []
    {
      var s :| s in removed;
      if s in running {
        return [RunningStepDeleted(s)];
      }
      if s in completed {
        return [CompletedStepDeleted(s)];
      }
      removed := removed - {s};
    }
  }

  /** The new spec's own errors, and a selector that differs. */
  method CheckSpec(spec: Spec, oldSpec: Spec) returns (errs: seq<UpdateError>)
    ensures forall e :: e in errs ==> e.InvalidNewSpec? || e.SelectorChanged?
    ensures errs == [] <==> ValidSpec(spec) && SameSelector(spec.selector, oldSpec.selector)
    ensures SelectorChanged in errs <==> !SameSelector(spec.selector, oldSpec.selector)
    ensures (exists e :: InvalidNewSpec(e) in errs) <==> !ValidSpec(spec)
  {
    hide ValidSpec, SameSelector;
    var specErrs := ValidateWorkflowSpec(spec);
    errs := seq(|specErrs|, i requires 0 <= i < |specErrs| => InvalidNewSpec(specErrs[i]));
    if specErrs != [] {
      assert errs[0] == InvalidNewSpec(specErrs[0]);
    }
    if !SameSelector(spec.selector, oldSpec.selector) {
      errs := errs + [SelectorChanged];
    }
  }

  /** Step n is not what it was at some index of the new spec. */
  ghost predicate Modified(spec: Spec, oldSpec: Spec, n: string)
    requires |spec.steps| <= |oldSpec.steps|
  {
    exists i :: 0 <= i < |spec.steps| && spec.steps[i].name == n && spec.steps[i] != oldSpec.steps[i]
  }

  method ValidateWorkflowSpecUpdate(spec: Spec, oldSpec: Spec, running: set<string>, completed: set<string>)
    returns (r: UpdateResult)
    ensures r == IndexOutOfRange <==> |spec.steps| > |oldSpec.steps|
    ensures r == Errors([]) <==>
      && ValidSpec(spec)
      && SameSelector(spec.selector, oldSpec.selector)
      && KeepsSteps(spec, oldSpec, running + completed)
    ensures r.Errors? ==> CompletedWorkflow !in r.errors && MetaChanged !in r.errors
    ensures r.Errors? ==>
      && (SelectorChanged in r.errors <==> !SameSelector(spec.selector, oldSpec.selector))
      && ((exists e :: InvalidNewSpec(e) in r.errors) <==> !ValidSpec(spec))
      && (forall n :: RunningStepModified(n) in r.errors <==> n in running && Modified(spec, oldSpec, n))
      && (forall n :: CompletedStepModified(n) in r.errors <==> n in completed && Modified(spec, oldSpec, n))
      && (forall n :: RunningStepDeleted(n) in r.errors ==> n in running && HasStep(oldSpec, n) && !HasStep(spec, n))
      && (forall n :: CompletedStepDeleted(n) in r.errors ==>
           n in completed && HasStep(oldSpec, n) && !HasStep(spec, n))
  {
    hide ValidSpec, SameSelector, Modified, HasStep, KeepsSteps, StepNames;
    var errs := CheckSpec(spec, oldSpec);
    if |spec.steps| > |oldSpec.steps| {
      LongerIsNotKept(spec, oldSpec, running + completed);
      return IndexOutOfRange;
    }
    var changed := CompareSteps(spec, oldSpec, running, completed);
    var deleted := CompareNames(spec, oldSpec, running, completed);
    r := Errors(errs + changed + deleted);
    Joined(errs, changed, deleted);
    KeptIff(spec, oldSpec, running + completed, changed, deleted);
  }

  lemma LongerIsNotKept(spec: Spec, oldSpec: Spec, fixed: set<string>)
    requires |spec.steps| > |oldSpec.steps|
    ensures !KeepsSteps(spec, oldSpec, fixed)
  {
  }

  lemma Joined(a: seq<UpdateError>, b: seq<UpdateError>, c: seq<UpdateError>)
    ensures forall e :: e in a + b + c <==> e in a || e in b || e in c
    ensures a + b + c == [] <==> a == [] && b + c == []
  {
  }

  lemma KeptIff(spec: Spec, oldSpec: Spec, fixed: set<string>, changed: seq<UpdateError>, deleted: seq<UpdateError>)
    requires |spec.steps| <= |oldSpec.steps|
    requires changed == [] <==> forall n :: n in fixed ==> !Modified(spec, oldSpec, n)
    requires deleted == [] <==> forall n :: n in fixed && HasStep(oldSpec, n) ==> HasStep(spec, n)
    ensures changed + deleted == [] <==> KeepsSteps(spec, oldSpec, fixed)
  {
    hide HasStep, StepNames;
    forall n ensures n in StepNames(oldSpec.steps) <==> HasStep(oldSpec, n)
             ensures n in StepNames(spec.steps) <==> HasStep(spec, n)
    {
      NameListed(oldSpec, n);
      NameListed(spec, n);
    }
    if KeepsSteps(spec, oldSpec, fixed) {
      assert forall n :: n in fixed ==> !Modified(spec, oldSpec, n);
    }
    if forall n :: n in fixed ==> !Modified(spec, oldSpec, n) {
      forall i | 0 <= i < |spec.steps| && spec.steps[i].name in fixed ensures spec.steps[i] == oldSpec.steps[i] {
        assert !Modified(spec, oldSpec, spec.steps[i].name);
      }
    }
  }

  /** metaUnchanged stands for the verdict of ValidateObjectMetaUpdate. */
  method ValidateWorkflowUpdate(w: Workflow, old': Workflow, metaUnchanged: bool) returns (r: UpdateResult)
    ensures r == Errors([]) <==> metaUnchanged && Accepts(w.spec, old')
    ensures r.Errors? && CompletedWorkflow in r.errors <==> UniqueNames(old'.spec.steps) && AllComplete(old')
    ensures r == IndexOutOfRange <==>
      |w.spec.steps| > |old'.spec.steps| && !(UniqueNames(old'.spec.steps) && AllComplete(old'))
    ensures r.Errors? ==> (MetaChanged in r.errors <==> !metaUnchanged)
    ensures r.Errors? && CompletedWorkflow !in r.errors ==>
      && (SelectorChanged in r.errors <==> !SameSelector(w.spec.selector, old'.spec.selector))
      && ((exists e :: InvalidNewSpec(e) in r.errors) <==> !ValidSpec(w.spec))
      && (forall n :: RunningStepModified(n) in r.errors || RunningStepDeleted(n) in r.errors ==>
           HasStatus(old', n) && !IsComplete(old'.status.statuses, n))
      && (forall n :: CompletedStepModified(n) in r.errors || CompletedStepDeleted(n) in r.errors ==>
           IsComplete(old'.status.statuses, n))
  {
    hide IsComplete, HasStatus, AllComplete, UniqueNames, RunningSteps, CompletedSteps, ValidSpec, KeepsSteps,
         SameSelector, Modified, HasStep;
    var errs := if metaUnchanged then [] else [MetaChanged];
    var running, completed := GetWorkflowUnmodifiableSteps(old');
    forall n ensures n in running ==> HasStatus(old', n) && !IsComplete(old'.status.statuses, n)
             ensures n in completed ==> IsComplete(old'.status.statuses, n)
    {
      RunningOrCompleted(old', n);
    }
    CountedCompleteIff(old');
    if |completed| == |old'.spec.steps| {
      return Errors(errs + [CompletedWorkflow]);
    }
    var specResult := ValidateWorkflowSpecUpdate(w.spec, old'.spec, running, completed);
    match specResult {
      case IndexOutOfRange => return IndexOutOfRange;
      case Errors(es) => return Errors(errs + es);
    }
  }
}
