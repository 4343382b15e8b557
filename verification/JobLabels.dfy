/** The labels of the jobs of a workflow (pkg/controller/controller_util.go).
    getJobLabelsSetFromWorkflow writes into the selector's own map, so the labels
    computed for one step stay in the map for every later step. */
module JobLabels {
  import opened Prelude
  import opened WorkflowTypes

  const WORKFLOW_LABEL_KEY := "kubernetes.io/workflow"
  const WORKFLOW_STEP_LABEL_KEY := "kubernetes.io/workflow-step"

  /** One call of getJobLabelsSetFromWorkflow: a step and its template's labels. */
  datatype Writer = Writer(stepName: string, podLabels: Labels)

  /** What the call leaves in the selector's map m, which is also its result. */
  function LabelsFor(m: Labels, workflowName: string, w: Writer): Labels {
    (m + w.podLabels)[WORKFLOW_LABEL_KEY := workflowName][WORKFLOW_STEP_LABEL_KEY := w.stepName]
  }

  /** The labels, key by key. */
  lemma LabelsAre(m: Labels, workflowName: string, w: Writer)
    ensures var l := LabelsFor(m, workflowName, w);
      && l.Keys == m.Keys + w.podLabels.Keys + {"kubernetes.io/workflow", "kubernetes.io/workflow-step"}
      && forall k :: k in l ==>
        l[k] == if k == "kubernetes.io/workflow-step" then w.stepName
                else if k == "kubernetes.io/workflow" then workflowName
                else if k in w.podLabels then w.podLabels[k] else m[k]
  {
    assert |"kubernetes.io/workflow"| != |"kubernetes.io/workflow-step"|;
  }

  /** The selector's map after a history of calls. */
  function Accumulate(m: Labels, workflowName: string, history: seq<Writer>): Labels {
    if history == [] then m
    else LabelsFor(Accumulate(m, workflowName, history[..|history| - 1]), workflowName, history[|history| - 1])
  }

  /** labels.SelectorFromSet(selector).Matches(labels) */
  predicate Matches(selector: Labels, labels: Labels) {
    forall k :: k in selector ==> k in labels && labels[k] == selector[k]
  }

  /** Looking a step's jobs up and then creating one computes the labels twice. */
  lemma LabelsForIdempotent(m: Labels, workflowName: string, w: Writer)
    ensures LabelsFor(LabelsFor(m, workflowName, w), workflowName, w) == LabelsFor(m, workflowName, w)
  {
  }

  // ------------------------------------------------------------ the history

  predicate Reserved(k: string) {
    k == WORKFLOW_LABEL_KEY || k == WORKFLOW_STEP_LABEL_KEY
  }

  /** The position of the last writer of k, or -1. */
  function LastWriter(history: seq<Writer>, k: string): (i: int)
    ensures -1 <= i < |history|
    ensures i >= 0 ==> k in history[i].podLabels
    ensures forall j :: i < j < |history| ==> k !in history[j].podLabels
  {
    if history == [] then -1
    else if k in history[|history| - 1].podLabels then |history| - 1
    else LastWriter(history[..|history| - 1], k)
  }

  /** Whatever the history, the map is its last-writer-wins merge over m. */
  lemma {:induction false} AccumulateIsLastWriterWins(m: Labels, workflowName: string, history: seq<Writer>)
    ensures var a := Accumulate(m, workflowName, history);
      && (forall k :: !Reserved(k) ==> (k in a <==> LastWriter(history, k) >= 0 || k in m))
      && (forall k :: k in a && !Reserved(k) ==>
           a[k] == if LastWriter(history, k) >= 0 then history[LastWriter(history, k)].podLabels[k] else m[k])
      && (history != [] ==>
           && WORKFLOW_LABEL_KEY in a && a[WORKFLOW_LABEL_KEY] == workflowName
           && WORKFLOW_STEP_LABEL_KEY in a && a[WORKFLOW_STEP_LABEL_KEY] == history[|history| - 1].stepName)
  {
    if history != [] {
      AccumulateIsLastWriterWins(m, workflowName, history[..|history| - 1]);
    }
  }

  // ------------------------------------------- when the labels do not drift

  predicate From(history: seq<Writer>, writers: set<Writer>) {
    forall i :: 0 <= i < |history| ==> history[i] in writers
  }

  /** No writer's labels depend on which writers came before it. */
  ghost predicate LabelsAreStable(m: Labels, workflowName: string, writers: set<Writer>) {
    forall history, w :: w in writers && From(history, writers) ==>
      LabelsFor(Accumulate(m, workflowName, history), workflowName, w) == LabelsFor(m, workflowName, w)
  }

  /** A key that one writer sets is set by every writer, or has the same value
      in the selector. */
  predicate SharedKeys(m: Labels, writers: set<Writer>) {
    forall v, w, k :: v in writers && w in writers && k in v.podLabels ==>
      k in w.podLabels || Reserved(k) || (k in m && m[k] == v.podLabels[k])
  }

  lemma SharedKeysStep(m: Labels, workflowName: string, v: Writer, w: Writer, writers: set<Writer>)
    requires v in writers && w in writers && SharedKeys(m, writers)
    ensures LabelsFor(LabelsFor(m, workflowName, v), workflowName, w) == LabelsFor(m, workflowName, w)
  {
  }

  lemma {:induction false} SharedKeysHistory(m: Labels, workflowName: string, writers: set<Writer>,
                                             history: seq<Writer>, w: Writer)
    requires SharedKeys(m, writers) && w in writers && From(history, writers)
    ensures LabelsFor(Accumulate(m, workflowName, history), workflowName, w) == LabelsFor(m, workflowName, w)
  {
    if history != [] {
      var before, v := history[..|history| - 1], history[|history| - 1];
      SharedKeysHistory(m, workflowName, writers, before, v);
      SharedKeysStep(m, workflowName, v, w, writers);
    }
  }

  /** The labels of every step are independent of history exactly when the
      templates and the selector share their keys as SharedKeys says. */
  lemma StableIffSharedKeys(m: Labels, workflowName: string, writers: set<Writer>)
    ensures LabelsAreStable(m, workflowName, writers) <==> SharedKeys(m, writers)
  {
    if SharedKeys(m, writers) {
      forall history, w | w in writers && From(history, writers)
        ensures LabelsFor(Accumulate(m, workflowName, history), workflowName, w) == LabelsFor(m, workflowName, w)
      {
        SharedKeysHistory(m, workflowName, writers, history, w);
      }
    }
    if LabelsAreStable(m, workflowName, writers) {
      forall v, w, k | v in writers && w in writers && k in v.podLabels
        ensures k in w.podLabels || Reserved(k) || (k in m && m[k] == v.podLabels[k])
      {
        assert From([v], writers);
        var drifted := LabelsFor(Accumulate(m, workflowName, [v]), workflowName, w);
        assert drifted == LabelsFor(m, workflowName, w);
        assert Accumulate(m, workflowName, []) == m;
        assert Accumulate(m, workflowName, [v]) == LabelsFor(m, workflowName, v);
        if k !in w.podLabels && !Reserved(k) {
          assert k in drifted && drifted[k] == v.podLabels[k];
        }
      }
    }
  }

  /** The templates that a step has, over the edits of the workflow, differ at most in
      labels that the selector has as well. */
  ghost predicate Agreeing(m: Labels, workflowName: string, writers: set<Writer>) {
    forall v, w :: v in writers && w in writers && v.stepName == w.stepName ==>
      LabelsFor(m, workflowName, v) == LabelsFor(m, workflowName, w)
  }

  /** Whatever was written before a step's job was created, whatever before a later
      lookup, and whichever template the step had then and has now, the lookup for
      the step finds the job. */
  ghost predicate LookupIsReliable(m: Labels, workflowName: string, writers: set<Writer>) {
    forall atCreation, atLookup, v, w ::
      v in writers && w in writers && v.stepName == w.stepName
      && From(atCreation, writers) && From(atLookup, writers) ==>
        Matches(LabelsFor(Accumulate(m, workflowName, atLookup), workflowName, w),
                LabelsFor(Accumulate(m, workflowName, atCreation), workflowName, v))
  }

  /** This holds, over all histories of writes and edits, exactly when the templates
      share their keys and those of one step agree. */
  lemma ReliableIff(m: Labels, workflowName: string, writers: set<Writer>)
    ensures LookupIsReliable(m, workflowName, writers)
            <==> SharedKeys(m, writers) && Agreeing(m, workflowName, writers)
  {
    hide LabelsFor, Accumulate;
    if SharedKeys(m, writers) {
      StableIffSharedKeys(m, workflowName, writers);
    }
    if LookupIsReliable(m, workflowName, writers) {
      forall v, w | v in writers && w in writers && v.stepName == w.stepName
        ensures LabelsFor(m, workflowName, v) == LabelsFor(m, workflowName, w)
      {
        NothingAccumulated(m, workflowName);
        assert From([], writers);
        MatchesBothWays(LabelsFor(m, workflowName, v), LabelsFor(m, workflowName, w));
      }
      forall v, w, k | v in writers && w in writers && k in v.podLabels
        ensures k in w.podLabels || Reserved(k) || (k in m && m[k] == v.podLabels[k])
      {
        assert From([v], writers) && From([], writers);
        if k !in w.podLabels && !Reserved(k) && !(k in m && m[k] == v.podLabels[k]) {
          DriftLosesJob(m, workflowName, v, w, k);
          assert false;
        }
      }
    }
  }

  lemma NothingAccumulated(m: Labels, workflowName: string)
    ensures Accumulate(m, workflowName, []) == m
  {
  }

  lemma MatchesBothWays(a: Labels, b: Labels)
    requires Matches(a, b) && Matches(b, a)
    ensures a == b
  {
  }

  lemma DriftLosesJob(m: Labels, workflowName: string, v: Writer, w: Writer, k: string)
    requires k in v.podLabels && k !in w.podLabels && !Reserved(k)
    requires !(k in m && m[k] == v.podLabels[k])
    ensures !Matches(LabelsFor(Accumulate(m, workflowName, [v]), workflowName, w),
                     LabelsFor(Accumulate(m, workflowName, []), workflowName, w))
  {
    assert Accumulate(m, workflowName, [v]) == LabelsFor(m, workflowName, v);
    var lookup := LabelsFor(LabelsFor(m, workflowName, v), workflowName, w);
    assert k in lookup && lookup[k] == v.podLabels[k];
  }

  /** In particular when all templates use one set of label keys. */
  lemma OneKeySetIsShared(m: Labels, writers: set<Writer>, keys: set<string>)
    requires forall w :: w in writers ==> w.podLabels.Keys == keys
    ensures SharedKeys(m, writers)
  {
  }

  /** Two steps with different keys: the job made for the first is not found by
      the lookup for the first once the second has written its labels. */
  lemma DriftExample()
    ensures
      var a, b := Writer("a", map["x" := "1"]), Writer("b", map["y" := "2"]);
      var job := LabelsFor(map[], "wf", a);
      var later := LabelsFor(Accumulate(map[], "wf", [a, b]), "wf", a);
      !Matches(later, job)
  {
    var a, b := Writer("a", map["x" := "1"]), Writer("b", map["y" := "2"]);
    AccumulateIsLastWriterWins(map[], "wf", [a, b]);
    var later := LabelsFor(Accumulate(map[], "wf", [a, b]), "wf", a);
    assert LastWriter([a, b], "y") == 1;
    assert !Reserved("y") by {
      assert |"y"| == 1;
    }
    assert "y" in later && "y" !in LabelsFor(map[], "wf", a);
  }
}
