/** The histories of label writes that passes over the steps leave: every pass goes
    through the steps in the order of the spec, and a step writes in its turn if it
    is not Complete and all its dependencies are. */
module PassHistories {
  import opened Prelude
  import opened WorkflowTypes
  import opened JobLabels
  import opened Topology
  import opened OrderedLabels
  import opened StepValidation

  // ------------------------------------------------------------------ the passes

  /** The steps that are Complete, and all writes so far. */
  datatype Progress = Progress(done: set<string>, wrote: seq<string>)

  const NO_PROGRESS := Progress({}, [])

  predicate CanWrite(steps: seq<Step>, p: Progress, i: nat)
    requires i < |steps|
  {
    && steps[i].jobTemplate.Some? && steps[i].name !in p.done
    && forall d :: d in steps[i].dependencies ==> d in p.done
  }

  /** The turn of step i, which becomes Complete in it if it is in completes. */
  function Turn(steps: seq<Step>, p: Progress, completes: set<string>, i: nat): Progress
    requires i < |steps|
  {
    if !CanWrite(steps, p, i) then p
    else
      var n := steps[i].name;
      Progress(if n in completes then p.done + {n} else p.done, p.wrote + [n])
  }

  /** The first i turns of a pass. */
  function Turns(steps: seq<Step>, p: Progress, completes: set<string>, i: nat): Progress
    requires i <= |steps|
  {
    if i == 0 then p else Turn(steps, Turns(steps, p, completes, i - 1), completes, i - 1)
  }

  /** What whole passes leave, each given by the steps that become Complete in it. */
  function After(steps: seq<Step>, passes: seq<set<string>>): Progress {
    if passes == [] then NO_PROGRESS
    else Turns(steps, After(steps, passes[..|passes| - 1]), passes[|passes| - 1], |steps|)
  }

  /** After some passes, and the turns of another one up to step n, n may write. */
  ghost predicate AtTurn(steps: seq<Step>, passes: seq<set<string>>, completes: set<string>, n: nat, h: seq<string>)
    requires n < |steps|
  {
    var p := Turns(steps, After(steps, passes), completes, n);
    CanWrite(steps, p, n) && h == p.wrote
  }

  ghost predicate PassHistory(steps: seq<Step>, n: nat, h: seq<string>)
    requires n < |steps|
  {
    exists passes, completes :: AtTurn(steps, passes, completes, n, h)
  }

  /** Whatever passes came before, a step that may write has the same labels. */
  ghost predicate PassStable(m: Labels, workflowName: string, steps: seq<Step>) {
    forall n, h, h' :: 0 <= n < |steps| && PassHistory(steps, n, h) && PassHistory(steps, n, h') ==>
      LabelsAfter(m, workflowName, StepsMap(steps), h, steps[n].name)
      == LabelsAfter(m, workflowName, StepsMap(steps), h', steps[n].name)
  }

  // ------------------------------------------------- they respect the dependencies

  ghost predicate Sane(steps: seq<Step>, p: Progress) {
    var g := StepsMap(steps);
    && OrderedHistory(g, p.wrote)
    && (forall n :: n in p.done ==> n in p.wrote)
    && forall n, d :: n in p.wrote && DependsOn(g, n, d) ==> d in p.done
  }

  lemma TurnKeepsSane(steps: seq<Step>, p: Progress, completes: set<string>, i: nat)
    requires UniqueNames(steps) && i < |steps| && Sane(steps, p)
    ensures Sane(steps, Turn(steps, p, completes, i))
  {
    hide OrderedHistory;
    var g, n := StepsMap(steps), steps[i].name;
    UniqueStepsMap(steps, i);
    if CanWrite(steps, p, i) {
      OneMore(g, p.wrote, n);
      assert (p.wrote + [n])[|p.wrote|] == n;
    }
  }

  lemma {:induction false} TurnsKeepSane(steps: seq<Step>, p: Progress, completes: set<string>, i: nat)
    requires UniqueNames(steps) && i <= |steps| && Sane(steps, p)
    ensures Sane(steps, Turns(steps, p, completes, i))
  {
    hide Sane, Turn;
    if i > 0 {
      TurnsKeepSane(steps, p, completes, i - 1);
      TurnKeepsSane(steps, Turns(steps, p, completes, i - 1), completes, i - 1);
    }
  }

  lemma {:induction false} PassesAreSane(steps: seq<Step>, passes: seq<set<string>>)
    requires UniqueNames(steps)
    ensures Sane(steps, After(steps, passes))
  {
    hide Turns;
    if passes != [] {
      PassesAreSane(steps, passes[..|passes| - 1]);
      TurnsKeepSane(steps, After(steps, passes[..|passes| - 1]), passes[|passes| - 1], |steps|);
    }
  }

  /** ... so they are among the histories that the dependencies allow. */
  lemma PassHistoryIsOrdered(steps: seq<Step>, n: nat, h: seq<string>)
    requires UniqueNames(steps) && n < |steps| && PassHistory(steps, n, h)
    ensures IsJobStep(StepsMap(steps), steps[n].name) && ReadyFor(StepsMap(steps), h, steps[n].name)
  {
    hide After, Turns, OrderedHistory;
    var passes, completes :| AtTurn(steps, passes, completes, n, h);
    PassesAreSane(steps, passes);
    TurnsKeepSane(steps, After(steps, passes), completes, n);
    UniqueStepsMap(steps, n);
  }

  /** The condition that ignores the order of the spec is sufficient. */
  lemma OrderedIsPassStable(m: Labels, workflowName: string, steps: seq<Step>)
    requires UniqueNames(steps) && OrderedStable(m, workflowName, StepsMap(steps))
    ensures PassStable(m, workflowName, steps)
  {
    hide PassHistory, ReadyFor, LabelsAfter, IsJobStep;
    forall n, h, h' | 0 <= n < |steps| && PassHistory(steps, n, h) && PassHistory(steps, n, h')
      ensures LabelsAfter(m, workflowName, StepsMap(steps), h, steps[n].name)
              == LabelsAfter(m, workflowName, StepsMap(steps), h', steps[n].name)
    {
      PassHistoryIsOrdered(steps, n, h);
      PassHistoryIsOrdered(steps, n, h');
    }
  }

  // --------------------------------------------------------- what happens in a pass

  /** x is of a step from i up to j that wrote in its turn. */
  ghost predicate WroteBetween(steps: seq<Step>, p: Progress, completes: set<string>, i: nat, j: nat, x: string)
    requires j <= |steps|
  {
    exists l :: i <= l < j && steps[l].name == x && CanWrite(steps, Turns(steps, p, completes, l), l)
  }

  lemma {:induction false} TurnsGrow(steps: seq<Step>, p: Progress, completes: set<string>, i: nat, j: nat)
    requires i <= j <= |steps|
    ensures var a, b := Turns(steps, p, completes, i), Turns(steps, p, completes, j);
      && a.done <= b.done && a.wrote <= b.wrote
      && forall x :: x in b.wrote[|a.wrote|..] ==> WroteBetween(steps, p, completes, i, j, x)
    decreases j - i
  {
    hide CanWrite;
    if i < j {
      TurnsGrow(steps, p, completes, i, j - 1);
      var a, b, c := Turns(steps, p, completes, i), Turns(steps, p, completes, j - 1), Turns(steps, p, completes, j);
      forall x | x in c.wrote[|a.wrote|..] ensures WroteBetween(steps, p, completes, i, j, x) {
        if x in b.wrote[|a.wrote|..] {
          var l :| i <= l < j - 1 && steps[l].name == x && CanWrite(steps, Turns(steps, p, completes, l), l);
        } else {
          assert c.wrote == b.wrote + [steps[j - 1].name];
          assert CanWrite(steps, b, j - 1);
        }
      }
    }
  }

  /** A step changes in its own turn only. */
  lemma {:induction false} DoneInOwnTurn(steps: seq<Step>, p: Progress, completes: set<string>, i: nat, j: nat, l: nat)
    requires UniqueNames(steps) && i <= j <= |steps| && l < |steps| && !(i <= l < j)
    ensures var a, b := Turns(steps, p, completes, i), Turns(steps, p, completes, j);
      steps[l].name in b.done <==> steps[l].name in a.done
    decreases j - i
  {
    hide CanWrite;
    if i < j {
      DoneInOwnTurn(steps, p, completes, i, j - 1, l);
    }
  }

  // ---------------------------------------------- which step may have set a key last

  /** The spec lists every step after its dependencies. */
  ghost predicate InOrder(steps: seq<Step>) {
    forall i, d :: 0 <= i < |steps| && d in steps[i].dependencies ==> ListedBefore(steps, d, i)
  }

  ghost predicate ListedBefore(steps: seq<Step>, d: string, i: nat)
    requires i <= |steps|
  {
    exists j :: 0 <= j < i && steps[j].name == d
  }

  /** Once c is Complete, step i, which sets k, is sure to write before step n does,
      or to have written: it stands between them, and all it depends on is needed by n
      or as sure. */
  ghost predicate Compelled(steps: seq<Step>, k: string, c: int, n: nat, i: nat)
    requires n < |steps| && i < |steps|
    decreases i
  {
    && c < i < n && Sets(StepsMap(steps), steps[i].name, k)
    && forall d :: d in steps[i].dependencies ==>
         || Needs(StepsMap(steps), steps[n].name, d)
         || exists j :: 0 <= j < i && steps[j].name == d && Compelled(steps, k, c, n, j)
  }

  /** No compelled step needs c. */
  ghost predicate NotOvertaken(steps: seq<Step>, k: string, c: nat, n: nat)
    requires n < |steps| && c < |steps|
  {
    forall i :: 0 <= i < |steps| && Compelled(steps, k, c, n, i) ==>
      !Needs(StepsMap(steps), steps[i].name, steps[c].name)
  }

  /** Step c may be the last before step n that sets k. */
  ghost predicate MayPrecede(steps: seq<Step>, k: string, n: nat, c: nat)
    requires n < |steps| && c < |steps|
  {
    var g := StepsMap(steps);
    && c != n && Sets(g, steps[c].name, k) && CanRun(g, steps[c].name) && !Needs(g, steps[c].name, steps[n].name)
    && (Needs(g, steps[n].name, steps[c].name) ==> NotOvertaken(steps, k, c, n))
  }

  /** Some step is sure to have set k before n writes. */
  ghost predicate SomeCompelled(steps: seq<Step>, k: string, n: nat)
    requires n < |steps|
  {
    exists i :: 0 <= i < |steps| && Compelled(steps, k, -1, n, i)
  }

  function LabelIn(l: Labels, k: string): Option<string> {
    if k in l then Some(l[k]) else None
  }

  /** The value that the template of step c sets k to. */
  function Value(steps: seq<Step>, c: nat, k: string): Option<string>
    requires c < |steps|
  {
    LabelIn(WriterFor(StepsMap(steps), steps[c].name).podLabels, k)
  }

  /** All that may have set k last agree, with the selector too if perhaps none has. */
  ghost predicate KeyFits(m: Labels, steps: seq<Step>, n: nat, k: string)
    requires n < |steps|
  {
    && (forall a, b :: 0 <= a < |steps| && 0 <= b < |steps| && MayPrecede(steps, k, n, a) && MayPrecede(steps, k, n, b) ==>
         Value(steps, a, k) == Value(steps, b, k))
    && (!SomeCompelled(steps, k, n) ==>
         forall a :: 0 <= a < |steps| && MayPrecede(steps, k, n, a) ==> Value(steps, a, k) == LabelIn(m, k))
  }

  ghost predicate SpecKeys(m: Labels, steps: seq<Step>) {
    forall n, k :: 0 <= n < |steps| && CanRun(StepsMap(steps), steps[n].name)
                   && !Sets(StepsMap(steps), steps[n].name, k) && !Reserved(k) ==>
      KeyFits(m, steps, n, k)
  }

  // ------------------------------------------------------------- every last setter

  /** All that n needs is Complete when n may write. */
  lemma {:induction false} NeededIsDone(steps: seq<Step>, p: Progress, n: string, m: string)
    requires Sane(steps, p) && Needs(StepsMap(steps), n, m) && n in p.done
    ensures m in p.done
  {
    hide OrderedHistory;
    var c :| c != [] && Chain(StepsMap(steps), c) && c[|c| - 1] == n && c[0] == m;
    ChainIsDone(steps, p, c, 0);
  }

  lemma {:induction false} ChainIsDone(steps: seq<Step>, p: Progress, c: seq<string>, i: nat)
    requires Sane(steps, p) && Chain(StepsMap(steps), c) && i < |c| && c[|c| - 1] in p.done
    ensures c[i] in p.done
    decreases |c| - i
  {
    hide OrderedHistory;
    if i < |c| - 1 {
      ChainIsDone(steps, p, c, i + 1);
    }
  }

  lemma NeededAtTurn(steps: seq<Step>, p: Progress, n: nat, m: string)
    requires UniqueNames(steps) && n < |steps| && Sane(steps, p) && CanWrite(steps, p, n)
    requires Needs(StepsMap(steps), steps[n].name, m) && m != steps[n].name
    ensures m in p.done
  {
    hide Sane, Needs;
    UniqueStepsMap(steps, n);
    var d := NeedsFirst(StepsMap(steps), steps[n].name, m);
    NeededIsDone(steps, p, d, m);
  }

  /** A step that sets a key is a job step. */
  lemma SetterHasJob(steps: seq<Step>, i: nat, k: string)
    requires UniqueNames(steps) && i < |steps| && Sets(StepsMap(steps), steps[i].name, k)
    ensures steps[i].jobTemplate.Some?
  {
    UniqueStepsMap(steps, i);
  }

  /** In the pass in which n writes, a compelled step is due in its turn, if it is not
      Complete by then. */
  lemma {:induction false} CompelledDone(
    steps: seq<Step>, start: Progress, completes: set<string>, k: string, c: int, n: nat, i: nat)
    requires UniqueNames(steps) && InOrder(steps) && Sane(steps, start) && n < |steps| && i < |steps|
    requires CanWrite(steps, Turns(steps, start, completes, n), n) && Compelled(steps, k, c, n, i)
    requires forall j :: 0 <= j < i && Compelled(steps, k, c, n, j) ==>
      steps[j].name in Turns(steps, start, completes, j).done
    ensures CanWrite(steps, Turns(steps, start, completes, i), i) || steps[i].name in Turns(steps, start, completes, i).done
  {
    hide Turns, Sane, Needs, Sets, CanWrite;
    var q := Turns(steps, start, completes, i);
    forall d | d in steps[i].dependencies ensures d in q.done {
      assert ListedBefore(steps, d, i);
      var j :| 0 <= j < i && steps[j].name == d;
      if Needs(StepsMap(steps), steps[n].name, d) {
        TurnsKeepSane(steps, start, completes, n);
        NeededAtTurn(steps, Turns(steps, start, completes, n), n, d);
        DoneInOwnTurn(steps, start, completes, i, n, j);
      } else {
        var e :| 0 <= e < i && steps[e].name == d && Compelled(steps, k, c, n, e);
        TurnsGrow(steps, start, completes, e, i);
      }
    }
    SetterHasJob(steps, i, k);
    MayWriteOrDone(steps, q, i);
  }

  lemma MayWriteOrDone(steps: seq<Step>, q: Progress, i: nat)
    requires i < |steps| && steps[i].jobTemplate.Some? && forall d :: d in steps[i].dependencies ==> d in q.done
    ensures CanWrite(steps, q, i) || steps[i].name in q.done
  {
  }

  /** If c was the last to set k, every compelled step is Complete before its turn. */
  lemma {:induction false} CompelledBefore(
    steps: seq<Step>, start: Progress, completes: set<string>, k: string, c: int, n: nat, i: nat)
    requires UniqueNames(steps) && InOrder(steps) && Sane(steps, start) && n < |steps| && i < |steps|
    requires CanWrite(steps, Turns(steps, start, completes, n), n) && Compelled(steps, k, c, n, i)
    requires var g, h := StepsMap(steps), Turns(steps, start, completes, n).wrote;
      if c < 0 then LastSetter(g, h, k) < 0
      else c < |steps| && LastSetter(g, h, k) >= 0 && h[LastSetter(g, h, k)] == steps[c].name
    ensures steps[i].name in Turns(steps, start, completes, i).done
    decreases i
  {
    hide Turns, Sane, CanWrite, LastSetter, Compelled, InOrder;
    forall j | 0 <= j < i && Compelled(steps, k, c, n, j)
      ensures steps[j].name in Turns(steps, start, completes, j).done
    {
      CompelledBefore(steps, start, completes, k, c, n, j);
    }
    CompelledDone(steps, start, completes, k, c, n, i);
    CompelledSets(steps, k, c, n, i);
    NoneWritesAfterLast(steps, start, completes, k, c, n, i);
  }

  lemma CompelledSets(steps: seq<Step>, k: string, c: int, n: nat, i: nat)
    requires n < |steps| && i < |steps| && Compelled(steps, k, c, n, i)
    ensures c < i < n && Sets(StepsMap(steps), steps[i].name, k)
  {
  }

  /** A setter between the last one and n does not write in its turn. */
  lemma NoneWritesAfterLast(
    steps: seq<Step>, start: Progress, completes: set<string>, k: string, c: int, n: nat, i: nat)
    requires UniqueNames(steps) && c < i < n < |steps| && Sets(StepsMap(steps), steps[i].name, k)
    requires var g, h := StepsMap(steps), Turns(steps, start, completes, n).wrote;
      if c < 0 then LastSetter(g, h, k) < 0
      else LastSetter(g, h, k) >= 0 && h[LastSetter(g, h, k)] == steps[c].name
    ensures !CanWrite(steps, Turns(steps, start, completes, i), i)
  {
    hide Turns, CanWrite, Sets;
    var g, q, h := StepsMap(steps), Turns(steps, start, completes, i), Turns(steps, start, completes, n).wrote;
    if CanWrite(steps, q, i) {
      OtherNamesFollow(steps, start, completes, c, n, i);
      SetterBound(g, h, k, |q.wrote|);
      assert false;
    }
  }

  /** From the turn of i on, the names written are not that of an earlier step. */
  lemma OtherNamesFollow(steps: seq<Step>, start: Progress, completes: set<string>, c: int, n: nat, i: nat)
    requires UniqueNames(steps) && c < i < n < |steps| && CanWrite(steps, Turns(steps, start, completes, i), i)
    ensures var q, h := Turns(steps, start, completes, i).wrote, Turns(steps, start, completes, n).wrote;
      |q| < |h| && h[|q|] == steps[i].name && forall p :: |q| <= p < |h| ==> c < 0 || h[p] != steps[c].name
  {
    hide Turns, CanWrite;
    var q, h := Turns(steps, start, completes, i).wrote, Turns(steps, start, completes, n).wrote;
    WritesInTurn(steps, start, completes, i);
    TurnsGrow(steps, start, completes, i + 1, n);
    forall p | |q| < p < |h| ensures c < 0 || h[p] != steps[c].name {
      assert h[|q| + 1..][p - |q| - 1] == h[p];
      assert WroteBetween(steps, start, completes, i + 1, n, h[p]);
    }
  }

  lemma WritesInTurn(steps: seq<Step>, start: Progress, completes: set<string>, i: nat)
    requires i < |steps| && CanWrite(steps, Turns(steps, start, completes, i), i)
    ensures Turns(steps, start, completes, i + 1).wrote == Turns(steps, start, completes, i).wrote + [steps[i].name]
  {
  }

  lemma SetterBound(g: Graph, h: seq<string>, k: string, p: nat)
    requires p < |h| && Sets(g, h[p], k)
    ensures LastSetter(g, h, k) >= p
  {
    assert k in WritersFor(g, h)[p].podLabels;
  }

  lemma HistoryNamesSteps(steps: seq<Step>, n: nat, h: seq<string>, p: nat) returns (c: nat)
    requires UniqueNames(steps) && n < |steps| && PassHistory(steps, n, h) && p < |h|
    ensures c < |steps| && steps[c].name == h[p]
  {
    hide PassHistory;
    PassHistoryIsOrdered(steps, n, h);
    StepsMapNames(steps);
    assert h[p] in h && h[p] in StepsMap(steps);
    c :| 0 <= c < |steps| && steps[c].name == h[p];
  }

  /** The last setter before n is one that may precede it. */
  lemma LastMayPrecede(steps: seq<Step>, n: nat, h: seq<string>, k: string) returns (c: nat)
    requires UniqueNames(steps) && InOrder(steps) && n < |steps| && PassHistory(steps, n, h)
    requires !Sets(StepsMap(steps), steps[n].name, k) && LastSetter(StepsMap(steps), h, k) >= 0
    ensures c < |steps| && steps[c].name == h[LastSetter(StepsMap(steps), h, k)] && MayPrecede(steps, k, n, c)
  {
    hide PassHistory, Needs, CanRun, LastSetter, Sets, Compelled, InOrder;
    var g := StepsMap(steps);
    c := HistoryNamesSteps(steps, n, h, LastSetter(g, h, k));
    PassHistoryIsOrdered(steps, n, h);
    LastSetterMayBeLast(g, h, steps[n].name, k);
    if Needs(g, steps[n].name, steps[c].name) {
      forall i | 0 <= i < |steps| && Compelled(steps, k, c, n, i) ensures !Needs(g, steps[i].name, steps[c].name) {
        CompelledCannotNeed(steps, n, h, k, c, i);
      }
    }
  }

  lemma CompelledCannotNeed(steps: seq<Step>, n: nat, h: seq<string>, k: string, c: nat, i: nat)
    requires UniqueNames(steps) && InOrder(steps) && n < |steps| && PassHistory(steps, n, h)
    requires var g := StepsMap(steps);
      c < |steps| && LastSetter(g, h, k) >= 0 && h[LastSetter(g, h, k)] == steps[c].name
    requires i < |steps| && Compelled(steps, k, c, n, i)
    ensures !Needs(StepsMap(steps), steps[i].name, steps[c].name)
  {
    hide Needs, LastSetter, Sets, Compelled, InOrder, Turns, After, CanWrite, Sane;
    var g, pos := StepsMap(steps), LastSetter(StepsMap(steps), h, k);
    var passes, completes :| AtTurn(steps, passes, completes, n, h);
    var start := After(steps, passes);
    PassesAreSane(steps, passes);
    CompelledBefore(steps, start, completes, k, c, n, i);
    CompelledSets(steps, k, c, n, i);
    TurnsGrow(steps, start, completes, i, n);
    TurnsKeepSane(steps, start, completes, n);
    DoneHasWritten(steps, Turns(steps, start, completes, n), steps[i].name);
    var r :| 0 <= r < |h| && h[r] == steps[i].name;
    SetterBound(g, h, k, r);
    if Needs(g, steps[i].name, steps[c].name) {
      NeededStandsBefore(g, h, r, steps[c].name);
      assert false;
    }
  }

  lemma DoneHasWritten(steps: seq<Step>, p: Progress, n: string)
    requires Sane(steps, p) && n in p.done
    ensures n in p.wrote && OrderedHistory(StepsMap(steps), p.wrote)
  {
  }

  /** If nothing has set k before n writes, no step was sure to. */
  lemma UnsetNoneCompelled(steps: seq<Step>, n: nat, h: seq<string>, k: string)
    requires UniqueNames(steps) && InOrder(steps) && n < |steps| && PassHistory(steps, n, h)
    requires LastSetter(StepsMap(steps), h, k) < 0
    ensures !SomeCompelled(steps, k, n)
  {
    hide Needs, LastSetter, Sets, Compelled, InOrder, Turns, After, CanWrite, Sane;
    var passes, completes :| AtTurn(steps, passes, completes, n, h);
    var start := After(steps, passes);
    PassesAreSane(steps, passes);
    forall i | 0 <= i < |steps| ensures !Compelled(steps, k, -1, n, i) {
      if Compelled(steps, k, -1, n, i) {
        CompelledBefore(steps, start, completes, k, -1, n, i);
        CompelledSets(steps, k, -1, n, i);
        TurnsGrow(steps, start, completes, i, n);
        TurnsKeepSane(steps, start, completes, n);
        DoneHasWritten(steps, Turns(steps, start, completes, n), steps[i].name);
        var r :| 0 <= r < |h| && h[r] == steps[i].name;
        SetterBound(StepsMap(steps), h, k, r);
        assert false;
      }
    }
  }

  /** v is the value, if any, that some history may give k before n. */
  ghost predicate MayGive(m: Labels, steps: seq<Step>, n: nat, k: string, v: Option<string>)
    requires n < |steps|
  {
    || (!SomeCompelled(steps, k, n) && v == LabelIn(m, k))
    || exists c :: 0 <= c < |steps| && MayPrecede(steps, k, n, c) && v == Value(steps, c, k)
  }

  lemma FittingValuesAgree(m: Labels, steps: seq<Step>, n: nat, k: string, v: Option<string>, v': Option<string>)
    requires n < |steps| && KeyFits(m, steps, n, k) && MayGive(m, steps, n, k, v) && MayGive(m, steps, n, k, v')
    ensures v == v'
  {
    hide MayPrecede, SomeCompelled;
  }

  lemma HistoryGives(m: Labels, workflowName: string, steps: seq<Step>, n: nat, h: seq<string>, k: string)
    requires UniqueNames(steps) && InOrder(steps) && n < |steps| && PassHistory(steps, n, h)
    requires !Reserved(k) && !Sets(StepsMap(steps), steps[n].name, k)
    ensures var l := LabelsAfter(m, workflowName, StepsMap(steps), h, steps[n].name);
      MayGive(m, steps, n, k, LabelIn(l, k))
  {
    hide LabelsAfter, PassHistory, MayPrecede, SomeCompelled, LastSetter, InOrder;
    LabelAfter(m, workflowName, StepsMap(steps), h, steps[n].name, k);
    if LastSetter(StepsMap(steps), h, k) >= 0 {
      var c := LastMayPrecede(steps, n, h, k);
    } else {
      UnsetNoneCompelled(steps, n, h, k);
    }
  }

  lemma FittingLabel(m: Labels, workflowName: string, steps: seq<Step>, n: nat, h: seq<string>, h': seq<string>, k: string)
    requires UniqueNames(steps) && InOrder(steps) && SpecKeys(m, steps) && n < |steps|
    requires PassHistory(steps, n, h) && PassHistory(steps, n, h')
    ensures var g := StepsMap(steps);
      var l, l' := LabelsAfter(m, workflowName, g, h, steps[n].name), LabelsAfter(m, workflowName, g, h', steps[n].name);
      (k in l <==> k in l') && (k in l ==> l[k] == l'[k])
  {
    hide LabelsAfter, PassHistory, KeyFits, MayGive, CanRun, InOrder, ReadyFor, Sets, IsJobStep;
    var g, name := StepsMap(steps), steps[n].name;
    if Reserved(k) || Sets(g, name, k) {
      OwnLabel(m, workflowName, g, h, name, k);
      OwnLabel(m, workflowName, g, h', name, k);
    } else {
      PassHistoryIsOrdered(steps, n, h);
      ReadyCanRun(g, h, name);
      HistoryGives(m, workflowName, steps, n, h, k);
      HistoryGives(m, workflowName, steps, n, h', k);
      var l, l' := LabelsAfter(m, workflowName, g, h, name), LabelsAfter(m, workflowName, g, h', name);
      FittingValuesAgree(m, steps, n, k, LabelIn(l, k), LabelIn(l', k));
    }
  }

  // ---------------------------------------------------------- each one does happen

  /** Steps that can run and contain what they need. */
  ghost predicate Runnable(steps: seq<Step>, s: set<string>) {
    var g := StepsMap(steps);
    (forall m :: m in s ==> IsJobStep(g, m)) && forall m, d :: m in s && DependsOn(g, m, d) ==> d in s
  }

  ghost function NamesUpTo(steps: seq<Step>, i: nat): set<string>
    requires i <= |steps|
  {
    set j | 0 <= j < i :: steps[j].name
  }

  /** In one pass all of s can become Complete, beside what was before. */
  lemma {:induction false} OnePassCompletes(steps: seq<Step>, p: Progress, s: set<string>, i: nat)
    requires UniqueNames(steps) && InOrder(steps) && i <= |steps|
    requires Runnable(steps, p.done + s)
    ensures Turns(steps, p, s, i).done == p.done + (s * NamesUpTo(steps, i))
  {
    hide InOrder;
    if i == 0 {
      assert s * NamesUpTo(steps, 0) == {};
    } else {
      OnePassCompletes(steps, p, s, i - 1);
      var q, n := Turns(steps, p, s, i - 1), steps[i - 1].name;
      UniqueStepsMap(steps, i - 1);
      assert NamesUpTo(steps, i) == NamesUpTo(steps, i - 1) + {n};
      if n in s && n !in q.done {
        forall d | d in steps[i - 1].dependencies ensures d in q.done {
          assert DependsOn(StepsMap(steps), n, d);
          DependencyListed(steps, i - 1, d);
        }
        assert CanWrite(steps, q, i - 1);
      }
    }
  }

  lemma DependencyListed(steps: seq<Step>, i: nat, d: string)
    requires InOrder(steps) && i < |steps| && d in steps[i].dependencies
    ensures d in NamesUpTo(steps, i)
  {
    assert ListedBefore(steps, d, i);
  }

  /** If step c writes in its turn, and none of the steps after it up to j that write
      sets k, then c is the last setter by then. */
  lemma LastIsTurn(steps: seq<Step>, p: Progress, completes: set<string>, k: string, c: nat, j: nat)
    requires UniqueNames(steps) && c < j <= |steps| && CanWrite(steps, Turns(steps, p, completes, c), c)
    requires Sets(StepsMap(steps), steps[c].name, k)
    requires forall i :: c < i < j && CanWrite(steps, Turns(steps, p, completes, i), i) ==>
      !Sets(StepsMap(steps), steps[i].name, k)
    ensures var g, h := StepsMap(steps), Turns(steps, p, completes, j).wrote;
      LastSetter(g, h, k) >= 0 && h[LastSetter(g, h, k)] == steps[c].name
  {
    hide Turns, CanWrite, Sets;
    var g, q, h := StepsMap(steps), Turns(steps, p, completes, c).wrote, Turns(steps, p, completes, j).wrote;
    WritesInTurn(steps, p, completes, c);
    TurnsGrow(steps, p, completes, c + 1, j);
    var u := h[|q| + 1..];
    forall x | x in u ensures !Sets(g, x, k) {
      assert WroteBetween(steps, p, completes, c + 1, j, x);
    }
    assert h == q + [steps[c].name] + u;
    LastIs(g, q, steps[c].name, u, k);
  }

  /** After one pass from the beginning, exactly s is Complete. */
  lemma FirstPass(steps: seq<Step>, s: set<string>)
    requires UniqueNames(steps) && InOrder(steps) && Runnable(steps, s)
    ensures After(steps, [s]).done == s
  {
    hide InOrder, Turns;
    var passes := [s];
    assert passes[..0] == [] && After(steps, []) == NO_PROGRESS;
    assert {} + s == s;
    OnePassCompletes(steps, NO_PROGRESS, s, |steps|);
    StepsMapNames(steps);
    forall m | m in s ensures m in NamesUpTo(steps, |steps|) {
      assert m in StepsMap(steps);
    }
    assert s * NamesUpTo(steps, |steps|) == s;
  }

  /** What a step needs comes before it. */
  lemma {:induction false} NeededIsListed(steps: seq<Step>, n: nat, m: string) returns (j: nat)
    requires UniqueNames(steps) && InOrder(steps) && n < |steps|
    requires Needs(StepsMap(steps), steps[n].name, m) && m != steps[n].name
    ensures j < n && steps[j].name == m
    decreases n
  {
    hide Needs, InOrder;
    var d := NeedsFirst(StepsMap(steps), steps[n].name, m);
    UniqueStepsMap(steps, n);
    DependencyListed(steps, n, d);
    j :| 0 <= j < n && steps[j].name == d;
    if d != m {
      j := NeededIsListed(steps, j, m);
    }
  }

  /** A step needs no later one. */
  lemma NeedsNoLater(steps: seq<Step>, i: nat, n: nat, m: string)
    requires UniqueNames(steps) && InOrder(steps) && i < n < |steps| && Needs(StepsMap(steps), steps[i].name, m)
    ensures m != steps[n].name
  {
    hide Needs, InOrder;
    if m == steps[n].name {
      var j := NeededIsListed(steps, i, m);
      assert false;
    }
  }

  /** A compelled step needs only what n needs, and compelled steps. */
  lemma {:induction false} CompelledNeeds(steps: seq<Step>, k: string, c: int, n: nat, i: nat, m: string)
    requires UniqueNames(steps) && n < |steps| && i < |steps| && Compelled(steps, k, c, n, i)
    requires Needs(StepsMap(steps), steps[i].name, m)
    ensures || Needs(StepsMap(steps), steps[n].name, m)
            || exists j :: 0 <= j <= i && steps[j].name == m && Compelled(steps, k, c, n, j)
    decreases i
  {
    hide Needs, Sets;
    var g := StepsMap(steps);
    if m != steps[i].name {
      var d := NeedsFirst(g, steps[i].name, m);
      UniqueStepsMap(steps, i);
      if Needs(g, steps[n].name, d) {
        NeedsTransitive(g, steps[n].name, d, m);
      } else {
        var j :| 0 <= j < i && steps[j].name == d && Compelled(steps, k, c, n, j);
        CompelledNeeds(steps, k, c, n, j, m);
      }
    }
  }

  ghost function CompelledNames(steps: seq<Step>, k: string, c: int, n: nat): set<string>
    requires n < |steps|
  {
    set i | 0 <= i < |steps| && Compelled(steps, k, c, n, i) :: steps[i].name
  }

  ghost function NeededNames(steps: seq<Step>, n: nat): set<string>
    requires n < |steps|
  {
    set m | m in StepsMap(steps) && Needs(StepsMap(steps), steps[n].name, m) && m != steps[n].name
  }

  /** What is to be Complete before c is: all it needs, and all that is compelled, with
      what that needs. */
  ghost function BeforeLast(steps: seq<Step>, k: string, c: nat, n: nat): set<string>
    requires n < |steps| && c < |steps|
  {
    var g := StepsMap(steps);
    NeededNames(steps, c)
    + set m | m in g && exists i :: 0 <= i < |steps| && Compelled(steps, k, c, n, i) && Needs(g, steps[i].name, m)
  }

  lemma BeforeLastFacts(steps: seq<Step>, k: string, c: nat, n: nat)
    requires UniqueNames(steps) && InOrder(steps) && n < |steps| && c < |steps| && NotOvertaken(steps, k, c, n)
    requires Needs(StepsMap(steps), steps[n].name, steps[c].name) && c != n
    ensures var s := BeforeLast(steps, k, c, n);
      && steps[c].name !in s && s <= NeededNames(steps, n) + CompelledNames(steps, k, c, n)
      && CompelledNames(steps, k, c, n) <= s && NeededNames(steps, c) <= s
  {
    hide Needs, Compelled, InOrder;
    var g, s := StepsMap(steps), BeforeLast(steps, k, c, n);
    StepsMapNames(steps);
    forall m | m in s ensures m in NeededNames(steps, n) + CompelledNames(steps, k, c, n) {
      if m in NeededNames(steps, c) {
        NeedsTransitive(g, steps[n].name, steps[c].name, m);
        var j := NeededIsListed(steps, n, steps[c].name);
        NeedsNoLater(steps, c, n, m);
      } else {
        var i :| 0 <= i < |steps| && Compelled(steps, k, c, n, i) && Needs(g, steps[i].name, m);
        CompelledNeeds(steps, k, c, n, i, m);
        CompelledSets(steps, k, c, n, i);
        NeedsNoLater(steps, i, n, m);
      }
    }
    forall i | 0 <= i < |steps| && Compelled(steps, k, c, n, i) ensures steps[i].name in s {
      NeedsItself(g, steps[i].name);
    }
  }

  lemma DependencyNeeded(steps: seq<Step>, x: string, m: string, d: string)
    requires UniqueNames(steps) && InOrder(steps) && Needs(StepsMap(steps), x, m) && DependsOn(StepsMap(steps), m, d)
    ensures d in StepsMap(steps) && Needs(StepsMap(steps), x, d)
  {
    hide Needs;
    StepsMapNames(steps);
    var i :| 0 <= i < |steps| && steps[i].name == m;
    UniqueStepsMap(steps, i);
    assert ListedBefore(steps, d, i);
    DependencyIsNeeded(StepsMap(steps), m, d);
    NeedsTransitive(StepsMap(steps), x, m, d);
  }

  /** Nothing on the way needs the step itself. */
  lemma DependencyIsEarlier(steps: seq<Step>, n: nat, m: string, d: string)
    requires UniqueNames(steps) && InOrder(steps) && n < |steps|
    requires Needs(StepsMap(steps), steps[n].name, m) && DependsOn(StepsMap(steps), m, d)
    ensures d != steps[n].name
  {
    hide Needs;
    StepsMapNames(steps);
    var i :| 0 <= i < |steps| && steps[i].name == m;
    UniqueStepsMap(steps, i);
    assert ListedBefore(steps, d, i);
    if m != steps[n].name {
      var j := NeededIsListed(steps, n, m);
    }
  }

  lemma NeededIsRunnable(steps: seq<Step>, n: nat)
    requires UniqueNames(steps) && InOrder(steps) && n < |steps| && CanRun(StepsMap(steps), steps[n].name)
    ensures Runnable(steps, NeededNames(steps, n))
  {
    hide Needs, InOrder, IsJobStep;
    var g := StepsMap(steps);
    forall m, d | m in NeededNames(steps, n) && DependsOn(g, m, d) ensures d in NeededNames(steps, n) {
      DependencyNeeded(steps, steps[n].name, m, d);
      DependencyIsEarlier(steps, n, m, d);
    }
  }

  lemma BeforeLastIsRunnable(steps: seq<Step>, k: string, c: nat, n: nat)
    requires UniqueNames(steps) && InOrder(steps) && n < |steps| && c < |steps| && NotOvertaken(steps, k, c, n)
    requires CanRun(StepsMap(steps), steps[n].name) && Needs(StepsMap(steps), steps[n].name, steps[c].name) && c != n
    ensures Runnable(steps, BeforeLast(steps, k, c, n))
    ensures Runnable(steps, BeforeLast(steps, k, c, n) + NeededNames(steps, n))
  {
    hide Needs, InOrder, Compelled, IsJobStep, NotOvertaken;
    var g, s := StepsMap(steps), BeforeLast(steps, k, c, n);
    BeforeLastFacts(steps, k, c, n);
    NeededIsRunnable(steps, n);
    forall m | m in s ensures IsJobStep(g, m) {
      if m !in NeededNames(steps, n) {
        var i :| 0 <= i < |steps| && Compelled(steps, k, c, n, i) && steps[i].name == m;
        CompelledSets(steps, k, c, n, i);
        SetterIsJobStep(g, m, k);
      }
    }
    forall m, d | m in s && DependsOn(g, m, d) ensures d in s {
      if m in NeededNames(steps, c) {
        DependencyNeeded(steps, steps[c].name, m, d);
        DependencyIsEarlier(steps, c, m, d);
      } else {
        var i :| 0 <= i < |steps| && Compelled(steps, k, c, n, i) && Needs(g, steps[i].name, m);
        DependencyNeeded(steps, steps[i].name, m, d);
      }
    }
  }

  lemma SetterIsJobStep(g: Graph, n: string, k: string)
    requires Sets(g, n, k)
    ensures IsJobStep(g, n)
  {
  }

  /** Step n may write in its turn, once what it needs is Complete and it is not. */
  lemma DueInTurn(steps: seq<Step>, q: Progress, n: nat)
    requires UniqueNames(steps) && n < |steps| && IsJobStep(StepsMap(steps), steps[n].name) && steps[n].name !in q.done
    requires forall d :: DependsOn(StepsMap(steps), steps[n].name, d) ==> d in q.done
    ensures CanWrite(steps, q, n)
  {
    UniqueStepsMap(steps, n);
  }

  /** A needed step that no compelled one needs is the last setter before n in the
      second of two passes. */
  lemma NeededCanBeLast(steps: seq<Step>, k: string, c: nat, n: nat) returns (h: seq<string>)
    requires UniqueNames(steps) && InOrder(steps) && n < |steps| && c < |steps| && c != n
    requires CanRun(StepsMap(steps), steps[n].name) && Needs(StepsMap(steps), steps[n].name, steps[c].name)
    requires Sets(StepsMap(steps), steps[c].name, k) && NotOvertaken(steps, k, c, n)
    ensures PassHistory(steps, n, h)
    ensures LastSetter(StepsMap(steps), h, k) >= 0 && h[LastSetter(StepsMap(steps), h, k)] == steps[c].name
  {
    hide Needs, InOrder, Compelled, NotOvertaken, After, Turns, Sets, BeforeLast, IsJobStep, CanWrite;
    var g, s, needed := StepsMap(steps), BeforeLast(steps, k, c, n), NeededNames(steps, n);
    var start := After(steps, [s]);
    BeforeLastFacts(steps, k, c, n);
    BeforeLastIsRunnable(steps, k, c, n);
    FirstPass(steps, s);
    var j := NeededIsListed(steps, n, steps[c].name);
    assert j == c;
    forall i | 0 <= i <= |steps| ensures Turns(steps, start, needed, i).done == s + (needed * NamesUpTo(steps, i)) {
      OnePassCompletes(steps, start, needed, i);
    }
    NeededWrites(steps, start, s, needed, c, n, k);
    forall i | c < i < n && CanWrite(steps, Turns(steps, start, needed, i), i) ensures !Sets(g, steps[i].name, k) {
      if Sets(g, steps[i].name, k) {
        WriterIsCompelled(steps, Turns(steps, start, needed, i), k, c, n, i);
        assert steps[i].name in CompelledNames(steps, k, c, n);
        WriterIsNotDone(steps, Turns(steps, start, needed, i), i);
        assert false;
      }
    }
    LastIsTurn(steps, start, needed, k, c, n);
    h := Turns(steps, start, needed, n).wrote;
    assert AtTurn(steps, [s], needed, n, h);
  }

  lemma WriterIsNotDone(steps: seq<Step>, q: Progress, i: nat)
    requires i < |steps| && CanWrite(steps, q, i)
    ensures steps[i].name !in q.done && forall d :: d in steps[i].dependencies ==> d in q.done
  {
  }

  /** A setter that can write while only needed and compelled steps are Complete is
      compelled. */
  lemma WriterIsCompelled(steps: seq<Step>, q: Progress, k: string, c: int, n: nat, i: nat)
    requires UniqueNames(steps) && InOrder(steps) && c < i < n < |steps| && CanWrite(steps, q, i)
    requires Sets(StepsMap(steps), steps[i].name, k) && q.done <= NeededNames(steps, n) + CompelledNames(steps, k, c, n)
    ensures Compelled(steps, k, c, n, i)
  {
    hide Needs, Sets;
    forall d | d in steps[i].dependencies && !Needs(StepsMap(steps), steps[n].name, d)
      ensures exists j :: 0 <= j < i && steps[j].name == d && Compelled(steps, k, c, n, j)
    {
      assert ListedBefore(steps, d, i);
      assert d in CompelledNames(steps, k, c, n);
    }
  }

  /** In the second pass, step c and step n write in their turns. */
  lemma NeededWrites(
    steps: seq<Step>, start: Progress, s: set<string>, needed: set<string>, c: nat, n: nat, k: string)
    requires UniqueNames(steps) && InOrder(steps) && c < n < |steps| && needed == NeededNames(steps, n)
    requires CanRun(StepsMap(steps), steps[n].name) && Needs(StepsMap(steps), steps[n].name, steps[c].name)
    requires steps[c].name !in s && NeededNames(steps, c) <= s && s <= needed + CompelledNames(steps, k, c, n)
    requires forall i :: 0 <= i <= |steps| ==>
      Turns(steps, start, needed, i).done == s + (needed * NamesUpTo(steps, i))
    ensures CanWrite(steps, Turns(steps, start, needed, c), c) && CanWrite(steps, Turns(steps, start, needed, n), n)
  {
    hide Needs, InOrder, Compelled, Turns, CanWrite, IsJobStep;
    var g := StepsMap(steps);
    NeedsItself(g, steps[n].name);
    forall d | DependsOn(g, steps[c].name, d) ensures d in NeededNames(steps, c) {
      NeedsItself(g, steps[c].name);
      DependencyNeeded(steps, steps[c].name, steps[c].name, d);
      DependencyIsEarlier(steps, c, steps[c].name, d);
    }
    DueInTurn(steps, Turns(steps, start, needed, c), c);
    forall d | DependsOn(g, steps[n].name, d) ensures d in needed && d in NamesUpTo(steps, n) {
      DependencyNeeded(steps, steps[n].name, steps[n].name, d);
      DependencyIsEarlier(steps, n, steps[n].name, d);
      UniqueStepsMap(steps, n);
      DependencyListed(steps, n, d);
    }
    NotAmongCompelled(steps, k, c, n);
    DueInTurn(steps, Turns(steps, start, needed, n), n);
  }

  lemma NotAmongCompelled(steps: seq<Step>, k: string, c: int, n: nat)
    requires UniqueNames(steps) && n < |steps|
    ensures steps[n].name !in CompelledNames(steps, k, c, n) && steps[n].name !in NeededNames(steps, n)
  {
    forall i | 0 <= i < |steps| && Compelled(steps, k, c, n, i) ensures steps[i].name != steps[n].name {
      CompelledSets(steps, k, c, n, i);
    }
  }

  /** If no step is compelled, nothing has set k when n writes in the first pass. */
  lemma NothingSetBefore(steps: seq<Step>, k: string, n: nat) returns (h: seq<string>)
    requires UniqueNames(steps) && InOrder(steps) && n < |steps| && CanRun(StepsMap(steps), steps[n].name)
    requires !SomeCompelled(steps, k, n)
    ensures PassHistory(steps, n, h) && LastSetter(StepsMap(steps), h, k) < 0
  {
    hide Needs, InOrder, Compelled, After, Turns, Sets, IsJobStep, CanWrite, LastSetter;
    var g, needed := StepsMap(steps), NeededNames(steps, n);
    NeededIsRunnable(steps, n);
    assert After(steps, []) == NO_PROGRESS by {
      NoPasses(steps);
    }
    assert {} + needed == needed;
    forall i | 0 <= i <= |steps| ensures Turns(steps, NO_PROGRESS, needed, i).done == needed * NamesUpTo(steps, i) {
      OnePassCompletes(steps, NO_PROGRESS, needed, i);
    }
    forall d | DependsOn(g, steps[n].name, d) ensures d in needed && d in NamesUpTo(steps, n) {
      NeedsItself(g, steps[n].name);
      DependencyNeeded(steps, steps[n].name, steps[n].name, d);
      DependencyIsEarlier(steps, n, steps[n].name, d);
      UniqueStepsMap(steps, n);
      DependencyListed(steps, n, d);
    }
    NeedsItself(g, steps[n].name);
    NotAmongCompelled(steps, k, -1, n);
    DueInTurn(steps, Turns(steps, NO_PROGRESS, needed, n), n);
    h := Turns(steps, NO_PROGRESS, needed, n).wrote;
    NothingBeforeFirst(steps, NO_PROGRESS, needed);
    TurnsGrow(steps, NO_PROGRESS, needed, 0, n);
    forall x | x in h ensures !Sets(g, x, k) {
      assert h == h[0..];
      assert WroteBetween(steps, NO_PROGRESS, needed, 0, n, x);
      var i :| 0 <= i < n && steps[i].name == x && CanWrite(steps, Turns(steps, NO_PROGRESS, needed, i), i);
      if Sets(g, x, k) {
        WriterIsCompelled(steps, Turns(steps, NO_PROGRESS, needed, i), k, -1, n, i);
        assert false;
      }
    }
    assert AtTurn(steps, [], needed, n, h);
  }

  lemma NoPasses(steps: seq<Step>)
    ensures After(steps, []) == NO_PROGRESS
  {
  }

  lemma NothingBeforeFirst(steps: seq<Step>, p: Progress, completes: set<string>)
    ensures Turns(steps, p, completes, 0) == p
  {
  }

  // ------------------------------------------------------------- unordered setters

  /** All that can run and needs neither of two steps. */
  ghost function Others(steps: seq<Step>, c: nat, n: nat): set<string>
    requires c < |steps| && n < |steps|
  {
    var g := StepsMap(steps);
    set m | m in g && CanRun(g, m) && !Needs(g, m, steps[c].name) && !Needs(g, m, steps[n].name)
  }

  lemma OthersAreRunnable(steps: seq<Step>, c: nat, n: nat)
    requires UniqueNames(steps) && InOrder(steps) && c < |steps| && n < |steps|
    ensures Runnable(steps, Others(steps, c, n))
    ensures steps[c].name !in Others(steps, c, n) && steps[n].name !in Others(steps, c, n)
  {
    hide Needs, InOrder, IsJobStep;
    var g := StepsMap(steps);
    NeedsItself(g, steps[c].name);
    NeedsItself(g, steps[n].name);
    forall m | m in Others(steps, c, n) ensures IsJobStep(g, m) {
      CanRunIsStep(g, m);
    }
    forall m, d | m in Others(steps, c, n) && DependsOn(g, m, d) ensures d in Others(steps, c, n) {
      NeedsItself(g, m);
      DependencyNeeded(steps, m, m, d);
      DependencyCanRun(g, m, d);
      if Needs(g, d, steps[c].name) {
        NeedsThrough(g, m, d, steps[c].name);
      }
      if Needs(g, d, steps[n].name) {
        NeedsThrough(g, m, d, steps[n].name);
      }
    }
  }

  lemma DependencyCanRun(g: Graph, m: string, d: string)
    requires CanRun(g, m) && DependsOn(g, m, d)
    ensures CanRun(g, d)
  {
    hide Needs, IsJobStep;
    forall x | Needs(g, d, x) ensures IsJobStep(g, x) {
      NeedsThrough(g, m, d, x);
    }
  }

  /** When all others are Complete, a step can write only if it is one of the two. */
  lemma OnlyTheTwo(steps: seq<Step>, q: Progress, c: nat, n: nat, i: nat)
    requires UniqueNames(steps) && InOrder(steps) && c < |steps| && n < |steps| && i < |steps|
    requires q.done == Others(steps, c, n) && CanWrite(steps, q, i)
    ensures i == c || i == n
  {
    hide Needs, InOrder;
    if i != c && i != n {
      var g, x := StepsMap(steps), steps[i].name;
      UniqueStepsMap(steps, i);
      forall m | Needs(g, x, m) ensures IsJobStep(g, m) && m != steps[c].name && m != steps[n].name {
        if m != x {
          var d := NeedsFirst(g, x, m);
        }
      }
      assert false;
    }
  }

  /** Each of the two can write then, if it does not need the other. */
  lemma TheTwoCanWrite(steps: seq<Step>, q: Progress, c: nat, n: nat)
    requires UniqueNames(steps) && InOrder(steps) && c < |steps| && n < |steps| && q.done == Others(steps, c, n)
    requires CanRun(StepsMap(steps), steps[c].name) && !Needs(StepsMap(steps), steps[c].name, steps[n].name)
    ensures CanWrite(steps, q, c)
  {
    hide Needs, InOrder, IsJobStep, CanWrite;
    var g, x := StepsMap(steps), steps[c].name;
    CanRunIsStep(g, x);
    OthersAreRunnable(steps, c, n);
    forall d | DependsOn(g, x, d) ensures d in Others(steps, c, n) {
      DependencyNeeded(steps, x, x, d);
      DependencyCanRun(g, x, d);
      if Needs(g, d, steps[n].name) {
        NeedsThrough(g, x, d, steps[n].name);
      }
      if Needs(g, d, x) {
        UniqueStepsMap(steps, c);
        DependencyListed(steps, c, d);
        var j :| 0 <= j < c && steps[j].name == d;
        NeedsNoLater(steps, j, c, x);
      }
    }
    DueInTurn(steps, q, c);
  }

  lemma OthersIsSymmetric(steps: seq<Step>, c: nat, n: nat)
    requires c < |steps| && n < |steps|
    ensures Others(steps, c, n) == Others(steps, n, c)
  {
    hide Needs, CanRun;
  }

  /** In passes that complete nothing, the others stay as they are. */
  lemma IdleTurns(steps: seq<Step>, p: Progress, i: nat)
    requires UniqueNames(steps) && InOrder(steps) && i <= |steps| && Runnable(steps, p.done)
    ensures Turns(steps, p, {}, i).done == p.done
  {
    hide InOrder, Turns;
    assert p.done + {} == p.done;
    OnePassCompletes(steps, p, {}, i);
  }

  /** A setter without an order to n is the last before n in the second of two passes,
      or in the third of three. */
  lemma UnorderedCanBeLast(steps: seq<Step>, k: string, c: nat, n: nat) returns (h: seq<string>)
    requires UniqueNames(steps) && InOrder(steps) && n < |steps| && c < |steps| && c != n
    requires CanRun(StepsMap(steps), steps[n].name) && CanRun(StepsMap(steps), steps[c].name)
    requires !Needs(StepsMap(steps), steps[n].name, steps[c].name)
    requires !Needs(StepsMap(steps), steps[c].name, steps[n].name)
    requires Sets(StepsMap(steps), steps[c].name, k)
    ensures PassHistory(steps, n, h)
    ensures LastSetter(StepsMap(steps), h, k) >= 0 && h[LastSetter(StepsMap(steps), h, k)] == steps[c].name
  {
    hide Needs, CanRun, InOrder, After, Turns, Sets, IsJobStep, CanWrite, LastSetter, Others, Runnable;
    var s := Others(steps, c, n);
    var start := After(steps, [s]);
    OthersAreRunnable(steps, c, n);
    OthersIsSymmetric(steps, c, n);
    FirstPass(steps, s);
    forall i | 0 <= i <= |steps| ensures Turns(steps, start, {}, i).done == s {
      IdleTurns(steps, start, i);
    }
    TheTwoCanWrite(steps, Turns(steps, start, {}, c), c, n);
    forall i | 0 <= i < |steps| && CanWrite(steps, Turns(steps, start, {}, i), i) ensures i == c || i == n {
      OnlyTheTwo(steps, Turns(steps, start, {}, i), c, n, i);
    }
    if c < n {
      TheTwoCanWrite(steps, Turns(steps, start, {}, n), n, c);
      LastIsTurn(steps, start, {}, k, c, n);
      h := Turns(steps, start, {}, n).wrote;
      assert AtTurn(steps, [s], {}, n, h);
    } else {
      LastIsTurn(steps, start, {}, k, c, |steps|);
      OnePassMore(steps, [s], {});
      h := ThirdPass(steps, s, c, n);
    }
  }

  lemma OnePassMore(steps: seq<Step>, passes: seq<set<string>>, completes: set<string>)
    ensures After(steps, passes + [completes]) == Turns(steps, After(steps, passes), completes, |steps|)
  {
    hide Turns;
    var more := passes + [completes];
    assert more[..|more| - 1] == passes;
  }

  /** A setter that stands after n writes between the turns of n in two idle passes. */
  lemma ThirdPass(steps: seq<Step>, s: set<string>, c: nat, n: nat) returns (h: seq<string>)
    requires UniqueNames(steps) && InOrder(steps) && n < c < |steps| && s == Others(steps, c, n)
    requires After(steps, [s]).done == s && Turns(steps, After(steps, [s]), {}, |steps|).done == s
    requires CanRun(StepsMap(steps), steps[n].name) && !Needs(StepsMap(steps), steps[n].name, steps[c].name)
    ensures PassHistory(steps, n, h) && h == Turns(steps, After(steps, [s]), {}, |steps|).wrote
  {
    hide Needs, CanRun, InOrder, After, Turns, CanWrite, Others, Runnable;
    var third := After(steps, [s] + [{}]);
    OnePassMore(steps, [s], {});
    OthersAreRunnable(steps, c, n);
    OthersIsSymmetric(steps, c, n);
    forall i | 0 <= i <= |steps| ensures Turns(steps, third, {}, i).done == s {
      IdleTurns(steps, third, i);
    }
    TheTwoCanWrite(steps, Turns(steps, third, {}, n), n, c);
    NothingBeforeFirst(steps, third, {});
    TurnsGrow(steps, third, {}, 0, n);
    h := Turns(steps, third, {}, n).wrote;
    if h != third.wrote {
      var x := h[|third.wrote|..][0];
      assert WroteBetween(steps, third, {}, 0, n, x);
      var i :| 0 <= i < n && steps[i].name == x && CanWrite(steps, Turns(steps, third, {}, i), i);
      OnlyTheTwo(steps, Turns(steps, third, {}, i), c, n, i);
      assert false;
    }
    assert AtTurn(steps, [s] + [{}], {}, n, h);
  }

  // ------------------------------------------------------------- the exact condition

  /** Each step that may precede does so in some history. */
  lemma HistoryWithPreceding(steps: seq<Step>, k: string, n: nat, c: nat) returns (h: seq<string>)
    requires UniqueNames(steps) && InOrder(steps) && n < |steps| && c < |steps|
    requires CanRun(StepsMap(steps), steps[n].name) && MayPrecede(steps, k, n, c)
    ensures PassHistory(steps, n, h)
    ensures LastSetter(StepsMap(steps), h, k) >= 0 && h[LastSetter(StepsMap(steps), h, k)] == steps[c].name
  {
    hide Needs, CanRun, InOrder, Sets, LastSetter, NotOvertaken, PassHistory;
    if Needs(StepsMap(steps), steps[n].name, steps[c].name) {
      h := NeededCanBeLast(steps, k, c, n);
    } else {
      h := UnorderedCanBeLast(steps, k, c, n);
    }
  }

  /** Each value that may be given is, in some history. */
  lemma GivenHappens(m: Labels, workflowName: string, steps: seq<Step>, n: nat, k: string, v: Option<string>)
    returns (h: seq<string>)
    requires UniqueNames(steps) && InOrder(steps) && n < |steps| && MayGive(m, steps, n, k, v)
    requires CanRun(StepsMap(steps), steps[n].name) && !Sets(StepsMap(steps), steps[n].name, k) && !Reserved(k)
    ensures PassHistory(steps, n, h)
    ensures v == LabelIn(LabelsAfter(m, workflowName, StepsMap(steps), h, steps[n].name), k)
  {
    hide MayPrecede, SomeCompelled, PassHistory, InOrder, LabelsAfter, LastSetter, CanRun;
    if !SomeCompelled(steps, k, n) && v == LabelIn(m, k) {
      h := NothingSetBefore(steps, k, n);
    } else {
      var c :| 0 <= c < |steps| && MayPrecede(steps, k, n, c) && v == Value(steps, c, k);
      h := HistoryWithPreceding(steps, k, n, c);
    }
    LabelAfter(m, workflowName, StepsMap(steps), h, steps[n].name, k);
  }

  lemma StableKeyFits(m: Labels, workflowName: string, steps: seq<Step>, n: nat, k: string)
    requires UniqueNames(steps) && InOrder(steps) && PassStable(m, workflowName, steps) && n < |steps|
    requires CanRun(StepsMap(steps), steps[n].name) && !Sets(StepsMap(steps), steps[n].name, k) && !Reserved(k)
    ensures KeyFits(m, steps, n, k)
  {
    hide MayGive, PassHistory, InOrder, LabelsAfter, CanRun, Sets;
    forall v, v' | MayGive(m, steps, n, k, v) && MayGive(m, steps, n, k, v') ensures v == v' {
      var h := GivenHappens(m, workflowName, steps, n, k, v);
      var h' := GivenHappens(m, workflowName, steps, n, k, v');
    }
    SameValuesFit(m, steps, n, k);
  }

  lemma SameValuesFit(m: Labels, steps: seq<Step>, n: nat, k: string)
    requires n < |steps| && forall v, v' :: MayGive(m, steps, n, k, v) && MayGive(m, steps, n, k, v') ==> v == v'
    ensures KeyFits(m, steps, n, k)
  {
    hide SomeCompelled, MayPrecede, Value;
    forall a | 0 <= a < |steps| && MayPrecede(steps, k, n, a) ensures MayGive(m, steps, n, k, Value(steps, a, k)) {
    }
    if !SomeCompelled(steps, k, n) {
      assert MayGive(m, steps, n, k, LabelIn(m, k));
    }
  }

  /** For a spec that lists every step after its dependencies: the labels of every step
      are the same after whatever passes, exactly when for each key that a step does
      not set itself, all that may have set it last before agree. */
  lemma StableIffSpecKeys(m: Labels, workflowName: string, steps: seq<Step>)
    requires UniqueNames(steps) && InOrder(steps)
    ensures PassStable(m, workflowName, steps) <==> SpecKeys(m, steps)
  {
    hide KeyFits, PassHistory, LabelsAfter, InOrder, CanRun, Sets;
    if PassStable(m, workflowName, steps) {
      forall n, k | 0 <= n < |steps| && CanRun(StepsMap(steps), steps[n].name)
                    && !Sets(StepsMap(steps), steps[n].name, k) && !Reserved(k)
        ensures KeyFits(m, steps, n, k)
      {
        StableKeyFits(m, workflowName, steps, n, k);
      }
    }
    if SpecKeys(m, steps) {
      forall n, h, h' | 0 <= n < |steps| && PassHistory(steps, n, h) && PassHistory(steps, n, h')
        ensures LabelsAfter(m, workflowName, StepsMap(steps), h, steps[n].name)
                == LabelsAfter(m, workflowName, StepsMap(steps), h', steps[n].name)
      {
        forall k ensures
          var l := LabelsAfter(m, workflowName, StepsMap(steps), h, steps[n].name);
          var l' := LabelsAfter(m, workflowName, StepsMap(steps), h', steps[n].name);
          (k in l <==> k in l') && (k in l ==> l[k] == l'[k])
        {
          FittingLabel(m, workflowName, steps, n, h, h', k);
        }
      }
    }
  }

  /** Only what is said of the steps gone through matters. */
  lemma {:induction false} TurnsAgree(steps: seq<Step>, p: Progress, a: set<string>, b: set<string>, i: nat)
    requires i <= |steps| && forall j :: 0 <= j < i ==> (steps[j].name in a <==> steps[j].name in b)
    ensures Turns(steps, p, a, i) == Turns(steps, p, b, i)
  {
    hide CanWrite;
    if i > 0 {
      TurnsAgree(steps, p, a, b, i - 1);
    }
  }

  // ------------------------------------------------------ what the order decides

  /** Of two independent steps, the first sets a key that the second does not: by the
      dependencies alone the labels of the second might drift, but the first is sure
      to have written in every pass before it. */
  lemma SpecOrderMatters(m: Labels, workflowName: string, first: Step, second: Step)
    requires first.name == "a" && second.name == "b" && first.dependencies == [] && second.dependencies == []
    requires first.jobTemplate.Some? && first.jobTemplate.value.podLabels == map["x" := "1"]
    requires second.jobTemplate.Some? && second.jobTemplate.value.podLabels == map[] && "x" !in m
    ensures UniqueNames([first, second]) && InOrder([first, second])
    ensures !OrderedStable(m, workflowName, StepsMap([first, second]))
    ensures PassStable(m, workflowName, [first, second])
  {
    hide PassStable, OrderedStable, OrderedKeys, SpecKeys, Needs;
    var steps := [first, second];
    assert "a" != "b";
    TwoSteps(first, second);
    TwoAreUnordered(first, second);
    StableIffOrderedKeys(m, workflowName, StepsMap(steps));
    NotOrderedKeys(m, first, second);
    AreSpecKeys(m, first, second);
    StableIffSpecKeys(m, workflowName, steps);
  }

  lemma TwoSteps(first: Step, second: Step)
    requires first.name == "a" && second.name == "b" && first.dependencies == [] && second.dependencies == []
    ensures var steps, g := [first, second], StepsMap([first, second]);
      && UniqueNames(steps) && InOrder(steps) && Closed(g) && Acyclic(g)
      && "a" in g && g["a"] == first && "b" in g && g["b"] == second
      && forall n, d :: !DependsOn(g, n, d)
  {
    var steps, g := [first, second], StepsMap([first, second]);
    assert "a" != "b";
    StepsMapNames(steps);
    UniqueStepsMap(steps, 0);
    UniqueStepsMap(steps, 1);
    forall n, d ensures !DependsOn(g, n, d) {
      if n in g {
        assert g[n] in [first, second];
      }
    }
    forall c ensures !ClosedWalk(g, c) {
    }
  }

  lemma TwoAreUnordered(first: Step, second: Step)
    requires forall n, d :: !DependsOn(StepsMap([first, second]), n, d)
    ensures forall n, d :: Needs(StepsMap([first, second]), n, d) <==> n == d
  {
    var g := StepsMap([first, second]);
    forall n, d ensures Needs(g, n, d) <==> n == d {
      NeedsItself(g, n);
      if Needs(g, n, d) && n != d {
        var x := NeedsFirst(g, n, d);
        assert false;
      }
    }
  }

  lemma NotOrderedKeys(m: Labels, first: Step, second: Step)
    requires var g := StepsMap([first, second]);
      && "a" in g && g["a"] == first && "b" in g && g["b"] == second
      && forall n, d :: Needs(g, n, d) <==> n == d
    requires first.jobTemplate.Some? && first.jobTemplate.value.podLabels == map["x" := "1"]
    requires second.jobTemplate.Some? && second.jobTemplate.value.podLabels == map[] && "x" !in m
    ensures !OrderedKeys(m, StepsMap([first, second]))
  {
    hide Needs;
    var g := StepsMap([first, second]);
    assert "a" != "b" && !Reserved("x") by {
      assert |"x"| == 1;
    }
    assert Sets(g, "a", "x") && !Sets(g, "b", "x");
    assert CanRun(g, "a") && CanRun(g, "b");
    assert MayBeLast(g, "b", "x", "a");
    assert !SomeNeededSets(g, "b", "x");
    assert !KeyAgrees(m, g, "b", "x");
  }

  lemma AreSpecKeys(m: Labels, first: Step, second: Step)
    requires var g := StepsMap([first, second]);
      && "a" in g && g["a"] == first && "b" in g && g["b"] == second
      && forall n, d :: Needs(g, n, d) <==> n == d
    requires first.name == "a" && second.name == "b" && first.dependencies == []
    requires first.jobTemplate.Some? && first.jobTemplate.value.podLabels == map["x" := "1"]
    requires second.jobTemplate.Some? && second.jobTemplate.value.podLabels == map[]
    ensures SpecKeys(m, [first, second])
  {
    hide Needs, CanRun;
    var steps, g := [first, second], StepsMap([first, second]);
    forall n, k | 0 <= n < 2 && !Sets(g, steps[n].name, k) ensures KeyFits(m, steps, n, k) {
      forall c | 0 <= c < 2 && MayPrecede(steps, k, n, c) ensures c == 0 && n == 1 && k == "x" {
        assert Sets(g, steps[c].name, k);
      }
      if n == 1 && k == "x" {
        assert Compelled(steps, k, -1, 1, 0);
      }
    }
  }
}
