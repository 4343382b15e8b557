/** The labels of a step's jobs when steps write them in the order that the
    dependencies allow: a step writes only after what it depends on is Complete,
    and not any more once it is Complete itself. */
module OrderedLabels {
  import opened Prelude
  import opened WorkflowTypes
  import opened JobLabels
  import opened Topology

  predicate IsJobStep(g: Graph, n: string) {
    n in g && g[n].jobTemplate.Some?
  }

  function WriterFor(g: Graph, n: string): Writer {
    Writer(n, if IsJobStep(g, n) then g[n].jobTemplate.value.podLabels else map[])
  }

  function WritersFor(g: Graph, h: seq<string>): seq<Writer> {
    seq(|h|, p requires 0 <= p < |h| => WriterFor(g, h[p]))
  }

  /** The selector's map after the steps of h have written their labels. */
  function MapAfter(m: Labels, workflowName: string, g: Graph, h: seq<string>): Labels {
    Accumulate(m, workflowName, WritersFor(g, h))
  }

  /** The labels that step n then looks its jobs up with, and creates them with. */
  function LabelsAfter(m: Labels, workflowName: string, g: Graph, h: seq<string>, n: string): Labels {
    LabelsFor(MapAfter(m, workflowName, g, h), workflowName, WriterFor(g, n))
  }

  // ------------------------------------------------------- the possible histories

  /** Job steps, any number of times each: a dependency has written before its
      dependents do, and does not write again. */
  ghost predicate OrderedHistory(g: Graph, h: seq<string>) {
    && (forall n :: n in h ==> IsJobStep(g, n))
    && forall p, d :: 0 <= p < |h| && DependsOn(g, h[p], d) ==> d in h[..p] && d !in h[p..]
  }

  /** After h, step n may write: what it depends on has, and its dependents have not. */
  ghost predicate ReadyFor(g: Graph, h: seq<string>, n: string) {
    && OrderedHistory(g, h)
    && (forall d :: DependsOn(g, n, d) ==> d in h)
    && forall m :: m in h ==> !DependsOn(g, m, n)
  }

  /** Whatever the history, a step that may write has the same labels. */
  ghost predicate OrderedStable(m: Labels, workflowName: string, g: Graph) {
    forall n, h, h' :: IsJobStep(g, n) && ReadyFor(g, h, n) && ReadyFor(g, h', n) ==>
      LabelsAfter(m, workflowName, g, h, n) == LabelsAfter(m, workflowName, g, h', n)
  }

  // -------------------------------------------- what the dependencies must agree on

  predicate Sets(g: Graph, n: string, k: string) {
    k in WriterFor(g, n).podLabels
  }

  /** n, and all it depends on directly or not, are job steps. */
  ghost predicate CanRun(g: Graph, n: string) {
    forall m :: Needs(g, n, m) ==> IsJobStep(g, m)
  }

  /** a may be the last before n that sets k: it is not ordered with n, or n depends
      on it and on no step after it that sets k. */
  ghost predicate MayBeLast(g: Graph, n: string, k: string, a: string) {
    && a != n && Sets(g, a, k) && CanRun(g, a) && !Needs(g, a, n)
    && (Needs(g, n, a) ==> forall b :: Needs(g, n, b) && b != n && Needs(g, b, a) && Sets(g, b, k) ==> b == a)
  }

  ghost predicate SomeNeededSets(g: Graph, n: string, k: string) {
    exists a :: Needs(g, n, a) && a != n && Sets(g, a, k)
  }

  /** For a key that step n does not set itself, all that may have set it last agree
      on the value, with the selector too if nothing that n depends on sets it. */
  ghost predicate KeyAgrees(m: Labels, g: Graph, n: string, k: string) {
    && (forall a, b :: MayBeLast(g, n, k, a) && MayBeLast(g, n, k, b) ==>
         WriterFor(g, a).podLabels[k] == WriterFor(g, b).podLabels[k])
    && (!SomeNeededSets(g, n, k) ==>
         forall a :: MayBeLast(g, n, k, a) ==> k in m && m[k] == WriterFor(g, a).podLabels[k])
  }

  ghost predicate OrderedKeys(m: Labels, g: Graph) {
    forall n, k :: CanRun(g, n) && !Sets(g, n, k) && !Reserved(k) ==> KeyAgrees(m, g, n, k)
  }

  // -------------------------------------------------------------------- ancestors

  lemma NeedsTransitive(g: Graph, n: string, m: string, x: string)
    requires Needs(g, n, m) && Needs(g, m, x)
    ensures Needs(g, n, x)
  {
    var c :| c != [] && Chain(g, c) && c[|c| - 1] == n && c[0] == m;
    var d :| d != [] && Chain(g, d) && d[|d| - 1] == m && d[0] == x;
    var e := d + c[1..];
    forall i | 0 <= i < |e| - 1 ensures DependsOn(g, e[i + 1], e[i]) {
      if i >= |d| - 1 {
        assert e[i] == c[i - |d| + 1] && e[i + 1] == c[i - |d| + 2];
      }
    }
    assert Chain(g, e) && e[|e| - 1] == n && e[0] == x;
  }

  lemma DependencyIsNeeded(g: Graph, n: string, d: string)
    requires DependsOn(g, n, d)
    ensures Needs(g, n, d)
  {
    NeedsItself(g, d);
    NeedsThrough(g, n, d, d);
  }

  /** What n needs, other than n, it needs through one of its dependencies. */
  lemma NeedsFirst(g: Graph, n: string, m: string) returns (d: string)
    requires Needs(g, n, m) && m != n
    ensures DependsOn(g, n, d) && Needs(g, d, m)
  {
    var c :| c != [] && Chain(g, c) && c[|c| - 1] == n && c[0] == m;
    d := c[|c| - 2];
    assert Chain(g, c[..|c| - 1]) && c[..|c| - 1][|c| - 2] == d;
  }

  /** ... and some step that n needs, or n, depends on m directly. */
  lemma NeedsLast(g: Graph, n: string, m: string) returns (d: string)
    requires Needs(g, n, m) && m != n
    ensures DependsOn(g, d, m) && Needs(g, n, d)
  {
    var c :| c != [] && Chain(g, c) && c[|c| - 1] == n && c[0] == m;
    d := c[1];
    assert Chain(g, c[1..]) && c[1..][|c| - 2] == n;
  }

  lemma NoMutualNeed(g: Graph, n: string, m: string)
    requires Acyclic(g) && Needs(g, n, m) && Needs(g, m, n)
    ensures n == m
  {
    if n != m {
      var d := NeedsFirst(g, n, m);
      NeedsTransitive(g, d, m, n);
      var c :| c != [] && Chain(g, c) && c[|c| - 1] == d && c[0] == n;
      assert ClosedWalk(g, c);
    }
  }

  lemma NotBackwards(g: Graph, n: string, d: string)
    requires Acyclic(g) && DependsOn(g, n, d)
    ensures d != n && !Needs(g, d, n)
  {
    if Needs(g, d, n) {
      var c :| c != [] && Chain(g, c) && c[|c| - 1] == d && c[0] == n;
      assert ClosedWalk(g, c);
    }
    if d == n {
      NeedsItself(g, n);
    }
  }

  // ------------------------------------------------ what is known of any history

  /** Before a step writes, all it needs has written, for the last time. */
  lemma {:induction false} NeededStandsBefore(g: Graph, h: seq<string>, p: nat, m: string)
    requires OrderedHistory(g, h) && p < |h| && Needs(g, h[p], m) && m != h[p]
    ensures m in h[..p] && m !in h[p..]
    decreases p
  {
    hide Needs;
    var d := NeedsFirst(g, h[p], m);
    var q :| 0 <= q < p && h[q] == d;
    if d != m {
      NeededStandsBefore(g, h, q, m);
      assert forall x :: x in h[..q] ==> x in h[..p];
      assert forall x :: x in h[p..] ==> x in h[q..];
    }
  }

  lemma ReadyHasNeeded(g: Graph, h: seq<string>, n: string, m: string)
    requires ReadyFor(g, h, n) && Needs(g, n, m) && m != n
    ensures m in h
  {
    hide Needs;
    var d := NeedsFirst(g, n, m);
    var p :| 0 <= p < |h| && h[p] == d;
    if d != m {
      NeededStandsBefore(g, h, p, m);
    }
  }

  lemma ReadyCanRun(g: Graph, h: seq<string>, n: string)
    requires ReadyFor(g, h, n) && IsJobStep(g, n)
    ensures CanRun(g, n)
  {
    hide Needs, IsJobStep;
    forall m | Needs(g, n, m) ensures IsJobStep(g, m) {
      if m != n {
        ReadyHasNeeded(g, h, n, m);
      }
    }
  }

  lemma MemberCanRun(g: Graph, h: seq<string>, p: nat)
    requires OrderedHistory(g, h) && p < |h|
    ensures CanRun(g, h[p])
  {
    hide Needs, IsJobStep;
    forall m | Needs(g, h[p], m) ensures IsJobStep(g, m) {
      if m != h[p] {
        NeededStandsBefore(g, h, p, m);
      }
    }
  }

  /** Nothing in a history that n is ready after needs n. */
  lemma NoneNeeds(g: Graph, h: seq<string>, n: string, p: nat)
    requires ReadyFor(g, h, n) && p < |h| && h[p] != n
    ensures !Needs(g, h[p], n)
  {
    hide Needs;
    if Needs(g, h[p], n) {
      var d := NeedsLast(g, h[p], n);
      if d != h[p] {
        NeededStandsBefore(g, h, p, d);
      }
      assert false;
    }
  }

  /** The position of the last step of h that sets k, or -1. */
  function LastSetter(g: Graph, h: seq<string>, k: string): (i: int)
    ensures -1 <= i < |h| && (i >= 0 ==> Sets(g, h[i], k))
  {
    LastWriter(WritersFor(g, h), k)
  }

  /** What stands between a needed step and n in the dependencies writes after it. */
  lemma WritesLater(g: Graph, h: seq<string>, n: string, b: string, p: nat) returns (q: nat)
    requires ReadyFor(g, h, n) && p < |h| && Needs(g, n, b) && b != n && Needs(g, b, h[p]) && b != h[p]
    ensures p < q < |h| && h[q] == b
  {
    hide Needs;
    ReadyHasNeeded(g, h, n, b);
    q :| 0 <= q < |h| && h[q] == b;
    NeededStandsBefore(g, h, q, h[p]);
  }

  lemma LastSetterMayBeLast(g: Graph, h: seq<string>, n: string, k: string)
    requires ReadyFor(g, h, n) && !Sets(g, n, k) && LastSetter(g, h, k) >= 0
    ensures MayBeLast(g, n, k, h[LastSetter(g, h, k)])
  {
    hide Needs, CanRun;
    var p := LastSetter(g, h, k);
    var a := h[p];
    MemberCanRun(g, h, p);
    NoneNeeds(g, h, n, p);
    forall b | Needs(g, n, b) && b != n && Needs(g, b, a) && b != a ensures !Sets(g, b, k) {
      var q := WritesLater(g, h, n, b, p);
      assert k !in WritersFor(g, h)[q].podLabels;
    }
  }

  lemma NoSetterNoneNeeded(g: Graph, h: seq<string>, n: string, k: string)
    requires ReadyFor(g, h, n) && LastSetter(g, h, k) < 0
    ensures !SomeNeededSets(g, n, k)
  {
    hide Needs;
    forall a | Needs(g, n, a) && a != n ensures !Sets(g, a, k) {
      ReadyHasNeeded(g, h, n, a);
      var q :| 0 <= q < |h| && h[q] == a;
      assert k !in WritersFor(g, h)[q].podLabels;
    }
  }

  /** One label: the step's own, else that of the last setter, else the selector's. */
  lemma LabelAfter(m: Labels, workflowName: string, g: Graph, h: seq<string>, n: string, k: string)
    requires !Reserved(k) && !Sets(g, n, k)
    ensures var l, p := LabelsAfter(m, workflowName, g, h, n), LastSetter(g, h, k);
      if p >= 0 then k in l && l[k] == WriterFor(g, h[p]).podLabels[k]
      else (k in l <==> k in m) && (k in m ==> l[k] == m[k])
  {
    AccumulateIsLastWriterWins(m, workflowName, WritersFor(g, h));
  }

  lemma OwnLabel(m: Labels, workflowName: string, g: Graph, h: seq<string>, n: string, k: string)
    requires Reserved(k) || Sets(g, n, k)
    ensures var l := LabelsAfter(m, workflowName, g, h, n);
      k in l && l[k] == (if k == WORKFLOW_STEP_LABEL_KEY then n
                         else if k == WORKFLOW_LABEL_KEY then workflowName
                         else WriterFor(g, n).podLabels[k])
  {
  }

  lemma AgreedLabel(m: Labels, workflowName: string, g: Graph, h: seq<string>, h': seq<string>, n: string, k: string)
    requires OrderedKeys(m, g) && IsJobStep(g, n) && ReadyFor(g, h, n) && ReadyFor(g, h', n)
    ensures var l, l' := LabelsAfter(m, workflowName, g, h, n), LabelsAfter(m, workflowName, g, h', n);
      (k in l <==> k in l') && (k in l ==> l[k] == l'[k])
  {
    hide LabelsAfter, ReadyFor, MayBeLast, SomeNeededSets, LastWriter, CanRun;
    if Reserved(k) || Sets(g, n, k) {
      OwnLabel(m, workflowName, g, h, n, k);
      OwnLabel(m, workflowName, g, h', n, k);
    } else {
      ReadyCanRun(g, h, n);
      LabelAfter(m, workflowName, g, h, n, k);
      LabelAfter(m, workflowName, g, h', n, k);
      if LastSetter(g, h, k) >= 0 {
        LastSetterMayBeLast(g, h, n, k);
      } else {
        NoSetterNoneNeeded(g, h, n, k);
      }
      if LastSetter(g, h', k) >= 0 {
        LastSetterMayBeLast(g, h', n, k);
      } else {
        NoSetterNoneNeeded(g, h', n, k);
      }
    }
  }

  // ----------------------------------------------------- histories that do happen

  /** Steps that depend only on each other and on what has written can write next,
      in some order. */
  lemma {:induction false} WriteAll(g: Graph, h: seq<string>, steps: set<string>) returns (t: seq<string>)
    requires Acyclic(g) && OrderedHistory(g, h)
    requires forall n :: n in steps ==> IsJobStep(g, n) && n !in h
    requires forall n, d :: n in steps && DependsOn(g, n, d) ==> d in steps || d in h
    ensures OrderedHistory(g, h + t) && Elements(t) == steps
    decreases steps
  {
    hide Acyclic;
    t := [];
    assert h + [] == h;
    if steps != {} {
      MinimalStep(g, steps);
      var n :| n in steps && !DependsInto(g, n, steps);
      OneMore(g, h, n);
      var rest := WriteAll(g, h + [n], steps - {n});
      t := [n] + rest;
      assert h + t == h + [n] + rest;
      assert Elements(t) == Elements(rest) + {n};
    }
  }

  lemma OneMore(g: Graph, h: seq<string>, n: string)
    requires OrderedHistory(g, h) && IsJobStep(g, n) && (forall d :: DependsOn(g, n, d) ==> d in h)
    requires n !in h || forall m :: m in h ==> !DependsOn(g, m, n)
    requires !DependsOn(g, n, n)
    ensures OrderedHistory(g, h + [n])
  {
    var longer := h + [n];
    forall p, d | 0 <= p < |longer| && DependsOn(g, longer[p], d) ensures d in longer[..p] && d !in longer[p..] {
      if p < |h| {
        assert longer[..p] == h[..p] && longer[p..] == h[p..] + [n];
        assert h[p] in h;
      } else {
        assert longer[..p] == h && longer[p..] == [n];
      }
    }
  }

  /** Steps that need nothing outside them can all write, those that need a last. */
  lemma WriteAround(g: Graph, s: set<string>, a: string) returns (t: seq<string>, u: seq<string>)
    requires Acyclic(g) && a in s
    requires forall m :: m in s ==> IsJobStep(g, m)
    requires forall m, d :: m in s && DependsOn(g, m, d) ==> d in s
    ensures OrderedHistory(g, t + [a] + u)
    ensures Elements(t) == set m | m in s && !Needs(g, m, a)
    ensures Elements(u) == set m | m in s && m != a && Needs(g, m, a)
  {
    hide Needs, Acyclic, IsJobStep;
    var before, after := set m | m in s && !Needs(g, m, a), set m | m in s && m != a && Needs(g, m, a);
    NeedsItself(g, a);
    forall m, d | m in s && DependsOn(g, m, d) ensures m in before || m == a ==> d in before {
      NotBackwards(g, m, d);
      if m in before && Needs(g, d, a) {
        NeedsThrough(g, m, d, a);
      }
    }
    assert OrderedHistory(g, []);
    t := WriteAll(g, [], before);
    assert [] + t == t;
    assert forall x :: x in t <==> x in Elements(t);
    assert a !in t && !DependsOn(g, a, a);
    OneMore(g, t, a);
    assert forall x :: x in t + [a] <==> x in Elements(t) || x == a;
    u := WriteAll(g, t + [a], after);
  }

  /** All that n needs can write before n, with a in between, if it may be the last
      to set k, and no setter of k after it. */
  lemma HistoryWithLast(g: Graph, n: string, k: string, a: string) returns (h: seq<string>)
    requires Closed(g) && Acyclic(g) && CanRun(g, n) && MayBeLast(g, n, k, a)
    ensures ReadyFor(g, h, n) && LastSetter(g, h, k) >= 0 && h[LastSetter(g, h, k)] == a
  {
    hide Needs, Acyclic, IsJobStep, Sets, LastSetter, CanRun;
    var s := set m | m in g && ((Needs(g, n, m) && m != n) || Needs(g, a, m));
    CanRunIsStep(g, a);
    NeededIsClosed(g, n, a, s);
    var t, u := WriteAround(g, s, a);
    h := t + [a] + u;
    forall x ensures x in h <==> x in s {
      assert x in t <==> x in Elements(t);
      assert x in u <==> x in Elements(u);
      assert x in h <==> x in t || x == a || x in u;
    }
    NobodyDependsOn(g, n, a, s);
    forall d | DependsOn(g, n, d) ensures d in h {
      DependencyIsNeeded(g, n, d);
      NotBackwards(g, n, d);
    }
    forall x | x in u ensures !Sets(g, x, k) {
      assert x in Elements(u);
      LaterDoNotSet(g, n, k, a, x);
    }
    LastIs(g, t, a, u, k);
  }

  lemma CanRunIsStep(g: Graph, n: string)
    requires CanRun(g, n)
    ensures IsJobStep(g, n) && n in g && Needs(g, n, n)
  {
    NeedsItself(g, n);
  }

  lemma NeededIsClosed(g: Graph, n: string, a: string, s: set<string>)
    requires Closed(g) && Acyclic(g) && CanRun(g, n) && CanRun(g, a)
    requires s == set m | m in g && ((Needs(g, n, m) && m != n) || Needs(g, a, m))
    ensures forall m :: m in s ==> IsJobStep(g, m)
    ensures forall m, d :: m in s && DependsOn(g, m, d) ==> d in s
  {
    hide Needs, Acyclic;
    forall m, d | m in s && DependsOn(g, m, d) ensures d in s {
      DependencyIsNeeded(g, m, d);
      if Needs(g, n, m) && m != n {
        NeedsTransitive(g, n, m, d);
        if d == n {
          NoMutualNeed(g, n, m);
        }
      } else {
        NeedsTransitive(g, a, m, d);
      }
    }
  }

  lemma NobodyDependsOn(g: Graph, n: string, a: string, s: set<string>)
    requires Acyclic(g) && !Needs(g, a, n)
    requires s == set m | m in g && ((Needs(g, n, m) && m != n) || Needs(g, a, m))
    ensures forall m :: m in s ==> !DependsOn(g, m, n)
  {
    hide Needs, Acyclic;
    forall m | m in s ensures !DependsOn(g, m, n) {
      if DependsOn(g, m, n) {
        NotBackwards(g, m, n);
        DependencyIsNeeded(g, m, n);
        if Needs(g, a, m) {
          NeedsTransitive(g, a, m, n);
        }
      }
    }
  }

  lemma LaterDoNotSet(g: Graph, n: string, k: string, a: string, x: string)
    requires Acyclic(g) && MayBeLast(g, n, k, a) && x != a && Needs(g, x, a)
    requires (Needs(g, n, x) && x != n) || Needs(g, a, x)
    ensures !Sets(g, x, k)
  {
    hide Needs, Acyclic;
    if Needs(g, a, x) {
      NoMutualNeed(g, a, x);
    } else {
      NeedsTransitive(g, n, x, a);
    }
  }

  lemma LastIs(g: Graph, t: seq<string>, a: string, u: seq<string>, k: string)
    requires Sets(g, a, k) && forall x :: x in u ==> !Sets(g, x, k)
    ensures LastSetter(g, t + [a] + u, k) == |t|
  {
    var h := t + [a] + u;
    var ws := WritersFor(g, h);
    assert k in ws[|t|].podLabels;
    forall p | |t| < p < |h| ensures k !in ws[p].podLabels {
      assert h[p] == u[p - |t| - 1] && h[p] in u && ws[p] == WriterFor(g, h[p]);
    }
  }

  /** ... and without a, if nothing that n needs sets k. */
  lemma HistoryWithout(g: Graph, n: string, k: string) returns (h: seq<string>)
    requires Closed(g) && Acyclic(g) && CanRun(g, n) && !SomeNeededSets(g, n, k)
    ensures ReadyFor(g, h, n) && LastSetter(g, h, k) < 0
  {
    hide Needs, Acyclic, IsJobStep, Sets;
    var s := set m | m in g && Needs(g, n, m) && m != n;
    forall m, d | m in s && DependsOn(g, m, d) ensures d in s {
      DependencyIsNeeded(g, m, d);
      NeedsTransitive(g, n, m, d);
      if d == n {
        NoMutualNeed(g, n, m);
      }
    }
    assert OrderedHistory(g, []);
    h := WriteAll(g, [], s);
    assert [] + h == h;
    assert forall x :: x in h <==> x in Elements(h);
    forall d | DependsOn(g, n, d) ensures d in h {
      DependencyIsNeeded(g, n, d);
      NotBackwards(g, n, d);
    }
    forall x | x in h ensures !DependsOn(g, x, n) {
      if DependsOn(g, x, n) {
        NotBackwards(g, x, n);
      }
    }
    forall p | 0 <= p < |h| ensures !Sets(g, h[p], k) {
      assert h[p] in h;
    }
    if LastSetter(g, h, k) >= 0 {
      SetterSets(g, h, k);
      assert false;
    }
  }

  lemma SetterSets(g: Graph, h: seq<string>, k: string)
    requires LastSetter(g, h, k) >= 0
    ensures Sets(g, h[LastSetter(g, h, k)], k)
  {
  }

  lemma StableKeyAgrees(m: Labels, workflowName: string, g: Graph, n: string, k: string)
    requires Closed(g) && Acyclic(g) && OrderedStable(m, workflowName, g)
    requires CanRun(g, n) && !Sets(g, n, k) && !Reserved(k)
    ensures KeyAgrees(m, g, n, k)
  {
    hide MayBeLast, SomeNeededSets, ReadyFor, Acyclic, Closed, LabelsAfter, LastSetter;
    NeedsItself(g, n);
    forall a, b | MayBeLast(g, n, k, a) && MayBeLast(g, n, k, b)
      ensures Sets(g, a, k) && Sets(g, b, k) && WriterFor(g, a).podLabels[k] == WriterFor(g, b).podLabels[k]
    {
      var ha := HistoryWithLast(g, n, k, a);
      var hb := HistoryWithLast(g, n, k, b);
      LabelAfter(m, workflowName, g, ha, n, k);
      LabelAfter(m, workflowName, g, hb, n, k);
      SetterSets(g, ha, k);
      SetterSets(g, hb, k);
    }
    forall a | MayBeLast(g, n, k, a) && !SomeNeededSets(g, n, k)
      ensures Sets(g, a, k) && k in m && m[k] == WriterFor(g, a).podLabels[k]
    {
      var h := HistoryWithLast(g, n, k, a);
      var h0 := HistoryWithout(g, n, k);
      LabelAfter(m, workflowName, g, h, n, k);
      LabelAfter(m, workflowName, g, h0, n, k);
      SetterSets(g, h, k);
    }
  }

  /** The labels of every step are independent of the history that the dependencies
      allow, exactly when for each key that a step does not set the steps that may
      set it last before agree. Steps without an order between them matter, and
      the last ones among those it depends on; the rest may differ. */
  lemma StableIffOrderedKeys(m: Labels, workflowName: string, g: Graph)
    requires Closed(g) && Acyclic(g)
    ensures OrderedStable(m, workflowName, g) <==> OrderedKeys(m, g)
  {
    hide KeyAgrees, ReadyFor, LabelsAfter, Acyclic, Closed, CanRun, Sets;
    if OrderedStable(m, workflowName, g) {
      forall n, k | CanRun(g, n) && !Sets(g, n, k) && !Reserved(k) ensures KeyAgrees(m, g, n, k) {
        StableKeyAgrees(m, workflowName, g, n, k);
      }
    }
    if OrderedKeys(m, g) {
      forall n, h, h' | IsJobStep(g, n) && ReadyFor(g, h, n) && ReadyFor(g, h', n)
        ensures LabelsAfter(m, workflowName, g, h, n) == LabelsAfter(m, workflowName, g, h', n)
      {
        forall k ensures
          var l, l' := LabelsAfter(m, workflowName, g, h, n), LabelsAfter(m, workflowName, g, h', n);
          (k in l <==> k in l') && (k in l ==> l[k] == l'[k])
        {
          AgreedLabel(m, workflowName, g, h, h', n, k);
        }
      }
    }
  }

  // -------------------------------------------------------------- two special cases

  /** Steps that are all ordered by their dependencies need not share any key. */
  lemma TotallyOrderedKeys(m: Labels, g: Graph)
    requires forall a, b :: a in g && b in g ==> Needs(g, a, b) || Needs(g, b, a)
    ensures OrderedKeys(m, g)
  {
    hide Needs;
    forall n, k | CanRun(g, n) && !Sets(g, n, k) && !Reserved(k) ensures KeyAgrees(m, g, n, k) {
      NeedsItself(g, n);
      forall a, b | MayBeLast(g, n, k, a) && MayBeLast(g, n, k, b) ensures a == b {
        NeedsItself(g, a);
        NeedsItself(g, b);
        assert a in g && b in g && n in g;
      }
      forall a | MayBeLast(g, n, k, a) ensures SomeNeededSets(g, n, k) {
        NeedsItself(g, a);
        assert a in g && n in g;
      }
    }
  }

  /** Keys shared by all templates are fine in any order. */
  lemma SharedKeysAreOrdered(m: Labels, g: Graph, writers: set<Writer>)
    requires SharedKeys(m, writers) && forall n :: IsJobStep(g, n) ==> WriterFor(g, n) in writers
    ensures OrderedKeys(m, g)
  {
    hide Needs;
    forall n, k | CanRun(g, n) && !Sets(g, n, k) && !Reserved(k) ensures KeyAgrees(m, g, n, k) {
      NeedsItself(g, n);
      forall a | MayBeLast(g, n, k, a) ensures k in m && m[k] == WriterFor(g, a).podLabels[k] {
        assert WriterFor(g, a) in writers && WriterFor(g, n) in writers;
      }
    }
  }
}
