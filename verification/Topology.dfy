/** topologicalSort of pkg/api/workflow/v1/validation.go: the depth-first
    search over the dependency graph, with the variables that its visit
    closure shares as the fields of a class. */
module Topology {
  import opened Prelude
  import opened WorkflowTypes

  type Graph = map<string, Step>

  // ------------------------------------------------- what the search is for

  /** m is a dependency of the step n of g. */
  predicate DependsOn(g: Graph, n: string, m: string) {
    n in g && m in g[n].dependencies
  }

  ghost predicate IsDependency(g: Graph, m: string) {
    exists n :: DependsOn(g, n, m)
  }

  ghost predicate Closed(g: Graph) {
    forall n, m :: DependsOn(g, n, m) ==> m in g
  }

  /** Each next element depends on the previous one. */
  ghost predicate Chain(g: Graph, c: seq<string>) {
    forall i :: 0 <= i < |c| - 1 ==> DependsOn(g, c[i + 1], c[i])
  }

  ghost predicate ClosedWalk(g: Graph, c: seq<string>) {
    c != [] && Chain(g, c) && DependsOn(g, c[0], c[|c| - 1])
  }

  ghost predicate Acyclic(g: Graph) {
    forall c :: !ClosedWalk(g, c)
  }

  /** Every element is a step whose dependencies all stand before it. */
  ghost predicate DependenciesFirst(g: Graph, order: seq<string>) {
    forall k, m :: 0 <= k < |order| && DependsOn(g, order[k], m) ==> m in order[..k]
  }

  ghost predicate TopologicalOrder(g: Graph, order: seq<string>) {
    NoDup(order) && Elements(order) == g.Keys && DependenciesFirst(g, order)
  }

  /** A topological order leaves no closed walk, whatever its length. */
  lemma OrderExcludesCycles(g: Graph, order: seq<string>)
    requires TopologicalOrder(g, order)
    ensures Closed(g) && Acyclic(g)
  {
    forall n, m | DependsOn(g, n, m) ensures m in g {
      assert n in Elements(order);
      var k :| 0 <= k < |order| && order[k] == n;
      assert m in order[..k];
      assert m in Elements(order);
    }
    forall c ensures !ClosedWalk(g, c) {
      if ClosedWalk(g, c) {
        forall i | 0 <= i < |c| ensures c[i] in order {
          assert DependsOn(g, c[i], c[if i == 0 then |c| - 1 else i - 1]);
          assert c[i] in Elements(order);
        }
        WalkClimbs(g, order, c, |c| - 1);
      }
    }
  }

  /** A list without repeats in which every dependency stands before its
      dependents; it need not hold all steps. */
  ghost predicate Resolves(g: Graph, order: seq<string>) {
    NoDup(order) && DependenciesFirst(g, order)
  }

  /** Everything n depends on, directly or not, can be listed in order. */
  ghost predicate Resolvable(g: Graph, n: string) {
    exists order :: Resolves(g, order) && n in order && Elements(order) <= g.Keys
  }

  ghost function Position(order: seq<string>, n: string): (k: nat)
    requires n in order
    ensures k < |order| && order[k] == n
  {
    var k :| 0 <= k < |order| && order[k] == n;
    k
  }

  lemma EdgeClimbs(g: Graph, order: seq<string>, n: string, m: string)
    requires Resolves(g, order) && n in order && DependsOn(g, n, m)
    ensures m in order && Position(order, m) < Position(order, n)
  {
    var k := Position(order, n);
    assert m in order[..k];
    var j :| 0 <= j < k && order[j] == m;
  }

  /** A list that resolves a step holds whatever the step depends on. */
  lemma {:induction false} ChainIsListed(g: Graph, order: seq<string>, c: seq<string>, i: nat)
    requires Resolves(g, order) && Chain(g, c) && i < |c| && c[|c| - 1] in order
    ensures c[i] in order
    decreases |c| - i
  {
    if i < |c| - 1 {
      ChainIsListed(g, order, c, i + 1);
      EdgeClimbs(g, order, c[i + 1], c[i]);
    }
  }

  /** Positions climb along a closed walk, so it never gets to its last element. */
  lemma {:induction false} WalkClimbs(g: Graph, order: seq<string>, c: seq<string>, i: nat)
    requires Resolves(g, order) && ClosedWalk(g, c) && i < |c| && forall x :: x in c ==> x in order
    ensures Position(order, c[0]) <= Position(order, c[i])
    ensures i + 1 < |c|
  {
    if i > 0 {
      WalkClimbs(g, order, c, i - 1);
      EdgeClimbs(g, order, c[i], c[i - 1]);
    }
    if i == |c| - 1 {
      EdgeClimbs(g, order, c[0], c[i]);
      assert false;
    }
  }

  /** A step on a closed walk is not resolvable, nor is one that depends on it. */
  lemma ReachesCycle(g: Graph, order: seq<string>, c: seq<string>, walk: seq<string>)
    requires Resolves(g, order) && ClosedWalk(g, walk)
    requires c != [] && Chain(g, c) && c[0] in walk
    ensures c[|c| - 1] !in order
  {
    if c[|c| - 1] in order {
      ChainIsListed(g, order, c, 0);
      var k :| 0 <= k < |walk| && walk[k] == c[0];
      var turned := walk[k + 1..] + walk[..k + 1];
      assert ClosedWalk(g, turned) && turned[|turned| - 1] == c[0];
      forall i | 0 <= i < |turned| ensures turned[i] in order {
        ChainIsListed(g, order, turned, i);
      }
      WalkClimbs(g, order, turned, |turned| - 1);
      assert false;
    }
  }

  ghost predicate DependsInto(g: Graph, n: string, s: set<string>) {
    exists m :: m in s && DependsOn(g, n, m)
  }

  /** Among any steps of an acyclic graph, one depends on none of the others. */
  lemma MinimalStep(g: Graph, s: set<string>)
    requires Acyclic(g) && s != {}
    ensures exists n :: n in s && !DependsInto(g, n, s)
  {
    hide Acyclic, DependsInto;
    if forall n :: n in s ==> DependsInto(g, n, s) {
      var n :| n in s;
      DescendsForever(g, s, [n]);
    }
  }

  lemma {:induction false} DescendsForever(g: Graph, s: set<string>, c: seq<string>)
    requires Acyclic(g) && c != [] && Chain(g, c) && NoDup(c) && Elements(c) <= s
    requires forall n :: n in s ==> DependsInto(g, n, s)
    ensures false
    decreases |s| - |c|
  {
    hide Acyclic, Chain, NoDup;
    assert c[0] in Elements(c);
    assert DependsInto(g, c[0], s);
    var m :| m in s && DependsOn(g, c[0], m);
    DescendOnce(g, c, m);
    assert Elements([m] + c) == Elements(c) + {m};
    FitsIn(s, [m] + c);
    DescendsForever(g, s, [m] + c);
  }

  lemma FitsIn(s: set<string>, c: seq<string>)
    requires NoDup(c) && Elements(c) <= s
    ensures |c| <= |s|
  {
    NoDupCardinality(c);
    SubsetCardinality(Elements(c), s);
  }

  lemma DescendOnce(g: Graph, c: seq<string>, m: string)
    requires Acyclic(g) && c != [] && Chain(g, c) && NoDup(c) && DependsOn(g, c[0], m)
    ensures Chain(g, [m] + c) && NoDup([m] + c)
  {
    if m in c {
      var j :| 0 <= j < |c| && c[j] == m;
      assert ClosedWalk(g, c[..j + 1]);
    }
  }

  // ------------------------------------------------------------ the search

  datatype SortResult =
    | Sorted(order: seq<string>)
    | NotFound(name: string)
    | CycleDetected(cycle: seq<string>)

  /** A cycle without repeats, listed so that each next element depends on the
      previous one and the first depends on the last. */
  ghost predicate SimpleCycle(g: Graph, c: seq<string>) {
    ClosedWalk(g, c) && NoDup(c)
  }

  /** A cycle through the step x, listed from what depends on x to x. */
  ghost predicate CycleAt(g: Graph, x: string) {
    exists c :: SimpleCycle(g, c) && c[|c| - 1] == x
  }

  /** m is n, or n depends on m through others. */
  ghost predicate Needs(g: Graph, n: string, m: string) {
    exists c :: c != [] && Chain(g, c) && c[|c| - 1] == n && c[0] == m
  }

  lemma NeedsItself(g: Graph, n: string)
    ensures Needs(g, n, n)
  {
    assert Chain(g, [n]);
  }

  lemma NeedsThrough(g: Graph, n: string, m: string, x: string)
    requires DependsOn(g, n, m) && Needs(g, m, x)
    ensures Needs(g, n, x)
  {
    var c :| c != [] && Chain(g, c) && c[|c| - 1] == m && c[0] == x;
    assert Chain(g, c + [n]) && (c + [n])[0] == x;
  }

  /** What a step is refused for: something missing, or a cycle, that it needs. */
  lemma RefusedIsNotResolvable(g: Graph, n: string, m: string)
    requires Needs(g, n, m) && (m !in g || CycleAt(g, m))
    ensures !Resolvable(g, n)
  {
    var c :| c != [] && Chain(g, c) && c[|c| - 1] == n && c[0] == m;
    forall order | Resolves(g, order) && Elements(order) <= g.Keys ensures n !in order {
      if m in g {
        var walk :| SimpleCycle(g, walk) && walk[|walk| - 1] == m;
        ReachesCycle(g, order, c, walk);
      } else if n in order {
        ChainIsListed(g, order, c, 0);
        assert false;
      }
    }
  }

  lemma MissingIsDependency(g: Graph, n: string, m: string)
    requires Needs(g, n, m) && n in g && m !in g
    ensures IsDependency(g, m)
  {
    var c :| c != [] && Chain(g, c) && c[|c| - 1] == n && c[0] == m;
    assert DependsOn(g, c[1], c[0]);
  }

  /** The names appended after the |g| empty ones that sorted starts with. */
  ghost function Tail(g: Graph, sorted: seq<string>): seq<string> {
    if |sorted| < |g| then [] else sorted[|g|..]
  }

  /** path is the stack of calls to visit that are open, oldest first: each
      call was made for a dependency of the one below it. */
  ghost predicate Stack(g: Graph, temporary: set<string>, path: seq<string>) {
    && temporary <= g.Keys && temporary == Elements(path) && NoDup(path)
    && forall i :: 0 <= i < |path| - 1 ==> DependsOn(g, path[i], path[i + 1])
  }

  /** sorted lists the finished steps, dependencies first. */
  ghost predicate Finished(g: Graph, permanent: set<string>, sorted: seq<string>) {
    && |sorted| >= |g| && sorted[..|g|] == seq(|g|, i => "")
    && permanent <= g.Keys
    && NoDup(Tail(g, sorted)) && Elements(Tail(g, sorted)) == permanent
    && DependenciesFirst(g, Tail(g, sorted))
  }

  /** A cycle through the step closing was met below the call for n, made with
      the calls on path still open. Either the names are still being collected,
      up from the deepest call, until the call for closing; or the collected list
      is complete; or closing is the step named "" and nothing is collected. */
  ghost predicate Unwinding(
    g: Graph, cycle: seq<string>, start: string, closing: string, path: seq<string>, n: string)
  {
    && CycleAt(g, closing)
    && if start != "" then
         && start == closing && start in path
         && Chain(g, cycle) && NoDup(cycle)
         && (forall x :: x in cycle ==> x !in path)
         && if cycle == [] then n == start
            else n == cycle[|cycle| - 1] && DependsOn(g, cycle[0], start)
       else if closing == "" then cycle == []
       else SimpleCycle(g, cycle) && cycle[|cycle| - 1] == closing
  }

  lemma PushKeepsStack(g: Graph, temporary: set<string>, path: seq<string>, n: string)
    requires Stack(g, temporary, path) && n in g && n !in temporary
    requires path != [] ==> DependsOn(g, path[|path| - 1], n)
    ensures Stack(g, temporary + {n}, path + [n])
  {
    assert Elements(path + [n]) == Elements(path) + {n};
    assert forall x :: x in path ==> x in Elements(path);
  }

  lemma PopKeepsStack(g: Graph, temporary: set<string>, path: seq<string>, n: string)
    requires Stack(g, temporary, path + [n])
    ensures Stack(g, temporary - {n}, path)
  {
    assert Elements(path + [n]) == Elements(path) + {n};
    var longer := path + [n];
    forall i | 0 <= i < |path| ensures path[i] == longer[i] && path[i] != n {
      assert longer[i] != longer[|path|];
    }
    assert n !in Elements(path);
    assert temporary - {n} == Elements(path);
  }

  lemma AppendKeepsFinished(g: Graph, permanent: set<string>, sorted: seq<string>, n: string)
    requires Finished(g, permanent, sorted) && n in g && n !in permanent
    requires forall m :: DependsOn(g, n, m) ==> m in permanent
    ensures Finished(g, permanent + {n}, sorted + [n])
  {
    var order := Tail(g, sorted);
    var longer := order + [n];
    assert Tail(g, sorted + [n]) == longer;
    assert Elements(longer) == permanent + {n};
    assert n !in Elements(order);
    forall k, m | 0 <= k < |longer| && DependsOn(g, longer[k], m)
      ensures m in longer[..k]
    {
      if k < |order| {
        assert longer[..k] == order[..k];
      } else {
        assert longer[..k] == order;
        assert m in Elements(order);
      }
    }
  }

  /** Meeting an open call again closes a cycle: the calls from it up. */
  lemma MeetingStackIsCycle(g: Graph, temporary: set<string>, path: seq<string>, n: string)
    requires Stack(g, temporary, path) && n in temporary
    requires path != [] ==> DependsOn(g, path[|path| - 1], n)
    ensures n in path && Unwinding(g, [], n, n, path, n)
  {
    assert n in Elements(path);
    var k :| 0 <= k < |path| && path[k] == n;
    var len := |path| - k;
    var c := seq(len, i requires 0 <= i < len => path[|path| - 1 - i]);
    assert SimpleCycle(g, c) && c[|c| - 1] == n;
  }

  /** What the call for n, opened on top of path, does once a cycle was met
      below it, for a dependency m of n. */
  lemma CollectKeepsUnwinding(
    g: Graph, temporary: set<string>, cycle: seq<string>, start: string, closing: string,
    path: seq<string>, n: string, m: string)
    requires Unwinding(g, cycle, start, closing, path + [n], m)
    requires DependsOn(g, n, m) && Stack(g, temporary, path + [n])
    ensures start == "" ==> Unwinding(g, cycle, "", closing, path, n)
    ensures start != "" ==> Unwinding(g, cycle + [n], if n == start then "" else start, closing, path, n)
  {
    if start != "" {
      var longer := cycle + [n];
      assert n in path + [n];
      assert forall x :: x in path ==> x in path + [n];
      assert Chain(g, longer) && NoDup(longer);
      if n == start {
        assert SimpleCycle(g, longer);
      } else {
        assert start in path;
        assert longer[0] == if cycle == [] then n else cycle[0];
        var k :| 0 <= k < |path| && path[k] == start;
        forall x | x in longer ensures x !in path {
          if x == n {
            forall j | 0 <= j < |path| ensures path[j] != n {
              assert (path + [n])[j] == path[j] && (path + [n])[|path|] == n;
            }
          }
        }
      }
    }
  }

  class Sorter {
    const steps: Graph
    var temporary: set<string>
    var permanent: set<string>
    var sorted: seq<string>
    var cycle: seq<string>
    var isCyclic: bool
    var cycleStart: string
    /** The step whose open call was met again. */
    ghost var closing: string

    constructor (steps: Graph)
      ensures this.steps == steps && Searching([])
    {
      this.steps := steps;
      temporary, permanent := {}, {};
      sorted := seq(|steps|, i => "");
      cycle, isCyclic, cycleStart := [], false, "";
      new;
      assert Tail(steps, sorted) == [];
    }

    /** No cycle met so far, with the calls on path open. */
    ghost predicate Searching(path: seq<string>)
      reads this
    {
      && !isCyclic && cycle == [] && cycleStart == ""
      && Stack(steps, temporary, path)
      && Finished(steps, permanent, sorted)
      && permanent * temporary == {}
    }

    lemma PermanentAreSteps(path: seq<string>)
      requires Searching(path)
      ensures permanent <= steps.Keys
      ensures forall n :: n in permanent ==> Resolvable(steps, n)
    {
      var order := Tail(steps, sorted);
      assert Resolves(steps, order);
      forall n | n in permanent ensures Resolvable(steps, n) {
        assert n in Elements(order);
      }
    }

    method Visit(n: string, ghost path: seq<string>) returns (err: Option<string>)
      requires Searching(path)
      requires path != [] ==> DependsOn(steps, path[|path| - 1], n)
      modifies this
      ensures err.Some? ==> err.value !in steps && Needs(steps, n, err.value)
      ensures err.None? && !isCyclic ==>
        && Searching(path) && n in permanent
        && temporary == old(temporary) && old(permanent) <= permanent
      ensures err.None? && isCyclic ==>
        Unwinding(steps, cycle, cycleStart, closing, path, n) && Needs(steps, n, closing)
      decreases steps.Keys - (temporary + permanent)
    {
      hide Unwinding, Finished, Stack, Needs;
      NeedsItself(steps, n);
      if n !in steps {
        return Some(n);
      }
      if n in temporary {
        MeetingStackIsCycle(steps, temporary, path, n);
        isCyclic, cycleStart := true, n;
        closing := n;
        return None;
      } else if n in permanent {
        return None;
      }
      PushKeepsStack(steps, temporary, path, n);
      temporary := temporary + {n};
      for i := 0 to |steps[n].dependencies|
        invariant Searching(path + [n])
        invariant temporary == old(temporary) + {n} && old(permanent) <= permanent
        invariant forall j :: 0 <= j < i ==> steps[n].dependencies[j] in permanent
      {
        var m := steps[n].dependencies[i];
        var e := Visit(m, path + [n]);
        assert DependsOn(steps, n, m);
        if e.Some? {
          NeedsThrough(steps, n, m, e.value);
          return e;
        }
        if isCyclic {
          NeedsThrough(steps, n, m, closing);
          CollectKeepsUnwinding(steps, old(temporary) + {n}, cycle, cycleStart, closing, path, n, m);
          if |cycleStart| != 0 {
            cycle := cycle + [n];
            if n == cycleStart {
              cycleStart := "";
            }
          }
          return None;
        }
      }
      assert n !in permanent * temporary;
      PopKeepsStack(steps, temporary, path, n);
      AppendKeepsFinished(steps, permanent, sorted, n);
      temporary := temporary - {n};
      permanent := permanent + {n};
      sorted := sorted + [n];
      return None;
    }
  }

  /** What the caller of the outermost visit learns from a met cycle. */
  lemma UnwoundIsCycle(g: Graph, cycle: seq<string>, start: string, closing: string, n: string)
    requires Unwinding(g, cycle, start, closing, [], n)
    ensures CycleAt(g, closing) && !Acyclic(g)
    ensures cycle == [] <==> closing == ""
    ensures cycle != [] ==> SimpleCycle(g, cycle) && cycle[|cycle| - 1] == closing
  {
    var c :| SimpleCycle(g, c);
    assert ClosedWalk(g, c);
  }

  lemma AllFinishedIsSorted(g: Graph, sorted: seq<string>)
    requires Finished(g, g.Keys, sorted)
    ensures |sorted| == 2 * |g| && sorted[..|g|] == seq(|g|, i => "")
    ensures TopologicalOrder(g, sorted[|g|..]) && Closed(g) && Acyclic(g)
  {
    NoDupCardinality(Tail(g, sorted));
    OrderExcludesCycles(g, Tail(g, sorted));
  }

  // ------------------------------------------------------ the order of the keys

  /** The order of sort.Strings. */
  predicate Less(a: string, b: string) {
    b != [] && (a == [] || a[0] < b[0] || (a[0] == b[0] && Less(a[1..], b[1..])))
  }

  /** That is: by the first character that differs, a prefix before what it begins. */
  lemma {:induction false} LessMeans(a: string, b: string)
    ensures Less(a, b) <==>
      exists k :: 0 <= k <= |a| && k < |b| && a[..k] == b[..k] && (k == |a| || a[k] < b[k])
  {
    if a != [] && b != [] {
      var c, d := a[1..], b[1..];
      LessMeans(c, d);
      if a[0] < b[0] {
        assert a[..0] == b[..0];
      }
      if k :| 0 <= k <= |c| && k < |d| && c[..k] == d[..k] && (k == |c| || c[k] < d[k]) && a[0] == b[0] {
        assert a[..k + 1] == [a[0]] + c[..k] && b[..k + 1] == [b[0]] + d[..k];
      }
      if k :| 0 < k <= |a| && k < |b| && a[..k] == b[..k] && (k == |a| || a[k] < b[k]) {
        assert a[..k][0] == b[..k][0] && c[..k - 1] == a[..k][1..] && d[..k - 1] == b[..k][1..];
      }
    } else if a == [] && b != [] {
      assert a[..0] == b[..0];
    }
  }

  lemma {:induction false} LessIsTotal(a: string, b: string)
    ensures a == b || Less(a, b) || Less(b, a)
    ensures !(Less(a, b) && Less(b, a)) && !Less(a, a)
  {
    if a != [] && b != [] {
      LessIsTotal(a[1..], b[1..]);
      LessIsTotal(a[1..], a[1..]);
      assert a == [a[0]] + a[1..] && b == [b[0]] + b[1..];
    } else if a != [] {
      LessIsTotal(a[1..], a[1..]);
    }
  }

  lemma {:induction false} LessIsTransitive(a: string, b: string, c: string)
    requires Less(a, b) && Less(b, c)
    ensures Less(a, c)
  {
    if a != [] && a[0] == b[0] == c[0] {
      LessIsTransitive(a[1..], b[1..], c[1..]);
    }
  }

  ghost predicate IsLeast(keys: set<string>, k: string) {
    k in keys && forall x :: x in keys ==> x == k || Less(k, x)
  }

  lemma {:induction false} LeastExists(keys: set<string>) returns (k: string)
    requires keys != {}
    ensures IsLeast(keys, k)
  {
    k :| k in keys;
    if keys != {k} {
      var l := LeastExists(keys - {k});
      LessIsTotal(k, l);
      forall x | x in keys && Less(k, l) ensures x == k || Less(k, x) {
        if x != k && x != l {
          LessIsTransitive(k, l, x);
        }
      }
      k := if Less(k, l) then k else l;
    }
  }

  /** The keys of the map, in alphabetical order. */
  method SortedKeys(keys: set<string>) returns (list: seq<string>)
    ensures Elements(list) == keys
    ensures forall i, j :: 0 <= i < j < |list| ==> Less(list[i], list[j])
  {
    hide Less;
    list := [];
    var rest := keys;
    while rest != {}
      invariant rest <= keys && Elements(list) == keys - rest
      invariant forall i, j :: 0 <= i < j < |list| ==> Less(list[i], list[j])
      invariant forall i, x :: 0 <= i < |list| && x in rest ==> Less(list[i], x)
    {
      ghost var least := LeastExists(rest);
      assert forall x :: x in rest ==> x == least || Less(least, x);
      var k :| k in rest && forall x :: x in rest ==> x == k || Less(k, x);
      assert Elements(list + [k]) == Elements(list) + {k};
      list, rest := list + [k], rest - {k};
    }
  }

  /** What is reported belongs to the alphabetically first step that cannot be
      resolved, culprit; a cycle is the one through closing, and is listed unless
      that step is named "". */
  method TopologicalSort(steps: Graph) returns (r: SortResult, ghost culprit: string, ghost closing: string)
    ensures r.Sorted? <==> Closed(steps) && Acyclic(steps)
    ensures r.Sorted? ==>
      && |r.order| == 2 * |steps| && r.order[..|steps|] == seq(|steps|, i => "")
      && TopologicalOrder(steps, r.order[|steps|..])
    ensures !r.Sorted? ==>
      && culprit in steps && !Resolvable(steps, culprit)
      && forall n :: n in steps && Less(n, culprit) ==> Resolvable(steps, n)
    ensures r.NotFound? ==>
      r.name !in steps && IsDependency(steps, r.name) && Needs(steps, culprit, r.name)
    ensures r.CycleDetected? ==>
      && CycleAt(steps, closing) && Needs(steps, culprit, closing)
      && (r.cycle == [] <==> closing == "")
      && (r.cycle != [] ==> SimpleCycle(steps, r.cycle) && r.cycle[|r.cycle| - 1] == closing)
    ensures r.CycleDetected? && !CycleAt(steps, "") ==> SimpleCycle(steps, r.cycle)
  {
    hide Stack, Finished, Unwinding, CycleAt, Acyclic, TopologicalOrder, SimpleCycle, Needs, Resolvable, Less,
         IsDependency;
    culprit, closing := "", "";
    var s := new Sorter(steps);
    var keys := SortedKeys(steps.Keys);
    for i := 0 to |keys|
      invariant s.steps == steps && s.Searching([])
      invariant forall j :: 0 <= j < i ==> keys[j] in s.permanent
    {
      assert keys[i] in Elements(keys);
      if keys[i] in s.permanent {
        continue;
      }
      culprit := keys[i];
      s.PermanentAreSteps([]);
      EarlierKeys(keys, i);
      assert forall n :: n in steps ==> n in Elements(keys);
      var err := s.Visit(keys[i], []);
      if err.Some? {
        MissingIsDependency(steps, culprit, err.value);
        RefusedIsNotResolvable(steps, culprit, err.value);
        return NotFound(err.value), culprit, "";
      }
      if s.isCyclic {
        UnwoundIsCycle(steps, s.cycle, s.cycleStart, s.closing, keys[i]);
        RefusedIsNotResolvable(steps, culprit, s.closing);
        return CycleDetected(s.cycle), culprit, s.closing;
      }
    }
    assert forall n :: n in Elements(keys) ==> n in s.permanent;
    s.PermanentAreSteps([]);
    assert s.permanent == steps.Keys && Finished(steps, s.permanent, s.sorted);
    AllFinishedIsSorted(steps, s.sorted);
    r := Sorted(s.sorted);
  }

  lemma EarlierKeys(keys: seq<string>, i: nat)
    requires i < |keys| && forall j, k :: 0 <= j < k < |keys| ==> Less(keys[j], keys[k])
    ensures forall n :: n in keys && Less(n, keys[i]) ==> n in keys[..i]
  {
    forall n | n in keys && Less(n, keys[i]) ensures n in keys[..i] {
      var j :| 0 <= j < |keys| && keys[j] == n;
      LessIsTotal(n, keys[i]);
      assert j < i;
    }
  }

  /** The cycle that is met but not listed: a step named "" that depends on itself. */
  method CycleOfEmptyName(step: Step) returns (r: SortResult)
    requires step.dependencies == [""]
    ensures r == CycleDetected([])
  {
    ghost var g: Graph := map["" := step];
    ghost var culprit, closing;
    r, culprit, closing := TopologicalSort(map["" := step]);
    assert DependsOn(g, "", "") && ClosedWalk(g, [""]);
    assert forall n, m :: DependsOn(g, n, m) ==> m == "";
    ghost var c :| SimpleCycle(g, c) && c[|c| - 1] == closing;
    assert DependsOn(g, c[0], closing);
  }
}
