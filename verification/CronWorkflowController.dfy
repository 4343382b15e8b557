/** syncOne of pkg/controller/cronworkflow.go, the names of the workflows it
    creates, and runs of it. */
module CronWorkflowController {
  import opened Prelude
  import opened WorkflowTypes
  import opened WorkflowSync
  import opened CronSchedule

  // -------------------------------------------------------------------- the names

  const DIGITS := "0123456789"

  function Digits(n: nat): (s: string)
    ensures |s| >= 1 && (|s| == 1 <==> n < 10)
    ensures forall i :: 0 <= i < |s| ==> s[i] in DIGITS
  {
    if n < 10 then [DIGITS[n]] else Digits(n / 10) + [DIGITS[n % 10]]
  }

  /** What the digits stand for. */
  function NumberOf(s: string): int {
    if s == [] then 0 else 10 * NumberOf(s[..|s| - 1]) + (s[|s| - 1] as int - '0' as int)
  }

  lemma {:induction false} DigitsAreDecimal(n: nat)
    ensures NumberOf(Digits(n)) == n
  {
    if n < 10 {
      DigitIsDecimal(n);
      LastDigit([], DIGITS[n]);
      assert [] + [DIGITS[n]] == Digits(n);
    } else {
      DigitIsDecimal(n % 10);
      DigitsAreDecimal(n / 10);
      LastDigit(Digits(n / 10), DIGITS[n % 10]);
    }
  }

  lemma LastDigit(s: string, c: char)
    ensures NumberOf(s + [c]) == 10 * NumberOf(s) + (c as int - '0' as int)
  {
    assert (s + [c])[..|s|] == s;
  }

  lemma DigitIsDecimal(n: nat)
    requires n < 10
    ensures DIGITS[n] as int == '0' as int + n
  {
    var d := DIGITS;
    assert d[0] == '0' && d[1] == '1' && d[2] == '2' && d[3] == '3' && d[4] == '4';
    assert d[5] == '5' && d[6] == '6' && d[7] == '7' && d[8] == '8' && d[9] == '9';
  }

  /** The verb %d. */
  function Decimal(n: int): string {
    if n < 0 then "-" + Digits(-n) else Digits(n)
  }

  /** getTimeHash: seconds since the epoch, rounded down. */
  function UnixSeconds(t: int): (u: int)
    ensures u * SECOND <= t < (u + 1) * SECOND
  {
    t / SECOND
  }

  function WorkflowName(cronName: string, scheduled: int): string {
    cronName + "-" + Decimal(UnixSeconds(scheduled))
  }

  lemma DigitDiffers(a: nat, b: nat)
    requires a < 10 && b < 10 && DIGITS[a] == DIGITS[b]
    ensures a == b
  {
    var d := DIGITS;
    assert d[0] == '0' && d[1] == '1' && d[2] == '2' && d[3] == '3' && d[4] == '4';
    assert d[5] == '5' && d[6] == '6' && d[7] == '7' && d[8] == '8' && d[9] == '9';
  }

  lemma {:induction false} DigitsInjective(n: nat, m: nat)
    requires Digits(n) == Digits(m)
    ensures n == m
  {
    var s, t := Digits(n), Digits(m);
    assert s[|s| - 1] == DIGITS[n % 10] && t[|t| - 1] == DIGITS[m % 10];
    DigitDiffers(n % 10, m % 10);
    if n >= 10 && m >= 10 {
      assert s[..|s| - 1] == Digits(n / 10) && t[..|t| - 1] == Digits(m / 10);
      DigitsInjective(n / 10, m / 10);
    }
  }

  lemma SuffixFound(a: string, s: string, b: string, t: string)
    requires a + "-" + s == b + "-" + t
    requires '-' !in s && '-' !in t
    ensures a == b && s == t
  {
    var x := a + "-" + s;
    assert x[|a|] == '-' && x[|b|] == '-';
    assert forall i :: |a| < i < |x| ==> x[i] == s[i - |a| - 1] && x[i] in s;
    assert forall i :: |b| < i < |x| ==> x[i] == t[i - |b| - 1] && x[i] in t;
    assert |a| == |b|;
    assert a == x[..|a|] && b == x[..|b|];
    assert s == x[|a| + 1..] && t == x[|b| + 1..];
  }

  /** What stands before the last dash of a name. */
  function Stem(cronName: string, seconds: int): string {
    if seconds < 0 then cronName + "-" else cronName
  }

  function Abs(n: int): nat {
    if n < 0 then -n else n
  }

  lemma NameParts(cronName: string, scheduled: int)
    ensures var n := UnixSeconds(scheduled);
      WorkflowName(cronName, scheduled) == Stem(cronName, n) + "-" + Digits(Abs(n))
  {
    hide Digits;
    var d := Digits(Abs(UnixSeconds(scheduled)));
    assert cronName + "-" + ("-" + d) == cronName + "-" + "-" + d;
  }

  lemma SameStemIff(a: string, x: int, b: string, y: int)
    ensures Stem(a, x) == Stem(b, y) <==>
      if x < 0 <==> y < 0 then a == b else if x < 0 then b == a + "-" else a == b + "-"
  {
    if x < 0 && y < 0 {
      var c, e := a + "-", b + "-";
      assert a == c[..|c| - 1] && b == e[..|e| - 1];
    }
  }

  /** Two names agree for the same CronWorkflow and second; or if one CronWorkflow is
      named as the other with a dash behind, for opposite seconds. */
  lemma NamesAgreeIff(a: string, s: int, b: string, t: int)
    ensures WorkflowName(a, s) == WorkflowName(b, t) <==>
      || (a == b && UnixSeconds(s) == UnixSeconds(t))
      || (a == b + "-" && UnixSeconds(s) == -UnixSeconds(t) > 0)
      || (b == a + "-" && UnixSeconds(t) == -UnixSeconds(s) > 0)
  {
    hide Stem, WorkflowName, Digits, UnixSeconds;
    var x, y := UnixSeconds(s), UnixSeconds(t);
    var c, dx, e, dy := Stem(a, x), Digits(Abs(x)), Stem(b, y), Digits(Abs(y));
    NameParts(a, s);
    NameParts(b, t);
    SameStemIff(a, x, b, y);
    NoDashInDigits(Abs(x));
    NoDashInDigits(Abs(y));
    if c + "-" + dx == e + "-" + dy {
      SuffixFound(c, dx, e, dy);
      DigitsInjective(Abs(x), Abs(y));
    }
    assert |a + "-"| > |a| && |b + "-"| > |b|;
  }

  lemma NoDashInDigits(n: nat)
    ensures '-' !in Digits(n)
  {
    assert '-' !in DIGITS;
  }

  /** Names of objects are DNS subdomains, which end in a letter or digit. */
  predicate EndsInDash(name: string) {
    name != "" && name[|name| - 1] == '-'
  }

  /** The name of a workflow tells the CronWorkflow and the second it was created
      for, at all times. */
  lemma NameInjective(a: string, s: int, b: string, t: int)
    requires !EndsInDash(a) && !EndsInDash(b) && WorkflowName(a, s) == WorkflowName(b, t)
    ensures a == b && UnixSeconds(s) == UnixSeconds(t)
  {
    NamesAgreeIff(a, s, b, t);
    assert (a + "-")[|a + "-"| - 1] == '-' && (b + "-")[|b + "-"| - 1] == '-';
  }

  // --------------------------------------------------------------- the active list

  /** One of the workflows controlled by the CronWorkflow. */
  datatype Child = Child(uid: string, finished: bool)

  /** controller is the controlling owner reference of a workflow: kind and uid. */
  datatype ListedWorkflow = ListedWorkflow(
    name: string,
    uid: string,
    labels: Labels,
    annotations: Labels,
    controller: Option<(string, string)>,
    spec: Spec,
    finished: bool)

  const CRONWORKFLOW_KIND := "CronWorkflow"

  predicate ControlledBy(w: ListedWorkflow, cronUid: string) {
    w.controller == Some((CRONWORKFLOW_KIND, cronUid))
  }

  /** The workflows a CronWorkflow controls, in order. */
  function ChildrenOf(workflows: seq<ListedWorkflow>, cronUid: string): seq<Child> {
    if workflows == [] then []
    else
      var w := workflows[|workflows| - 1];
      ChildrenOf(workflows[..|workflows| - 1], cronUid)
      + if ControlledBy(w, cronUid) then [Child(w.uid, w.finished)] else []
  }

  method GroupWorkflowsByCronWorkflows(workflows: seq<ListedWorkflow>) returns (groups: map<string, seq<Child>>)
    ensures forall u :: (if u in groups then groups[u] else []) == ChildrenOf(workflows, u)
    ensures forall u :: u in groups ==> groups[u] != []
  {
    hide ChildrenOf;
    groups := map[];
    NoneListed();
    for i := 0 to |workflows|
      invariant forall u :: (if u in groups then groups[u] else []) == ChildrenOf(workflows[..i], u)
      invariant forall u :: u in groups ==> groups[u] != []
    {
      var w := workflows[i];
      OneMoreListed(workflows, i);
      if w.controller.None? {
        continue;
      }
      if w.controller.value.0 != CRONWORKFLOW_KIND {
        continue;
      }
      var uid := w.controller.value.1;
      var group := if uid in groups then groups[uid] else [];
      groups := groups[uid := group + [Child(w.uid, w.finished)]];
    }
    assert workflows[..|workflows|] == workflows;
  }

  lemma NoneListed()
    ensures forall u :: ChildrenOf([], u) == []
  {
  }

  lemma OneMoreListed(workflows: seq<ListedWorkflow>, i: nat)
    requires i < |workflows|
    ensures forall u ::
      ChildrenOf(workflows[..i + 1], u)
      == ChildrenOf(workflows[..i], u)
         + (if ControlledBy(workflows[i], u) then [Child(workflows[i].uid, workflows[i].finished)] else [])
  {
    assert workflows[..i + 1][..i] == workflows[..i];
  }

  predicate StaysActive(children: seq<Child>, uid: string) {
    && (exists i :: 0 <= i < |children| && children[i].uid == uid)
    && !exists i :: 0 <= i < |children| && children[i].uid == uid && children[i].finished
  }

  class CronWorkflowObject {
    var active: seq<string>

    constructor (active: seq<string>)
      ensures this.active == active
    {
      this.active := active;
    }

    method DeleteFromActiveList(uid: string)
      modifies this
      ensures active == Filter(old(active), u => u != uid)
    {
      var newActive: seq<string> := [];
      for i := 0 to |active|
        invariant active == old(active)
        invariant newActive == Filter(active[..i], u => u != uid)
      {
        assert active[..i + 1] == active[..i] + [active[i]];
        FilterAppend(active[..i], [active[i]], u => u != uid);
        if active[i] != uid {
          newActive := newActive + [active[i]];
        }
      }
      assert active[..|active|] == active;
      active := newActive;
    }

    method InActiveList(uid: string) returns (found: bool)
      ensures found <==> uid in active
    {
      for i := 0 to |active|
        invariant uid !in active[..i]
      {
        if active[i] == uid {
          return true;
        }
      }
      found := false;
    }

    /** The first loop of syncOne. */
    method PruneFinished(children: seq<Child>) returns (childrenUids: set<string>)
      modifies this
      ensures childrenUids == set k | 0 <= k < |children| :: children[k].uid
      ensures active == Filter(old(active), u => !FinishedAmong(children, u))
    {
      hide Filter;
      childrenUids := {};
      KeepsAll(active, u => !FinishedAmong([], u));
      assert children[..0] == [];
      for i := 0 to |children|
        invariant childrenUids == set k | 0 <= k < i :: children[k].uid
        invariant active == Filter(old(active), u => !FinishedAmong(children[..i], u))
      {
        var c := children[i];
        childrenUids := childrenUids + {c.uid};
        var found := InActiveList(c.uid);
        FinishedGrows(children, i);
        FilterTwice(old(active), u => !FinishedAmong(children[..i], u), u => u != c.uid,
                    u => !FinishedAmong(children[..i + 1], u), c.finished);
        if found && c.finished {
          DeleteFromActiveList(c.uid);
        } else if c.finished {
          FilterOut(active, c.uid);
        }
      }
      assert children[..|children|] == children;
    }

    /** The second loop, over the list as it was when the loop began. */
    method PruneOrphans(childrenUids: set<string>)
      modifies this
      ensures active == Filter(old(active), u => u in childrenUids)
    {
      var snapshot := active;
      KeepsAll(active, u => u in childrenUids || u !in snapshot[..0]);
      for i := 0 to |snapshot|
        invariant active == Filter(snapshot, u => u in childrenUids || u !in snapshot[..i])
      {
        assert snapshot[..i + 1] == snapshot[..i] + [snapshot[i]];
        FilterTwice(snapshot, u => u in childrenUids || u !in snapshot[..i], u => u != snapshot[i],
                    u => u in childrenUids || u !in snapshot[..i + 1], snapshot[i] !in childrenUids);
        if snapshot[i] !in childrenUids {
          DeleteFromActiveList(snapshot[i]);
        }
      }
      FilterSame(snapshot, u => u in childrenUids || u !in snapshot[..|snapshot|], u => u in childrenUids);
    }

    /** A workflow stays listed as active if it is among the children and not
        finished; the order is kept. */
    method PruneActive(children: seq<Child>)
      modifies this
      ensures active == Filter(old(active), u => StaysActive(children, u))
      ensures forall u :: u in active <==>
        && u in old(active)
        && (exists i :: 0 <= i < |children| && children[i].uid == u)
        && forall i :: 0 <= i < |children| && children[i].uid == u ==> !children[i].finished
    {
      FilterMembers(active, u => StaysActive(children, u));
      var childrenUids := PruneFinished(children);
      PruneOrphans(childrenUids);
      FilterTwice(old(active), u => !FinishedAmong(children, u), u => u in childrenUids,
                  u => StaysActive(children, u), true);
    }
  }

  predicate FinishedAmong(children: seq<Child>, uid: string) {
    exists i :: 0 <= i < |children| && children[i].uid == uid && children[i].finished
  }

  lemma FinishedGrows(children: seq<Child>, i: nat)
    requires i < |children|
    ensures forall u :: FinishedAmong(children[..i + 1], u) <==>
                        FinishedAmong(children[..i], u) || (children[i].finished && children[i].uid == u)
  {
    assert children[..i + 1] == children[..i] + [children[i]];
    forall u | FinishedAmong(children[..i], u) ensures FinishedAmong(children[..i + 1], u) {
      var k :| 0 <= k < i && children[..i][k].uid == u && children[..i][k].finished;
      assert children[..i + 1][k] == children[..i][k];
    }
    if children[i].finished {
      assert children[..i + 1][i] == children[i];
      assert FinishedAmong(children[..i + 1], children[i].uid);
    }
  }

  lemma {:induction false} KeepsAll(s: seq<string>, p: string -> bool)
    requires forall x :: x in s ==> p(x)
    ensures Filter(s, p) == s
  {
    if s != [] {
      KeepsAll(s[1..], p);
      assert s[0] in s;
    }
  }

  /** Deleting what is not listed changes nothing. */
  lemma FilterOut(s: seq<string>, uid: string)
    requires uid !in s
    ensures Filter(s, u => u != uid) == s
  {
    KeepsAll(s, u => u != uid);
  }

  /** Filtering twice is filtering by both tests; r stands for both if second is
      set, for the first alone otherwise. */
  lemma {:induction false} FilterTwice(s: seq<string>, p: string -> bool, q: string -> bool, r: string -> bool, second: bool)
    requires forall x :: x in s ==> (r(x) <==> p(x) && (second ==> q(x)))
    ensures (if second then Filter(Filter(s, p), q) else Filter(s, p)) == Filter(s, r)
  {
    if s != [] {
      assert s[0] in s;
      FilterTwice(s[1..], p, q, r, second);
    }
  }

  // --------------------------------------------------------------------- one sync

  const CRONWORKFLOW_LABEL_KEY := "kubernetes.io/cronworkflow"

  /** inferrWorkflowDefinitionFromCronWorkflow, and the uid it gets when it is stored.
      There is no owner reference. */
  function InferWorkflow(cw: CronWorkflow, scheduled: int, uid: string): ListedWorkflow {
    ListedWorkflow(
      WorkflowName(cw.name, scheduled), uid,
      cw.templateLabels[CRONWORKFLOW_LABEL_KEY := cw.name], cw.templateAnnotations, None,
      SerializeSpec(DefaultSpec(cw.templateSpec)), false)
  }

  function NamesOf(workflows: seq<ListedWorkflow>): set<string> {
    set w | w in workflows :: w.name
  }

  /** The API server: the workflows of the namespace, and the active list that the
      CronWorkflow is stored with. */
  class Cluster {
    var workflows: seq<ListedWorkflow>
    var active: seq<string>

    method UpdateCronWorkflow(newActive: seq<string>, fails: bool) returns (failed: bool)
      modifies this`active
      ensures failed == fails && active == if fails then old(active) else newActive
    {
      if !fails {
        active := newActive;
      }
      failed := fails;
    }

    method CreateWorkflow(w: ListedWorkflow, refused: bool) returns (failed: bool)
      modifies this`workflows
      ensures failed <==> refused || w.name in NamesOf(old(workflows))
      ensures workflows == if failed then old(workflows) else old(workflows) + [w]
    {
      failed := refused;
      for i := 0 to |workflows|
        invariant failed <==> refused || exists j :: 0 <= j < i && workflows[j].name == w.name
      {
        if workflows[i].name == w.name {
          failed := true;
        }
      }
      if !failed {
        workflows := workflows + [w];
      }
    }
  }

  /** The schedule time that a sync at now creates a workflow for, if any. */
  function Creates(cw: CronWorkflow, now: int, next: int -> int, names: set<string>,
                   updateFails: bool, refused: bool): Option<int> {
    if updateFails || cw.deleting || cw.suspend == Some(true) then None
    else
      match RecentUnmet(cw, now, next)
      case Times(ts) =>
        if ts == [] || refused || WorkflowName(cw.name, ts[|ts| - 1]) in names then None else Some(ts[|ts| - 1])
      case _ => None
  }

  /** The active list after a sync that finds these children. */
  function Pruned(active: seq<string>, children: seq<Child>): seq<string> {
    Filter(active, u => StaysActive(children, u))
  }

  /** syncOne; updateFails, refused and newUid are the replies of the API server. */
  method SyncOne(cw: CronWorkflow, o: CronWorkflowObject, children: seq<Child>, now: int, next: int -> int,
                 cluster: Cluster, updateFails: bool, refused: bool, newUid: string) returns (created: Option<int>)
    modifies o, cluster
    ensures o.active == Pruned(old(o.active), children)
    ensures cluster.active == if updateFails then old(cluster.active) else o.active
    ensures created == Creates(cw, now, next, NamesOf(old(cluster.workflows)), updateFails, refused)
    ensures cluster.workflows == if created.None? then old(cluster.workflows)
                                 else old(cluster.workflows) + [InferWorkflow(cw, created.value, newUid)]
  {
    hide RecentUnmet, WorkflowName, StaysActive, NamesOf;
    o.PruneActive(children);
    var failed := cluster.UpdateCronWorkflow(o.active, updateFails);
    if failed {
      return None;
    }
    if cw.deleting || cw.suspend == Some(true) {
      return None;
    }
    var unmet := GetRecentUnmetScheduleTimes(cw, now, next);
    if !unmet.Times? || |unmet.times| == 0 {
      return None;
    }
    var scheduledTime := unmet.times[|unmet.times| - 1];
    failed := cluster.CreateWorkflow(InferWorkflow(cw, scheduledTime, newUid), refused);
    created := if failed then None else Some(scheduledTime);
  }
}
