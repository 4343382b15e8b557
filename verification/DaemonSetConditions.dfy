/** The conditions of a DaemonSetJob: updateDaemonSetJobStatusConditions and what
    any history of its calls leaves (pkg/controller/daemonsetjob.go). */
module DaemonSetConditions {
  import opened Prelude

  datatype Kind = Complete | Failed

  /** isTrue is the condition's Status, True or False. */
  datatype Condition = Condition(kind: Kind, isTrue: bool, lastProbeTime: int, lastTransitionTime: int)

  /** The fields the updaters write. */
  datatype State = State(conditions: seq<Condition>, completionTime: Option<int>)

  const EMPTY := State([], None)

  // -------------------------------------------------------------- the updaters

  /** searchDaemonSetJobStatusConditionType */
  function Search(conditions: seq<Condition>, kind: Kind): (k: int)
    ensures -1 <= k < |conditions|
    ensures k >= 0 ==> conditions[k].kind == kind
    ensures forall j :: 0 <= j < (if k < 0 then |conditions| else k) ==> conditions[j].kind != kind
  {
    if conditions == [] then -1
    else if conditions[0].kind == kind then 0
    else
      var k := Search(conditions[1..], kind);
      if k < 0 then -1 else k + 1
  }

  function Update(conditions: seq<Condition>, now: int, kind: Kind, isTrue: bool): seq<Condition> {
    var k := Search(conditions, kind);
    if k >= 0 then
      var c := conditions[k];
      conditions[k := Condition(kind, isTrue, now, if c.isTrue != isTrue then now else c.lastTransitionTime)]
    else if isTrue then conditions + [Condition(kind, true, now, now)]
    else conditions
  }

  /** One call of updateDaemonSetJobStatusConditions. */
  datatype Call = Call(now: int, completed: bool, failed: bool)

  function UpdateAll(s: State, c: Call): State {
    State(
      Update(Update(s.conditions, c.now, Complete, c.completed), c.now, Failed, c.failed),
      if !c.completed then None else if s.completionTime.None? then Some(c.now) else s.completionTime)
  }

  function After(history: seq<Call>): State {
    if history == [] then EMPTY
    else UpdateAll(After(history[..|history| - 1]), history[|history| - 1])
  }

  // --------------------------------------------------------- the meaning of it

  function Flag(c: Call, kind: Kind): bool {
    if kind == Complete then c.completed else c.failed
  }

  predicate EverTrue(history: seq<Call>, kind: Kind) {
    exists k :: 0 <= k < |history| && Flag(history[k], kind)
  }

  /** Where the last run of equal flags begins. */
  function RunStart(history: seq<Call>, kind: Kind): (r: nat)
    requires history != []
    ensures r < |history|
    ensures forall k :: r <= k < |history| ==> Flag(history[k], kind) == Flag(history[|history| - 1], kind)
    ensures r > 0 ==> Flag(history[r - 1], kind) != Flag(history[r], kind)
  {
    var last := |history| - 1;
    if last == 0 || Flag(history[last], kind) != Flag(history[last - 1], kind) then last
    else RunStart(history[..last], kind)
  }

  ghost predicate OnePerKind(conditions: seq<Condition>) {
    forall i, j :: 0 <= i < j < |conditions| ==> conditions[i].kind != conditions[j].kind
  }

  /** The condition of a kind that a history of calls describes. */
  function Told(history: seq<Call>, kind: Kind): Option<Condition> {
    if !EverTrue(history, kind) then None
    else
      var last := history[|history| - 1];
      Some(Condition(kind, Flag(last, kind), last.now, history[RunStart(history, kind)].now))
  }

  function Lookup(conditions: seq<Condition>, kind: Kind): Option<Condition> {
    var k := Search(conditions, kind);
    if k < 0 then None else Some(conditions[k])
  }

  function Next(c: Option<Condition>, kind: Kind, now: int, isTrue: bool): Option<Condition> {
    if c.Some? then
      Some(Condition(kind, isTrue, now, if c.value.isTrue != isTrue then now else c.value.lastTransitionTime))
    else if isTrue then Some(Condition(kind, true, now, now))
    else None
  }

  lemma SearchIs(conditions: seq<Condition>, kind: Kind, k: int)
    requires -1 <= k < |conditions| && (k >= 0 ==> conditions[k].kind == kind)
    requires forall j :: 0 <= j < (if k < 0 then |conditions| else k) ==> conditions[j].kind != kind
    ensures Search(conditions, kind) == k
  {
  }

  /** An update moves the condition of its kind on, and leaves the other alone. */
  lemma UpdateOne(conditions: seq<Condition>, now: int, kind: Kind, isTrue: bool, other: Kind)
    ensures Lookup(Update(conditions, now, kind, isTrue), other)
            == if other == kind then Next(Lookup(conditions, kind), kind, now, isTrue) else Lookup(conditions, other)
  {
    var u := Update(conditions, now, kind, isTrue);
    if other == kind && Search(conditions, kind) < 0 && isTrue {
      SearchIs(u, other, |conditions|);
    } else {
      SearchIs(u, other, Search(conditions, other));
    }
  }

  lemma UpdateKeepsOnePerKind(conditions: seq<Condition>, now: int, kind: Kind, isTrue: bool)
    requires OnePerKind(conditions)
    ensures OnePerKind(Update(conditions, now, kind, isTrue))
  {
  }

  lemma ToldNext(history: seq<Call>, call: Call, kind: Kind)
    ensures Told(history + [call], kind) == Next(Told(history, kind), kind, call.now, Flag(call, kind))
  {
    var longer := history + [call];
    assert longer[..|history|] == history && longer[|history|] == call;
    if EverTrue(history, kind) {
      var k :| 0 <= k < |history| && Flag(history[k], kind);
      assert Flag(longer[k], kind);
    }
    if EverTrue(longer, kind) && !Flag(call, kind) {
      var k :| 0 <= k < |longer| && Flag(longer[k], kind);
      assert Flag(history[k], kind);
    }
    assert Flag(call, kind) ==> EverTrue(longer, kind);
    if history != [] && Flag(history[|history| - 1], kind) {
      assert EverTrue(history, kind);
    }
    if !EverTrue(history, kind) && Flag(call, kind) {
      assert RunStart(longer, kind) == |history|;
    }
  }

  /** After any history: each kind stands at most once, absent iff its flag was
      never true, otherwise with the latest flag and probe time and the start of
      the current run of flags; the completion time is set iff the latest call
      said completed, and is then Complete's transition time. */
  lemma {:induction false} HistoryTells(history: seq<Call>)
    ensures OnePerKind(After(history).conditions)
    ensures forall kind :: Lookup(After(history).conditions, kind) == Told(history, kind)
    ensures After(history).completionTime
            == if history != [] && history[|history| - 1].completed
               then Some(history[RunStart(history, Complete)].now) else None
  {
    hide Update, Search, Next, Told;
    if history == [] {
      assert Lookup([], Complete) == None && Lookup([], Failed) == None by {
        NothingLooked();
      }
      NothingTold();
    } else {
      var before, call := history[..|history| - 1], history[|history| - 1];
      HistoryTells(before);
      assert before + [call] == history;
      var s := After(before);
      var c1 := Update(s.conditions, call.now, Complete, call.completed);
      UpdateKeepsOnePerKind(s.conditions, call.now, Complete, call.completed);
      UpdateKeepsOnePerKind(c1, call.now, Failed, call.failed);
      forall kind: Kind ensures Lookup(After(history).conditions, kind) == Told(history, kind) {
        UpdateOne(s.conditions, call.now, Complete, call.completed, kind);
        UpdateOne(c1, call.now, Failed, call.failed, kind);
        ToldNext(before, call, kind);
      }
    }
  }

  lemma NothingLooked()
    ensures forall kind :: Lookup([], kind) == None
  {
  }

  lemma NothingTold()
    ensures forall kind :: Told([], kind) == None
  {
  }

  // ---------------------------------------------------------------- the methods

  /** The status of a DaemonSetJob, written in place. */
  class DaemonSetJobStatus {
    var conditions: seq<Condition>
    var completionTime: Option<int>
    var active: int
    var succeeded: int
    var failed: int

    ghost function Value(): State
      reads this
    {
      State(conditions, completionTime)
    }

    constructor ()
      ensures Value() == EMPTY && active == succeeded == failed == 0
    {
      conditions, completionTime := [], None;
      active, succeeded, failed := 0, 0, 0;
    }

    method SearchCondition(kind: Kind) returns (k: int)
      ensures k == Search(conditions, kind)
    {
      k := -1;
      for i := 0 to |conditions|
        invariant k == -1
        invariant forall j :: 0 <= j < i ==> conditions[j].kind != kind
      {
        if conditions[i].kind == kind {
          k := i;
          break;
        }
      }
    }

    method UpdateCondition(now: int, kind: Kind, isTrue: bool)
      modifies this`conditions
      ensures conditions == Update(old(conditions), now, kind, isTrue)
    {
      var k := SearchCondition(kind);
      if k >= 0 {
        if conditions[k].isTrue != isTrue {
          conditions := conditions[k := conditions[k].(lastTransitionTime := now)];
          conditions := conditions[k := conditions[k].(isTrue := isTrue)];
        }
        conditions := conditions[k := conditions[k].(lastProbeTime := now)];
      } else if isTrue {
        conditions := conditions + [Condition(kind, true, now, now)];
      }
    }

    method UpdateConditions(now: int, completed: bool, failed: bool)
      modifies this`conditions, this`completionTime
      ensures Value() == UpdateAll(old(Value()), Call(now, completed, failed))
    {
      if completed {
        UpdateCondition(now, Complete, true);
        if completionTime.None? {
          completionTime := Some(now);
        }
      } else {
        UpdateCondition(now, Complete, false);
        completionTime := None;
      }
      if failed {
        UpdateCondition(now, Failed, true);
      } else {
        UpdateCondition(now, Failed, false);
      }
    }
  }
}
