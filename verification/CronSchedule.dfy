/** getRecentUnmetScheduleTimes of pkg/controller/cronworkflow_util.go, over an
    abstract schedule: next is the Next of the parsed schedule. */
module CronSchedule {
  import opened Prelude
  import opened WorkflowTypes

  /** The zero time.Time, midnight of the first of January of the year 1. */
  const ZERO_TIME: int := -62_135_596_800 * SECOND

  const MAX_MISSED := 100

  /** The fields template* are those of the workflow template. */
  datatype CronWorkflow = CronWorkflow(
    name: string,
    uid: string,
    templateLabels: Labels,
    templateAnnotations: Labels,
    templateSpec: Spec,
    creation: int,
    lastScheduleTime: Option<int>,
    startingDeadlineSeconds: Option<int>,
    suspend: Option<bool>,
    deleting: bool,
    parses: bool)

  datatype Unmet = Times(times: seq<int>) | TooMany | Unparsable

  /** The point in time after which schedule times are looked for. */
  function EarliestTime(cw: CronWorkflow, now: int): int {
    var e := if cw.lastScheduleTime.Some? then cw.lastScheduleTime.value else cw.creation;
    if cw.startingDeadlineSeconds.None? then e
    else
      var schedulingDeadline := now + Wrap64(-SECOND * cw.startingDeadlineSeconds.value);
      if schedulingDeadline > e then schedulingDeadline else e
  }

  /** The loop from t on, with n times already found. */
  function TimesFrom(next: int -> int, t: int, now: int, n: nat): Unmet
    requires n <= MAX_MISSED
    decreases MAX_MISSED - n
  {
    if t > now then Times([])
    else if n == MAX_MISSED then TooMany
    else
      match TimesFrom(next, next(t), now, n + 1)
      case Times(ts) => Times([t] + ts)
      case other => other
  }

  function RecentUnmet(cw: CronWorkflow, now: int, next: int -> int): Unmet {
    var e := EarliestTime(cw, now);
    if !cw.parses then Unparsable
    else if e > now then Times([])
    else TimesFrom(next, next(e), now, 0)
  }

  /** The loop of getRecentUnmetScheduleTimes, from its first candidate. */
  method CollectTimes(next: int -> int, first: int, now: int) returns (r: Unmet)
    ensures r == TimesFrom(next, first, now, 0)
  {
    var times, t := [], first;
    PrependNone(TimesFrom(next, first, now, 0));
    while t <= now
      invariant |times| <= MAX_MISSED
      invariant TimesFrom(next, first, now, 0) == Prepend(times, TimesFrom(next, t, now, |times|))
      decreases MAX_MISSED - |times|
    {
      ghost var before := times;
      times := times + [t];
      if |times| > MAX_MISSED {
        return TooMany;
      }
      PrependOne(before, t, TimesFrom(next, next(t), now, |times|));
      t := next(t);
    }
    assert times + [] == times;
    r := Times(times);
  }

  method GetRecentUnmetScheduleTimes(cw: CronWorkflow, now: int, next: int -> int) returns (r: Unmet)
    ensures r == RecentUnmet(cw, now, next)
  {
    hide TimesFrom, Wrap64;
    if !cw.parses {
      return Unparsable;
    }
    var earliestTime := cw.creation;
    if cw.lastScheduleTime.Some? {
      earliestTime := cw.lastScheduleTime.value;
    }
    if cw.startingDeadlineSeconds.Some? {
      var schedulingDeadline := now + Wrap64(-SECOND * cw.startingDeadlineSeconds.value);
      if schedulingDeadline > earliestTime {
        earliestTime := schedulingDeadline;
      }
    }
    if earliestTime > now {
      return Times([]);
    }
    r := CollectTimes(next, next(earliestTime), now);
  }

  function Prepend(ts: seq<int>, u: Unmet): Unmet {
    if u.Times? then Times(ts + u.times) else u
  }

  lemma PrependNone(u: Unmet)
    ensures Prepend([], u) == u
  {
    if u.Times? {
      assert [] + u.times == u.times;
    }
  }

  lemma PrependOne(ts: seq<int>, t: int, u: Unmet)
    ensures Prepend(ts + [t], u) == Prepend(ts, Prepend([t], u))
  {
    if u.Times? {
      assert ts + [t] + u.times == ts + ([t] + u.times);
    }
  }

  // ------------------------------------------------------ what the times mean

  ghost predicate Ascending(s: seq<int>) {
    forall i, j :: 0 <= i < j < |s| ==> s[i] < s[j]
  }

  /** t is the first due time after lo. */
  ghost predicate FirstDue(due: int -> bool, lo: int, t: int) {
    lo < t && due(t) && forall u :: lo < u < t ==> !due(u)
  }

  /** Nothing is due after t within the horizon of the search. */
  ghost predicate NothingAhead(due: int -> bool, horizon: int -> int, t: int) {
    forall u :: t < u <= horizon(t) ==> !due(u)
  }

  /** What a search begins with, or goes on with: an earliest time, or a due one. */
  ghost predicate Searched(cw: CronWorkflow, due: int -> bool, t: int) {
    due(t) || exists now :: t == EarliestTime(cw, now)
  }

  /** ... or the zero time, once a search has been given up. */
  ghost predicate Asked(cw: CronWorkflow, due: int -> bool, horizon: int -> int, t: int) {
    Searched(cw, due, t)
    || (t == ZERO_TIME && exists u :: Searched(cw, due, u) && NothingAhead(due, horizon, u))
  }

  /** Next at the times that it is asked for: the first due time after t, or the zero
      time if there is none up to a horizon that moves on with t. A calendar schedule
      has this at all times; its horizon is the end of the fifth year after t. */
  ghost predicate NextOf(cw: CronWorkflow, next: int -> int, due: int -> bool, horizon: int -> int) {
    && (forall t, u :: t <= u ==> horizon(t) <= horizon(u))
    && forall t :: Asked(cw, due, horizon, t) ==>
      if NothingAhead(due, horizon, t) then next(t) == ZERO_TIME else FirstDue(due, t, next(t))
  }

  /** At some time in the window, Next gives up. */
  ghost predicate GivesUp(due: int -> bool, horizon: int -> int, lo: int, hi: int) {
    exists t :: lo <= t <= hi && NothingAhead(due, horizon, t)
  }

  /** s lists the due times after lo, up to hi. */
  ghost predicate DueBetween(s: seq<int>, due: int -> bool, lo: int, hi: int) {
    Ascending(s) && forall t :: t in s <==> lo < t <= hi && due(t)
  }

  ghost predicate MoreDueThan(n: nat, due: int -> bool, lo: int, hi: int) {
    exists s :: Ascending(s) && |s| == n + 1 && forall i :: 0 <= i < |s| ==> lo < s[i] <= hi && due(s[i])
  }

  lemma NoneDue(due: int -> bool, lo: int, t: int, hi: int)
    requires FirstDue(due, lo, t) && t > hi
    ensures DueBetween([], due, lo, hi)
  {
  }

  lemma PrependDue(s: seq<int>, due: int -> bool, lo: int, t: int, hi: int)
    requires FirstDue(due, lo, t) && t <= hi && DueBetween(s, due, t, hi)
    ensures DueBetween([t] + s, due, lo, hi)
  {
    forall u ensures u in [t] + s <==> lo < u <= hi && due(u) {
      assert u in [t] + s <==> u == t || u in s;
    }
    forall i, j | 0 <= i < j < |[t] + s| ensures ([t] + s)[i] < ([t] + s)[j] {
      assert s[j - 1] in s;
    }
  }

  lemma OneDue(due: int -> bool, lo: int, t: int, hi: int)
    requires FirstDue(due, lo, t) && t <= hi
    ensures MoreDueThan(0, due, lo, hi)
  {
    var s := [t];
    assert |s| == 0 + 1;
    assert Ascending(s) && |s| == 0 + 1 && forall i :: 0 <= i < |s| ==> lo < s[i] <= hi && due(s[i]);
  }

  lemma PrependMore(n: nat, due: int -> bool, lo: int, t: int, hi: int)
    requires FirstDue(due, lo, t) && t <= hi && MoreDueThan(n, due, t, hi)
    ensures MoreDueThan(n + 1, due, lo, hi)
  {
    var s :| Ascending(s) && |s| == n + 1 && forall i :: 0 <= i < |s| ==> t < s[i] <= hi && due(s[i]);
    var longer := [t] + s;
    assert |longer| == n + 1 + 1;
    assert Ascending(longer) && forall i :: 0 <= i < |longer| ==> lo < longer[i] <= hi && due(longer[i]);
  }

  /** While Next does not give up. */
  lemma {:induction false} TimesFromMeans(next: int -> int, due: int -> bool, lo: int, now: int, n: nat)
    requires lo <= now && n <= MAX_MISSED && FirstDue(due, lo, next(lo))
    requires forall t :: lo < t <= now && due(t) ==> FirstDue(due, t, next(t))
    ensures var r := TimesFrom(next, next(lo), now, n);
      && (r.Times? ==> DueBetween(r.times, due, lo, now) && |r.times| <= MAX_MISSED - n)
      && (r.TooMany? ==> MoreDueThan(MAX_MISSED - n, due, lo, now))
      && !r.Unparsable?
    decreases MAX_MISSED - n
  {
    hide DueBetween, MoreDueThan;
    var t := next(lo);
    assert FirstDue(due, lo, t);
    if t > now {
      NoneDue(due, lo, t, now);
    } else if n == MAX_MISSED {
      OneDue(due, lo, t, now);
    } else {
      TimesFromMeans(next, due, t, now, n + 1);
      match TimesFrom(next, next(t), now, n + 1) {
        case Times(ts) => PrependDue(ts, due, lo, t, now);
        case TooMany => PrependMore(MAX_MISSED - n - 1, due, lo, t, now);
      }
    }
  }

  /** Where Next gives up, no step leads past. */
  lemma StaysBelow(cw: CronWorkflow, next: int -> int, due: int -> bool, horizon: int -> int, t: int, u: int)
    requires NextOf(cw, next, due, horizon) && NothingAhead(due, horizon, t) && ZERO_TIME <= t
    requires u <= t && Asked(cw, due, horizon, u)
    ensures next(u) <= t && Asked(cw, due, horizon, next(u))
  {
    if !NothingAhead(due, horizon, u) {
      var d :| u < d <= horizon(u) && due(d);
      assert next(u) <= d <= horizon(u) <= horizon(t);
    }
  }

  /** ... so the loop starts again from the year 1, until it has found too many. */
  lemma {:induction false} GivingUpIsTooMany(
    cw: CronWorkflow, next: int -> int, due: int -> bool, horizon: int -> int, t: int, u: int, now: int, n: nat)
    requires NextOf(cw, next, due, horizon) && NothingAhead(due, horizon, t) && ZERO_TIME <= t
    requires u <= t <= now && n <= MAX_MISSED && Asked(cw, due, horizon, u)
    ensures TimesFrom(next, u, now, n) == TooMany
    decreases MAX_MISSED - n
  {
    hide NextOf, NothingAhead, Asked;
    if n < MAX_MISSED {
      StaysBelow(cw, next, due, horizon, t, u);
      GivingUpIsTooMany(cw, next, due, horizon, t, next(u), now, n + 1);
    }
  }

  /** The due times cannot be both listed in a short list and more than it holds. */
  lemma ListedAreNotMore(s: seq<int>, n: nat, due: int -> bool, lo: int, hi: int)
    requires DueBetween(s, due, lo, hi) && |s| <= n
    ensures !MoreDueThan(n, due, lo, hi)
  {
    if MoreDueThan(n, due, lo, hi) {
      var m :| Ascending(m) && |m| == n + 1 && forall i :: 0 <= i < |m| ==> lo < m[i] <= hi && due(m[i]);
      FitsInList(m, s);
      assert false;
    }
  }

  lemma FitsInList(m: seq<int>, s: seq<int>)
    requires Ascending(m) && forall i :: 0 <= i < |m| ==> m[i] in s
    ensures |m| <= |s|
  {
    NoDupCardinality(m);
    ElementsBound(s);
    SubsetCardinality(Elements(m), Elements(s));
  }

  /** All and only the due times after the earliest time and up to now, in ascending
      order; or an error, exactly when there are more than 100 of them, or Next gives up at
      some time in the window. */
  lemma UnmetMeans(cw: CronWorkflow, now: int, next: int -> int, due: int -> bool, horizon: int -> int)
    requires NextOf(cw, next, due, horizon) && cw.parses && ZERO_TIME <= EarliestTime(cw, now)
    ensures var r, lo := RecentUnmet(cw, now, next), EarliestTime(cw, now);
      && !r.Unparsable?
      && (r.Times? ==> DueBetween(r.times, due, lo, now) && |r.times| <= 100)
      && (r.TooMany? <==> MoreDueThan(100, due, lo, now) || GivesUp(due, horizon, lo, now))
  {
    hide TimesFrom, Wrap64, MoreDueThan, FirstDue, NothingAhead, NextOf, Asked, EarliestTime;
    var r, lo := RecentUnmet(cw, now, next), EarliestTime(cw, now);
    SearchedIsAsked(cw, due, horizon, now);
    if GivesUp(due, horizon, lo, now) {
      var t :| lo <= t <= now && NothingAhead(due, horizon, t);
      StaysBelow(cw, next, due, horizon, t, lo);
      GivingUpIsTooMany(cw, next, due, horizon, t, next(lo), now, 0);
    } else if lo <= now {
      NextIsFirst(cw, next, due, horizon, lo);
      forall t | lo < t <= now && due(t) ensures FirstDue(due, t, next(t)) {
        NextIsFirst(cw, next, due, horizon, t);
      }
      TimesFromMeans(next, due, lo, now, 0);
    }
    if r.Times? {
      ListedAreNotMore(r.times, MAX_MISSED, due, lo, now);
    }
  }

  lemma SearchedIsAsked(cw: CronWorkflow, due: int -> bool, horizon: int -> int, now: int)
    ensures Asked(cw, due, horizon, EarliestTime(cw, now)) && forall t :: due(t) ==> Asked(cw, due, horizon, t)
  {
    hide EarliestTime, NothingAhead;
  }

  lemma NextIsFirst(cw: CronWorkflow, next: int -> int, due: int -> bool, horizon: int -> int, t: int)
    requires NextOf(cw, next, due, horizon) && Asked(cw, due, horizon, t) && !NothingAhead(due, horizon, t)
    ensures FirstDue(due, t, next(t))
  {
  }

  /** A schedule that is never due, like the 30th of February, is not a quiet one:
      every sync from the creation on finds "too many" missed times. */
  lemma NeverDueIsTooMany(cw: CronWorkflow, now: int, next: int -> int, due: int -> bool, horizon: int -> int)
    requires NextOf(cw, next, due, horizon) && cw.parses && ZERO_TIME <= EarliestTime(cw, now) <= now
    requires forall t :: !due(t)
    ensures RecentUnmet(cw, now, next) == TooMany
  {
    UnmetMeans(cw, now, next, due, horizon);
    assert NothingAhead(due, horizon, now);
  }

  /** The last schedule time or the creation. */
  function Since(cw: CronWorkflow): int {
    if cw.lastScheduleTime.Some? then cw.lastScheduleTime.value else cw.creation
  }

  function Max(a: int, b: int): int {
    if a > b then a else b
  }

  /** At all times the earliest time is the starting deadline before now, or that of
      the last schedule if it is later, if and only if the deadline is at most
      9223372036 seconds either way. */
  lemma StartingDeadlineExactIff(cw: CronWorkflow, deadline: int)
    requires cw.startingDeadlineSeconds == Some(deadline) && MIN_INT64 <= deadline <= MAX_INT64
    ensures (forall now :: EarliestTime(cw, now) == Max(Since(cw), now - SECOND * deadline))
            <==> -MAX_EXACT_SECONDS <= deadline <= MAX_EXACT_SECONDS
  {
    var moved := Wrap64(-SECOND * deadline);
    assert moved == -SECOND * deadline <==> -MAX_EXACT_SECONDS <= deadline <= MAX_EXACT_SECONDS;
    if moved != -SECOND * deadline {
      var now := Max(Since(cw) - moved, Since(cw) + SECOND * deadline) + 1;
      assert EarliestTime(cw, now) == now + moved != Max(Since(cw), now - SECOND * deadline);
    }
  }

  /** One second more, and the earliest time is always in the future: nothing is ever
      found to be due. */
  lemma StartingDeadlineWraps(cw: CronWorkflow, now: int, next: int -> int)
    requires cw.startingDeadlineSeconds == Some(MAX_EXACT_SECONDS + 1) && cw.parses
    ensures EarliestTime(cw, now) > now && RecentUnmet(cw, now, next) == Times([])
  {
    assert Wrap64(-SECOND * (MAX_EXACT_SECONDS + 1)) > 0;
  }
}
