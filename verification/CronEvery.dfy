/** Schedules of the form "@every d", whose Next counts from the time it is asked for
    (vendor/github.com/robfig/cron/constantdelay.go). */
module CronEvery {
  import opened Prelude
  import opened CronSchedule
  import opened CronWorkflowController
  import opened CronRun

  /** The whole second of t. */
  function Second(t: int): (u: int)
    ensures u % SECOND == 0 && u <= t < u + SECOND
  {
    t - t % SECOND
  }

  /** Every: whole seconds, and at least one. */
  function Delay(duration: int): (d: int)
    ensures d % SECOND == 0 && d >= SECOND
    ensures if duration < SECOND then d == SECOND else d <= duration < d + SECOND
  {
    Second(if duration < SECOND then SECOND else duration)
  }

  /** Next of a constant delay. */
  function EveryNext(duration: int): int -> int {
    t => t + (Delay(duration) - t % SECOND)
  }

  // ------------------------------------------------------------------- multiples

  function Multiple(k: int, d: int): int {
    k * d
  }

  lemma OneMore(k: int, d: int)
    ensures Multiple(k + 1, d) == Multiple(k, d) + d
    ensures Multiple(0, d) == 0
  {
  }

  /** Two multiples of d are at least d apart. */
  lemma {:induction false} Apart(k: int, l: int, d: int)
    requires d > 0 && k < l
    ensures Multiple(l, d) >= Multiple(k, d) + d
    decreases l - k
  {
    hide Multiple;
    OneMore(l - 1, d);
    if k < l - 1 {
      Apart(k, l - 1, d);
    }
  }

  lemma MultipleIsWhole(k: int, duration: int)
    ensures Multiple(k, Delay(duration)) % SECOND == 0
  {
    var j := Delay(duration) / SECOND;
    assert Multiple(k, Delay(duration)) == (k * j) * SECOND;
  }

  // ------------------------------------------------------ without a starting deadline

  ghost predicate IsMultiple(x: int, d: int) {
    exists k :: x == Multiple(k, d)
  }

  /** The second of the earliest time, plus one delay, plus another ... */
  ghost function EveryDue(duration: int, since: int): int -> bool {
    t => t > since && IsMultiple(t - Second(since), Delay(duration))
  }

  function EveryHorizon(duration: int): int -> int {
    t => t + Delay(duration)
  }

  /** There is a multiple within any d. */
  lemma NextMultiple(x: int, d: int) returns (y: int)
    requires d > 0 && 0 <= x
    ensures x < y <= x + d && IsMultiple(y, d)
  {
    y := Multiple(x / d + 1, d);
    OneMore(x / d, d);
    assert Multiple(x / d, d) == x - x % d;
  }

  /** Without a starting deadline this is a schedule like the others, due at fixed
      times, that never gives up. */
  lemma EveryIsSchedule(cw: CronWorkflow, duration: int)
    requires cw.startingDeadlineSeconds.None?
    ensures Schedule(cw, EveryNext(duration), EveryDue(duration, Since(cw)), EveryHorizon(duration))
    ensures forall lo, hi :: Since(cw) <= lo ==> !GivesUp(EveryDue(duration, Since(cw)), EveryHorizon(duration), lo, hi)
  {
    hide IsMultiple, Second, Delay;
    var since, d, due, horizon := Since(cw), Delay(duration), EveryDue(duration, Since(cw)), EveryHorizon(duration);
    forall t | since <= t ensures !NothingAhead(due, horizon, t) {
      var y := NextMultiple(t - Second(since), d);
      assert due(Second(since) + y);
    }
    forall t | due(t) ensures t % SECOND == 0 {
      DueIsWhole(duration, since, t);
    }
    forall t | Searched(cw, due, t) ensures FirstDue(due, t, EveryNext(duration)(t)) {
      assert t == since || due(t);
      NextIsDue(duration, since, t);
    }
  }

  lemma DueIsWhole(duration: int, since: int, t: int)
    requires EveryDue(duration, since)(t)
    ensures t % SECOND == 0
  {
    hide Multiple, Delay;
    assert IsMultiple(t - Second(since), Delay(duration));
    var k :| t - Second(since) == Multiple(k, Delay(duration));
    MultipleIsWhole(k, duration);
  }

  lemma NextIsDue(duration: int, since: int, t: int)
    requires t == since || EveryDue(duration, since)(t)
    ensures FirstDue(EveryDue(duration, since), t, EveryNext(duration)(t))
  {
    hide Multiple, Second, Delay;
    var d, origin, due, next := Delay(duration), Second(since), EveryDue(duration, since), EveryNext(duration)(t);
    var k := 0;
    OneMore(0, d);
    if t != since {
      assert IsMultiple(t - origin, d);
      k :| t - origin == Multiple(k, d);
      DueIsWhole(duration, since, t);
    }
    SecondIs(t);
    SecondIs(since);
    assert next - origin == Multiple(k, d) + d;
    OneMore(k, d);
    assert next - origin == Multiple(k + 1, d) && IsMultiple(next - origin, d);
    forall u | t < u < next ensures !due(u) {
      if due(u) {
        assert IsMultiple(u - origin, d);
        var l :| u - origin == Multiple(l, d);
        if k < l {
          Apart(k, l, d);
        } else if l < k {
          Apart(l, k, d);
        }
      }
    }
  }

  lemma SecondIs(t: int)
    ensures Second(t) == t - t % SECOND
  {
  }

  // --------------------------------------------------------- with a starting deadline

  lemma {:induction false} TimesOnGrid(duration: int, t: int, now: int, n: nat, left: nat)
    requires t % SECOND == 0 && n <= MAX_MISSED
    requires t + Multiple(left, Delay(duration)) > now
    requires left > 0 ==> t + Multiple(left - 1, Delay(duration)) <= now
    ensures TimesFrom(EveryNext(duration), t, now, n)
            == if n + left > MAX_MISSED then TooMany else Times(seq(left, k => t + Multiple(k, Delay(duration))))
    decreases left
  {
    hide Multiple, Delay;
    var d := Delay(duration);
    OneMore(0, d);
    if left > 0 {
      OneMore(left - 1, d);
      OneMore(left - 2, d);
      NotNegative(left - 1, d);
      if n < MAX_MISSED {
        TimesOnGrid(duration, t + d, now, n + 1, left - 1);
        if n + left <= MAX_MISSED {
          var rest, all := seq(left - 1, k => t + d + Multiple(k, d)), seq(left, k => t + Multiple(k, d));
          forall k | 1 <= k < left ensures all[k] == rest[k - 1] {
            OneMore(k - 1, d);
          }
          assert all == [t] + rest;
        }
      }
    }
  }

  lemma NotNegative(k: nat, d: nat)
    ensures Multiple(k, d) >= 0
  {
  }

  /** A starting deadline that counts: it is kept exactly, and is later than the last
      schedule time or the creation. */
  predicate DeadlineCounts(cw: CronWorkflow, now: int) {
    && cw.startingDeadlineSeconds.Some? && 0 <= cw.startingDeadlineSeconds.value <= MAX_EXACT_SECONDS
    && Since(cw) < now - SECOND * cw.startingDeadlineSeconds.value
  }

  /** How many delays there are in the starting deadline. */
  function DelaysWithin(cw: CronWorkflow, duration: int): nat
    requires cw.startingDeadlineSeconds.Some? && 0 <= cw.startingDeadlineSeconds.value
  {
    SECOND * cw.startingDeadlineSeconds.value / Delay(duration)
  }

  /** ... and what is left of it. */
  function Lag(cw: CronWorkflow, duration: int): int
    requires cw.startingDeadlineSeconds.Some?
  {
    SECOND * cw.startingDeadlineSeconds.value % Delay(duration)
  }

  /** What the loop finds then: nothing, if the delay is longer than the starting
      deadline; too much, if the deadline holds more than 100 delays; else as many
      times as it holds, the latest at a fixed lag behind the clock. */
  lemma EveryWithDeadline(cw: CronWorkflow, duration: int, now: int)
    requires cw.parses && DeadlineCounts(cw, now)
    ensures var n, r := DelaysWithin(cw, duration), RecentUnmet(cw, now, EveryNext(duration));
      && (n > MAX_MISSED ==> r == TooMany)
      && (n <= MAX_MISSED ==> r.Times? && |r.times| == n)
      && (1 <= n <= MAX_MISSED ==> r.times[n - 1] == Second(now) - Lag(cw, duration))
  {
    hide Multiple, Delay, TimesFrom, RecentUnmet, DelaysWithin, Lag, Second;
    var d, n: int := Delay(duration), DelaysWithin(cw, duration);
    var t := Second(now) - SECOND * cw.startingDeadlineSeconds.value + d;
    SearchBegins(cw, duration, now);
    DeadlineIs(cw, duration);
    OneMore(n - 1, d);
    TimesOnGrid(duration, t, now, 0, n);
  }

  lemma SearchBegins(cw: CronWorkflow, duration: int, now: int)
    requires cw.parses && DeadlineCounts(cw, now)
    ensures RecentUnmet(cw, now, EveryNext(duration))
            == TimesFrom(EveryNext(duration),
                         Second(now) - SECOND * cw.startingDeadlineSeconds.value + Delay(duration), now, 0)
  {
    hide TimesFrom, Delay;
    var reach := SECOND * cw.startingDeadlineSeconds.value;
    StartingDeadlineExactIff(cw, cw.startingDeadlineSeconds.value);
    assert EarliestTime(cw, now) == Max(Since(cw), now - reach) == now - reach;
    assert (now - reach) % SECOND == now % SECOND;
    SecondIs(now);
  }

  lemma DeadlineIs(cw: CronWorkflow, duration: int)
    requires cw.startingDeadlineSeconds.Some? && 0 <= cw.startingDeadlineSeconds.value
    ensures SECOND * cw.startingDeadlineSeconds.value
            == Multiple(DelaysWithin(cw, duration), Delay(duration)) + Lag(cw, duration)
    ensures 0 <= Lag(cw, duration) <= Delay(duration) - SECOND && Lag(cw, duration) % SECOND == 0
  {
    LagIsWhole(SECOND * cw.startingDeadlineSeconds.value, Delay(duration));
  }

  /** What is left over is whole seconds, so the seconds of the clock do not matter. */
  lemma LagIsWhole(reach: int, d: int)
    requires reach % SECOND == 0 && d % SECOND == 0 && d > 0
    ensures (reach % d) % SECOND == 0 && reach % d <= d - SECOND
  {
    var k := d / SECOND;
    assert reach % d == reach - reach / d * d;
    assert reach / d * d == (reach / d * k) * SECOND;
    assert reach % d == (reach / SECOND - reach / d * k) * SECOND;
  }

  /** When a sync is up to create a workflow at all. */
  predicate Enabled(cw: CronWorkflow) {
    cw.parses && !cw.deleting && cw.suspend != Some(true)
  }

  /** The schedule times found move with the clock: two syncs create workflows of the
      same name if and only if they run in the same second. */
  lemma SameNameIff(cw: CronWorkflow, duration: int, now: int, now': int)
    requires cw.parses && DeadlineCounts(cw, now) && DeadlineCounts(cw, now')
    requires 1 <= DelaysWithin(cw, duration) <= MAX_MISSED
    ensures var r, r' := RecentUnmet(cw, now, EveryNext(duration)), RecentUnmet(cw, now', EveryNext(duration));
      && r.Times? && r.times != [] && r'.Times? && r'.times != []
      && (WorkflowName(cw.name, r.times[|r.times| - 1]) == WorkflowName(cw.name, r'.times[|r'.times| - 1])
          <==> Second(now) == Second(now'))
  {
    hide RecentUnmet, DelaysWithin, WorkflowName, EveryNext;
    EveryWithDeadline(cw, duration, now);
    EveryWithDeadline(cw, duration, now');
    var t, t' := Second(now) - Lag(cw, duration), Second(now') - Lag(cw, duration);
    NamesAgreeIff(cw.name, t, cw.name, t');
    assert |cw.name| != |cw.name + "-"|;
    WholeLag(cw, duration);
  }

  lemma WholeLag(cw: CronWorkflow, duration: int)
    requires cw.startingDeadlineSeconds.Some?
    ensures Lag(cw, duration) % SECOND == 0
  {
    LagIsWhole(SECOND * cw.startingDeadlineSeconds.value, Delay(duration));
  }

  /** n times: a sync, and a second later. */
  function Seconds(n: nat): seq<Action> {
    if n == 0 then [] else Seconds(n - 1) + [Sync(false, false, ""), Tick(SECOND)]
  }

  /** No workflow has the name of a time that is still to come. */
  ghost predicate NoneAhead(s: World, cw: CronWorkflow, lag: int) {
    forall t :: t >= Second(s.clock) - lag ==> WorkflowName(cw.name, t) !in NamesOf(s.workflows)
  }

  /** So such a CronWorkflow gets a workflow in every second in which it is synced,
      however long its delay is. */
  lemma {:induction false} OneEverySecond(s: World, cw: CronWorkflow, duration: int, n: nat)
    requires Enabled(cw) && DeadlineCounts(cw, s.clock) && 1 <= DelaysWithin(cw, duration) <= MAX_MISSED
    requires NoneAhead(s, cw, Lag(cw, duration))
    ensures var s' := Run(s, cw, EveryNext(duration), Seconds(n));
      && |s'.workflows| == |s.workflows| + n && s'.clock == s.clock + n * SECOND
      && NoneAhead(s', cw, Lag(cw, duration))
  {
    hide Apply, NoneAhead, DelaysWithin, Lag, EveryNext;
    if n > 0 {
      var next, most, sync := EveryNext(duration), Seconds(n - 1), Sync(false, false, "");
      OneEverySecond(s, cw, duration, n - 1);
      var s1 := Run(s, cw, next, most);
      assert (most + [sync])[..|most|] == most;
      assert Seconds(n) == (most + [sync]) + [Tick(SECOND)];
      assert Seconds(n)[..|Seconds(n)| - 1] == most + [sync];
      assert Run(s, cw, next, Seconds(n)) == Apply(Apply(s1, cw, next, sync), cw, next, Tick(SECOND));
      SyncAndSecond(s1, cw, duration);
    }
  }

  lemma SyncAndSecond(s: World, cw: CronWorkflow, duration: int)
    requires Enabled(cw) && DeadlineCounts(cw, s.clock) && 1 <= DelaysWithin(cw, duration) <= MAX_MISSED
    requires NoneAhead(s, cw, Lag(cw, duration))
    ensures var next := EveryNext(duration);
      var s' := Apply(Apply(s, cw, next, Sync(false, false, "")), cw, next, Tick(SECOND));
      && |s'.workflows| == |s.workflows| + 1 && s'.clock == s.clock + SECOND
      && NoneAhead(s', cw, Lag(cw, duration))
  {
    hide RecentUnmet, DelaysWithin, WorkflowName, EveryNext, Lag, NamesOf, Pruned, ChildrenOf, InferWorkflow;
    var next, t := EveryNext(duration), Second(s.clock) - Lag(cw, duration);
    EveryWithDeadline(cw, duration, s.clock);
    WholeLag(cw, duration);
    assert Creates(cw, s.clock, next, NamesOf(s.workflows), false, false) == Some(t);
    var w := InferWorkflow(cw, t, "");
    NamesGrow(s.workflows, w);
    assert w.name == WorkflowName(cw.name, t) by {
      InferredName(cw, t, "");
    }
    forall u | u >= t + SECOND ensures WorkflowName(cw.name, u) !in NamesOf(s.workflows + [w]) {
      NamesAgreeIff(cw.name, u, cw.name, t);
      assert |cw.name| != |cw.name + "-"|;
    }
  }

  lemma InferredName(cw: CronWorkflow, t: int, newUid: string)
    ensures InferWorkflow(cw, t, newUid).name == WorkflowName(cw.name, t)
  {
  }
}
