/** The application state: running a check, recording it, and the scheduler
    jobs that start one. Times are microseconds. */
module Monitor {
  import opened Text
  import opened Products
  import opened SaleChecks

  // ------------------------------------------------------- quiet hours

  const MINUTE := 60_000_000
  const DAY := 1440 * MINUTE

  /** A daily window between two minutes of the day. */
  datatype QuietHours = QuietHours(enabled: bool, start: nat, end: nat)
  {
    predicate Valid() {
      start < 1440 && end < 1440
    }
  }

  /** `_in_quiet_hours` at a time of day. */
  predicate InQuietHours(quiet: QuietHours, timeOfDay: nat) {
    if !quiet.enabled then false
    else if quiet.start <= quiet.end then quiet.start * MINUTE <= timeOfDay < quiet.end * MINUTE
    else timeOfDay >= quiet.start * MINUTE || timeOfDay < quiet.end * MINUTE
  }

  /** Both branches are one test on the clock's circle: the time since the
      window opened is less than the window's length. The window may wrap
      midnight; equal bounds make it empty. */
  lemma QuietHoursOnTheCircle(quiet: QuietHours, timeOfDay: nat)
    requires quiet.Valid() && quiet.enabled && timeOfDay < DAY
    ensures InQuietHours(quiet, timeOfDay)
            <==> (timeOfDay - quiet.start * MINUTE) % DAY < (quiet.end * MINUTE - quiet.start * MINUTE) % DAY
  {
    var start, end := quiet.start * MINUTE, quiet.end * MINUTE;
    assert start < DAY && end < DAY;
    OnTheCircle(timeOfDay - start);
    OnTheCircle(end - start);
  }

  lemma OnTheCircle(x: int)
    requires -DAY < x < DAY
    ensures x % DAY == if x < 0 then x + DAY else x
  {
  }

  // ------------------------------------------------------- recording

  datatype HistoryRow = HistoryRow(scanned: nat, matched: nat, deep: nat, failed: bool)

  datatype Observation = Observation(productId: string, discount: Option<nat>, isDeep: bool, at: int)

  /** `threshold` is in whole percent, a discount in tenths. */
  predicate IsDeepDeal(item: SaleItem, threshold: int) {
    item.hasKnownDiscount && item.discount >= 10 * threshold
  }

  function DeepDeals(items: seq<SaleItem>, threshold: int): nat {
    if items == [] then 0
    else DeepDeals(items[..|items| - 1], threshold) + if IsDeepDeal(items[|items| - 1], threshold) then 1 else 0
  }

  function Observe(items: seq<SaleItem>, threshold: int, at: int): seq<Observation> {
    seq(|items|, i requires 0 <= i < |items| =>
      Observation(items[i].productId, if items[i].hasKnownDiscount then Some(items[i].discount) else None,
                  IsDeepDeal(items[i], threshold), at))
  }

  function DeepObservations(obs: seq<Observation>): nat {
    if obs == [] then 0
    else DeepObservations(obs[..|obs| - 1]) + if obs[|obs| - 1].isDeep then 1 else 0
  }

  function DeepHistory(history: seq<HistoryRow>): nat {
    if history == [] then 0 else DeepHistory(history[..|history| - 1]) + history[|history| - 1].deep
  }

  /** What the check finds, and which of the later steps fail. */
  datatype Attempt = Attempt(
    fetched: Option<seq<SaleItem>>, scanned: nat, now: int,
    saveFails: bool, dispatchFails: bool, observationsFail: bool, historyFails: bool)
  {
    function AsEvent(): Event {
      if fetched.Some? then Check(fetched.value, now, saveFails) else FetchFails
    }
  }

  /** The part of the application state that outlives a check. */
  datatype Books = Books(
    lastCheckAt: Option<int>, history: seq<HistoryRow>, observations: seq<Observation>, sent: seq<seq<SaleItem>>)

  /** What `run_sale_check` leaves behind, given what the check returned. */
  function Recorded(mode: NotifyMode, threshold: int, b: Books, a: Attempt, out: Output): Books {
    var deals := Dispatched(mode, out);
    var dispatched := out.Reported? && deals != [] && !a.dispatchFails;
    Books(
      if out.Reported? then Some(a.now) else b.lastCheckAt,
      if a.historyFails then b.history
      else b.history + [
        if out.Reported?
        then HistoryRow(a.scanned, |out.matching|, DeepDeals(out.matching, threshold), deals != [] && a.dispatchFails)
        else HistoryRow(0, 0, 0, true)],
      if out.Reported? && !a.observationsFail
      then b.observations + Observe(out.matching, threshold, a.now) else b.observations,
      if dispatched then b.sent + [deals] else b.sent)
  }

  // ------------------------------------------------------- the object

  class AppState {
    const checker: SaleChecker
    const deepThreshold: int
    const interval: nat
    const quiet: QuietHours
    var lastCheckAt: Option<int>
    var history: seq<HistoryRow>
    var observations: seq<Observation>
    var sent: seq<seq<SaleItem>>

    constructor (checker: SaleChecker, deepThreshold: int, interval: nat, quiet: QuietHours, books: Books)
      ensures this.checker == checker && this.deepThreshold == deepThreshold
      ensures this.interval == interval && this.quiet == quiet && TheBooks() == books
    {
      this.checker := checker;
      this.deepThreshold := deepThreshold;
      this.interval := interval;
      this.quiet := quiet;
      lastCheckAt, history := books.lastCheckAt, books.history;
      observations, sent := books.observations, books.sent;
    }

    ghost function TheBooks(): Books
      reads this
    {
      Books(lastCheckAt, history, observations, sent)
    }

    ghost predicate Valid() {
      checker.store.low == checker.settings.low
    }

    /** `run_sale_check`; `ok` is false when it raises. */
    method RunSaleCheck(a: Attempt) returns (ok: bool)
      requires Valid()
      modifies this, checker, checker.store
      ensures var step := Step(checker.settings, old(checker.View()), a.AsEvent());
              && checker.View() == step.0
              && TheBooks() == Recorded(checker.settings.mode, deepThreshold, old(TheBooks()), a, step.1)
              && ok == (step.1.Reported? && (Dispatched(checker.settings.mode, step.1) == [] || !a.dispatchFails))
    {
      var out := Raised;
      if a.fetched.Some? {
        out := checker.Check(a.fetched.value, a.now, a.saveFails);
      }
      var failed := !out.Reported?;
      if out.Reported? {
        lastCheckAt := Some(a.now);
        var deals := if checker.settings.mode.EveryCheck? then out.matching else out.newDeals;
        if deals != [] {
          if a.dispatchFails {
            failed := true;
          } else {
            sent := sent + [deals];
          }
        }
      }
      if out.Reported? && !a.observationsFail {
        observations := observations + Observe(out.matching, deepThreshold, a.now);
      }
      if !a.historyFails {
        var row := if out.Reported?
          then HistoryRow(a.scanned, |out.matching|, DeepDeals(out.matching, deepThreshold), failed)
          else HistoryRow(0, 0, 0, failed);
        history := history + [row];
      }
      ok := !failed;
    }

    /** `_interval_job`: quiet hours and a recent check both skip the run. */
    method IntervalJob(a: Attempt, timeOfDay: nat) returns (started: bool)
      requires Valid()
      modifies this, checker, checker.store
      ensures started == MayStart(interval, quiet, old(lastCheckAt), a.now, timeOfDay)
      ensures !started ==> TheBooks() == old(TheBooks()) && checker.View() == old(checker.View())
      ensures started ==>
                var step := Step(checker.settings, old(checker.View()), a.AsEvent());
                && checker.View() == step.0
                && TheBooks() == Recorded(checker.settings.mode, deepThreshold, old(TheBooks()), a, step.1)
    {
      if InQuietHours(quiet, timeOfDay) {
        return false;
      }
      if lastCheckAt.Some? && a.now - lastCheckAt.value < Spacing(interval) {
        return false;
      }
      var _ := RunSaleCheck(a);
      started := true;
    }
  }

  // ------------------------------------------------------- conservation

  lemma {:induction false} ObserveCounts(items: seq<SaleItem>, threshold: int, at: int)
    ensures DeepObservations(Observe(items, threshold, at)) == DeepDeals(items, threshold)
  {
    if items != [] {
      var n := |items| - 1;
      ObserveCounts(items[..n], threshold, at);
      assert Observe(items, threshold, at)[..n] == Observe(items[..n], threshold, at);
    }
  }

  lemma {:induction false} ObservationsAdd(a: seq<Observation>, b: seq<Observation>)
    ensures DeepObservations(a + b) == DeepObservations(a) + DeepObservations(b)
  {
    if b == [] {
      assert a + b == a;
    } else {
      var n := |b| - 1;
      ObservationsAdd(a, b[..n]);
      assert (a + b)[..|a + b| - 1] == a + b[..n];
    }
  }

  /** Deep discounts in the history, less deep observations. */
  function Balance(b: Books): int {
    DeepHistory(b.history) - DeepObservations(b.observations)
  }

  /** One check keeps the two counts in step exactly when the two writes both
      succeed or both fail, or the check found no deep discount. */
  lemma CheckKeepsBalanceIff(mode: NotifyMode, threshold: int, b: Books, a: Attempt, out: Output)
    ensures Balance(Recorded(mode, threshold, b, a, out)) == Balance(b)
            <==> (a.historyFails == a.observationsFail || !out.Reported? || DeepDeals(out.matching, threshold) == 0)
  {
    var after := Recorded(mode, threshold, b, a, out);
    if out.Reported? {
      ObserveCounts(out.matching, threshold, a.now);
      ObservationsAdd(b.observations, Observe(out.matching, threshold, a.now));
    }
    if !a.historyFails {
      assert after.history[..|after.history| - 1] == b.history;
    }
  }

  // ------------------------------------------------------- runs of jobs

  /** A job of the scheduler: periodic, or at a fixed time. */
  datatype Job = Periodic(attempt: Attempt, timeOfDay: nat) | Fixed(attempt: Attempt)

  datatype Plan = Plan(settings: Settings, threshold: int, interval: nat, quiet: QuietHours)

  /** The books and the checker before job `n`. */
  function Before(plan: Plan, b: Books, st: State, jobs: seq<Job>, n: nat): (Books, State)
    requires n <= |jobs|
  {
    if n == 0 then (b, st)
    else
      var (books, state) := Before(plan, b, st, jobs, n - 1);
      if !MayRun(plan, books, jobs[n - 1]) then (books, state)
      else
        var (state', out) := Step(plan.settings, state, jobs[n - 1].attempt.AsEvent());
        (Recorded(plan.settings.mode, plan.threshold, books, jobs[n - 1].attempt, out), state')
  }

  predicate MayRun(plan: Plan, books: Books, job: Job) {
    job.Fixed? || MayStart(plan.interval, plan.quiet, books.lastCheckAt, job.attempt.now, job.timeOfDay)
  }

  /** Job `i` starts a check. */
  predicate Starts(plan: Plan, b: Books, st: State, jobs: seq<Job>, i: int) {
    0 <= i < |jobs| && MayRun(plan, Before(plan, b, st, jobs, i).0, jobs[i])
  }

  /** Job `i` starts a check, and the check returns a result. */
  predicate Succeeds(plan: Plan, b: Books, st: State, jobs: seq<Job>, i: int) {
    && Starts(plan, b, st, jobs, i)
    && Step(plan.settings, Before(plan, b, st, jobs, i).1, jobs[i].attempt.AsEvent()).1.Reported?
  }

  /** Over any run with successful writes the deep observations and the deep
      discounts in the check history stay equal, failed checks and failed
      dispatches included. */
  lemma {:induction false} DeepDiscountsAreConserved(plan: Plan, b: Books, st: State, jobs: seq<Job>, n: nat)
    requires n <= |jobs|
    requires forall i :: 0 <= i < |jobs| ==> !jobs[i].attempt.historyFails && !jobs[i].attempt.observationsFail
    ensures Balance(Before(plan, b, st, jobs, n).0) == Balance(b)
  {
    if n > 0 {
      DeepDiscountsAreConserved(plan, b, st, jobs, n - 1);
      var (books, state) := Before(plan, b, st, jobs, n - 1);
      var job := jobs[n - 1];
      CheckKeepsBalanceIff(plan.settings.mode, plan.threshold, books, job.attempt,
                           Step(plan.settings, state, job.attempt.AsEvent()).1);
    }
  }

  // ------------------------------------------------------- spacing

  /** 0.8 of the interval. */
  function Spacing(interval: nat): nat {
    interval * MINUTE / 10 * 8
  }

  predicate MayStart(interval: nat, quiet: QuietHours, last: Option<int>, now: int, timeOfDay: nat) {
    !InQuietHours(quiet, timeOfDay) && !(last.Some? && now - last.value < Spacing(interval))
  }

  predicate ClockRuns(jobs: seq<Job>) {
    forall i, j :: 0 <= i < j < |jobs| ==> jobs[i].attempt.now <= jobs[j].attempt.now
  }

  function LastAt(plan: Plan, b: Books, st: State, jobs: seq<Job>, n: nat): Option<int>
    requires n <= |jobs|
  {
    Before(plan, b, st, jobs, n).0.lastCheckAt
  }

  lemma JobSetsOrKeeps(plan: Plan, b: Books, st: State, jobs: seq<Job>, n: nat)
    requires n < |jobs|
    ensures LastAt(plan, b, st, jobs, n + 1) == Some(jobs[n].attempt.now)
            || LastAt(plan, b, st, jobs, n + 1) == LastAt(plan, b, st, jobs, n)
  {
  }

  lemma SuccessSets(plan: Plan, b: Books, st: State, jobs: seq<Job>, n: nat)
    requires n < |jobs| && Succeeds(plan, b, st, jobs, n)
    ensures NotBefore(LastAt(plan, b, st, jobs, n + 1), jobs[n].attempt.now)
  {
  }

  lemma InOrder(jobs: seq<Job>, i: nat, j: nat)
    requires i <= j < |jobs| && ClockRuns(jobs)
    ensures jobs[i].attempt.now <= jobs[j].attempt.now
  {
  }

  predicate NotBefore(last: Option<int>, t: int) {
    last.Some? && t <= last.value
  }

  lemma {:induction false} LastStaysLate(plan: Plan, b: Books, st: State, jobs: seq<Job>, i: nat, n: nat, t: int)
    requires i <= n <= |jobs| && NotBefore(LastAt(plan, b, st, jobs, i), t)
    requires ClockRuns(jobs) && (i < n ==> t <= jobs[i].attempt.now)
    ensures NotBefore(LastAt(plan, b, st, jobs, n), t)
    decreases n
  {
    if i < n {
      LastStaysLate(plan, b, st, jobs, i, n - 1, t);
      InOrder(jobs, i, n - 1);
      JobSetsOrKeeps(plan, b, st, jobs, n - 1);
    }
  }

  /** The last-check time is that of the latest successful check or later. */
  lemma LastCheckIsLatest(plan: Plan, b: Books, st: State, jobs: seq<Job>, i: nat, n: nat)
    requires i < n <= |jobs| && Succeeds(plan, b, st, jobs, i) && ClockRuns(jobs)
    ensures NotBefore(LastAt(plan, b, st, jobs, n), jobs[i].attempt.now)
  {
    SuccessSets(plan, b, st, jobs, i);
    LastStaysAfter(plan, b, st, jobs, i, n);
  }

  lemma LastStaysAfter(plan: Plan, b: Books, st: State, jobs: seq<Job>, i: nat, n: nat)
    requires i < n <= |jobs| && ClockRuns(jobs)
    requires NotBefore(LastAt(plan, b, st, jobs, i + 1), jobs[i].attempt.now)
    ensures NotBefore(LastAt(plan, b, st, jobs, n), jobs[i].attempt.now)
  {
    if i + 1 < n {
      InOrder(jobs, i, i + 1);
    }
    LastStaysLate(plan, b, st, jobs, i + 1, n, jobs[i].attempt.now);
  }

  /** A periodic check never starts inside quiet hours, nor within 0.8 of the
      interval after any earlier check of the run that returned a result, nor
      after the last check before the run, if the clock has not gone back since. */
  lemma PeriodicChecksKeepTheirDistance(plan: Plan, b: Books, st: State, jobs: seq<Job>, j: nat)
    requires j < |jobs| && ClockRuns(jobs)
    requires Starts(plan, b, st, jobs, j) && jobs[j].Periodic?
    ensures !InQuietHours(plan.quiet, jobs[j].timeOfDay)
    ensures forall i :: 0 <= i < j && Succeeds(plan, b, st, jobs, i) ==>
              jobs[j].attempt.now - jobs[i].attempt.now >= Spacing(plan.interval)
    ensures b.lastCheckAt.Some? && b.lastCheckAt.value <= jobs[0].attempt.now ==>
              jobs[j].attempt.now - b.lastCheckAt.value >= Spacing(plan.interval)
  {
    forall i | 0 <= i < j && Succeeds(plan, b, st, jobs, i)
      ensures jobs[j].attempt.now - jobs[i].attempt.now >= Spacing(plan.interval)
    {
      LastCheckIsLatest(plan, b, st, jobs, i, j);
      StartKeepsDistance(plan, b, st, jobs, j, jobs[i].attempt.now);
    }
    if b.lastCheckAt.Some? && b.lastCheckAt.value <= jobs[0].attempt.now {
      LastStaysLate(plan, b, st, jobs, 0, j, b.lastCheckAt.value);
      StartKeepsDistance(plan, b, st, jobs, j, b.lastCheckAt.value);
    }
  }

  lemma StartKeepsDistance(plan: Plan, b: Books, st: State, jobs: seq<Job>, j: nat, t: int)
    requires Starts(plan, b, st, jobs, j) && jobs[j].Periodic?
    requires NotBefore(LastAt(plan, b, st, jobs, j), t)
    ensures jobs[j].attempt.now - t >= Spacing(plan.interval)
  {
  }

  // ------------------------------------------------------- one job

  /** A periodic job starts a check exactly outside quiet hours, if there are
      any, and at least 0.8 of the interval, in minutes, after the last check. */
  lemma PeriodicStartsIff(plan: Plan, b: Books, st: State, jobs: seq<Job>, j: nat)
    requires j < |jobs| && jobs[j].Periodic? && jobs[j].timeOfDay < DAY && plan.quiet.Valid()
    ensures var last, t := Before(plan, b, st, jobs, j).0.lastCheckAt, jobs[j].timeOfDay;
            var start, end := plan.quiet.start * 60_000_000, plan.quiet.end * 60_000_000;
            Starts(plan, b, st, jobs, j)
            <==> && (plan.quiet.enabled ==> (t - start) % 86_400_000_000 >= (end - start) % 86_400_000_000)
                 && (last.Some? ==> 5 * (jobs[j].attempt.now - last.value) >= 4 * plan.interval * 60_000_000)
  {
    if plan.quiet.enabled {
      QuietHoursOnTheCircle(plan.quiet, jobs[j].timeOfDay);
    }
    assert 5 * Spacing(plan.interval) == 4 * plan.interval * 60_000_000;
  }

  lemma NextBooks(plan: Plan, b: Books, st: State, jobs: seq<Job>, n: nat)
    requires n < |jobs| && Starts(plan, b, st, jobs, n)
    ensures var (before, state) := Before(plan, b, st, jobs, n);
            Before(plan, b, st, jobs, n + 1).0
            == Recorded(plan.settings.mode, plan.threshold, before, jobs[n].attempt,
                        Step(plan.settings, state, jobs[n].attempt.AsEvent()).1)
  {
  }

  /** One observation for each item, in order: its discount if known, and deep
      exactly if that is known and at least the threshold, in percent. */
  ghost predicate NotedSince(before: seq<Observation>, after: seq<Observation>, items: seq<SaleItem>,
                             threshold: int, now: int)
  {
    && |after| == |before| + |items| && after[..|before|] == before
    && forall k :: 0 <= k < |items| ==>
         var o := after[|before| + k];
         && o.productId == items[k].productId && o.at == now
         && o.discount == (if items[k].hasKnownDiscount then Some(items[k].discount) else None)
         && (o.isDeep <==> items[k].hasKnownDiscount && items[k].discount >= 10 * threshold)
  }

  /** The books after a check that returned `items`, `deals` of which go out. */
  ghost predicate NotesSuccess(before: Books, after: Books, a: Attempt, items: seq<SaleItem>,
                               deals: seq<SaleItem>, threshold: int)
  {
    && after.lastCheckAt == Some(a.now)
    && after.history == before.history
         + (if a.historyFails then []
            else [HistoryRow(a.scanned, |items|, DeepDeals(items, threshold), deals != [] && a.dispatchFails)])
    && (a.observationsFail ==> after.observations == before.observations)
    && (!a.observationsFail ==> NotedSince(before.observations, after.observations, items, threshold, a.now))
    && after.sent == before.sent + (if deals == [] || a.dispatchFails then [] else [deals])
  }

  lemma ObserveNotes(before: seq<Observation>, items: seq<SaleItem>, threshold: int, now: int)
    ensures NotedSince(before, before + Observe(items, threshold, now), items, threshold, now)
  {
  }

  lemma RecordedSuccess(mode: NotifyMode, threshold: int, b: Books, a: Attempt, out: Output)
    requires out.Reported?
    ensures NotesSuccess(b, Recorded(mode, threshold, b, a, out), a, out.matching,
                         if mode == EveryCheck then out.matching else out.newDeals, threshold)
  {
    ObserveNotes(b.observations, out.matching, threshold, a.now);
  }

  /** A started check that returns a result notes the time, one history row, one
      observation for each match, and sends what the mode says: all matches in
      `every_check` mode, the new deals in the others, nothing if there are none. */
  lemma SuccessIsRecorded(plan: Plan, b: Books, st: State, jobs: seq<Job>, n: nat)
    requires n < |jobs| && Starts(plan, b, st, jobs, n)
    requires jobs[n].attempt.fetched.Some? && !jobs[n].attempt.saveFails
    ensures var (before, state) := Before(plan, b, st, jobs, n);
            var items := jobs[n].attempt.fetched.value;
            var deals := if plan.settings.mode == EveryCheck then items
                         else NewDeals(plan.settings.low, items, Baseline(plan.settings, state));
            NotesSuccess(before, Before(plan, b, st, jobs, n + 1).0, jobs[n].attempt, items, deals, plan.threshold)
  {
    var (before, state) := Before(plan, b, st, jobs, n);
    NextBooks(plan, b, st, jobs, n);
    RecordedSuccess(plan.settings.mode, plan.threshold, before, jobs[n].attempt,
                    Step(plan.settings, state, jobs[n].attempt.AsEvent()).1);
  }

  /** A started check that raises leaves a history row and nothing else. */
  lemma FailureIsRecorded(plan: Plan, b: Books, st: State, jobs: seq<Job>, n: nat)
    requires n < |jobs| && Starts(plan, b, st, jobs, n)
    requires jobs[n].attempt.fetched.None? || jobs[n].attempt.saveFails
    ensures var before, after := Before(plan, b, st, jobs, n).0, Before(plan, b, st, jobs, n + 1).0;
            after == before.(history := before.history
                               + if jobs[n].attempt.historyFails then [] else [HistoryRow(0, 0, 0, true)])
  {
    NextBooks(plan, b, st, jobs, n);
  }
}
