/**
 The swap engine: every tick visits the jobs in flight, moves the finished ones to the history, and
 starts new jobs where a rule asks for one.  (internal/swap/engine.go, tick and its helpers)
 */
module SwapEngine {
  import J = SwapJob
  import opened Sequences
  import opened Wrappers

  const MAX_HISTORY := 50

  /**
   The engine's state. `retired` is not in the source: it keeps every job ever moved out of `jobs`,
   of which the history is the recent part.
   */
  datatype Engine = Engine(jobs: seq<J.Job>, history: seq<J.Job>, retired: seq<J.Job>)

  /** What one tick meets: the clock, the answers for each job and coin, the rules, and the order they are walked in. */
  datatype Tick = Tick(now: int, visits: nat -> J.Replies, hasAddress: string -> bool, rules: map<string, J.Rule>,
                       wallets: string -> J.WalletReplies, ids: string -> string, order: seq<string>)

  function VisitOf(t: Tick, i: nat, job: J.Job): J.Visit {
    J.Visit(t.now, t.visits(i), t.hasAddress(job.dest))
  }

  function AdvanceAll(jobs: seq<J.Job>, t: Tick): (r: seq<J.Job>)
    ensures |r| == |jobs|
    ensures forall i :: 0 <= i < |jobs| ==> r[i] == J.Advance(jobs[i], VisitOf(t, i, jobs[i]))
  {
    seq(|jobs|, i requires 0 <= i < |jobs| => J.Advance(jobs[i], VisitOf(t, i, jobs[i])))
  }

  function Active(jobs: seq<J.Job>): seq<J.Job> {
    if jobs == [] then []
    else (if jobs[0].state.Terminal() then [] else [jobs[0]]) + Active(jobs[1..])
  }

  function Finished(jobs: seq<J.Job>): seq<J.Job> {
    if jobs == [] then []
    else (if jobs[0].state.Terminal() then [jobs[0]] else []) + Finished(jobs[1..])
  }

  predicate HasActiveJob(jobs: seq<J.Job>, coin: string) {
    exists i :: 0 <= i < |jobs| && jobs[i].source == coin && !jobs[i].state.Terminal()
  }

  /** What checking one coin adds. */
  function Started(jobs: seq<J.Job>, coin: string, t: Tick): seq<J.Job> {
    if coin !in t.rules || !t.rules[coin].enabled || HasActiveJob(jobs, coin) then []
    else
      match J.Begin(t.ids(coin), coin, t.rules[coin], t.wallets(coin), t.now)
      case None => []
      case Some(job) => [job]
  }

  function StartAll(jobs: seq<J.Job>, coins: seq<string>, t: Tick): seq<J.Job>
    decreases |coins|
  {
    if coins == [] then jobs else StartAll(jobs + Started(jobs, coins[0], t), coins[1..], t)
  }

  function CleanUp(e: Engine): Engine {
    Engine(Active(e.jobs), LastN(e.history + Finished(e.jobs), MAX_HISTORY), e.retired + Finished(e.jobs))
  }

  function Step(e: Engine, t: Tick): Engine {
    var visited := e.(jobs := AdvanceAll(e.jobs, t));
    var cleaned := CleanUp(visited);
    cleaned.(jobs := StartAll(cleaned.jobs, t.order, t))
  }

  const EMPTY := Engine([], [], [])

  function Run(ticks: seq<Tick>): Engine {
    if ticks == [] then EMPTY else Step(Run(ticks[..|ticks| - 1]), ticks[|ticks| - 1])
  }

  // ----- Safety over every run -----

  predicate OneActivePerCoin(jobs: seq<J.Job>) {
    forall i, j :: 0 <= i < j < |jobs| && !jobs[i].state.Terminal() && !jobs[j].state.Terminal() ==>
      jobs[i].source != jobs[j].source
  }

  predicate AllConsistent(jobs: seq<J.Job>, ids: bool) {
    forall i :: 0 <= i < |jobs| ==> J.Consistent(jobs[i], ids)
  }

  predicate AllTerminal(jobs: seq<J.Job>) {
    forall i :: 0 <= i < |jobs| ==> jobs[i].state.Terminal()
  }

  predicate Safe(e: Engine, ids: bool) {
    && AllConsistent(e.jobs, ids) && AllConsistent(e.retired, ids) && AllTerminal(e.retired)
    && OneActivePerCoin(e.jobs)
    && e.history == LastN(e.retired, MAX_HISTORY)
  }

  ghost predicate IdsGiven(t: Tick) {
    forall i: nat :: t.visits(i).buy != Some("")
  }

  lemma {:induction false} ActiveOf(jobs: seq<J.Job>, ids: bool)
    requires AllConsistent(jobs, ids)
    ensures AllConsistent(Active(jobs), ids) && AllConsistent(Finished(jobs), ids) && AllTerminal(Finished(jobs))
    ensures |Active(jobs)| + |Finished(jobs)| == |jobs|
    ensures forall i :: 0 <= i < |Active(jobs)| ==> !Active(jobs)[i].state.Terminal() && Active(jobs)[i] in jobs
  {
    if jobs != [] {
      ActiveOf(jobs[1..], ids);
    }
  }

  lemma {:induction false} ActiveKeepsOnePerCoin(jobs: seq<J.Job>)
    requires OneActivePerCoin(jobs)
    ensures OneActivePerCoin(Active(jobs))
  {
    if jobs != [] {
      ActiveKeepsOnePerCoin(jobs[1..]);
      ActiveMembers(jobs[1..]);
      if !jobs[0].state.Terminal() {
        forall j | 0 <= j < |Active(jobs[1..])| ensures Active(jobs[1..])[j].source != jobs[0].source {
          var k :| 0 <= k < |jobs[1..]| && jobs[1..][k] == Active(jobs[1..])[j];
          assert jobs[1 + k] == Active(jobs[1..])[j];
        }
      }
    }
  }

  lemma {:induction false} ActiveMembers(jobs: seq<J.Job>)
    ensures forall i :: 0 <= i < |Active(jobs)| ==> !Active(jobs)[i].state.Terminal() && Active(jobs)[i] in jobs
  {
    if jobs != [] {
      ActiveMembers(jobs[1..]);
    }
  }

  /** Cleaning up neither loses nor duplicates a job. */
  lemma {:induction false} CleanUpKeepsEveryJob(jobs: seq<J.Job>)
    ensures multiset(Active(jobs)) + multiset(Finished(jobs)) == multiset(jobs)
  {
    if jobs != [] {
      CleanUpKeepsEveryJob(jobs[1..]);
      assert jobs == [jobs[0]] + jobs[1..];
    }
  }

  lemma StartedKeepsSafe(jobs: seq<J.Job>, coin: string, t: Tick, ids: bool)
    requires AllConsistent(jobs, ids) && OneActivePerCoin(jobs)
    ensures AllConsistent(jobs + Started(jobs, coin, t), ids) && OneActivePerCoin(jobs + Started(jobs, coin, t))
  {
  }

  lemma {:induction false} StartAllKeepsSafe(jobs: seq<J.Job>, coins: seq<string>, t: Tick, ids: bool)
    requires AllConsistent(jobs, ids) && OneActivePerCoin(jobs)
    ensures AllConsistent(StartAll(jobs, coins, t), ids) && OneActivePerCoin(StartAll(jobs, coins, t))
    decreases |coins|
  {
    if coins != [] {
      StartedKeepsSafe(jobs, coins[0], t, ids);
      StartAllKeepsSafe(jobs + Started(jobs, coins[0], t), coins[1..], t, ids);
    }
  }

  lemma AdvanceAllKeepsSafe(jobs: seq<J.Job>, t: Tick, ids: bool)
    requires AllConsistent(jobs, ids) && OneActivePerCoin(jobs) && (ids ==> IdsGiven(t))
    ensures AllConsistent(AdvanceAll(jobs, t), ids) && OneActivePerCoin(AdvanceAll(jobs, t))
  {
    forall i | 0 <= i < |jobs|
      ensures J.Consistent(AdvanceAll(jobs, t)[i], ids) && J.SameOrigin(jobs[i], AdvanceAll(jobs, t)[i])
      ensures jobs[i].state.Terminal() ==> AdvanceAll(jobs, t)[i].state.Terminal()
    {
      J.AdvanceKeepsConsistent(jobs[i], VisitOf(t, i, jobs[i]), ids);
    }
  }

  lemma StepKeepsSafe(e: Engine, t: Tick, ids: bool)
    requires Safe(e, ids) && (ids ==> IdsGiven(t))
    ensures Safe(Step(e, t), ids) && e.retired <= Step(e, t).retired
  {
    var jobs := AdvanceAll(e.jobs, t);
    AdvanceAllKeepsSafe(e.jobs, t, ids);
    ActiveOf(jobs, ids);
    ActiveKeepsOnePerCoin(jobs);
    LastNAbsorbs(e.retired, Finished(jobs), MAX_HISTORY);
    StartAllKeepsSafe(Active(jobs), t.order, t, ids);
  }

  /**
   Over every run: at most one job per coin is in flight, no job is left in the middle of a transfer, each job sent,
   sold and withdrew at most once, retired jobs stay retired and unchanged, and the history is the last 50 of them.
   If bought orders get ids, each job also bought at most once.
   */
  lemma {:induction false} EveryRunIsSafe(ticks: seq<Tick>, ids: bool)
    requires ids ==> forall i :: 0 <= i < |ticks| ==> IdsGiven(ticks[i])
    ensures Safe(Run(ticks), ids) && Run(ticks).history == LastN(Run(ticks).retired, 50)
  {
    if ticks != [] {
      EveryRunIsSafe(ticks[..|ticks| - 1], ids);
      StepKeepsSafe(Run(ticks[..|ticks| - 1]), ticks[|ticks| - 1], ids);
    }
  }

  lemma SafeMovesMoneyAtMostOnce(e: Engine, job: J.Job, ids: bool)
    requires Safe(e, ids) && (job in e.jobs || job in e.retired)
    ensures J.AtMostOnce(job.tally, ids)
    ensures job.state.Terminal() || job.state.WaitDeposit? || job.state.Selling? || job.state.Buying?
    ensures job.state.Complete? ==> job.tally.sends == 1
  {
  }

  // ----- Deadlines over every run -----

  ghost predicate Answered(t: Tick) {
    forall i: nat :: var r := t.visits(i);
      r.sourceBalance.Some? && r.sellFilled.Some? && r.btcBalance.Some? && r.buyFilled.Some?
  }

  predicate AllPunctual(jobs: seq<J.Job>, now: int, d: nat) {
    forall i :: 0 <= i < |jobs| ==> J.Punctual(jobs[i], now, d)
  }

  /** Ticks at most `d` apart, with every poll answered and every order given an id. */
  ghost predicate Regular(ticks: seq<Tick>, d: nat) {
    && (forall i :: 0 <= i < |ticks| ==> IdsGiven(ticks[i]) && Answered(ticks[i]))
    && forall i, j :: 0 <= i < j < |ticks| && j == i + 1 ==> ticks[i].now <= ticks[j].now <= ticks[i].now + d
  }

  lemma {:induction false} ActiveKeepsPunctual(jobs: seq<J.Job>, now: int, d: nat)
    requires AllPunctual(jobs, now, d)
    ensures AllPunctual(Active(jobs), now, d)
  {
    if jobs != [] {
      assert AllPunctual(jobs[1..], now, d);
      ActiveKeepsPunctual(jobs[1..], now, d);
    }
  }

  lemma {:induction false} StartAllKeepsPunctual(jobs: seq<J.Job>, coins: seq<string>, t: Tick, d: nat)
    requires AllPunctual(jobs, t.now, d)
    ensures AllPunctual(StartAll(jobs, coins, t), t.now, d)
    decreases |coins|
  {
    if coins != [] {
      StartAllKeepsPunctual(jobs + Started(jobs, coins[0], t), coins[1..], t, d);
    }
  }

  lemma AdvanceAllKeepsPunctual(jobs: seq<J.Job>, now: int, t: Tick, d: nat)
    requires AllConsistent(jobs, true) && AllPunctual(jobs, now, d) && IdsGiven(t) && Answered(t)
    requires now <= t.now <= now + d
    ensures AllPunctual(AdvanceAll(jobs, t), t.now, d)
  {
    forall i | 0 <= i < |jobs| ensures J.Punctual(AdvanceAll(jobs, t)[i], t.now, d) {
      J.AdvanceKeepsPunctual(jobs[i], now, VisitOf(t, i, jobs[i]), d);
    }
  }

  lemma {:induction false} EveryRunIsPunctual(ticks: seq<Tick>, d: nat)
    requires ticks != [] && Regular(ticks, d)
    ensures AllPunctual(Run(ticks).jobs, ticks[|ticks| - 1].now, d)
  {
    var init, t := ticks[..|ticks| - 1], ticks[|ticks| - 1];
    var e := Run(init);
    var jobs := AdvanceAll(e.jobs, t);
    if init != [] {
      EveryRunIsSafe(init, true);
      EveryRunIsPunctual(init, d);
      AdvanceAllKeepsPunctual(e.jobs, init[|init| - 1].now, t, d);
    }
    ActiveKeepsPunctual(jobs, t.now, d);
    StartAllKeepsPunctual(Active(jobs), t.order, t, d);
  }

  /**
   With ticks at most `d` apart and no failed polls, no job is in flight any more at the first tick
   later than 10 hours and two gaps after it was created, that is within 10 hours and three gaps.
   */
  lemma NoJobOutlivesItsDeadline(ticks: seq<Tick>, d: nat, job: J.Job)
    requires ticks != [] && Regular(ticks, d) && job in Run(ticks).jobs
    ensures !job.state.Terminal() ==> ticks[|ticks| - 1].now <= job.createdAt + 10 * J.HOUR + 2 * d
  {
    EveryRunIsPunctual(ticks, d);
    if !job.state.Terminal() {
      J.PunctualIsYoung(job, ticks[|ticks| - 1].now, d);
    }
  }

  /** Such a tick exists: a run that goes on long enough has one no later than the deadline. */
  lemma {:induction false} TickBeforeDeadline(ticks: seq<Tick>, d: nat, start: int) returns (k: nat)
    requires ticks != [] && Regular(ticks, d) && ticks[0].now <= start < ticks[|ticks| - 1].now
    ensures k < |ticks| && start < ticks[k].now <= start + d
  {
    if ticks[|ticks| - 2].now <= start {
      k := |ticks| - 1;
    } else {
      k := TickBeforeDeadline(ticks[..|ticks| - 1], d, start);
    }
  }

  // ----- Following one job -----

  lemma {:induction false} StartAllAdds(jobs: seq<J.Job>, coins: seq<string>, t: Tick, job: J.Job)
    ensures job in jobs ==> job in StartAll(jobs, coins, t)
    ensures job in StartAll(jobs, coins, t) ==> job in jobs || job.createdAt == t.now
    decreases |coins|
  {
    if coins != [] {
      StartAllAdds(jobs + Started(jobs, coins[0], t), coins[1..], t, job);
    }
  }

  /** One tick: the job moves on, and is afterwards in flight or retired. */
  lemma StepFollows(e: Engine, t: Tick, job: J.Job) returns (next: J.Job)
    requires Safe(e, false) && job in e.jobs
    ensures J.SameOrigin(job, next) && (next in Step(e, t).jobs || next in Step(e, t).retired)
  {
    var jobs := AdvanceAll(e.jobs, t);
    var i :| 0 <= i < |e.jobs| && e.jobs[i] == job;
    next := jobs[i];
    J.AdvanceKeepsConsistent(job, VisitOf(t, i, job), false);
    CleanUpKeepsEveryJob(jobs);
    assert next in multiset(Active(jobs)) + multiset(Finished(jobs));
    StartAllAdds(Active(jobs), t.order, t, next);
  }

  /** Where a job in flight comes from: an earlier tick, or it was started in this one. */
  lemma StepOrigin(e: Engine, t: Tick, job: J.Job) returns (was: J.Job)
    requires Safe(e, false) && job in Step(e, t).jobs
    ensures job.createdAt == t.now || (!job.state.Terminal() && was in e.jobs && J.SameOrigin(was, job))
  {
    var jobs := AdvanceAll(e.jobs, t);
    StartAllAdds(Active(jobs), t.order, t, job);
    was := job;
    if job in Active(jobs) {
      ActiveMembers(jobs);
      var i :| 0 <= i < |jobs| && jobs[i] == job;
      was := e.jobs[i];
      J.AdvanceKeepsConsistent(was, VisitOf(t, i, was), false);
    }
  }

  /** A job in flight was created during the run, and one that is over already was created in the last tick. */
  lemma {:induction false} CreatedDuringRun(ticks: seq<Tick>, d: nat, job: J.Job)
    requires ticks != [] && Regular(ticks, d) && job in Run(ticks).jobs
    ensures ticks[0].now <= job.createdAt
    ensures job.state.Terminal() ==> job.createdAt == ticks[|ticks| - 1].now
  {
    var init, t := ticks[..|ticks| - 1], ticks[|ticks| - 1];
    EveryRunIsSafe(init, false);
    var was := StepOrigin(Run(init), t, job);
    if job.createdAt == t.now {
      LaterTick(ticks, d, 0, |ticks| - 1);
    } else if init != [] {
      CreatedDuringRun(init, d, was);
    }
  }

  lemma {:induction false} LaterTick(ticks: seq<Tick>, d: nat, i: nat, j: nat)
    requires Regular(ticks, d) && i <= j < |ticks|
    ensures ticks[i].now <= ticks[j].now
    decreases j
  {
    if i < j {
      LaterTick(ticks, d, i, j - 1);
    }
  }

  /** Over any number of ticks: a job in flight is never lost. */
  lemma {:induction false} RunFollows(ticks: seq<Tick>, seen: seq<Tick>, job: J.Job) returns (next: J.Job)
    requires seen <= ticks && job in Run(seen).jobs
    ensures J.SameOrigin(job, next) && (next in Run(ticks).jobs || next in Run(ticks).retired)
    decreases |ticks|
  {
    if |seen| == |ticks| {
      assert seen == ticks;
      next := job;
    } else {
      var init, t := ticks[..|ticks| - 1], ticks[|ticks| - 1];
      next := RunFollows(init, seen, job);
      EveryRunIsSafe(init, false);
      StepKeepsSafe(Run(init), t, false);
      if next in Run(init).jobs {
        next := StepFollows(Run(init), t, next);
      }
    }
  }

  /** Ten hours and two gaps after the job was created. */
  function Deadline(job: J.Job, d: nat): int {
    job.createdAt + 10 * J.HOUR + 2 * d
  }

  /** A job still in flight at the last tick is at most ten hours and two gaps old. */
  lemma InFlightIsYoung(ticks: seq<Tick>, d: nat, job: J.Job)
    requires ticks != [] && Regular(ticks, d) && job in Run(ticks).jobs
    ensures ticks[|ticks| - 1].now <= Deadline(job, d)
  {
    NoJobOutlivesItsDeadline(ticks, d, job);
    CreatedDuringRun(ticks, d, job);
  }

  /** `done` is how the run ended for `job`. */
  predicate RetiredAs(ticks: seq<Tick>, job: J.Job, done: J.Job) {
    done in Run(ticks).retired && done.state.Terminal() && J.SameOrigin(job, done)
  }

  /** Once the deadline is past, what has become of a job is in the retired part. */
  lemma RetiredAfterDeadline(ticks: seq<Tick>, d: nat, seen: seq<Tick>, job: J.Job) returns (done: J.Job)
    requires ticks != [] && Regular(ticks, d) && seen <= ticks && job in Run(seen).jobs
    requires ticks[|ticks| - 1].now > Deadline(job, d)
    ensures RetiredAs(ticks, job, done)
  {
    done := RunFollows(ticks, seen, job);
    if done in Run(ticks).jobs {
      InFlightIsYoung(ticks, d, done);
    }
    EveryRunIsSafe(ticks, false);
  }

  lemma RegularPrefix(ticks: seq<Tick>, d: nat, n: nat)
    requires Regular(ticks, d) && 0 < n <= |ticks|
    ensures |ticks[..n]| == n && ticks[..n][n - 1] == ticks[n - 1] && ticks[..n][0] == ticks[0]
    ensures Regular(ticks[..n], d)
  {
  }

  lemma YoungWhenSeen(ticks: seq<Tick>, d: nat, seen: seq<Tick>, job: J.Job)
    requires Regular(ticks, d) && [] < seen <= ticks && job in Run(seen).jobs
    ensures ticks[0].now <= job.createdAt && ticks[|seen| - 1].now <= Deadline(job, d)
  {
    assert seen == ticks[..|seen|];
    RegularPrefix(ticks, d, |seen|);
    InFlightIsYoung(seen, d, job);
    CreatedDuringRun(seen, d, job);
  }

  /** The first tick past the deadline comes after the job was seen, and within one gap. */
  lemma TickAfterDeadline(ticks: seq<Tick>, d: nat, seen: seq<Tick>, job: J.Job) returns (k: nat)
    requires Regular(ticks, d) && [] < seen <= ticks && job in Run(seen).jobs
    requires ticks[|ticks| - 1].now > Deadline(job, d)
    ensures |seen| <= k < |ticks| && Deadline(job, d) < ticks[k].now <= Deadline(job, d) + d
  {
    YoungWhenSeen(ticks, d, seen, job);
    k := TickBeforeDeadline(ticks, d, Deadline(job, d));
    if k < |seen| {
      LaterTick(ticks, d, k, |seen| - 1);
    }
  }

  lemma RetiredInPrefix(ticks: seq<Tick>, d: nat, seen: seq<Tick>, job: J.Job, k: nat) returns (done: J.Job)
    requires Regular(ticks, d) && [] < seen <= ticks && |seen| <= k < |ticks| && job in Run(seen).jobs
    requires ticks[k].now > Deadline(job, d)
    ensures RetiredAs(ticks[..k + 1], job, done)
  {
    RegularPrefix(ticks, d, k + 1);
    assert seen <= ticks[..k + 1];
    done := RetiredAfterDeadline(ticks[..k + 1], d, seen, job);
  }

  /**
   Every job ends: one seen in flight after any tick of a run that goes on past its deadline is retired, as a
   complete or failed job of the same origin, at a tick within ten hours and three gaps of its creation.
   */
  lemma EveryJobIsRetiredInTime(ticks: seq<Tick>, d: nat, seen: seq<Tick>, job: J.Job)
    returns (k: nat, done: J.Job)
    requires Regular(ticks, d) && [] < seen <= ticks && job in Run(seen).jobs
    requires ticks[|ticks| - 1].now > Deadline(job, d)
    ensures |seen| <= k < |ticks| && ticks[k].now <= Deadline(job, d) + d
    ensures RetiredAs(ticks[..k + 1], job, done)
  {
    k := TickAfterDeadline(ticks, d, seen, job);
    done := RetiredInPrefix(ticks, d, seen, job, k);
  }
}
