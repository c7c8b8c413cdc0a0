/**
 What a job's moves rest on, over every run: money is sold, bought or withdrawn only after the exchange reported the
 deposit credited and the orders before it filled.  (internal/swap/engine.go)
 */
module SwapEvidence {
  import J = SwapJob
  import opened SwapEngine
  import opened Text
  import opened Wrappers

  /** The job as tick `k` found it, at place `i`, in the given state. */
  ghost predicate Found(ticks: seq<Tick>, k: nat, i: nat, job: J.Job, state: J.State) {
    && k < |ticks| && i < |Run(ticks[..k]).jobs|
    && Run(ticks[..k]).jobs[i].state == state && J.SameOrigin(Run(ticks[..k]).jobs[i], job)
  }

  /** A tick found the job waiting and was told of a balance of at least 95% of its amount. */
  ghost predicate Deposited(ticks: seq<Tick>, job: J.Job) {
    exists k: nat, i: nat :: Found(ticks, k, i, job, J.WaitDeposit)
      && ticks[k].visits(i).sourceBalance.Some?
      && 100.0 * ticks[k].visits(i).sourceBalance.value >= 95.0 * job.amount
  }

  /** A tick found the job selling and was told that its order was filled. */
  ghost predicate Sold(ticks: seq<Tick>, job: J.Job) {
    exists k: nat, i: nat :: Found(ticks, k, i, job, J.Selling) && ticks[k].visits(i).sellFilled == Some(true)
  }

  /** A tick found the job buying, with an order, and was told that the order was filled. */
  ghost predicate Bought(ticks: seq<Tick>, job: J.Job) {
    exists k: nat, i: nat :: Found(ticks, k, i, job, J.Buying)
      && Run(ticks[..k]).jobs[i].buyOrder != "" && ticks[k].visits(i).buyFilled == Some(true)
  }

  ghost predicate Backed(ticks: seq<Tick>, job: J.Job) {
    && (job.tally.sells > 0 || job.tally.buys > 0 || job.tally.withdrawals > 0 || job.state.Complete? ==>
          Deposited(ticks, job))
    && (Upper(job.source) != "BTC" && (job.tally.buys > 0 || job.tally.withdrawals > 0 || job.state.Complete?) ==>
          Sold(ticks, job))
    && (Upper(job.dest) != "BTC" && (job.tally.withdrawals > 0 || job.state.Complete?) ==> Bought(ticks, job))
  }

  ghost predicate AllBacked(ticks: seq<Tick>, jobs: seq<J.Job>) {
    forall job :: job in jobs ==> Backed(ticks, job)
  }

  /** What was seen stays seen. */
  lemma FoundStays(ticks: seq<Tick>, t: Tick, k: nat, i: nat, job: J.Job, next: J.Job, state: J.State)
    requires Found(ticks, k, i, job, state) && J.SameOrigin(job, next)
    ensures Found(ticks + [t], k, i, next, state) && (ticks + [t])[k] == ticks[k] && (ticks + [t])[..k] == ticks[..k]
  {
    assert (ticks + [t])[..k] == ticks[..k];
  }

  lemma DepositedStays(ticks: seq<Tick>, t: Tick, job: J.Job, next: J.Job)
    requires Deposited(ticks, job) && J.SameOrigin(job, next)
    ensures Deposited(ticks + [t], next)
  {
    var k: nat, i: nat :| Found(ticks, k, i, job, J.WaitDeposit)
      && ticks[k].visits(i).sourceBalance.Some?
      && 100.0 * ticks[k].visits(i).sourceBalance.value >= 95.0 * job.amount;
    FoundStays(ticks, t, k, i, job, next, J.WaitDeposit);
  }

  lemma SoldStays(ticks: seq<Tick>, t: Tick, job: J.Job, next: J.Job)
    requires Sold(ticks, job) && J.SameOrigin(job, next)
    ensures Sold(ticks + [t], next)
  {
    var k: nat, i: nat :| Found(ticks, k, i, job, J.Selling) && ticks[k].visits(i).sellFilled == Some(true);
    FoundStays(ticks, t, k, i, job, next, J.Selling);
  }

  lemma BoughtStays(ticks: seq<Tick>, t: Tick, job: J.Job, next: J.Job)
    requires Bought(ticks, job) && J.SameOrigin(job, next)
    ensures Bought(ticks + [t], next)
  {
    var k: nat, i: nat :| Found(ticks, k, i, job, J.Buying)
      && Run(ticks[..k]).jobs[i].buyOrder != "" && ticks[k].visits(i).buyFilled == Some(true);
    FoundStays(ticks, t, k, i, job, next, J.Buying);
  }

  lemma EvidenceStays(ticks: seq<Tick>, t: Tick, job: J.Job, next: J.Job)
    requires J.SameOrigin(job, next)
    ensures Deposited(ticks, job) ==> Deposited(ticks + [t], next)
    ensures Sold(ticks, job) ==> Sold(ticks + [t], next)
    ensures Bought(ticks, job) ==> Bought(ticks + [t], next)
  {
    if Deposited(ticks, job) { DepositedStays(ticks, t, job, next); }
    if Sold(ticks, job) { SoldStays(ticks, t, job, next); }
    if Bought(ticks, job) { BoughtStays(ticks, t, job, next); }
  }

  lemma BackedStays(ticks: seq<Tick>, t: Tick, job: J.Job)
    requires Backed(ticks, job)
    ensures Backed(ticks + [t], job)
  {
    EvidenceStays(ticks, t, job, job);
  }

  lemma FoundNow(ticks: seq<Tick>, t: Tick, i: nat, next: J.Job)
    requires i < |Run(ticks).jobs| && J.SameOrigin(Run(ticks).jobs[i], next)
    ensures Found(ticks + [t], |ticks|, i, next, Run(ticks).jobs[i].state)
    ensures (ticks + [t])[|ticks|] == t && (ticks + [t])[..|ticks|] == ticks
  {
    assert (ticks + [t])[..|ticks|] == ticks;
  }

  // ----- one visit -----

  lemma WaitingIsBacked(ticks: seq<Tick>, t: Tick, i: nat, job: J.Job, next: J.Job)
    requires i < |Run(ticks).jobs| && job == Run(ticks).jobs[i] && job.state.WaitDeposit? && J.Consistent(job, false)
    requires next == J.Advance(job, VisitOf(t, i, job)) && J.Forward(job, next, false)
    ensures Backed(ticks + [t], next)
  {
    J.WaitsForItsDeposit(job, VisitOf(t, i, job));
    if next.tally != job.tally || next.state.Complete? {
      J.SellsWhatWasDeposited(job, VisitOf(t, i, job));
      FoundNow(ticks, t, i, next);
      assert Deposited(ticks + [t], next);
    }
  }

  lemma SellingIsBacked(ticks: seq<Tick>, t: Tick, i: nat, job: J.Job, next: J.Job)
    requires i < |Run(ticks).jobs| && job == Run(ticks).jobs[i] && job.state.Selling? && J.Consistent(job, false)
    requires next == J.Advance(job, VisitOf(t, i, job)) && J.Forward(job, next, false) && Backed(ticks, job)
    ensures Backed(ticks + [t], next)
  {
    J.WaitsForItsSale(job, VisitOf(t, i, job));
    EvidenceStays(ticks, t, job, next);
    if next.tally != job.tally || next.state.Complete? {
      FoundNow(ticks, t, i, next);
      assert Sold(ticks + [t], next);
    }
  }

  lemma BuyingIsBacked(ticks: seq<Tick>, t: Tick, i: nat, job: J.Job, next: J.Job)
    requires i < |Run(ticks).jobs| && job == Run(ticks).jobs[i] && job.state.Buying? && J.Consistent(job, false)
    requires next == J.Advance(job, VisitOf(t, i, job)) && J.Forward(job, next, false) && Backed(ticks, job)
    ensures Backed(ticks + [t], next)
  {
    EvidenceStays(ticks, t, job, next);
    if job.buyOrder != "" {
      J.WaitsForItsPurchase(job, VisitOf(t, i, job));
      if next.state.Complete? {
        FoundNow(ticks, t, i, next);
        assert Bought(ticks + [t], next);
      }
    } else {
      J.SpendsAgainWithoutId(job, VisitOf(t, i, job));
    }
  }

  lemma VisitIsBacked(ticks: seq<Tick>, t: Tick, i: nat, job: J.Job, next: J.Job)
    requires i < |Run(ticks).jobs| && job == Run(ticks).jobs[i] && J.Consistent(job, false) && Backed(ticks, job)
    requires next == J.Advance(job, VisitOf(t, i, job))
    ensures Backed(ticks + [t], next)
  {
    J.AdvanceKeepsConsistent(job, VisitOf(t, i, job), false);
    match job.state
    case WaitDeposit => WaitingIsBacked(ticks, t, i, job, next);
    case Selling => SellingIsBacked(ticks, t, i, job, next);
    case Buying => BuyingIsBacked(ticks, t, i, job, next);
    case _ => BackedStays(ticks, t, job);
  }

  // ----- one tick, and every run -----

  lemma {:induction false} StartedAreBacked(ticks: seq<Tick>, jobs: seq<J.Job>, coins: seq<string>, t: Tick)
    requires AllBacked(ticks, jobs)
    ensures AllBacked(ticks, StartAll(jobs, coins, t))
    decreases |coins|
  {
    if coins != [] {
      StartedAreBacked(ticks, jobs + Started(jobs, coins[0], t), coins[1..], t);
    }
  }

  lemma {:induction false} SplitAreBacked(ticks: seq<Tick>, jobs: seq<J.Job>)
    requires AllBacked(ticks, jobs)
    ensures AllBacked(ticks, Active(jobs)) && AllBacked(ticks, Finished(jobs))
  {
    if jobs != [] {
      SplitAreBacked(ticks, jobs[1..]);
    }
  }

  lemma VisitedAreBacked(ticks: seq<Tick>, t: Tick)
    requires Safe(Run(ticks), false) && AllBacked(ticks, Run(ticks).jobs)
    ensures AllBacked(ticks + [t], AdvanceAll(Run(ticks).jobs, t))
  {
    var jobs := Run(ticks).jobs;
    forall next | next in AdvanceAll(jobs, t)
      ensures Backed(ticks + [t], next)
    {
      var i: nat :| i < |jobs| && AdvanceAll(jobs, t)[i] == next;
      VisitIsBacked(ticks, t, i, jobs[i], next);
    }
  }

  lemma RetiredStayBacked(ticks: seq<Tick>, t: Tick)
    requires AllBacked(ticks, Run(ticks).retired)
    ensures AllBacked(ticks + [t], Run(ticks).retired)
  {
    forall job | job in Run(ticks).retired
      ensures Backed(ticks + [t], job)
    {
      BackedStays(ticks, t, job);
    }
  }

  ghost predicate RunIsBacked(ticks: seq<Tick>) {
    AllBacked(ticks, Run(ticks).jobs) && AllBacked(ticks, Run(ticks).retired)
  }

  lemma RunOfMore(ticks: seq<Tick>, t: Tick)
    ensures Run(ticks + [t]) == Step(Run(ticks), t)
  {
    assert (ticks + [t])[..|ticks|] == ticks;
  }

  lemma TickIsBacked(ticks: seq<Tick>, t: Tick)
    requires RunIsBacked(ticks)
    ensures RunIsBacked(ticks + [t])
  {
    EveryRunIsSafe(ticks, false);
    var visited := AdvanceAll(Run(ticks).jobs, t);
    RunOfMore(ticks, t);
    VisitedAreBacked(ticks, t);
    SplitAreBacked(ticks + [t], visited);
    StartedAreBacked(ticks + [t], Active(visited), t.order, t);
    RetiredStayBacked(ticks, t);
  }

  /**
   Over every run: a job that sold, bought or withdrew saw its deposit credited first; one that bought or withdrew
   what it had to sell before saw the sale filled; and one that withdrew what it had to buy saw the purchase filled.
   */
  lemma {:induction false} EveryMoveIsBacked(ticks: seq<Tick>)
    ensures RunIsBacked(ticks)
  {
    if ticks != [] {
      var init, t := ticks[..|ticks| - 1], ticks[|ticks| - 1];
      assert ticks == init + [t];
      EveryMoveIsBacked(init);
      TickIsBacked(init, t);
    }
  }

  // ----- a tick starts what is due -----

  lemma {:induction false} StartAllStarts(jobs: seq<J.Job>, coins: seq<string>, t: Tick, coin: string, job: J.Job)
    requires coin in coins && !HasActiveJob(jobs, coin) && coin in t.rules && t.rules[coin].enabled
    requires J.Begin(t.ids(coin), coin, t.rules[coin], t.wallets(coin), t.now) == Some(job)
    ensures job in StartAll(jobs, coins, t)
    decreases |coins|
  {
    var more := jobs + Started(jobs, coins[0], t);
    if coins[0] == coin {
      StartAllAdds(more, coins[1..], t, job);
    } else {
      OtherCoinStarts(jobs, coins[0], t, coin);
      StartAllStarts(more, coins[1..], t, coin, job);
    }
  }

  lemma OtherCoinStarts(jobs: seq<J.Job>, other: string, t: Tick, coin: string)
    requires other != coin && !HasActiveJob(jobs, coin)
    ensures !HasActiveJob(jobs + Started(jobs, other, t), coin)
  {
  }

  /** A coin whose rule is enabled, with no job in flight after the visits, gets one if its wallet holds enough. */
  lemma TickStartsWhatIsDue(e: Engine, t: Tick, coin: string) returns (job: J.Job)
    requires coin in t.order && coin in t.rules && t.rules[coin].enabled
    requires !HasActiveJob(Active(AdvanceAll(e.jobs, t)), coin)
    requires var w, rule := t.wallets(coin), t.rules[coin];
      && w.hasWallet && w.hasDepositAddress && w.hasMarket && w.confirmed.Some?
      && w.confirmed.value >= rule.keepBalance + rule.minBalance
    ensures job in Step(e, t).jobs && job.source == coin && job.dest == t.rules[coin].destination
    ensures job.amount + t.rules[coin].keepBalance == t.wallets(coin).confirmed.value && job.createdAt == t.now
    ensures job.state.WaitDeposit? <==> t.wallets(coin).send.Some?
  {
    J.BeginsWithTheSurplus(t.ids(coin), coin, t.rules[coin], t.wallets(coin), t.now);
    job := J.Begin(t.ids(coin), coin, t.rules[coin], t.wallets(coin), t.now).value;
    StartAllStarts(Active(AdvanceAll(e.jobs, t)), t.order, t, coin, job);
  }

  /** And nothing starts without: a job that was not there before is of an enabled rule without one in flight. */
  lemma {:induction false} StartsNothingElse(jobs: seq<J.Job>, coins: seq<string>, t: Tick, job: J.Job)
    requires job in StartAll(jobs, coins, t) && job !in jobs
    ensures job.source in coins && job.source in t.rules && t.rules[job.source].enabled
    ensures !HasActiveJob(jobs, job.source)
    decreases |coins|
  {
    var more := jobs + Started(jobs, coins[0], t);
    if job in more {
      assert Started(jobs, coins[0], t) == [job];
    } else {
      StartsNothingElse(more, coins[1..], t, job);
      assert forall i :: 0 <= i < |jobs| ==> more[i] == jobs[i];
    }
  }
}
