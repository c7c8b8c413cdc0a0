/**
 The swap engine as the source writes it: jobs are objects whose fields the tick assigns in place.
 Each method is tied to the functions of SwapJob and SwapEngine.  (internal/swap/engine.go)
 */
module SwapRuntime {
  import opened Sequences
  import opened Wrappers
  import J = SwapJob
  import S = SwapEngine

  class SwapJob {
    const id: string
    const source: string
    const dest: string
    const amount: real
    const createdAt: int
    var state: J.State
    var sellOrder: string
    var buyOrder: string
    var sellPrice: real
    var buyPrice: real
    var proceeds: real
    var received: real
    var updatedAt: int
    var tally: J.Tally  // bookkeeping of the model, not a field of the source

    function View(): J.Job
      reads this
    {
      J.Job(id, source, dest, amount, state, sellOrder, buyOrder, sellPrice, buyPrice, proceeds, received,
            createdAt, updatedAt, tally)
    }

    constructor (id: string, coin: string, dest: string, amount: real, now: int)
      ensures View()
           == J.Job(id, coin, dest, amount, J.Sending, "", "", 0.0, 0.0, 0.0, 0.0, now, now, J.Tally(0, 0, 0, 0))
    {
      this.id, source, this.dest, this.amount, createdAt := id, coin, dest, amount, now;
      state, updatedAt, tally := J.Sending, now, J.Tally(0, 0, 0, 0);
      sellOrder, buyOrder, sellPrice, buyPrice, proceeds, received := "", "", 0.0, 0.0, 0.0, 0.0;
    }

    method Fail(now: int)
      modifies this
      ensures View() == J.Fail(old(View()), now)
    {
      state := J.Failed;
      updatedAt := now;
    }

    method InitiateWithdraw(v: J.Visit)
      modifies this
      ensures View() == J.InitiateWithdraw(old(View()), v)
    {
      if v.hasAddress && v.replies.withdraw {
        tally := tally.(withdrawals := tally.withdrawals + 1);
      }
      state := J.Complete;
      updatedAt := v.now;
    }

    method PlaceBuyOrder(v: J.Visit)
      modifies this
      ensures View() == J.PlaceBuyOrder(old(View()), v)
    {
      if J.IsBTC(dest) {
        state := J.Withdrawing;
        InitiateWithdraw(v);
        return;
      }
      var ask := v.replies.ask;
      if ask.None? || ask.value <= 0.0 {
        Fail(v.now);
        return;
      }
      var price := ask.value * 1.005;
      var order := v.replies.buy;
      if order.None? {
        Fail(v.now);
        return;
      }
      tally := tally.(buys := tally.buys + 1);
      buyOrder := order.value;
      buyPrice := price;
      state := J.Buying;
      updatedAt := v.now;
    }

    method PlaceSellOrder(available: real, v: J.Visit)
      modifies this
      ensures View() == J.PlaceSellOrder(old(View()), available, v)
    {
      if J.IsBTC(source) {
        proceeds := available;
        state := J.Buying;
        updatedAt := v.now;
        PlaceBuyOrder(v);
        return;
      }
      var bid := v.replies.bid;
      if bid.None? || bid.value <= 0.0 {
        Fail(v.now);
        return;
      }
      var price := bid.value * 0.995;
      var order := v.replies.sell;
      if order.None? {
        Fail(v.now);
        return;
      }
      tally := tally.(sells := tally.sells + 1);
      sellOrder := order.value;
      sellPrice := price;
      state := J.Selling;
      updatedAt := v.now;
    }

    method AdvanceWaitDeposit(v: J.Visit)
      modifies this
      ensures View() == J.AdvanceWaitDeposit(old(View()), v)
    {
      var available := v.replies.sourceBalance;
      if available.None? {
        return;
      }
      if available.value < amount * 0.95 {
        if v.now - createdAt > 6 * J.HOUR {
          Fail(v.now);
        }
        return;
      }
      PlaceSellOrder(available.value, v);
    }

    method AdvanceSelling(v: J.Visit)
      modifies this
      ensures View() == J.AdvanceSelling(old(View()), v)
    {
      var filled := v.replies.sellFilled;
      if filled.None? {
        return;
      }
      if filled.value {
        var btc := v.replies.btcBalance;
        if btc.None? {
          return;
        }
        proceeds := btc.value;
        updatedAt := v.now;
        if J.IsBTC(dest) {
          state := J.Withdrawing;
          InitiateWithdraw(v);
        } else {
          state := J.Buying;
          PlaceBuyOrder(v);
        }
        return;
      }
      if v.now - updatedAt > 2 * J.HOUR {
        Fail(v.now);
      }
    }

    method AdvanceBuying(v: J.Visit)
      modifies this
      ensures View() == J.AdvanceBuying(old(View()), v)
    {
      if buyOrder == "" {
        PlaceBuyOrder(v);
        return;
      }
      var filled := v.replies.buyFilled;
      if filled.None? {
        return;
      }
      if filled.value {
        if v.replies.destBalance.Some? {
          received := v.replies.destBalance.value;
        }
        state := J.Withdrawing;
        updatedAt := v.now;
        InitiateWithdraw(v);
        return;
      }
      if v.now - updatedAt > 2 * J.HOUR {
        Fail(v.now);
      }
    }

    method Advance(v: J.Visit)
      modifies this
      ensures View() == J.Advance(old(View()), v)
    {
      match state {
        case WaitDeposit => AdvanceWaitDeposit(v);
        case Selling => AdvanceSelling(v);
        case Buying => AdvanceBuying(v);
        case Withdrawing => InitiateWithdraw(v);
        case _ =>
      }
    }
  }

  ghost function Views(jobs: seq<SwapJob>): (r: seq<J.Job>)
    reads jobs
    ensures |r| == |jobs|
    ensures forall i :: 0 <= i < |jobs| ==> r[i] == jobs[i].View()
  {
    if jobs == [] then [] else [jobs[0].View()] + Views(jobs[1..])
  }

  lemma SameElements(a: seq<J.Job>, b: seq<J.Job>)
    requires |a| == |b| && forall i :: 0 <= i < |a| ==> a[i] == b[i]
    ensures a == b
  {
  }

  lemma ViewsAppend(a: seq<SwapJob>, b: seq<SwapJob>)
    ensures Views(a + b) == Views(a) + Views(b)
  {
  }

  class Engine {
    var jobs: seq<SwapJob>
    var history: seq<J.Job>
    ghost var retired: seq<J.Job>

    ghost predicate Valid()
      reads this
    {
      Distinct(jobs) && |history| <= S.MAX_HISTORY
    }

    ghost function View(): S.Engine
      reads this, jobs
    {
      S.Engine(Views(jobs), history, retired)
    }

    constructor ()
      ensures Valid() && View() == S.EMPTY
    {
      jobs, history, retired := [], [], [];
    }

    /** One tick. The rules are walked in whatever order the map gives; `order` is that order. */
    method Tick(t: S.Tick) returns (ghost order: seq<string>)
      requires Valid()
      modifies this, jobs
      ensures Valid() && forall j :: j in jobs ==> j in old(jobs) || fresh(j)
      ensures View() == S.Step(old(View()), t.(order := order))
      ensures Lists(order, t.rules.Keys)
    {
      ghost var e := View();
      AdvanceJobs(t);
      ghost var visited := Views(jobs);
      CleanupJobs();
      ghost var cleaned, kept := Views(jobs), jobs;
      order := StartJobs(t);
      StepIs(e, visited, cleaned, history, retired, Views(jobs), t, order);
      assert forall j :: j in kept ==> j in old(jobs);
    }

    /** The visit of one job in flight. */
    method VisitJob(i: nat, t: S.Tick)
      requires Valid() && i < |jobs|
      modifies jobs[i]
      ensures jobs[i].View() == J.Advance(old(jobs[i].View()), S.VisitOf(t, i, old(jobs[i].View())))
      ensures forall k :: 0 <= k < |jobs| && k != i ==> jobs[k].View() == old(jobs[k].View())
    {
      var job := jobs[i];
      if !job.state.Terminal() {
        job.Advance(J.Visit(t.now, t.visits(i), t.hasAddress(job.dest)));
      }
    }

    method AdvanceJobs(t: S.Tick)
      requires Valid()
      modifies jobs
      ensures Views(jobs) == S.AdvanceAll(old(Views(jobs)), t)
    {
      ghost var was := Views(jobs);
      ghost var after := S.AdvanceAll(was, t);
      for i := 0 to |jobs|
        invariant forall k :: 0 <= k < |jobs| ==> jobs[k].View() == if k < i then after[k] else was[k]
      {
        VisitJob(i, t);
      }
      SameElements(Views(jobs), after);
    }

    method CleanupJobs()
      requires Valid()
      modifies this
      ensures Valid() && forall j :: j in jobs ==> j in old(jobs)
      ensures Views(jobs) == S.Active(old(Views(jobs)))
      ensures history == LastN(old(history) + S.Finished(old(Views(jobs))), S.MAX_HISTORY)
      ensures retired == old(retired) + S.Finished(old(Views(jobs)))
    {
      ghost var was := Views(jobs);
      var active := SortJobs(was);
      retired := retired + S.Finished(was);
      jobs := active;
    }

    method SortJobs(ghost was: seq<J.Job>) returns (active: seq<SwapJob>)
      requires Valid() && was == Views(jobs)
      modifies `history
      ensures Distinct(active) && forall j :: j in active ==> j in jobs
      ensures Views(active) == S.Active(was)
      ensures history == LastN(old(history) + S.Finished(was), S.MAX_HISTORY)
    {
      ghost var before := history;
      active := [];
      ghost var finished: seq<J.Job> := [];
      NothingSplit(was, before);
      for i := 0 to |jobs|
        invariant Distinct(active) && forall j :: j in active ==> j in jobs[..i]
        invariant SplitAt(was, i, Views(active), finished)
        invariant history == LastN(before + finished, S.MAX_HISTORY)
      {
        SplitFirst(was, i, Views(active), finished);
        var kept := SortJob(jobs[i], active);
        if kept {
          DistinctAppend(jobs, i, active);
          active := active + [jobs[i]];
        } else {
          HistoryGrows(before, finished, was[i]);
          finished := finished + [was[i]];
        }
      }
      SplitEnd(was, Views(active), finished);
    }

    /** One job: kept while it is active, otherwise copied into the history. */
    method SortJob(job: SwapJob, ghost active: seq<SwapJob>) returns (kept: bool)
      modifies `history
      ensures kept == !job.state.Terminal()
      ensures kept ==> history == old(history) && Views(active + [job]) == Views(active) + [job.View()]
      ensures !kept ==> history == LastN(old(history) + [job.View()], S.MAX_HISTORY)
    {
      if job.state.Terminal() {
        Retire(job.View());
        return false;
      }
      ViewsAppend(active, [job]);
      return true;
    }

    /** Keeps the history bounded. */
    method Retire(job: J.Job)
      modifies `history
      ensures history == LastN(old(history) + [job], S.MAX_HISTORY)
    {
      history := history + [job];
      if |history| > 50 {
        history := history[|history| - 50..];
      }
    }

    method HasActiveJob(coin: string) returns (r: bool)
      ensures r == S.HasActiveJob(Views(jobs), coin)
    {
      for i := 0 to |jobs|
        invariant forall k :: 0 <= k < i ==> jobs[k].source != coin || jobs[k].state.Terminal()
      {
        if jobs[i].source == coin && !jobs[i].state.Terminal() {
          assert Views(jobs)[i].source == coin;
          return true;
        }
      }
      return false;
    }

    method StartJobs(t: S.Tick) returns (ghost order: seq<string>)
      requires Valid()
      modifies this
      ensures Valid() && forall j :: j in jobs ==> j in old(jobs) || fresh(j)
      ensures history == old(history) && retired == old(retired)
      ensures Views(jobs) == S.StartAll(old(Views(jobs)), order, t)
      ensures Lists(order, t.rules.Keys)
    {
      ghost var was := Views(jobs);
      var coins := KeysOf(t.rules);
      order := coins;
      for i := 0 to |coins|
        invariant Valid() && forall j :: j in jobs ==> j in old(jobs) || fresh(j)
        invariant history == old(history) && retired == old(retired)
        invariant Views(jobs) == S.StartAll(was, coins[..i], t)
      {
        CheckCoin(coins[i], t);
        StartAllSnoc(was, coins[..i], coins[i], t);
        OneMore(coins, i);
      }
      assert coins[..|coins|] == coins;
    }

    /** The body of the loop over the rules. */
    method CheckCoin(coin: string, t: S.Tick)
      requires Valid() && coin in t.rules
      modifies this
      ensures Valid() && forall j :: j in jobs ==> j in old(jobs) || fresh(j)
      ensures history == old(history) && retired == old(retired)
      ensures Views(jobs) == old(Views(jobs)) + S.Started(old(Views(jobs)), coin, t)
    {
      ghost var was := Views(jobs);
      var rule := t.rules[coin];
      if rule.enabled {
        var busy := HasActiveJob(coin);
        if !busy {
          var job := CheckAndInitiate(coin, rule, t);
          if job != null {
            StartsOne(was, coin, t, job.View());
            Append(job);
            return;
          }
        }
      }
      StartsNone(was, coin, t);
    }

    method Append(job: SwapJob)
      requires Valid() && job !in jobs
      modifies `jobs
      ensures Valid() && jobs == old(jobs) + [job]
      ensures Views(jobs) == old(Views(jobs)) + [job.View()]
    {
      ViewsAppend(jobs, [job]);
      jobs := jobs + [job];
    }

    /** The job a coin's check starts, or null; the caller appends it. */
    method CheckAndInitiate(coin: string, rule: J.Rule, t: S.Tick) returns (job: SwapJob?)
      ensures job != null ==> fresh(job)
      ensures J.Begin(t.ids(coin), coin, rule, t.wallets(coin), t.now)
        == if job == null then None else Some(job.View())
    {
      var w := t.wallets(coin);
      if !w.hasWallet || w.confirmed.None? {
        return null;
      }
      var amount := w.confirmed.value - rule.keepBalance;
      if amount < rule.minBalance {
        return null;
      }
      if !w.hasDepositAddress {
        return null;
      }
      if !w.hasMarket {
        return null;
      }
      var started := new SwapJob(t.ids(coin), coin, rule.destination, amount, t.now);
      if w.send.None? {
        started.state := J.Failed;
      } else {
        started.tally := J.Tally(1, 0, 0, 0);
        started.state := J.WaitDeposit;
        started.updatedAt := t.now;
      }
      job := started;
    }
  }

  lemma StartsOne(jobs: seq<J.Job>, coin: string, t: S.Tick, job: J.Job)
    requires coin in t.rules && t.rules[coin].enabled && !S.HasActiveJob(jobs, coin)
    requires J.Begin(t.ids(coin), coin, t.rules[coin], t.wallets(coin), t.now) == Some(job)
    ensures S.Started(jobs, coin, t) == [job]
  {
  }

  lemma StartsNone(jobs: seq<J.Job>, coin: string, t: S.Tick)
    requires coin in t.rules
    requires t.rules[coin].enabled && !S.HasActiveJob(jobs, coin) ==>
               J.Begin(t.ids(coin), coin, t.rules[coin], t.wallets(coin), t.now) == None
    ensures jobs + S.Started(jobs, coin, t) == jobs
  {
  }

  lemma StepIs(e: S.Engine, visited: seq<J.Job>, cleaned: seq<J.Job>, history: seq<J.Job>, retired: seq<J.Job>,
               after: seq<J.Job>, t: S.Tick, order: seq<string>)
    requires visited == S.AdvanceAll(e.jobs, t)
    requires cleaned == S.Active(visited) && history == LastN(e.history + S.Finished(visited), S.MAX_HISTORY)
    requires retired == e.retired + S.Finished(visited)
    requires after == S.StartAll(cleaned, order, t)
    ensures S.Engine(after, history, retired) == S.Step(e, t.(order := order))
  {
    OrderDoesNotMatter(e.jobs, cleaned, order, t, order);
  }

  lemma {:induction false} OrderDoesNotMatter(visited: seq<J.Job>, jobs: seq<J.Job>, coins: seq<string>,
                                            t: S.Tick, order: seq<string>)
    ensures S.AdvanceAll(visited, t) == S.AdvanceAll(visited, t.(order := order))
    ensures S.StartAll(jobs, coins, t) == S.StartAll(jobs, coins, t.(order := order))
    decreases |coins|
  {
    if coins != [] {
      assert S.Started(jobs, coins[0], t) == S.Started(jobs, coins[0], t.(order := order));
      OrderDoesNotMatter(visited, jobs + S.Started(jobs, coins[0], t), coins[1..], t, order);
    }
  }

  /** The first `i` jobs are already sorted into active and finished ones. */
  predicate SplitAt(jobs: seq<J.Job>, i: nat, active: seq<J.Job>, finished: seq<J.Job>)
    requires i <= |jobs|
  {
    active + S.Active(jobs[i..]) == S.Active(jobs) && finished + S.Finished(jobs[i..]) == S.Finished(jobs)
  }

  lemma NothingSplit(jobs: seq<J.Job>, h: seq<J.Job>)
    ensures SplitAt(jobs, 0, [], []) && h + [] == h
  {
  }

  lemma SplitEnd(jobs: seq<J.Job>, active: seq<J.Job>, finished: seq<J.Job>)
    requires SplitAt(jobs, |jobs|, active, finished)
    ensures active == S.Active(jobs) && finished == S.Finished(jobs)
  {
  }

  lemma SplitFirst(jobs: seq<J.Job>, i: nat, active: seq<J.Job>, finished: seq<J.Job>)
    requires i < |jobs| && SplitAt(jobs, i, active, finished)
    ensures jobs[i].state.Terminal() ==> SplitAt(jobs, i + 1, active, finished + [jobs[i]])
    ensures !jobs[i].state.Terminal() ==> SplitAt(jobs, i + 1, active + [jobs[i]], finished)
  {
    var job, more := jobs[i], jobs[i + 1..];
    assert jobs[i..][1..] == more;
    if job.state.Terminal() {
      assert S.Active(jobs[i..]) == S.Active(more);
      assert finished + ([job] + S.Finished(more)) == finished + [job] + S.Finished(more);
    } else {
      assert S.Finished(jobs[i..]) == S.Finished(more);
      assert active + ([job] + S.Active(more)) == active + [job] + S.Active(more);
    }
  }

  lemma DistinctAppend(jobs: seq<SwapJob>, i: nat, active: seq<SwapJob>)
    requires i < |jobs| && Distinct(jobs) && Distinct(active) && forall j :: j in active ==> j in jobs[..i]
    ensures Distinct(active + [jobs[i]])
    ensures forall j :: j in active + [jobs[i]] ==> j in jobs[..i + 1]
  {
    assert jobs[..i + 1] == jobs[..i] + [jobs[i]];
    forall k | 0 <= k < |active| ensures active[k] != jobs[i] {
      assert active[k] in jobs[..i];
      var m :| 0 <= m < i && jobs[..i][m] == active[k];
    }
  }

  lemma HistoryGrows(h: seq<J.Job>, finished: seq<J.Job>, job: J.Job)
    ensures LastN(h + (finished + [job]), S.MAX_HISTORY)
         == LastN(LastN(h + finished, S.MAX_HISTORY) + [job], S.MAX_HISTORY)
  {
  }

  lemma {:induction false} StartAllSnoc(jobs: seq<J.Job>, coins: seq<string>, coin: string, t: S.Tick)
    ensures S.StartAll(jobs, coins + [coin], t)
         == S.StartAll(jobs, coins, t) + S.Started(S.StartAll(jobs, coins, t), coin, t)
    decreases |coins|
  {
    if coins == [] {
      assert ([] + [coin])[1..] == [];
    } else {
      StartAllSnoc(jobs + S.Started(jobs, coins[0], t), coins[1..], coin, t);
      assert (coins + [coin])[1..] == coins[1..] + [coin];
    }
  }
}
