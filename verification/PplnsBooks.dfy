/**
 Conservation over every run of the PPLNS engine: shares, blocks, payout rounds with failing sends, and restarts.
 Beside the engine's state the run keeps complete books: all credits, all sends, all shares recorded.
 (internal/pplns/payout.go)
 */
module PplnsBooks {
  import opened Wrappers
  import opened Sequences
  import opened Pplns

  datatype Event =
    | Submit(coin: string, worker: string, difficulty: real, at: int)
    | Block(coin: string, reward: real)
    | PayoutRound(order: seq<(string, string)>, rpcs: Replies, at: int)
    | Restart(config: Config, coins: seq<string>)

  datatype Books = Books(c: Config, st: State, credited: Ledger, sent: seq<Payout>, recorded: map<string, seq<Share>>)

  function Opening(config: Config): (b: Books)
    ensures b.c.Valid()
  {
    Books(config.Defaults(), EMPTY, map[], [], map[])
  }

  /** Any event may come next; a restart saves each window once, in whatever order the map gives. */
  ghost predicate Legal(b: Books, e: Event) {
    e.Restart? ==> Lists(e.coins, b.st.windows.Keys)
  }

  /** What an event does; after a restart the engine runs under the configuration it is then given. */
  function Step(b: Books, e: Event): (next: Books)
    requires b.c.Valid()
    ensures next.c.Valid()
  {
    var c := b.c;
    match e
    case Submit(coin, worker, difficulty, at) =>
      if Accepts(c, coin, worker, difficulty) then
        b.(st := Record(c, b.st, coin, worker, difficulty, at),
           recorded := b.recorded[coin := Window(b.recorded, coin) + [Share(worker, coin, difficulty, at)]])
      else b.(st := Record(c, b.st, coin, worker, difficulty, at))
    case Block(coin, reward) =>
      b.(st := Found(c, b.st, coin, reward),
         credited := Add(b.credited, coin, Credits(c, Window(b.st.windows, coin), coin, reward)))
    case PayoutRound(order, rpcs, at) =>
      if !c.enabled then b
      else b.(st := Process(c, b.st, order, rpcs, at), sent := Sends(c, b.st, order, rpcs, at) + b.sent)
    case Restart(config, coins) =>
      b.(c := config.Defaults(), st := Load(config.Defaults(), Save(b.st, coins)))
  }

  function Run(b: Books, events: seq<Event>): (after: Books)
    requires b.c.Valid()
    ensures after.c.Valid()
  {
    if events == [] then b else Step(Run(b, events[..|events| - 1]), events[|events| - 1])
  }

  ghost predicate LegalRun(b: Books, events: seq<Event>)
    requires b.c.Valid()
  {
    events != [] ==>
      LegalRun(b, events[..|events| - 1]) && Legal(Run(b, events[..|events| - 1]), events[|events| - 1])
  }

  function SentTo(log: seq<Payout>, coin: string, worker: string): int {
    if log == [] then 0
    else (if log[0].coin == coin && log[0].worker == worker then log[0].amount else 0) + SentTo(log[1..], coin, worker)
  }

  // ----- what one payout round does -----

  /** At least the coin's minimum, or 0.001 coin where none is set, and accepted by the coin's node. */
  predicate Due(c: Config, st: State, coin: string, worker: string, rpcs: Replies) {
    && Amount(st.pending, coin, worker)
       >= (if coin in c.minPayout && c.minPayout[coin] > 0 then c.minPayout[coin] else 100_000)
    && coin in rpcs && worker in rpcs[coin]
  }

  lemma AttemptMovesTheBalance(c: Config, st: State, coin: string, worker: string, rpcs: Replies, at: int,
                               k: string, w: string)
    ensures var next := Attempt(c, st, coin, worker, rpcs, at);
      var due := (k, w) == (coin, worker) && Due(c, st, coin, worker, rpcs);
      && Amount(next.pending, k, w) == (if due then 0 else Amount(st.pending, k, w))
      && Amount(next.paid, k, w) == Amount(st.paid, k, w) + (if due then Amount(st.pending, k, w) else 0)
      && SentTo(Sent(c, st, coin, worker, rpcs, at), k, w) == (if due then Amount(st.pending, k, w) else 0)
  {
  }

  lemma NewestAbsorbs(more: seq<Payout>, log: seq<Payout>)
    ensures Newest(more + Newest(log)) == Newest(more + log)
  {
  }

  lemma {:induction false} SentToSplits(a: seq<Payout>, b: seq<Payout>, coin: string, worker: string)
    ensures SentTo(a + b, coin, worker) == SentTo(a, coin, worker) + SentTo(b, coin, worker)
  {
    if a == [] {
      assert a + b == b;
    } else {
      assert (a + b)[1..] == a[1..] + b;
      SentToSplits(a[1..], b, coin, worker);
    }
  }

  /**
   A payout round, whatever order it visits the balances in and whichever sends fail: the balances that are due
   and accepted go to zero and are added to the lifetime total, and every other balance stays.
   */
  lemma {:induction false} RoundSettles(c: Config, st: State, order: seq<(string, string)>, rpcs: Replies, at: int,
                                        k: string, w: string)
    ensures var next, due := Process(c, st, order, rpcs, at), (k, w) in order && Due(c, st, k, w, rpcs);
      && Amount(next.pending, k, w) == (if due then 0 else Amount(st.pending, k, w))
      && Amount(next.paid, k, w) == Amount(st.paid, k, w) + (if due then Amount(st.pending, k, w) else 0)
      && SentTo(Sends(c, st, order, rpcs, at), k, w) == (if due then Amount(st.pending, k, w) else 0)
  {
    if order != [] {
      var n := |order| - 1;
      var front, last := order[..n], order[n];
      var before := Process(c, st, front, rpcs, at);
      RoundSettles(c, st, front, rpcs, at, k, w);
      AttemptMovesTheBalance(c, before, last.0, last.1, rpcs, at, k, w);
      SentToSplits(Sent(c, before, last.0, last.1, rpcs, at), Sends(c, st, front, rpcs, at), k, w);
      assert (k, w) in order <==> (k, w) in front || (k, w) == last;
    }
  }

  lemma {:induction false} RoundLogs(c: Config, st: State, order: seq<(string, string)>, rpcs: Replies, at: int)
    ensures Process(c, st, order, rpcs, at).windows == st.windows
    ensures st.payouts == Newest(st.payouts) ==>
              Process(c, st, order, rpcs, at).payouts == Newest(Sends(c, st, order, rpcs, at) + st.payouts)
  {
    if order == [] {
      assert [] + st.payouts == st.payouts;
    } else {
      var n := |order| - 1;
      var front, last := order[..n], order[n];
      var before := Process(c, st, front, rpcs, at);
      RoundLogs(c, st, front, rpcs, at);
      var one, rest := Sent(c, before, last.0, last.1, rpcs, at), Sends(c, st, front, rpcs, at);
      NewestAbsorbs(one, rest + st.payouts);
      assert one + (rest + st.payouts) == (one + rest) + st.payouts;
      if one == [] {
        assert one + rest == rest;
      }
    }
  }

  // ----- restarts -----

  lemma {:induction false} OfCoinSplits(a: seq<Share>, b: seq<Share>, coin: string)
    ensures OfCoin(a + b, coin) == OfCoin(a, coin) + OfCoin(b, coin)
  {
    if b == [] {
      assert a + b == a;
    } else {
      var n := |b| - 1;
      assert (a + b)[..|a| + n] == a + b[..n];
      OfCoinSplits(a, b[..n], coin);
    }
  }

  lemma {:induction false} OfOwnCoin(shares: seq<Share>, own: string, coin: string)
    requires OwnShares(shares, own)
    ensures OfCoin(shares, coin) == if coin == own then shares else []
  {
    if shares != [] {
      OfOwnCoin(shares[..|shares| - 1], own, coin);
    }
  }

  ghost predicate OwnWindows(windows: map<string, seq<Share>>) {
    forall coin :: coin in windows ==> windows[coin] != [] && OwnShares(windows[coin], coin)
  }

  lemma {:induction false} SavedSharesOf(windows: map<string, seq<Share>>, order: seq<string>, coin: string)
    requires OwnWindows(windows)
    requires forall i :: 0 <= i < |order| ==> order[i] in windows
    requires forall i, j :: 0 <= i < j < |order| ==> order[i] != order[j]
    ensures OfCoin(SavedShares(windows, order), coin) == if coin in order then windows[coin] else []
  {
    if order != [] {
      var n := |order| - 1;
      var front, last, w := order[..n], order[n], windows[order[n]];
      SavedSharesOf(windows, front, coin);
      assert OfCoin(w, last) == w by { OfOwnCoin(w, last, last); }
      OfOwnCoin(w, last, coin);
      OfCoinSplits(SavedShares(windows, front), w, coin);
      assert last !in front;
      if coin != last {
        assert coin in order <==> coin in front;
        assert OfCoin(SavedShares(windows, front), coin) + [] == OfCoin(SavedShares(windows, front), coin);
      }
    }
  }

  /** Every window cut to its newest `n` shares. */
  function Cut(windows: map<string, seq<Share>>, n: nat): map<string, seq<Share>> {
    map coin | coin in windows :: LastN(windows[coin], n)
  }

  /** Saving and loading under any window size keeps every ledger and the newest shares that fit. */
  lemma RestartCutsTheWindows(c: Config, st: State, order: seq<string>)
    requires c.Valid() && OwnWindows(st.windows) && Lists(order, st.windows.Keys)
    ensures Load(c, Save(st, order)) == st.(windows := Cut(st.windows, c.window))
  {
    var shares := SavedShares(st.windows, order);
    forall coin ensures Regrouped(shares, st.windows, coin) {
      SavedCoin(st.windows, order, coin);
    }
    SameWindows(shares, st.windows, c.window);
  }

  ghost predicate Regrouped(shares: seq<Share>, windows: map<string, seq<Share>>, coin: string) {
    && (coin in Coins(shares) <==> coin in windows)
    && (coin in windows ==> OfCoin(shares, coin) == windows[coin])
  }

  lemma SavedCoin(windows: map<string, seq<Share>>, order: seq<string>, coin: string)
    requires OwnWindows(windows) && Lists(order, windows.Keys)
    ensures Regrouped(SavedShares(windows, order), windows, coin)
  {
    SavedSharesOf(windows, order, coin);
    CoinHasShares(SavedShares(windows, order), coin);
  }

  lemma SameWindows(shares: seq<Share>, windows: map<string, seq<Share>>, n: nat)
    requires forall coin :: Regrouped(shares, windows, coin)
    ensures (map coin | coin in Coins(shares) :: LastN(OfCoin(shares, coin), n)) == Cut(windows, n)
  {
    forall coin
      ensures coin in Coins(shares) <==> coin in windows
      ensures coin in windows ==> OfCoin(shares, coin) == windows[coin]
    {
      assert Regrouped(shares, windows, coin);
    }
  }

  lemma CutAt(windows: map<string, seq<Share>>, n: nat, coin: string)
    ensures Window(Cut(windows, n), coin) == LastN(Window(windows, coin), n)
  {
  }

  lemma CutFits(windows: map<string, seq<Share>>, n: nat)
    requires n > 0 && OwnWindows(windows)
    ensures Cut(windows, n).Keys == windows.Keys && OwnWindows(Cut(windows, n))
    ensures forall k :: k in Cut(windows, n) ==> |Cut(windows, n)[k]| <= n
  {
    forall k | k in windows ensures OwnShares(LastN(windows[k], n), k) {
      assert OwnShares(windows[k], k);
    }
  }

  lemma CutOfFitting(windows: map<string, seq<Share>>, n: nat)
    requires forall k :: k in windows ==> |windows[k]| <= n
    ensures Cut(windows, n) == windows
  {
  }

  lemma AddAmounts(l: Ledger, coin: string, more: map<string, int>, k: string, w: string)
    ensures Amount(Add(l, coin, more), k, w) == Amount(l, k, w) + if k == coin && w in more then more[w] else 0
  {
  }

  /**
   What a block adds to a balance: for each worker with a share in the coin's window its part of the reward after the
   fee, by work, within half a unit; and nothing to any other, nor when the engine is off or the reward not positive.
   */
  lemma BlockPays(c: Config, st: State, coin: string, reward: real, k: string, w: string)
    requires c.Valid() && OwnShares(Window(st.windows, coin), coin)
    ensures var shares := Window(st.windows, coin);
      var added := Amount(Found(c, st, coin, reward).pending, k, w) - Amount(st.pending, k, w);
      if c.enabled && reward > 0.0 && k == coin && exists i :: 0 <= i < |shares| && shares[i].worker == w
      then added >= 0 && IsCut(added, reward, c.feePercent, Work(shares, coin, w), TotalWeight(shares, coin))
      else added == 0
  {
    var shares := Window(st.windows, coin);
    AddAmounts(st.pending, coin, Credits(c, shares, coin, reward), k, w);
    BlockCreditsNobodyIff(c, shares, coin, reward);
    if c.enabled && reward > 0.0 && shares != [] {
      CreditIsProportional(c, shares, coin, reward, w);
    }
  }

  // ----- the books always balance -----

  /** Whatever was credited to an address is either still pending or was sent to it, and both totals say so. */
  ghost predicate Conserved(b: Books) {
    forall k, w ::
      && Amount(b.st.pending, k, w) + Amount(b.st.paid, k, w) == Amount(b.credited, k, w)
      && Amount(b.st.paid, k, w) == SentTo(b.sent, k, w)
  }

  ghost predicate LogIsNewest(b: Books) {
    b.st.payouts == Newest(b.sent)
  }

  /** Each window holds shares of its own coin, no more than the configuration allows. */
  ghost predicate Fits(b: Books) {
    && b.st.windows.Keys == b.recorded.Keys && OwnWindows(b.st.windows)
    && forall k :: k in b.st.windows ==> |b.st.windows[k]| <= b.c.window
  }

  lemma StepConserves(b: Books, e: Event)
    requires b.c.Valid() && !e.Restart? && Conserved(b)
    ensures Conserved(Step(b, e))
  {
    var c, next := b.c, Step(b, e);
    forall k, w
      ensures Amount(next.st.pending, k, w) + Amount(next.st.paid, k, w) == Amount(next.credited, k, w)
      ensures Amount(next.st.paid, k, w) == SentTo(next.sent, k, w)
    {
      assert Amount(b.st.pending, k, w) + Amount(b.st.paid, k, w) == Amount(b.credited, k, w);
      match e
      case Submit(_, _, _, _) =>
      case Block(coin, reward) =>
        AddAmounts(b.st.pending, coin, Credits(c, Window(b.st.windows, coin), coin, reward), k, w);
        AddAmounts(b.credited, coin, Credits(c, Window(b.st.windows, coin), coin, reward), k, w);
      case PayoutRound(order, rpcs, at) =>
        RoundSettles(c, b.st, order, rpcs, at, k, w);
        SentToSplits(Sends(c, b.st, order, rpcs, at), b.sent, k, w);
    }
  }

  lemma StepKeepsTheLog(b: Books, e: Event)
    requires b.c.Valid() && !e.Restart? && LogIsNewest(b)
    ensures LogIsNewest(Step(b, e))
  {
    if e.PayoutRound? && b.c.enabled {
      RoundLogs(b.c, b.st, e.order, e.rpcs, e.at);
      NewestAbsorbs(Sends(b.c, b.st, e.order, e.rpcs, e.at), b.sent);
    }
  }

  // ----- windows and the shares recorded for them -----

  lemma SubmitFits(b: Books, e: Event)
    requires b.c.Valid() && e.Submit? && Fits(b)
    ensures Fits(Step(b, e))
  {
    if Accepts(b.c, e.coin, e.worker, e.difficulty) {
      var log := Window(b.st.windows, e.coin);
      assert OwnShares(log, e.coin);
      assert OwnShares(log + [Share(e.worker, e.coin, e.difficulty, e.at)], e.coin);
    }
  }

  /** What an event records for a coin. */
  function Recorded(c: Config, e: Event, coin: string): seq<Share> {
    if e.Submit? && e.coin == coin && Accepts(c, coin, e.worker, e.difficulty)
    then [Share(e.worker, coin, e.difficulty, e.at)]
    else []
  }

  lemma SubmitRecords(b: Books, e: Event, coin: string)
    requires b.c.Valid() && e.Submit? && Fits(b)
    ensures Step(b, e).c == b.c
    ensures Window(Step(b, e).recorded, coin) == Window(b.recorded, coin) + Recorded(b.c, e, coin)
    ensures Window(Step(b, e).st.windows, coin)
         == LastN(Window(b.st.windows, coin) + Recorded(b.c, e, coin), b.c.window)
  {
    if Recorded(b.c, e, coin) == [] {
      assert Window(b.recorded, coin) + [] == Window(b.recorded, coin);
      assert Window(b.st.windows, coin) + [] == Window(b.st.windows, coin);
    }
  }

  /** A restart, under whatever configuration: shares beyond the new window are lost, and nothing else changes. */
  lemma RestartCuts(b: Books, e: Event)
    requires b.c.Valid() && e.Restart? && Fits(b) && Legal(b, e)
    ensures Step(b, e) == b.(c := e.config.Defaults(),
                             st := b.st.(windows := Cut(b.st.windows, e.config.Defaults().window)))
  {
    RestartCutsTheWindows(e.config.Defaults(), b.st, e.coins);
  }

  lemma RestartFits(b: Books, e: Event)
    requires b.c.Valid() && e.Restart? && Fits(b) && Legal(b, e)
    ensures Fits(Step(b, e))
  {
    RestartCuts(b, e);
    CutFits(b.st.windows, e.config.Defaults().window);
  }

  /** Other events leave windows and records alone. */
  lemma OthersFit(b: Books, e: Event)
    requires b.c.Valid() && (e.Block? || e.PayoutRound?) && Fits(b)
    ensures var next := Step(b, e);
      Fits(next) && next.c == b.c && next.st.windows == b.st.windows && next.recorded == b.recorded
  {
    if e.PayoutRound? {
      RoundLogs(b.c, b.st, e.order, e.rpcs, e.at);
    }
  }

  lemma StepFits(b: Books, e: Event)
    requires b.c.Valid() && Fits(b) && Legal(b, e)
    ensures Fits(Step(b, e))
  {
    match e
    case Submit(_, _, _, _) => SubmitFits(b, e);
    case Restart(_, _) => RestartFits(b, e);
    case _ => OthersFit(b, e);
  }

  /** A restart that keeps the window size and the other settings changes nothing at all. */
  lemma RestartIsInvisible(b: Books, e: Event)
    requires b.c.Valid() && e.Restart? && Fits(b) && Legal(b, e) && e.config.Defaults() == b.c
    ensures Step(b, e) == b
  {
    RestartCuts(b, e);
    CutOfFitting(b.st.windows, b.c.window);
  }

  /** `window` is the end of `log`. */
  predicate IsEnd<T(==)>(window: seq<T>, log: seq<T>) {
    |window| <= |log| && window == log[|log| - |window|..]
  }

  lemma EndOfEnd<T>(window: seq<T>, log: seq<T>, n: nat)
    requires IsEnd(window, log)
    ensures IsEnd(LastN(window, n), log)
  {
  }

  lemma EndGrows<T>(window: seq<T>, log: seq<T>, more: seq<T>, n: nat)
    requires IsEnd(window, log)
    ensures IsEnd(LastN(window + more, n), log + more)
  {
  }

  /** Each window is the end of what was recorded for its coin. */
  ghost predicate Recent(b: Books) {
    forall coin :: IsEnd(Window(b.st.windows, coin), Window(b.recorded, coin))
  }

  lemma CutStaysRecent(b: Books, e: Event, coin: string)
    requires b.c.Valid() && Fits(b) && e.Restart? && Legal(b, e)
    requires IsEnd(Window(b.st.windows, coin), Window(b.recorded, coin))
    ensures IsEnd(Window(Step(b, e).st.windows, coin), Window(Step(b, e).recorded, coin))
  {
    RestartCuts(b, e);
    CutAt(b.st.windows, e.config.Defaults().window, coin);
    EndOfEnd(Window(b.st.windows, coin), Window(b.recorded, coin), e.config.Defaults().window);
  }

  lemma WindowStaysRecent(b: Books, e: Event, coin: string)
    requires b.c.Valid() && Fits(b) && Legal(b, e)
    requires IsEnd(Window(b.st.windows, coin), Window(b.recorded, coin))
    ensures IsEnd(Window(Step(b, e).st.windows, coin), Window(Step(b, e).recorded, coin))
  {
    match e
    case Submit(_, _, _, _) =>
      SubmitRecords(b, e, coin);
      EndGrows(Window(b.st.windows, coin), Window(b.recorded, coin), Recorded(b.c, e, coin), b.c.window);
    case Restart(_, _) =>
      CutStaysRecent(b, e, coin);
    case _ =>
      OthersFit(b, e);
  }

  lemma StepKeepsRecent(b: Books, e: Event)
    requires b.c.Valid() && Fits(b) && Legal(b, e) && Recent(b)
    ensures Recent(Step(b, e))
  {
    forall coin ensures IsEnd(Window(Step(b, e).st.windows, coin), Window(Step(b, e).recorded, coin)) {
      WindowStaysRecent(b, e, coin);
    }
  }

  ghost predicate Balanced(b: Books) {
    Conserved(b) && LogIsNewest(b) && Fits(b) && Recent(b)
  }

  lemma RestartBalances(b: Books, e: Event)
    requires b.c.Valid() && e.Restart? && Legal(b, e) && Fits(b) && Conserved(b) && LogIsNewest(b)
    ensures Conserved(Step(b, e)) && LogIsNewest(Step(b, e))
  {
    RestartCuts(b, e);
  }

  lemma StepBalances(b: Books, e: Event)
    requires b.c.Valid() && Balanced(b) && Legal(b, e)
    ensures Balanced(Step(b, e))
  {
    StepFits(b, e);
    StepKeepsRecent(b, e);
    if e.Restart? {
      RestartBalances(b, e);
    } else {
      StepConserves(b, e);
      StepKeepsTheLog(b, e);
    }
  }

  /**
   Over every run, restarts under other configurations included: credits are conserved per coin and address,
   lifetime totals are exactly what the wallets sent, the payout log is the newest 200 sends, and each window is
   the end of what was recorded for its own coin, within the configured size.
   */
  lemma {:induction false} EveryRunBalances(config: Config, events: seq<Event>)
    requires LegalRun(Opening(config), events)
    ensures Balanced(Run(Opening(config), events))
  {
    if events != [] {
      var front, e := events[..|events| - 1], events[|events| - 1];
      EveryRunBalances(config, front);
      StepBalances(Run(Opening(config), front), e);
    }
  }

  // ----- how much of its history a window holds, read off the events -----

  function Min(a: nat, b: nat): nat {
    if a < b then a else b
  }

  /** The window for a coin is the last shares of all that were ever recorded for it. */
  ghost predicate Exact(b: Books, coin: string)
    requires b.c.Valid()
  {
    Window(b.st.windows, coin) == LastN(Window(b.recorded, coin), b.c.window)
  }

  /** The configuration in force. */
  function ConfigAfter(config: Config, events: seq<Event>): (c: Config)
    ensures c.Valid()
  {
    if events == [] then config.Defaults()
    else
      var e := events[|events| - 1];
      if e.Restart? then e.config.Defaults() else ConfigAfter(config, events[..|events| - 1])
  }

  /** How many shares of a coin were recorded. */
  function Counted(config: Config, events: seq<Event>, coin: string): nat {
    if events == [] then 0
    else
      var front := events[..|events| - 1];
      Counted(config, front, coin) + |Recorded(ConfigAfter(config, front), events[|events| - 1], coin)|
  }

  /** How many its window holds: one more at each share recorded, and never more than the size in force. */
  function Retained(config: Config, events: seq<Event>, coin: string): nat {
    if events == [] then 0
    else
      var front := events[..|events| - 1];
      var more := |Recorded(ConfigAfter(config, front), events[|events| - 1], coin)|;
      Min(Retained(config, front, coin) + more, ConfigAfter(config, events).window)
  }

  lemma StepCounts(b: Books, e: Event, coin: string)
    requires b.c.Valid() && Fits(b) && Legal(b, e)
    ensures var next, more := Step(b, e), |Recorded(b.c, e, coin)|;
      && next.c == (if e.Restart? then e.config.Defaults() else b.c)
      && |Window(next.recorded, coin)| == |Window(b.recorded, coin)| + more
      && |Window(next.st.windows, coin)| == Min(|Window(b.st.windows, coin)| + more, next.c.window)
  {
    match e
    case Submit(_, _, _, _) =>
      SubmitRecords(b, e, coin);
    case Restart(config, _) =>
      RestartCuts(b, e);
      CutAt(b.st.windows, config.Defaults().window, coin);
    case _ =>
      OthersFit(b, e);
  }

  lemma {:induction false} RunCounts(config: Config, events: seq<Event>, coin: string)
    requires LegalRun(Opening(config), events)
    ensures var b := Run(Opening(config), events);
      && b.c == ConfigAfter(config, events)
      && |Window(b.recorded, coin)| == Counted(config, events, coin)
      && |Window(b.st.windows, coin)| == Retained(config, events, coin)
  {
    if events != [] {
      var front, e := events[..|events| - 1], events[|events| - 1];
      RunCounts(config, front, coin);
      EveryRunBalances(config, front);
      StepCounts(Run(Opening(config), front), e, coin);
    }
  }

  lemma EndIsLastIff<T>(window: seq<T>, log: seq<T>, n: nat)
    requires IsEnd(window, log)
    ensures window == LastN(log, n) <==> |window| == Min(|log|, n)
  {
  }

  /**
   Over every run, restarts under any configurations included, a window is the last shares of its coin's whole
   history if and only if it holds as many as there were, or as many as fit; and how many it holds follows from the
   sequence of shares and window sizes alone.
   */
  lemma WindowIsExactIff(config: Config, events: seq<Event>, coin: string)
    requires LegalRun(Opening(config), events)
    ensures Exact(Run(Opening(config), events), coin)
       <==> Retained(config, events, coin) == Min(Counted(config, events, coin), ConfigAfter(config, events).window)
  {
    var b := Run(Opening(config), events);
    EveryRunBalances(config, events);
    RunCounts(config, events, coin);
    assert IsEnd(Window(b.st.windows, coin), Window(b.recorded, coin));
    EndIsLastIff(Window(b.st.windows, coin), Window(b.recorded, coin), b.c.window);
  }

  const ONE_SHARE := Config(true, 1, 0.0, map[])
  const TWO_SHARES := Config(true, 2, 0.0, map[])
  const TWICE := [Submit("BTC", "w", 1.0, 1), Submit("BTC", "w", 1.0, 2)]
  const GROW := Restart(TWO_SHARES, ["BTC"])

  lemma TwiceIsLegal()
    ensures LegalRun(Opening(ONE_SHARE), TWICE) && Legal(Run(Opening(ONE_SHARE), TWICE), GROW)
    ensures TWICE + [GROW] != [] && (TWICE + [GROW])[..2] == TWICE && (TWICE + [GROW])[2] == GROW
  {
    var one := [TWICE[0]];
    assert TWICE[..1] == one && one[..0] == [];
    var b := Step(Opening(ONE_SHARE), TWICE[0]);
    assert b == Run(Opening(ONE_SHARE), one);
    assert Run(Opening(ONE_SHARE), TWICE) == Step(b, TWICE[1]);
    assert Step(b, TWICE[1]).st.windows.Keys == {"BTC"};
  }

  lemma TwiceCounts()
    ensures var all := TWICE + [GROW];
      && Retained(ONE_SHARE, TWICE, "BTC") == 1 && Counted(ONE_SHARE, TWICE, "BTC") == 2
      && Retained(ONE_SHARE, all, "BTC") == 1 && Counted(ONE_SHARE, all, "BTC") == 2
  {
    var all := TWICE + [GROW];
    assert TWICE[..1] == [TWICE[0]] && [TWICE[0]][..0] == [];
    assert all[..2] == TWICE && all[2] == GROW;
    assert Retained(ONE_SHARE, [TWICE[0]], "BTC") == 1 && Counted(ONE_SHARE, [TWICE[0]], "BTC") == 1;
  }

  /** It fails when a window grows: the share dropped by the smaller one does not come back. */
  lemma GrownWindowForgets()
    ensures var b, all := Run(Opening(ONE_SHARE), TWICE), TWICE + [GROW];
      && LegalRun(Opening(ONE_SHARE), all)
      && Exact(b, "BTC") && !Exact(Run(Opening(ONE_SHARE), all), "BTC")
  {
    TwiceIsLegal();
    TwiceCounts();
    WindowIsExactIff(ONE_SHARE, TWICE, "BTC");
    WindowIsExactIff(ONE_SHARE, TWICE + [GROW], "BTC");
  }

  // ----- windows across restarts with other sizes -----

  /** Every restart keeps this window size; the other settings may change. */
  predicate KeepsWindow(events: seq<Event>, n: int) {
    forall i :: 0 <= i < |events| && events[i].Restart? ==> events[i].config.Defaults().window == n
  }

  /** From `b` on, the window for a coin has taken in everything recorded since. */
  ghost predicate Slid(b: Books, after: Books, coin: string)
    requires after.c.Valid()
  {
    && Window(b.recorded, coin) <= Window(after.recorded, coin)
    && Window(after.st.windows, coin)
       == LastN(Window(b.st.windows, coin) + Window(after.recorded, coin)[|Window(b.recorded, coin)|..], after.c.window)
  }

  lemma SlidFurther(w: seq<Share>, was: seq<Share>, log: seq<Share>, more: seq<Share>, n: nat)
    requires was <= log
    ensures was <= log + more
    ensures LastN(LastN(w + log[|was|..], n) + more, n) == LastN(w + (log + more)[|was|..], n)
  {
    LastNAbsorbs(w + log[|was|..], more, n);
    assert (log + more)[|was|..] == log[|was|..] + more;
    assert w + (log[|was|..] + more) == (w + log[|was|..]) + more;
  }

  lemma StepSlides(b: Books, mid: Books, e: Event, coin: string)
    requires mid.c.Valid() && Fits(mid) && Legal(mid, e) && Slid(b, mid, coin)
    requires e.Restart? ==> e.config.Defaults().window == mid.c.window
    ensures Slid(b, Step(mid, e), coin) && Step(mid, e).c.window == mid.c.window
  {
    match e
    case Submit(_, _, _, _) =>
      SubmitRecords(mid, e, coin);
      SlidFurther(Window(b.st.windows, coin), Window(b.recorded, coin), Window(mid.recorded, coin),
                  Recorded(mid.c, e, coin), mid.c.window);
    case Restart(_, _) =>
      RestartCuts(mid, e);
      CutOfFitting(mid.st.windows, mid.c.window);
    case _ =>
      OthersFit(mid, e);
  }

  lemma {:induction false} WindowSlides(b: Books, events: seq<Event>, coin: string)
    requires b.c.Valid() && Fits(b) && LegalRun(b, events) && KeepsWindow(events, b.c.window)
    ensures var after := Run(b, events);
      Fits(after) && after.c.window == b.c.window && Slid(b, after, coin)
  {
    if events == [] {
      assert Window(b.st.windows, coin) + [] == Window(b.st.windows, coin);
    } else {
      var front, e := events[..|events| - 1], events[|events| - 1];
      WindowSlides(b, front, coin);
      StepFits(Run(b, front), e);
      StepSlides(b, Run(b, front), e, coin);
    }
  }

  /** As long as restarts keep the window size, each window is the last shares of the whole history. */
  lemma SteadyRunIsExact(config: Config, events: seq<Event>, coin: string)
    requires LegalRun(Opening(config), events) && KeepsWindow(events, config.Defaults().window)
    ensures Exact(Run(Opening(config), events), coin)
  {
    WindowSlides(Opening(config), events, coin);
    SlidFromNothing(Opening(config), Run(Opening(config), events), coin);
  }

  lemma SlidFromNothing(b: Books, after: Books, coin: string)
    requires after.c.Valid() && Slid(b, after, coin)
    requires Window(b.st.windows, coin) == [] && Window(b.recorded, coin) == []
    ensures Exact(after, coin)
  {
    var log := Window(after.recorded, coin);
    assert [] + log[0..] == log;
  }

  /** Cutting to `m`, and later to more than `m`: what is missing is whatever the first cut dropped. */
  lemma GrownCut(history: seq<Share>, more: seq<Share>, m: nat, n: nat)
    requires m < |history| && m < n
    ensures LastN(LastN(history, m) + more, n) == LastN(history + more, n) <==> |more| >= n - m
  {
    var kept := LastN(history, m);
    if |more| >= n - m {
      assert history + more == history[..|history| - m] + (kept + more);
      LongTail(history[..|history| - m], kept + more, n);
    } else {
      assert |LastN(kept + more, n)| < |LastN(history + more, n)|;
    }
  }

  lemma LongTail(front: seq<Share>, tail: seq<Share>, n: nat)
    requires |tail| >= n
    ensures LastN(front + tail, n) == LastN(tail, n)
  {
  }

  lemma CutsAgreeIff(history: seq<Share>, more: seq<Share>, m: nat, n: nat)
    ensures LastN(LastN(history, m) + more, n) == LastN(history + more, n)
       <==> n <= m || |history| <= m || |more| >= n - m
  {
    if n <= m {
      LastNShrinks(history, m, n);
      LastNAbsorbs(LastN(history, m), more, n);
      LastNAbsorbs(history, more, n);
    } else if |history| > m {
      GrownCut(history, more, m, n);
    }
  }

  /**
   After a restart with another window size, a coin's window is again the last shares of its whole history if and
   only if the window did not grow, or it had not dropped any share yet, or at least as many shares have been
   recorded since as it grew by.
   */
  lemma ReconfiguredWindowIsExactIff(b: Books, restart: Event, events: seq<Event>, coin: string)
    requires b.c.Valid() && Fits(b) && Exact(b, coin) && restart.Restart? && Legal(b, restart)
    requires LegalRun(Step(b, restart), events) && KeepsWindow(events, restart.config.Defaults().window)
    ensures Exact(Run(Step(b, restart), events), coin) <==> Recovered(b, Run(Step(b, restart), events), coin)
  {
    RestartCuts(b, restart);
    RestartFits(b, restart);
    CutAt(b.st.windows, restart.config.Defaults().window, coin);
    WindowSlides(Step(b, restart), events, coin);
    SlidIsExactIff(b, Step(b, restart), Run(Step(b, restart), events), coin);
  }

  ghost predicate Recovered(b: Books, after: Books, coin: string) {
    || after.c.window <= b.c.window
    || |Window(b.recorded, coin)| <= b.c.window
    || |Window(after.recorded, coin)| - |Window(b.recorded, coin)| >= after.c.window - b.c.window
  }

  lemma SlidIsExactIff(b: Books, cut: Books, after: Books, coin: string)
    requires b.c.Valid() && Exact(b, coin) && after.c.Valid() && Slid(cut, after, coin)
    requires cut.recorded == b.recorded
    requires Window(cut.st.windows, coin) == LastN(Window(b.st.windows, coin), after.c.window)
    ensures Exact(after, coin) <==> Recovered(b, after, coin)
  {
    var log := Window(b.recorded, coin);
    var more := Window(after.recorded, coin)[|log|..];
    assert log + more == Window(after.recorded, coin);
    LastNAbsorbs(Window(b.st.windows, coin), more, after.c.window);
    CutsAgreeIff(log, more, b.c.window, after.c.window);
  }
}
