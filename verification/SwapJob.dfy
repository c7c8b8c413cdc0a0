/**
 One auto-swap: send a mined coin to an exchange, sell it for BTC, buy the destination coin, withdraw.
 A job moves on only when a tick visits it; what the exchange answers during a visit is arbitrary.
 (internal/swap/engine.go, the advance, place and withdraw functions)
 */
module SwapJob {
  import opened Text
  import opened Wrappers

  /** Time and durations in nanoseconds. */
  const HOUR := 3_600_000_000_000

  datatype State = Idle | Sending | WaitDeposit | Selling | Buying | Withdrawing | Complete | Failed {
    predicate Terminal() {
      Complete? || Failed?
    }

    /** Position along the way; the two terminal states stand at the end. */
    function Rank(): nat {
      match this
      case Idle => 0
      case Sending => 1
      case WaitDeposit => 2
      case Selling => 3
      case Buying => 4
      case Withdrawing => 5
      case _ => 6
    }
  }

  /** Bookkeeping of the model only: how often this job moved money with success. */
  datatype Tally = Tally(sends: nat, sells: nat, buys: nat, withdrawals: nat)

  datatype Job = Job(id: string, source: string, dest: string, amount: real, state: State,
                     sellOrder: string, buyOrder: string, sellPrice: real, buyPrice: real,
                     proceeds: real, received: real, createdAt: int, updatedAt: int, tally: Tally)

  /** The exchange's answers to the calls one visit may make; None is an error. */
  datatype Replies = Replies(sourceBalance: Option<real>, bid: Option<real>, sell: Option<string>,
                             sellFilled: Option<bool>, btcBalance: Option<real>, ask: Option<real>,
                             buy: Option<string>, buyFilled: Option<bool>, destBalance: Option<real>,
                             withdraw: bool)

  /** What a visit sees: the clock, the answers, and whether a withdrawal address is configured. */
  datatype Visit = Visit(now: int, replies: Replies, hasAddress: bool)

  predicate IsBTC(coin: string) {
    Upper(coin) == "BTC"
  }

  function Fail(job: Job, now: int): Job {
    job.(state := Failed, updatedAt := now)
  }

  /** A refused or missing withdrawal is left to the operator; the job is complete either way. */
  function InitiateWithdraw(job: Job, v: Visit): Job {
    var sent := v.hasAddress && v.replies.withdraw;
    job.(state := Complete, updatedAt := v.now,
         tally := job.tally.(withdrawals := job.tally.withdrawals + if sent then 1 else 0))
  }

  function PlaceBuyOrder(job: Job, v: Visit): Job {
    if IsBTC(job.dest) then InitiateWithdraw(job.(state := Withdrawing), v)
    else if v.replies.ask.None? || v.replies.ask.value <= 0.0 || v.replies.buy.None? then Fail(job, v.now)
    else job.(buyOrder := v.replies.buy.value, buyPrice := v.replies.ask.value * 1.005, state := Buying,
              updatedAt := v.now, tally := job.tally.(buys := job.tally.buys + 1))
  }

  function PlaceSellOrder(job: Job, available: real, v: Visit): Job {
    if IsBTC(job.source) then PlaceBuyOrder(job.(proceeds := available, state := Buying, updatedAt := v.now), v)
    else if v.replies.bid.None? || v.replies.bid.value <= 0.0 || v.replies.sell.None? then Fail(job, v.now)
    else job.(sellOrder := v.replies.sell.value, sellPrice := v.replies.bid.value * 0.995, state := Selling,
              updatedAt := v.now, tally := job.tally.(sells := job.tally.sells + 1))
  }

  function AdvanceWaitDeposit(job: Job, v: Visit): Job {
    match v.replies.sourceBalance
    case None => job
    case Some(available) =>
      if available < job.amount * 0.95 then
        if v.now - job.createdAt > 6 * HOUR then Fail(job, v.now) else job
      else PlaceSellOrder(job, available, v)
  }

  function AdvanceSelling(job: Job, v: Visit): Job {
    match v.replies.sellFilled
    case None => job
    case Some(false) => if v.now - job.updatedAt > 2 * HOUR then Fail(job, v.now) else job
    case Some(true) =>
      match v.replies.btcBalance
      case None => job
      case Some(btc) =>
        var sold := job.(proceeds := btc, updatedAt := v.now);
        if IsBTC(job.dest) then InitiateWithdraw(sold.(state := Withdrawing), v)
        else PlaceBuyOrder(sold.(state := Buying), v)
  }

  function AdvanceBuying(job: Job, v: Visit): Job {
    if job.buyOrder == "" then PlaceBuyOrder(job, v)
    else
      match v.replies.buyFilled
      case None => job
      case Some(false) => if v.now - job.updatedAt > 2 * HOUR then Fail(job, v.now) else job
      case Some(true) =>
        var received := match v.replies.destBalance case None => job.received case Some(b) => b;
        InitiateWithdraw(job.(received := received, state := Withdrawing, updatedAt := v.now), v)
  }

  /** One visit; a job in a terminal state is not visited. */
  function Advance(job: Job, v: Visit): Job {
    match job.state
    case WaitDeposit => AdvanceWaitDeposit(job, v)
    case Selling => AdvanceSelling(job, v)
    case Buying => AdvanceBuying(job, v)
    case Withdrawing => InitiateWithdraw(job, v)
    case _ => job
  }

  // ----- Starting a job -----

  datatype Rule = Rule(enabled: bool, destination: string, minBalance: real, keepBalance: real)

  /** What the wallet and the configuration answer when a coin is checked. */
  datatype WalletReplies = WalletReplies(hasWallet: bool, confirmed: Option<real>, hasDepositAddress: bool,
                                         hasMarket: bool, send: Option<string>)

  function NewJob(id: string, coin: string, rule: Rule, amount: real, now: int, sent: bool): Job {
    Job(id, coin, rule.destination, amount, if sent then WaitDeposit else Failed, "", "", 0.0, 0.0, 0.0, 0.0, now, now,
        Tally(if sent then 1 else 0, 0, 0, 0))
  }

  /** The job a check starts, if it starts one; a failed send leaves a failed job behind. */
  function Begin(id: string, coin: string, rule: Rule, w: WalletReplies, now: int): Option<Job> {
    if !w.hasWallet || w.confirmed.None? then None
    else
      var amount := w.confirmed.value - rule.keepBalance;
      if amount < rule.minBalance || !w.hasDepositAddress || !w.hasMarket then None
      else Some(NewJob(id, coin, rule, amount, now, w.send.Some?))
  }

  // ----- What every visit keeps -----

  predicate OrderIdsGiven(v: Visit) {
    v.replies.buy != Some("")
  }

  /**
   A job between visits: never caught in the middle of sending or withdrawing, and its money was moved exactly as far
   as its state says.  With `ids` every accepted buy came with an order id; without, buys may have been repeated.
   */
  predicate Consistent(job: Job, ids: bool) {
    var t := job.tally;
    match job.state
    case WaitDeposit => t == Tally(1, 0, 0, 0)
    case Selling => !IsBTC(job.source) && t == Tally(1, 1, 0, 0)
    case Buying =>
      && !IsBTC(job.dest) && Bought(t, ids) && (ids ==> job.buyOrder != "")
      && t.sends == 1 && t.withdrawals == 0
      && t.sells == (if IsBTC(job.source) then 0 else 1)
    case Complete =>
      && t.sends == 1 && t.withdrawals <= 1
      && t.sells == (if IsBTC(job.source) then 0 else 1)
      && (if IsBTC(job.dest) then t.buys == 0 else Bought(t, ids))
    case Failed => t.sends <= 1 && t.sells <= 1 && t.withdrawals == 0 && (ids ==> t.buys <= 1)
    case _ => false
  }

  predicate Bought(t: Tally, ids: bool) {
    t.buys >= 1 && (ids ==> t.buys == 1)
  }

  predicate SameOrigin(a: Job, b: Job) {
    a.id == b.id && a.source == b.source && a.dest == b.dest && a.amount == b.amount && a.createdAt == b.createdAt
  }

  /** What a step keeps of a job: its origin, the tally in step with the state, and the direction. */
  predicate Forward(job: Job, next: Job, ids: bool) {
    Consistent(next, ids) && next.state.Rank() >= job.state.Rank() && SameOrigin(job, next)
  }

  lemma BuyingIsConsistent(job: Job, v: Visit, ids: bool)
    requires (ids ==> OrderIdsGiven(v)) && job.state.Buying?
    requires job.tally == Tally(1, if IsBTC(job.source) then 0 else 1, 0, 0)
    ensures Forward(job, PlaceBuyOrder(job, v), ids)
  {
  }

  lemma WaitingMovesForward(job: Job, v: Visit, ids: bool)
    requires Consistent(job, ids) && (ids ==> OrderIdsGiven(v)) && job.state.WaitDeposit?
    ensures Forward(job, AdvanceWaitDeposit(job, v), ids)
  {
    if IsBTC(job.source) && v.replies.sourceBalance.Some? {
      var funded := job.(proceeds := v.replies.sourceBalance.value, state := Buying, updatedAt := v.now);
      BuyingIsConsistent(funded, v, ids);
    }
  }

  lemma SellingMovesForward(job: Job, v: Visit, ids: bool)
    requires Consistent(job, ids) && (ids ==> OrderIdsGiven(v)) && job.state.Selling?
    ensures Forward(job, AdvanceSelling(job, v), ids)
  {
    if v.replies.btcBalance.Some? {
      var sold := job.(proceeds := v.replies.btcBalance.value, state := Buying, updatedAt := v.now);
      BuyingIsConsistent(sold, v, ids);
    }
  }

  lemma BuyingMovesForward(job: Job, v: Visit, ids: bool)
    requires Consistent(job, ids) && job.state.Buying?
    ensures Forward(job, AdvanceBuying(job, v), ids)
  {
  }

  /** No money is moved twice: each visit keeps the tally in step with the state, which only moves forward. */
  lemma AdvanceKeepsConsistent(job: Job, v: Visit, ids: bool)
    requires Consistent(job, ids) && (ids ==> OrderIdsGiven(v))
    ensures Consistent(Advance(job, v), ids)
    ensures Advance(job, v).state.Rank() >= job.state.Rank()
    ensures SameOrigin(job, Advance(job, v))
    ensures job.state.Terminal() ==> Advance(job, v) == job
  {
    match job.state
    case WaitDeposit => WaitingMovesForward(job, v, ids);
    case Selling => SellingMovesForward(job, v, ids);
    case Buying => BuyingMovesForward(job, v, ids);
    case _ =>
  }

  lemma BeginIsConsistent(id: string, coin: string, rule: Rule, w: WalletReplies, now: int)
    ensures Begin(id, coin, rule, w, now).Some? ==>
      var job := Begin(id, coin, rule, w, now).value;
      Consistent(job, true) && job.source == coin && (job.state.WaitDeposit? || job.state.Failed?)
  {
  }

  /** One send, one sell and one withdrawal at most; with order ids also one buy. */
  predicate AtMostOnce(t: Tally, ids: bool) {
    t.sends <= 1 && t.sells <= 1 && t.withdrawals <= 1 && (ids ==> t.buys <= 1)
  }

  /**
   Order ids matter: a buy accepted without an id is placed again at the next visit. So a visit
   buys a second time exactly when the first buy has no id and the exchange accepts once more.
   */
  lemma BuysAgainOnlyWithoutId(job: Job, v: Visit)
    requires job.state.Buying? && !IsBTC(job.dest)
    ensures Advance(job, v).tally.buys > job.tally.buys <==>
      job.buyOrder == "" && v.replies.buy.Some? && v.replies.ask.Some? && v.replies.ask.value > 0.0
  {
  }

  lemma EmptyIdBuysTwice(job: Job, v: Visit)
    requires job.state.WaitDeposit? && IsBTC(job.source) && !IsBTC(job.dest)
    requires job.buyOrder == "" && job.tally == Tally(1, 0, 0, 0)
    requires v.replies.sourceBalance == Some(job.amount) && job.amount > 0.0
    requires v.replies.ask == Some(1.0) && v.replies.buy == Some("")
    ensures Advance(Advance(job, v), v).tally.buys == 2
  {
  }

  // ----- What each move needs -----

  /** A job starts for what is in the wallet beyond what is to be kept, if that is enough and can be exchanged. */
  lemma BeginsWithTheSurplus(id: string, coin: string, rule: Rule, w: WalletReplies, now: int)
    ensures Begin(id, coin, rule, w, now).Some? <==>
      w.hasWallet && w.hasDepositAddress && w.hasMarket && w.confirmed.Some?
      && w.confirmed.value >= rule.keepBalance + rule.minBalance
    ensures Begin(id, coin, rule, w, now).Some? ==>
      var job := Begin(id, coin, rule, w, now).value;
      && job.source == coin && job.dest == rule.destination && job.amount + rule.keepBalance == w.confirmed.value
      && job.createdAt == now
      && (if w.send.Some? then job.state == WaitDeposit && job.tally.sends == 1
          else job.state == Failed && job.tally.sends == 0)
  {
  }

  /** A waiting job moves on exactly when at least 95% of its amount is there; after six hours without, it fails. */
  lemma WaitsForItsDeposit(job: Job, v: Visit)
    requires job.state.WaitDeposit?
    ensures var next := Advance(job, v);
      match v.replies.sourceBalance
      case None => next == job
      case Some(balance) =>
        if 100.0 * balance >= 95.0 * job.amount then !next.state.WaitDeposit?
        else if v.now <= job.createdAt + 6 * 3_600_000_000_000 then next == job
        else next.state.Failed? && next.tally == job.tally
  {
  }

  /** A credited job sells half a percent below the bid; bitcoin is not sold but spent at once. */
  lemma SellsWhatWasDeposited(job: Job, v: Visit)
    requires job.state.WaitDeposit? && v.replies.sourceBalance.Some?
    requires 100.0 * v.replies.sourceBalance.value >= 95.0 * job.amount
    ensures Upper(job.source) != "BTC" ==>
      var next := Advance(job, v);
      if v.replies.bid.Some? && v.replies.bid.value > 0.0 && v.replies.sell.Some? then
        && next.state.Selling? && next.sellOrder == v.replies.sell.value
        && 1000.0 * next.sellPrice == 995.0 * v.replies.bid.value
        && next.tally == job.tally.(sells := job.tally.sells + 1)
      else next.state.Failed? && next.tally == job.tally
    ensures Upper(job.source) == "BTC" ==>
      var next := Advance(job, v);
      && next.proceeds == v.replies.sourceBalance.value && next.tally.sells == job.tally.sells
      && MovesBitcoin(job, v, next)
  {
  }

  /** What happens to bitcoin in hand: withdrawn, spent half a percent above the ask, or left on a failed job. */
  ghost predicate MovesBitcoin(job: Job, v: Visit, next: Job) {
    if Upper(job.dest) == "BTC" then
      next.state.Complete? && next.tally.buys == job.tally.buys && Withdrawn(job, v, next)
    else if v.replies.ask.Some? && v.replies.ask.value > 0.0 && v.replies.buy.Some? then
      && next.state.Buying? && next.buyOrder == v.replies.buy.value && next.tally.buys == job.tally.buys + 1
      && 1000.0 * next.buyPrice == 1005.0 * v.replies.ask.value && next.tally.withdrawals == job.tally.withdrawals
    else next.state.Failed? && next.tally.buys == job.tally.buys && next.tally.withdrawals == job.tally.withdrawals
  }

  /** A withdrawal is sent when an address is configured and the exchange takes it. */
  ghost predicate Withdrawn(job: Job, v: Visit, next: Job) {
    next.tally.withdrawals == job.tally.withdrawals + if v.hasAddress && v.replies.withdraw then 1 else 0
  }

  /** A selling job moves on exactly when its order is reported filled and the bitcoin balance is known. */
  lemma WaitsForItsSale(job: Job, v: Visit)
    requires job.state.Selling?
    ensures var next := Advance(job, v);
      match v.replies.sellFilled
      case None => next == job
      case Some(false) =>
        if v.now <= job.updatedAt + 2 * 3_600_000_000_000 then next == job
        else next.state.Failed? && next.tally == job.tally
      case Some(true) =>
        if v.replies.btcBalance == None then next == job
        else
          && next.proceeds == v.replies.btcBalance.value && next.tally.sells == job.tally.sells
          && MovesBitcoin(job, v, next)
  {
  }

  /** A buying job completes exactly when its order is reported filled. */
  lemma WaitsForItsPurchase(job: Job, v: Visit)
    requires job.state.Buying? && job.buyOrder != ""
    ensures var next := Advance(job, v);
      match v.replies.buyFilled
      case None => next == job
      case Some(false) =>
        if v.now <= job.updatedAt + 2 * 3_600_000_000_000 then next == job
        else next.state.Failed? && next.tally == job.tally
      case Some(true) =>
        && next.state.Complete? && next.tally.buys == job.tally.buys && Withdrawn(job, v, next)
        && (v.replies.destBalance.Some? ==> next.received == v.replies.destBalance.value)
  {
  }

  /** Without an order id there is nothing to wait for: the bitcoin is spent again. */
  lemma SpendsAgainWithoutId(job: Job, v: Visit)
    requires job.state.Buying? && job.buyOrder == ""
    ensures MovesBitcoin(job, v, Advance(job, v)) && Advance(job, v).tally.sells == job.tally.sells
  {
  }

  // ----- Deadlines -----

  /** The polls that decide whether a job moves on got an answer. */
  predicate PollsAnswered(v: Visit) {
    var r := v.replies;
    r.sourceBalance.Some? && r.sellFilled.Some? && r.btcBalance.Some? && r.buyFilled.Some?
  }

  /** How long an active job may have been in its state, `d` being the longest gap between ticks. */
  predicate Punctual(job: Job, now: int, d: nat) {
    match job.state
    case WaitDeposit => now <= job.createdAt + 6 * HOUR
    case Selling => now <= job.updatedAt + 2 * HOUR && job.updatedAt <= job.createdAt + 6 * HOUR + d
    case Buying => now <= job.updatedAt + 2 * HOUR && job.updatedAt <= job.createdAt + 8 * HOUR + 2 * d
    case _ => job.state.Terminal()
  }

  lemma AdvanceKeepsPunctual(job: Job, now: int, v: Visit, d: nat)
    requires Consistent(job, true) && Punctual(job, now, d) && OrderIdsGiven(v) && PollsAnswered(v)
    requires now <= v.now <= now + d
    ensures Punctual(Advance(job, v), v.now, d)
  {
  }

  /** The deadline of an active job: 6 hours for the deposit, 2 to sell, 2 to buy, and two gaps. */
  lemma PunctualIsYoung(job: Job, now: int, d: nat)
    requires Punctual(job, now, d) && !job.state.Terminal()
    ensures now <= job.createdAt + 10 * HOUR + 2 * d
  {
  }
}
