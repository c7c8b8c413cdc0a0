/**
 PPLNS accounting: windows of shares, proportional credits, payouts and restarts, as functions on values.
 Money is counted in units of 1e-8 coin, so that rounding to eight decimals is rounding to a whole unit;
 rewards, fees and difficulties are reals.  (internal/pplns/payout.go)
 */
module Pplns {
  import opened Wrappers
  import opened Sequences

  const FALLBACK_MIN_PAYOUT: int := 100000  // 0.001 coin
  const MAX_PAYOUT_LOG: nat := 200

  datatype Share = Share(worker: string, coin: string, difficulty: real, at: int)
  datatype Payout = Payout(coin: string, worker: string, amount: int, txid: string, at: int)
  type Ledger = map<string, map<string, int>>  // coin, then worker address
  type Replies = map<string, map<string, string>>  // coins with an RPC client; the addresses it pays, with the txid

  datatype Config = Config(enabled: bool, window: int, feePercent: real, minPayout: map<string, int>)
  {
    ghost predicate Valid() {
      window > 0 && 0.0 <= feePercent <= 100.0
    }

    function Defaults(): (c: Config)
      ensures c.Valid()
      ensures Valid() ==> c == this
      ensures c.enabled == enabled && c.minPayout == minPayout && (window <= 0 ==> c.window == 100000)
      ensures feePercent < 0.0 ==> c.feePercent == 0.0
      ensures feePercent > 100.0 ==> c.feePercent == 100.0
    {
      Config(enabled, if window <= 0 then 100000 else window,
             if feePercent < 0.0 then 0.0 else if feePercent > 100.0 then 100.0 else feePercent, minPayout)
    }

    function MinPayout(coin: string): (m: int)
      ensures m > 0
    {
      if coin in minPayout && minPayout[coin] > 0 then minPayout[coin] else FALLBACK_MIN_PAYOUT
    }
  }

  datatype State = State(windows: map<string, seq<Share>>, pending: Ledger, paid: Ledger, payouts: seq<Payout>)

  const EMPTY := State(map[], map[], map[], [])

  function Row(l: Ledger, coin: string): map<string, int> {
    if coin in l then l[coin] else map[]
  }

  function Amount(l: Ledger, coin: string, worker: string): int {
    if worker in Row(l, coin) then l[coin][worker] else 0
  }

  // ----- rounding -----

  /** Half away from zero, as Go's math.Round. */
  function Round(x: real): (n: int)
    ensures Near(n as real, x, 1)
    ensures x >= 0.0 ==> n >= 0
  {
    if x >= 0.0 then (x + 0.5).Floor else -(0.5 - x).Floor
  }

  // ----- recording shares -----

  predicate Accepts(c: Config, coin: string, worker: string, difficulty: real) {
    c.enabled && coin != "" && worker != "" && difficulty > 0.0
  }

  function Window<T>(windows: map<string, seq<T>>, coin: string): seq<T> {
    if coin in windows then windows[coin] else []
  }

  function Record(c: Config, st: State, coin: string, worker: string, difficulty: real, at: int): State
    requires c.Valid()
  {
    if !Accepts(c, coin, worker, difficulty) then st
    else
      var share := Share(worker, coin, difficulty, at);
      st.(windows := st.windows[coin := LastN(Window(st.windows, coin) + [share], c.window)])
  }

  /** Every share with a coin, an address and a difficulty is recorded while the engine is enabled, and no other. */
  lemma ValidSharesAreRecorded(c: Config, st: State, coin: string, worker: string, difficulty: real, at: int, k: string)
    requires c.Valid()
    ensures var next := Record(c, st, coin, worker, difficulty, at);
      && next.pending == st.pending && next.paid == st.paid && next.payouts == st.payouts
      && Window(next.windows, k)
         == if c.enabled && coin != "" && worker != "" && difficulty > 0.0 && k == coin
            then LastN(Window(st.windows, k) + [Share(worker, coin, difficulty, at)], c.window)
            else Window(st.windows, k)
  {
  }

  // ----- splitting a block reward -----

  /** Difficulty summed per worker, the way the source's loop builds its map. */
  function Weights(shares: seq<Share>, coin: string): map<string, real> {
    if shares == [] then map[]
    else
      var m, s := Weights(shares[..|shares| - 1], coin), shares[|shares| - 1];
      if s.coin != coin then m
      else m[s.worker := (if s.worker in m then m[s.worker] else 0.0) + s.difficulty]
  }

  function TotalWeight(shares: seq<Share>, coin: string): real {
    if shares == [] then 0.0
    else
      var t, s := TotalWeight(shares[..|shares| - 1], coin), shares[|shares| - 1];
      if s.coin != coin then t else t + s.difficulty
  }

  function Distributable(c: Config, reward: real): real {
    reward * (1.0 - c.feePercent / 100.0)
  }

  /** A worker's part of the reward, before rounding. */
  function Portion(distributable: real, weight: real, total: real): real
    requires total != 0.0
  {
    distributable * (weight / total)
  }

  function CreditsOf(weights: map<string, real>, total: real, distributable: real): map<string, int>
    requires total != 0.0
  {
    map worker | worker in weights :: Round(Portion(distributable, weights[worker], total))
  }

  /** What a block found credits to each worker of a window: nothing when the engine skips it. */
  function Credits(c: Config, shares: seq<Share>, coin: string, reward: real): map<string, int> {
    if !c.enabled || reward <= 0.0 || shares == [] || TotalWeight(shares, coin) == 0.0 then map[]
    else CreditsOf(Weights(shares, coin), TotalWeight(shares, coin), Distributable(c, reward))
  }

  function AddRow(row: map<string, int>, more: map<string, int>): map<string, int> {
    map worker | worker in row.Keys + more.Keys ::
      (if worker in row then row[worker] else 0) + (if worker in more then more[worker] else 0)
  }

  function Add(l: Ledger, coin: string, more: map<string, int>): Ledger {
    if more == map[] then l else l[coin := AddRow(Row(l, coin), more)]
  }

  function Found(c: Config, st: State, coin: string, reward: real): State {
    st.(pending := Add(st.pending, coin, Credits(c, Window(st.windows, coin), coin, reward)))
  }

  // ----- payouts -----

  function Reply(rpcs: Replies, coin: string, worker: string): Option<string> {
    if coin in rpcs && worker in rpcs[coin] then Some(rpcs[coin][worker]) else None
  }

  /** The send that is made, if the balance is due and the node accepts it. */
  function Sent(c: Config, st: State, coin: string, worker: string, rpcs: Replies, at: int): seq<Payout> {
    var balance, reply := Amount(st.pending, coin, worker), Reply(rpcs, coin, worker);
    if balance >= c.MinPayout(coin) && reply.Some? then [Payout(coin, worker, balance, reply.value, at)] else []
  }

  function Newest(payouts: seq<Payout>): (r: seq<Payout>)
    ensures r == if |payouts| > 200 then payouts[..200] else payouts
  {
    if |payouts| > MAX_PAYOUT_LOG then payouts[..MAX_PAYOUT_LOG] else payouts
  }

  function Attempt(c: Config, st: State, coin: string, worker: string, rpcs: Replies, at: int): State {
    var sent := Sent(c, st, coin, worker, rpcs, at);
    if sent == [] then st
    else
      var row := Row(st.paid, coin);
      State(st.windows,
            st.pending[coin := Row(st.pending, coin) - {worker}],
            st.paid[coin := row[worker := Amount(st.paid, coin, worker) + sent[0].amount]],
            Newest(sent + st.payouts))
  }

  /** A payout round visits pairs of coin and address in some order. */
  function Process(c: Config, st: State, order: seq<(string, string)>, rpcs: Replies, at: int): State {
    if order == [] then st
    else
      var k := |order| - 1;
      Attempt(c, Process(c, st, order[..k], rpcs, at), order[k].0, order[k].1, rpcs, at)
  }

  /** The sends of a round, newest first. */
  function Sends(c: Config, st: State, order: seq<(string, string)>, rpcs: Replies, at: int): seq<Payout> {
    if order == [] then []
    else
      var k := |order| - 1;
      Sent(c, Process(c, st, order[..k], rpcs, at), order[k].0, order[k].1, rpcs, at)
      + Sends(c, st, order[..k], rpcs, at)
  }

  // ----- persistence -----

  datatype Saved = Saved(shares: seq<Share>, pending: Ledger, paid: Ledger, payouts: seq<Payout>)

  function OfCoin(shares: seq<Share>, coin: string): seq<Share> {
    if shares == [] then []
    else
      var rest, s := OfCoin(shares[..|shares| - 1], coin), shares[|shares| - 1];
      if s.coin == coin then rest + [s] else rest
  }

  /** The windows one after another, in the order the map happens to give its coins. */
  function SavedShares(windows: map<string, seq<Share>>, order: seq<string>): seq<Share> {
    if order == [] then []
    else
      var k := |order| - 1;
      SavedShares(windows, order[..k]) + OfCoin(Window(windows, order[k]), order[k])
  }

  function Save(st: State, order: seq<string>): Saved {
    Saved(SavedShares(st.windows, order), st.pending, st.paid, st.payouts)
  }

  function Coins(shares: seq<Share>): set<string> {
    set s | s in shares :: s.coin
  }

  lemma {:induction false} CoinHasShares(shares: seq<Share>, coin: string)
    ensures coin in Coins(shares) <==> OfCoin(shares, coin) != []
  {
    if shares != [] {
      var n := |shares| - 1;
      CoinHasShares(shares[..n], coin);
      assert coin in Coins(shares) <==> coin in Coins(shares[..n]) || shares[n].coin == coin by {
        if s :| s in shares && s.coin == coin {
          assert s in shares[..n] || s == shares[n];
        }
        assert shares[n] in shares;
      }
    }
  }

  function Load(c: Config, saved: Saved): State
    requires c.Valid()
  {
    State(map coin | coin in Coins(saved.shares) :: LastN(OfCoin(saved.shares, coin), c.window),
          saved.pending, saved.paid, saved.payouts)
  }

  // ----- splitting a reward: the sums -----

  ghost function SumReal(m: map<string, real>): real
    decreases |m|
  {
    if m == map[] then 0.0
    else
      var k :| k in m;
      m[k] + SumReal(m - {k})
  }

  lemma RemoveTwo<V>(m: map<string, V>, j: string, k: string)
    ensures m - {j} - {k} == m - {k} - {j}
  {
  }

  lemma {:induction false} SumRealWithout(m: map<string, real>, j: string)
    requires j in m
    ensures SumReal(m) == m[j] + SumReal(m - {j})
    decreases |m|
  {
    var k :| k in m && SumReal(m) == m[k] + SumReal(m - {k});
    if k != j {
      SumRealWithout(m - {k}, j);
      SumRealWithout(m - {j}, k);
      RemoveTwo(m, j, k);
    }
  }

  lemma {:induction false} SumRealAdds(m: map<string, real>, j: string, x: real)
    ensures SumReal(m[j := (if j in m then m[j] else 0.0) + x]) == SumReal(m) + x
  {
    var more := m[j := (if j in m then m[j] else 0.0) + x];
    SumRealWithout(more, j);
    if j in m {
      SumRealWithout(m, j);
      assert more - {j} == m - {j};
    } else {
      assert more - {j} == m;
    }
  }

  /** The per-worker weights add up to the total the source computes beside them. */
  lemma {:induction false} WeightsAddUp(shares: seq<Share>, coin: string)
    ensures SumReal(Weights(shares, coin)) == TotalWeight(shares, coin)
  {
    if shares != [] {
      var front, s := shares[..|shares| - 1], shares[|shares| - 1];
      WeightsAddUp(front, coin);
      SumRealAdds(Weights(front, coin), s.worker, s.difficulty);
    }
  }

  /** What one worker put into the window for a coin. */
  function Work(shares: seq<Share>, coin: string, worker: string): real {
    if shares == [] then 0.0
    else
      var s := shares[|shares| - 1];
      Work(shares[..|shares| - 1], coin, worker) + if s.coin == coin && s.worker == worker then s.difficulty else 0.0
  }

  ghost predicate OwnShares(shares: seq<Share>, coin: string) {
    forall i :: 0 <= i < |shares| ==> shares[i].coin == coin && shares[i].worker != "" && shares[i].difficulty > 0.0
  }

  lemma {:induction false} WeightIsWork(shares: seq<Share>, coin: string, worker: string)
    requires OwnShares(shares, coin)
    ensures worker in Weights(shares, coin) <==> exists i :: 0 <= i < |shares| && shares[i].worker == worker
    ensures Work(shares, coin, worker) == if worker in Weights(shares, coin) then Weights(shares, coin)[worker] else 0.0
    ensures worker in Weights(shares, coin) ==> Weights(shares, coin)[worker] > 0.0
  {
    if shares != [] {
      var k := |shares| - 1;
      var front, s := shares[..k], shares[k];
      WeightIsWork(front, coin, worker);
      if i :| 0 <= i < |shares| && shares[i].worker == worker {
        assert i == k || front[i].worker == worker;
      }
      if worker in Weights(front, coin) {
        var i :| 0 <= i < |front| && front[i].worker == worker;
        assert shares[i].worker == worker;
      }
    }
  }

  lemma {:induction false} TotalIsPositive(shares: seq<Share>, coin: string)
    requires OwnShares(shares, coin)
    ensures TotalWeight(shares, coin) >= 0.0
    ensures shares != [] ==> TotalWeight(shares, coin) > 0.0
  {
    if shares != [] {
      TotalIsPositive(shares[..|shares| - 1], coin);
    }
  }

  lemma SharesAdd(d: real, a: real, b: real, t: real)
    requires t != 0.0
    ensures Portion(d, a + b, t) == Portion(d, a, t) + Portion(d, b, t)
  {
    assert (a + b) / t == a / t + b / t;
  }

  function Reals(m: map<string, int>): map<string, real> {
    map k | k in m :: m[k] as real
  }

  /** No further apart than half a unit for each of n roundings. */
  predicate Near(a: real, b: real, n: nat) {
    -(n as real) <= 2.0 * (a - b) <= n as real
  }

  lemma OneMoreRounding(d: real, a: real, b: real, t: real, credit: real, sum: real, n: nat, all: real, weight: real)
    requires t != 0.0 && all == credit + sum && weight == a + b
    requires Near(credit, Portion(d, a, t), 1)
    requires Near(sum, Portion(d, b, t), n)
    ensures Near(all, Portion(d, weight, t), n + 1)
  {
    SharesAdd(d, a, b, t);
  }

  lemma CreditsWithout(weights: map<string, real>, t: real, d: real, k: string)
    requires t != 0.0
    ensures Reals(CreditsOf(weights, t, d)) - {k} == Reals(CreditsOf(weights - {k}, t, d))
  {
    var a, b := Reals(CreditsOf(weights, t, d)) - {k}, Reals(CreditsOf(weights - {k}, t, d));
    assert a.Keys == b.Keys;
    forall j | j in a ensures a[j] == b[j] {
      assert j in weights - {k};
    }
  }

  lemma {:induction false} RoundingErrorAddsUp(weights: map<string, real>, t: real, d: real)
    requires t != 0.0
    ensures Near(SumReal(Reals(CreditsOf(weights, t, d))), Portion(d, SumReal(weights), t), |weights|)
    decreases |weights|
  {
    if weights == map[] {
      assert Reals(CreditsOf(weights, t, d)) == map[];
      NothingForNothing(d, t);
    } else {
      var k :| k in weights;
      RoundingErrorAddsUp(weights - {k}, t, d);
      var n := |weights - {k}|;
      assert n + 1 == |weights| by { assert (weights - {k}).Keys == weights.Keys - {k}; }
      CreditsWithout(weights, t, d, k);
      var credits := Reals(CreditsOf(weights, t, d));
      SumRealWithout(credits, k);
      SumRealWithout(weights, k);
      OneMoreRounding(d, weights[k], SumReal(weights - {k}), t, credits[k], SumReal(credits - {k}), n,
                      SumReal(credits), SumReal(weights));
    }
  }

  lemma FeeIsTaken(c: Config, reward: real)
    ensures 100.0 * Distributable(c, reward) == reward * (100.0 - c.feePercent)
  {
    var fee := c.feePercent / 100.0;
    assert reward * (1.0 - fee) * 100.0 == reward * ((1.0 - fee) * 100.0);
  }

  /** A rounded portion, without the division. */
  lemma PortionIsNear(d: real, work: real, total: real, credit: real) returns (off: real)
    requires total > 0.0 && Near(credit, Portion(d, work, total), 1)
    ensures total * credit == d * work + off && -0.5 * total <= off <= 0.5 * total
  {
    var p := Portion(d, work, total);
    assert work / total * total == work;
    TimesQuotient(d, work / total, total, work);
    off := ScaledDifference(total, credit, p, d * work);
  }

  lemma ScaledDifference(t: real, a: real, b: real, product: real) returns (off: real)
    requires t > 0.0 && Near(a, b, 1) && t * b == product
    ensures t * a == product + off && -0.5 * t <= off <= 0.5 * t
  {
    var x := a - b;
    assert -0.5 <= x <= 0.5;
    off := t * x;
    BoundedProduct(t, x);
    assert a == b + x;
  }

  lemma TimesQuotient(d: real, q: real, t: real, w: real)
    requires q * t == w
    ensures t * (d * q) == d * w
  {
  }

  lemma BoundedProduct(t: real, x: real)
    requires t > 0.0 && -0.5 <= x <= 0.5
    ensures -0.5 * t <= t * x <= 0.5 * t
  {
  }

  /** An amount is the reward after a fee of so many percent, times work over total, within half a unit. */
  ghost predicate IsCut(amount: int, reward: real, feePercent: real, work: real, total: real) {
    -(50.0 * total) <= 100.0 * (total * amount as real) - reward * (100.0 - feePercent) * work <= 50.0 * total
  }

  lemma CutOfPortion(c: Config, reward: real, work: real, total: real, credit: int)
    requires total > 0.0 && Near(credit as real, Portion(Distributable(c, reward), work, total), 1)
    ensures IsCut(credit, reward, c.feePercent, work, total)
  {
    var d := Distributable(c, reward);
    var off := PortionIsNear(d, work, total, credit as real);
    FeeIsTaken(c, reward);
    assert 100.0 * (d * work) == (100.0 * d) * work;
  }

  /** A worker is credited if and only if it has a share in the window, and its credit is its rounded proportion. */
  lemma CreditIsProportional(c: Config, shares: seq<Share>, coin: string, reward: real, w: string)
    requires c.Valid() && c.enabled && reward > 0.0
    requires shares != [] && OwnShares(shares, coin)
    ensures var credits := Credits(c, shares, coin, reward);
      && (w in credits <==> exists i :: 0 <= i < |shares| && shares[i].worker == w)
      && (w in credits ==>
            credits[w] == Round(Portion(Distributable(c, reward), Work(shares, coin, w), TotalWeight(shares, coin))))
      && (w in credits ==> 0 <= credits[w])
      && (w in credits ==>
            IsCut(credits[w], reward, c.feePercent, Work(shares, coin, w), TotalWeight(shares, coin)))
  {
    TotalIsPositive(shares, coin);
    WeightIsWork(shares, coin, w);
    DistributableIsPositive(c, reward);
    if w in Weights(shares, coin) {
      ProductIsPositive(Distributable(c, reward), Work(shares, coin, w), TotalWeight(shares, coin));
      CutOfPortion(c, reward, Work(shares, coin, w), TotalWeight(shares, coin), Credits(c, shares, coin, reward)[w]);
    }
  }

  /** A found block splits exactly the reward after the fee, up to half a unit per credited worker. */
  lemma BlockSplitsTheReward(c: Config, shares: seq<Share>, coin: string, reward: real)
    requires c.Valid() && c.enabled && reward > 0.0
    requires shares != [] && OwnShares(shares, coin)
    ensures var credits := Credits(c, shares, coin, reward);
      Near(SumReal(Reals(credits)), Distributable(c, reward), |credits|)
    ensures 0.0 <= Distributable(c, reward) <= reward
    ensures var credits := Credits(c, shares, coin, reward);
      var n, sum := |credits| as real, SumReal(Reals(credits));
      && -(50.0 * n) <= 100.0 * sum - reward * (100.0 - c.feePercent) <= 50.0 * n
      && (c.feePercent == 0.0 ==> -n <= 2.0 * (sum - reward) <= n)
  {
    CreditsAddUp(c, shares, coin, reward);
    SumAfterFee(c, reward, SumReal(Reals(Credits(c, shares, coin, reward))), |Credits(c, shares, coin, reward)|);
  }

  lemma SumAfterFee(c: Config, reward: real, sum: real, n: nat)
    requires Near(sum, Distributable(c, reward), n)
    ensures -(50.0 * n as real) <= 100.0 * sum - reward * (100.0 - c.feePercent) <= 50.0 * n as real
    ensures c.feePercent == 0.0 ==> -(n as real) <= 2.0 * (sum - reward) <= n as real
  {
    FeeIsTaken(c, reward);
  }

  lemma CreditsAddUp(c: Config, shares: seq<Share>, coin: string, reward: real)
    requires c.Valid() && c.enabled && reward > 0.0
    requires shares != [] && OwnShares(shares, coin)
    ensures var credits := Credits(c, shares, coin, reward);
      Near(SumReal(Reals(credits)), Distributable(c, reward), |credits|)
    ensures 0.0 <= Distributable(c, reward) <= reward
  {
    var weights, t, d := Weights(shares, coin), TotalWeight(shares, coin), Distributable(c, reward);
    TotalIsPositive(shares, coin);
    DistributableIsPositive(c, reward);
    RoundingErrorAddsUp(weights, t, d);
    WeightsAddUp(shares, coin);
    WholeIsOne(d, t);
    assert |CreditsOf(weights, t, d)| == |weights| by { assert CreditsOf(weights, t, d).Keys == weights.Keys; }
  }

  /** A block credits nobody exactly when the engine is off, there is nothing to share, or nobody to share it. */
  lemma BlockCreditsNobodyIff(c: Config, shares: seq<Share>, coin: string, reward: real)
    requires c.Valid() && OwnShares(shares, coin)
    ensures Credits(c, shares, coin, reward) == map[] <==> !c.enabled || reward <= 0.0 || shares == []
  {
    TotalIsPositive(shares, coin);
    if c.enabled && reward > 0.0 && shares != [] {
      assert shares[0].worker in Credits(c, shares, coin, reward) by {
        CreditIsProportional(c, shares, coin, reward, shares[0].worker);
      }
    }
  }

  lemma DistributableIsPositive(c: Config, reward: real)
    requires c.Valid() && reward > 0.0
    ensures 0.0 <= Distributable(c, reward) <= reward
  {
    var kept := 1.0 - c.feePercent / 100.0;
    assert 0.0 <= kept <= 1.0;
    Scaled(reward, kept);
  }

  lemma Scaled(x: real, k: real)
    requires 0.0 < x && 0.0 <= k <= 1.0
    ensures 0.0 <= x * k <= x
  {
    var lost := 1.0 - k;
    assert 0.0 <= x * lost;
    assert x * k + x * lost == x * (k + lost);
  }

  lemma ProductIsPositive(d: real, a: real, t: real)
    requires d >= 0.0 && a >= 0.0 && t > 0.0
    ensures Portion(d, a, t) >= 0.0
  {
    assert a / t >= 0.0;
  }

  lemma NothingForNothing(d: real, t: real)
    requires t != 0.0
    ensures Portion(d, 0.0, t) == 0.0
  {
  }

  lemma WholeIsOne(d: real, t: real)
    requires t != 0.0
    ensures Portion(d, t, t) == d
  {
  }
}
