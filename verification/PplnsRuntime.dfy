/**
 The PPLNS engine as the source writes it: maps of ring buffers, balances and totals updated in place.
 Each method is tied to the functions of Pplns.  (internal/pplns/payout.go)
 */
module PplnsRuntime {
  import opened Wrappers
  import opened Sequences
  import opened RingBuffer
  import opened Pplns

  /** The first loop of BlockFound. */
  method SumWork(shares: seq<Share>, coin: string) returns (weights: map<string, real>, total: real)
    ensures weights == Weights(shares, coin) && total == TotalWeight(shares, coin)
  {
    weights, total := map[], 0.0;
    for i := 0 to |shares|
      invariant weights == Weights(shares[..i], coin) && total == TotalWeight(shares[..i], coin)
    {
      var s := shares[i];
      assert shares[..i + 1][..i] == shares[..i];
      if s.coin != coin {
        continue;
      }
      weights := weights[s.worker := (if s.worker in weights then weights[s.worker] else 0.0) + s.difficulty];
      total := total + s.difficulty;
    }
    assert shares[..|shares|] == shares;
  }

  lemma UpdateTwice<V>(m: map<string, V>, k: string, a: V, b: V)
    ensures m[k := a][k := b] == m[k := b]
  {
  }

  function Cell(row: map<string, int>, w: string): int {
    if w in row then row[w] else 0
  }

  /** One pass of the second loop of BlockFound. */
  method CreditWorker(row: map<string, int>, weights: map<string, real>, total: real, distributable: real,
                      worker: string)
    returns (after: map<string, int>)
    requires total != 0.0 && worker in weights
    ensures after == row[worker := Cell(row, worker) + CreditsOf(weights, total, distributable)[worker]]
  {
    var credit := Round(Portion(distributable, weights[worker], total));
    after := row[worker := Cell(row, worker) + credit];
  }

  /** The second loop of BlockFound, which visits the workers in no particular order. */
  method CreditAll(row: map<string, int>, weights: map<string, real>, total: real, distributable: real)
    returns (after: map<string, int>)
    requires total != 0.0
    ensures after == AddRow(row, CreditsOf(weights, total, distributable))
  {
    ghost var credits := CreditsOf(weights, total, distributable);
    after := row;
    var left := weights.Keys;
    while left != {}
      invariant left <= weights.Keys
      invariant Credited(row, credits, left, after)
      decreases |left|
    {
      var worker :| worker in left;
      ghost var before := after;
      after := CreditWorker(after, weights, total, distributable, worker);
      CreditedOne(row, credits, left, worker, before, after);
      left := left - {worker};
    }
    SumsCellwise(row, credits, after);
  }

  ghost predicate Credited(row: map<string, int>, credits: map<string, int>, left: set<string>,
                           after: map<string, int>) {
    && after.Keys == row.Keys + (credits.Keys - left)
    && forall w :: w in after ==> after[w] == Cell(row, w) + if w in left then 0 else Cell(credits, w)
  }

  lemma CreditedOne(row: map<string, int>, credits: map<string, int>, left: set<string>, w: string,
                    before: map<string, int>, after: map<string, int>)
    requires Credited(row, credits, left, before) && w in left && w in credits
    requires after == before[w := Cell(before, w) + credits[w]]
    ensures Credited(row, credits, left - {w}, after)
  {
  }

  lemma SumsCellwise(row: map<string, int>, credits: map<string, int>, after: map<string, int>)
    requires Credited(row, credits, {}, after)
    ensures after == AddRow(row, credits)
  {
  }

  lemma NonemptyCredits(shares: seq<Share>, coin: string, distributable: real)
    requires TotalWeight(shares, coin) != 0.0
    ensures CreditsOf(Weights(shares, coin), TotalWeight(shares, coin), distributable) != map[]
  {
    WeightsAddUp(shares, coin);
    var w :| w in Weights(shares, coin);
    assert w in CreditsOf(Weights(shares, coin), TotalWeight(shares, coin), distributable);
  }

  /** The filter with which a window is saved, and with which saved shares are grouped again. */
  method Filter(shares: seq<Share>, coin: string, kept: seq<Share>) returns (out: seq<Share>)
    ensures out == kept + OfCoin(shares, coin)
  {
    out := kept;
    for i := 0 to |shares|
      invariant out == kept + OfCoin(shares[..i], coin)
    {
      assert shares[..i + 1][..i] == shares[..i];
      if shares[i].coin == coin {
        out := out + [shares[i]];
      }
    }
    assert shares[..|shares|] == shares;
  }

  /** BlockFound from the snapshot on. */
  method Distribute(c: Config, shares: seq<Share>, coin: string, reward: real, pending: Ledger) returns (after: Ledger)
    requires c.enabled && reward > 0.0 && shares != []
    ensures after == Add(pending, coin, Credits(c, shares, coin, reward))
  {
    after := pending;
    var weights, total := SumWork(shares, coin);
    if total == 0.0 {
      return;
    }
    var distributable := Distributable(c, reward);
    if coin !in after {
      after := after[coin := map[]];
    }
    assert after[coin] == Row(pending, coin);
    var row := CreditAll(after[coin], weights, total, distributable);
    NonemptyCredits(shares, coin, distributable);
    UpdateTwice(pending, coin, map[], row);
    after := after[coin := row];
  }

  ghost predicate Holds(rb: RingBuffer<Share>, shares: seq<Share>, cap: nat)
    reads rb, rb.buf
  {
    rb.Valid() && rb.cap == cap && rb.Contents() == shares
  }

  /** A fresh window filled with saved shares, oldest first. */
  method Replay(shares: seq<Share>, cap: nat) returns (rb: RingBuffer<Share>)
    requires cap > 0
    ensures fresh(rb) && fresh(rb.buf) && Holds(rb, LastN(shares, cap), cap)
  {
    rb := new RingBuffer<Share>(cap);
    for i := 0 to |shares|
      invariant rb.Valid() && rb.pushed == shares[..i] && rb.cap == cap
      invariant fresh(rb) && fresh(rb.buf)
    {
      OneMore(shares, i);
      rb.Push(shares[i]);
    }
    assert shares[..|shares|] == shares;
  }

  function Restored(groups: map<string, seq<Share>>, order: seq<string>, cap: nat): map<string, seq<Share>>
    requires forall k :: k in order ==> k in groups
  {
    if order == [] then map[]
    else
      var last := order[|order| - 1];
      Restored(groups, order[..|order| - 1], cap)[last := LastN(groups[last], cap)]
  }

  lemma {:induction false} RestoredIs(groups: map<string, seq<Share>>, order: seq<string>, cap: nat)
    requires forall k :: k in order ==> k in groups
    ensures forall k :: k in Restored(groups, order, cap) <==> k in order
    ensures forall k :: k in order ==> Restored(groups, order, cap)[k] == LastN(groups[k], cap)
  {
    if order != [] {
      RestoredIs(groups, order[..|order| - 1], cap);
      assert order == order[..|order| - 1] + [order[|order| - 1]];
    }
  }

  lemma RestoredIsLoaded(c: Config, saved: Saved, groups: map<string, seq<Share>>, order: seq<string>)
    requires c.Valid() && groups.Keys == Coins(saved.shares) && Lists(order, groups.Keys)
    requires forall k :: k in groups ==> groups[k] == OfCoin(saved.shares, k)
    ensures Restored(groups, order, c.window) == Load(c, saved).windows
  {
    RestoredIs(groups, order, c.window);
  }

  class Engine {
    const cfg: Config
    var windows: map<string, RingBuffer<Share>>
    var pending: Ledger
    var paid: Ledger
    var payouts: seq<Payout>
    ghost var held: map<string, seq<Share>>  // what the windows hold

    ghost function Buffers(): set<object>
      reads this`windows
    {
      set k | k in windows :: windows[k].buf
    }

    ghost predicate Valid()
      reads this`windows, this`held, windows.Values, Buffers()
    {
      && cfg.Valid()
      && held.Keys == windows.Keys
      && (forall k :: k in windows ==> Holds(windows[k], held[k], cfg.window))
      && (forall j, k :: j in windows && k in windows && j != k ==>
            windows[j].buf != windows[k].buf)
    }

    ghost function View(): State
      reads this
    {
      State(held, pending, paid, payouts)
    }

    constructor (config: Config)
      ensures Valid() && cfg == config.Defaults() && View() == EMPTY
    {
      cfg := config.Defaults();
      windows, pending, paid, payouts, held := map[], map[], map[], [], map[];
    }

    /** The window of a coin, opened when its first share arrives. */
    method OpenWindow(coin: string)
      requires Valid()
      modifies this`windows, this`held
      ensures Valid() && windows.Keys == old(windows).Keys + {coin}
      ensures coin in old(windows) ==> windows == old(windows)
      ensures coin !in old(windows) ==>
        windows == old(windows)[coin := windows[coin]] && fresh(windows[coin]) && fresh(windows[coin].buf)
      ensures held == old(held)[coin := Window(old(held), coin)]
    {
      if coin !in windows {
        var rb := new RingBuffer<Share>(cfg.window);
        AddWindow(coin, rb, []);
      }
    }

    method Append(coin: string, share: Share)
      requires Valid() && coin in windows
      modifies this`held, windows[coin], windows[coin].buf
      ensures Valid() && held == old(held)[coin := LastN(old(held)[coin] + [share], cfg.window)]
    {
      var rb := windows[coin];
      held := held[coin := LastN(held[coin] + [share], cfg.window)];
      rb.Push(share);
      forall k | k in windows
        ensures Holds(windows[k], held[k], cfg.window)
      {
        if k != coin {
          assert old(Holds(windows[k], held[k], cfg.window));
        }
      }
    }

    method RecordShare(coin: string, worker: string, difficulty: real, now: int)
      requires Valid()
      modifies this`windows, this`held, windows.Values, Buffers()
      ensures Valid()
      ensures held == Record(cfg, old(View()), coin, worker, difficulty, now).windows
    {
      if !cfg.enabled {
        return;
      }
      if coin == "" || worker == "" || difficulty <= 0.0 {
        return;
      }
      var share := Share(worker, coin, difficulty, now);
      ghost var before := held;
      OpenWindow(coin);
      ghost var kept := LastN(Window(before, coin) + [share], cfg.window);
      UpdateTwice(before, coin, Window(before, coin), kept);
      Append(coin, share);
      assert held == before[coin := kept];
    }

    method BlockFound(coin: string, reward: real)
      requires Valid()
      modifies this`pending
      ensures pending == Found(cfg, old(View()), coin, reward).pending
    {
      if !cfg.enabled {
        return;
      }
      if reward <= 0.0 {
        return;
      }
      if coin !in windows || windows[coin].count == 0 {
        return;
      }
      var shares := windows[coin].Snapshot();
      pending := Distribute(cfg, shares, coin, reward, pending);
    }

    /** The body of the inner loop of ProcessPayouts. */
    method Pay(coin: string, worker: string, rpcs: Replies, now: int, ghost st: State)
      requires coin in pending && worker in pending[coin] && st == State(st.windows, pending, paid, payouts)
      modifies this`pending, this`paid, this`payouts
      ensures Attempt(cfg, st, coin, worker, rpcs, now) == State(st.windows, pending, paid, payouts)
      ensures forall k :: k in old(pending) && k != coin ==> k in pending && pending[k] == old(pending)[k]
      ensures coin in pending && old(pending)[coin].Keys - {worker} <= pending[coin].Keys
      ensures pending.Keys == old(pending).Keys
    {
      var balance := pending[coin][worker];
      if balance < cfg.MinPayout(coin) {
        return;
      }
      var reply := Reply(rpcs, coin, worker);
      if reply.None? {
        return;
      }
      pending := pending[coin := pending[coin] - {worker}];
      var row := if coin in paid then paid[coin] else map[];
      paid := paid[coin := row[worker := Cell(row, worker) + balance]];
      payouts := [Payout(coin, worker, balance, reply.value, now)] + payouts;
      if |payouts| > MAX_PAYOUT_LOG {
        payouts := payouts[..MAX_PAYOUT_LOG];
      }
    }

    /** The inner loop of ProcessPayouts, over the addresses of one coin. */
    method PayCoin(coin: string, rpcs: Replies, now: int, ghost st: State, ghost done: seq<(string, string)>)
      returns (ghost order: seq<(string, string)>)
      requires coin in pending && Process(cfg, st, done, rpcs, now) == State(st.windows, pending, paid, payouts)
      requires Distinct(done) && forall p :: p in done ==> p.0 != coin
      modifies this`pending, this`paid, this`payouts
      ensures Process(cfg, st, order, rpcs, now) == State(st.windows, pending, paid, payouts)
      ensures Distinct(order)
      ensures forall p :: p in order <==> p in done || (p.0 == coin && p.1 in old(pending)[coin])
      ensures forall k :: k in old(pending) && k != coin ==> k in pending && pending[k] == old(pending)[k]
      ensures pending.Keys == old(pending).Keys
    {
      order := done;
      var left := pending[coin].Keys;
      while left != {}
        invariant pending.Keys == old(pending).Keys && left <= pending[coin].Keys
        invariant left <= old(pending)[coin].Keys
        invariant Process(cfg, st, order, rpcs, now) == State(st.windows, pending, paid, payouts)
        invariant Distinct(order)
        invariant forall p :: p in order <==> p in done || (p.0 == coin && p.1 in old(pending)[coin].Keys - left)
        invariant forall k :: k in old(pending) && k != coin ==> k in pending && pending[k] == old(pending)[k]
        decreases |left|
      {
        var worker :| worker in left;
        left := left - {worker};
        Pay(coin, worker, rpcs, now, Process(cfg, st, order, rpcs, now));
        assert (order + [(coin, worker)])[..|order|] == order;
        DistinctOneMore(order, (coin, worker));
        order := order + [(coin, worker)];
      }
    }

    /** One payout round: every balance of every coin with an RPC client is visited, in no particular order. */
    method ProcessPayouts(rpcs: Replies, now: int) returns (ghost order: seq<(string, string)>)
      modifies this`pending, this`paid, this`payouts
      ensures Process(cfg, old(View()), order, rpcs, now) == View()
      ensures cfg.enabled ==> forall p :: p in order <==> p.0 in rpcs && p.0 in old(pending) && p.1 in old(pending)[p.0]
      ensures !cfg.enabled ==> order == []
      ensures Distinct(order)
    {
      order := [];
      if !cfg.enabled {
        return;
      }
      var left := pending.Keys;
      ghost var st := View();
      while left != {}
        invariant left <= pending.Keys == old(pending).Keys
        invariant Process(cfg, st, order, rpcs, now) == State(st.windows, pending, paid, payouts)
        invariant Distinct(order)
        invariant forall k :: k in left ==> pending[k] == old(pending)[k]
        invariant forall p :: p in order <==>
          p.0 in rpcs && p.0 in old(pending).Keys - left && p.1 in old(pending)[p.0]
        decreases |left|
      {
        var coin :| coin in left;
        left := left - {coin};
        if coin !in rpcs {
          continue;
        }
        order := PayCoin(coin, rpcs, now, st, order);
      }
    }

    method BuildPersistState() returns (saved: Saved, ghost order: seq<string>)
      requires Valid()
      ensures Lists(order, held.Keys) && saved == Save(View(), order)
    {
      var coins := KeysOf(windows);
      order := coins;
      saved := Saved([], pending, paid, payouts);
      for i := 0 to |coins|
        invariant saved == Save(View(), coins[..i])
      {
        saved := AppendWindow(coins[i], saved, coins[..i]);
        OneMore(coins, i);
      }
      assert coins[..|coins|] == coins;
    }

    /** The body of the loop over the windows. */
    method AppendWindow(coin: string, saved: Saved, ghost order: seq<string>) returns (more: Saved)
      requires Valid() && coin in windows && saved == Save(View(), order)
      ensures more == Save(View(), order + [coin])
    {
      var window := windows[coin].Snapshot();
      var shares := Filter(window, coin, saved.shares);
      assert (order + [coin])[..|order|] == order;
      more := saved.(shares := shares);
    }

    method AddWindow(coin: string, rb: RingBuffer<Share>, ghost shares: seq<Share>)
      requires Valid() && Holds(rb, shares, cfg.window)
      requires forall k :: k in windows ==> windows[k].buf != rb.buf
      modifies this`windows, this`held
      ensures Valid() && held == old(held)[coin := shares]
      ensures windows == old(windows)[coin := rb]
    {
      windows := windows[coin := rb];
      held := held[coin := shares];
    }

    method RestoreWindow(coin: string, shares: seq<Share>)
      requires Valid()
      modifies this`windows, this`held
      ensures Valid() && held == old(held)[coin := LastN(shares, cfg.window)]
    {
      var rb := Replay(shares, cfg.window);
      AddWindow(coin, rb, LastN(shares, cfg.window));
    }

    method RestoreWindows(groups: map<string, seq<Share>>) returns (ghost order: seq<string>)
      requires cfg.Valid() && windows == map[] && held == map[]
      modifies this`windows, this`held
      ensures Valid() && Lists(order, groups.Keys) && held == Restored(groups, order, cfg.window)
    {
      var coins := KeysOf(groups);
      order := coins;
      for i := 0 to |coins|
        invariant Valid() && held == Restored(groups, coins[..i], cfg.window)
      {
        RestoreWindow(coins[i], groups[coins[i]]);
        OneMore(coins, i);
      }
      assert coins[..|coins|] == coins;
    }

    method LoadState(saved: Saved)
      requires Valid() && windows == map[]
      modifies this
      ensures Valid() && held == Load(cfg, saved).windows
      ensures pending == saved.pending && paid == saved.paid && payouts == saved.payouts
    {
      pending, paid, payouts := saved.pending, saved.paid, saved.payouts;
      var groups := GroupByCoin(saved.shares);
      ghost var order := RestoreWindows(groups);
      RestoredIsLoaded(cfg, saved, groups, order);
    }
  }

  /** The loop that groups the saved shares by coin. */
  method GroupByCoin(shares: seq<Share>) returns (groups: map<string, seq<Share>>)
    ensures groups.Keys == Coins(shares)
    ensures forall k :: k in groups ==> groups[k] == OfCoin(shares, k)
  {
    groups := map[];
    for i := 0 to |shares|
      invariant forall k :: k in groups <==> OfCoin(shares[..i], k) != []
      invariant forall k :: k in groups ==> groups[k] == OfCoin(shares[..i], k)
    {
      var s := shares[i];
      assert shares[..i + 1][..i] == shares[..i];
      groups := groups[s.coin := Window(groups, s.coin) + [s]];
    }
    assert shares[..|shares|] == shares;
    forall k ensures k in groups <==> k in Coins(shares) {
      CoinHasShares(shares, k);
    }
  }
}

