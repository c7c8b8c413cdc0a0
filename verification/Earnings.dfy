/**
 The earnings tracker: counters per coin beside a list of recent blocks whose status can still change.
 A ledger of every block ever recorded says what the counters should be.  Rewards are reals.
 (internal/earnings/tracker.go)
 */
module Earnings {
  import Text

  const MAX_RECENT: nat := 100

  datatype Block = Block(coin: string, height: int, hash: string, reward: real, at: int, confirmations: int,
                         orphaned: bool)

  datatype Counters = Counters(found: int, confirmed: int, orphaned: int, reward: real)

  const ZERO := Counters(0, 0, 0, 0.0)

  datatype State = State(coins: map<string, Counters>, recent: seq<Block>)

  // ----- the two mutations -----

  function Newest(blocks: seq<Block>): (r: seq<Block>)
    ensures r == if |blocks| > 100 then blocks[..100] else blocks
  {
    if |blocks| > MAX_RECENT then blocks[..MAX_RECENT] else blocks
  }

  function Account(coins: map<string, Counters>, sym: string): Counters {
    if sym in coins then coins[sym] else ZERO
  }

  function FreshBlock(coin: string, height: int, hash: string, reward: real, at: int): Block {
    Block(Text.Upper(coin), height, hash, reward, at, 0, false)
  }

  function Record(st: State, b: Block): State {
    var acc := Account(st.coins, b.coin);
    State(st.coins[b.coin := acc.(found := acc.found + 1)], Newest([b] + st.recent))
  }

  /** The first block with a hash, or the length of the list. */
  function IndexOf(blocks: seq<Block>, hash: string): (i: nat)
    ensures i <= |blocks|
    ensures i < |blocks| ==> blocks[i].hash == hash
    ensures forall j :: 0 <= j < i ==> blocks[j].hash != hash
  {
    if blocks == [] || blocks[0].hash == hash then 0 else 1 + IndexOf(blocks[1..], hash)
  }

  function Restated(b: Block, confirmations: int, orphaned: bool): Block {
    if orphaned && !b.orphaned then b.(orphaned := true, confirmations := -1) else b.(confirmations := confirmations)
  }

  function Recounted(acc: Counters, b: Block, confirmations: int, orphaned: bool): Counters {
    if orphaned && !b.orphaned then
      if b.confirmations > 0 then
        Counters(acc.found, acc.confirmed - 1, acc.orphaned + 1, acc.reward - b.reward)
      else acc.(orphaned := acc.orphaned + 1)
    else if !orphaned && b.confirmations == 0 && confirmations > 0 then
      acc.(confirmed := acc.confirmed + 1, reward := acc.reward + b.reward)
    else acc
  }

  function Update(st: State, sym: string, hash: string, confirmations: int, orphaned: bool): State {
    var i := IndexOf(st.recent, hash);
    if sym !in st.coins || i == |st.recent| then st
    else
      var b := st.recent[i];
      State(st.coins[sym := Recounted(st.coins[sym], b, confirmations, orphaned)],
            st.recent[i := Restated(b, confirmations, orphaned)])
  }

  // ----- what the counters should be -----

  predicate Counts(b: Block) {
    !b.orphaned && b.confirmations > 0
  }

  function Plus(a: Counters, b: Block): Counters {
    Counters(a.found + 1, a.confirmed + (if Counts(b) then 1 else 0), a.orphaned + (if b.orphaned then 1 else 0),
             a.reward + if Counts(b) then b.reward else 0.0)
  }

  /** The counters of a coin, read off a complete list of blocks. */
  function Tally(ledger: seq<Block>, sym: string): Counters {
    if ledger == [] then ZERO
    else if ledger[0].coin == sym then Plus(Tally(ledger[1..], sym), ledger[0])
    else Tally(ledger[1..], sym)
  }

  /** The tracker beside a ledger that never evicts; an evicted block keeps its last status there. */
  datatype Books = Books(st: State, ledger: seq<Block>)

  ghost predicate DistinctHashes(ledger: seq<Block>) {
    forall i, j :: 0 <= i < j < |ledger| ==> ledger[i].hash != ledger[j].hash
  }

  ghost predicate Law(b: Books) {
    && b.st.recent == Newest(b.ledger)
    && (forall i :: 0 <= i < |b.ledger| ==> b.ledger[i].coin in b.st.coins)
    && forall sym :: Account(b.st.coins, sym) == Tally(b.ledger, sym)
  }

  function RecordBook(b: Books, block: Block): Books {
    Books(Record(b.st, block), [block] + b.ledger)
  }

  function UpdateBook(b: Books, sym: string, hash: string, confirmations: int, orphaned: bool): Books {
    var i := IndexOf(b.st.recent, hash);
    Books(Update(b.st, sym, hash, confirmations, orphaned),
          if sym in b.st.coins && i < |b.st.recent| && i < |b.ledger| then
            b.ledger[i := Restated(b.ledger[i], confirmations, orphaned)]
          else b.ledger)
  }

  // ----- one step -----

  lemma RecordKeepsLaw(b: Books, block: Block)
    requires Law(b) && !block.orphaned && block.confirmations == 0
    ensures Law(RecordBook(b, block))
  {
  }

  /** How far apart counters are. */
  function Diff(a: Counters, b: Counters): Counters {
    Counters(a.found - b.found, a.confirmed - b.confirmed, a.orphaned - b.orphaned, a.reward - b.reward)
  }

  lemma {:induction false} RestatedTally(ledger: seq<Block>, i: nat, next: Block, sym: string)
    requires i < |ledger| && next.coin == ledger[i].coin
    ensures Diff(Tally(ledger[i := next], sym), Tally(ledger, sym))
         == if sym == next.coin then Diff(Plus(ZERO, next), Plus(ZERO, ledger[i])) else ZERO
  {
    if i > 0 {
      assert ledger[i := next][1..] == ledger[1..][i - 1 := next];
      RestatedTally(ledger[1..], i - 1, next, sym);
    } else {
      assert ledger[i := next][1..] == ledger[1..];
    }
  }

  /** When an update moves the counters exactly as it moves the block. */
  predicate Sound(b: Block, confirmations: int, orphaned: bool) {
    if b.orphaned then orphaned || b.confirmations != 0 || confirmations <= 0
    else orphaned || b.confirmations == 0 || (b.confirmations > 0 <==> confirmations > 0)
  }

  /**
   An update keeps the counters equal to the ledger if and only if it is sound for the block as it stands: it does
   not confirm an orphan whose count was reset to zero, and does not take a confirmed block back below one
   confirmation (nor raise one from below zero) without orphaning it.
   */
  lemma UpdateKeepsLawIff(b: Books, hash: string, confirmations: int, orphaned: bool)
    requires Law(b)
    requires IndexOf(b.st.recent, hash) < |b.st.recent|
    ensures var block := b.st.recent[IndexOf(b.st.recent, hash)];
      Law(UpdateBook(b, block.coin, hash, confirmations, orphaned)) <==> Sound(block, confirmations, orphaned)
  {
    var i := IndexOf(b.st.recent, hash);
    var block, next := b.st.recent[i], UpdateBook(b, b.st.recent[i].coin, hash, confirmations, orphaned);
    assert block == b.ledger[i];
    var restated := Restated(block, confirmations, orphaned);
    assert next.st.recent == Newest(next.ledger);
    RestatedTally(b.ledger, i, restated, block.coin);
    assert Account(b.st.coins, block.coin) == Tally(b.ledger, block.coin);
    RecountedIffSound(Account(b.st.coins, block.coin), block, confirmations, orphaned, Tally(next.ledger, block.coin));
    forall sym | sym != block.coin
      ensures Account(next.st.coins, sym) == Tally(next.ledger, sym)
    {
      RestatedTally(b.ledger, i, restated, sym);
      assert Account(b.st.coins, sym) == Tally(b.ledger, sym);
    }
  }

  /** The counters move as the block does exactly when the update is sound for it. */
  lemma RecountedIffSound(acc: Counters, block: Block, confirmations: int, orphaned: bool, after: Counters)
    requires Diff(after, acc) == Diff(Plus(ZERO, Restated(block, confirmations, orphaned)), Plus(ZERO, block))
    ensures Recounted(acc, block, confirmations, orphaned) == after <==> Sound(block, confirmations, orphaned)
  {
  }

  /** An unsound pair of updates: a block reported back to zero confirmations is counted twice when it recovers. */
  lemma ZeroThenPositiveCountsTwice(sym: string, hash: string)
    ensures var first := RecordBook(Books(State(map[], []), []), Block(sym, 1, hash, 10.0, 0, 0, false));
      var once := UpdateBook(first, sym, hash, 1, false);
      var twice := UpdateBook(UpdateBook(once, sym, hash, 0, false), sym, hash, 1, false);
      && Law(first) && Law(once)
      && Account(twice.st.coins, sym) == Counters(1, 2, 0, 20.0)
      && Tally(twice.ledger, sym) == Counters(1, 1, 0, 10.0)
  {
    var b := Block(sym, 1, hash, 10.0, 0, 0, false);
    var none := Books(State(map[], []), []);
    var first := RecordBook(none, b);
    RecordKeepsLaw(none, b);
    assert [b] + [] == [b];
    assert first == Books(State(map[sym := Counters(1, 0, 0, 0.0)], [b]), [b]);
    UpdateKeepsLawIff(first, hash, 1, false);
    var once := UpdateBook(first, sym, hash, 1, false);
    assert [b][0 := b.(confirmations := 1)] == [b.(confirmations := 1)];
    assert once.st == State(map[sym := Counters(1, 1, 0, 10.0)], [b.(confirmations := 1)]);
    var back := UpdateBook(once, sym, hash, 0, false);
    assert [b.(confirmations := 1)][0 := b] == [b];
    assert back.st == State(map[sym := Counters(1, 1, 0, 10.0)], [b]);
    var twice := UpdateBook(back, sym, hash, 1, false);
    assert twice.ledger == [b.(confirmations := 1)];
    assert twice.ledger[1..] == [];
  }

  // ----- every run -----

  datatype Event =
    | Mined(coin: string, height: int, hash: string, reward: real, at: int)
    | Status(coin: string, hash: string, confirmations: int, orphaned: bool)

  function Step(b: Books, e: Event): Books {
    match e
    case Mined(coin, height, hash, reward, at) => RecordBook(b, FreshBlock(coin, height, hash, reward, at))
    case Status(coin, hash, confirmations, orphaned) => UpdateBook(b, Text.Upper(coin), hash, confirmations, orphaned)
  }

  function Run(events: seq<Event>): Books {
    if events == [] then Books(State(map[], []), [])
    else Step(Run(events[..|events| - 1]), events[|events| - 1])
  }

  /**
   How the pool calls the tracker: block hashes are fresh, a status goes to the coin the block was recorded for, a
   block is reported mature with a positive count and orphaned with a count that is not zero.
   */
  ghost predicate Wired(b: Books, e: Event) {
    match e
    case Mined(_, _, hash, _, _) => forall i :: 0 <= i < |b.ledger| ==> b.ledger[i].hash != hash
    case Status(coin, hash, confirmations, orphaned) =>
      && (if orphaned then confirmations != 0 else confirmations > 0)
      && forall i :: 0 <= i < |b.ledger| && b.ledger[i].hash == hash ==> b.ledger[i].coin == Text.Upper(coin)
  }

  ghost predicate WiredRun(events: seq<Event>) {
    events != [] ==>
      WiredRun(events[..|events| - 1]) && Wired(Run(events[..|events| - 1]), events[|events| - 1])
  }

  /** No block waits below zero confirmations, and no orphan is back at zero. */
  ghost predicate Settled(ledger: seq<Block>) {
    forall i :: 0 <= i < |ledger| ==>
      if ledger[i].orphaned then ledger[i].confirmations != 0 else ledger[i].confirmations >= 0
  }

  lemma UpdateKeepsRun(b: Books, e: Event)
    requires e.Status? && Law(b) && Settled(b.ledger) && DistinctHashes(b.ledger) && Wired(b, e)
    ensures var next := Step(b, e); Law(next) && Settled(next.ledger) && DistinctHashes(next.ledger)
  {
    var i := IndexOf(b.st.recent, e.hash);
    if Text.Upper(e.coin) in b.st.coins && i < |b.st.recent| {
      assert b.st.recent[i] == b.ledger[i];
      UpdateKeepsLawIff(b, e.hash, e.confirmations, e.orphaned);
    }
  }

  lemma MinedKeepsRun(b: Books, e: Event)
    requires e.Mined? && Law(b) && Settled(b.ledger) && DistinctHashes(b.ledger) && Wired(b, e)
    ensures var next := Step(b, e); Law(next) && Settled(next.ledger) && DistinctHashes(next.ledger)
  {
  }

  /**
   Over every run as the pool is wired, each coin's found, confirmed, orphaned and reward counters are those of the
   complete ledger, in which a block evicted from the recent list keeps the status it had.
   */
  lemma {:induction false} EveryRunKeepsLaw(events: seq<Event>)
    requires WiredRun(events)
    ensures var b := Run(events); Law(b) && Settled(b.ledger) && DistinctHashes(b.ledger)
  {
    if events != [] {
      var front, e := events[..|events| - 1], events[|events| - 1];
      EveryRunKeepsLaw(front);
      if e.Mined? {
        MinedKeepsRun(Run(front), e);
      } else {
        UpdateKeepsRun(Run(front), e);
      }
    }
  }

  /** A block that is mined and then confirmed counts as found at once, and as confirmed with its reward then. */
  lemma MinedBlockPays(b: Books, coin: string, height: int, hash: string, reward: real, at: int, confirmations: int)
    requires confirmations > 0
    ensures var sym, mined := Text.Upper(coin), Step(b, Mined(coin, height, hash, reward, at));
      var paid := Step(mined, Status(coin, hash, confirmations, false));
      var was, found, now := Account(b.st.coins, sym), Account(mined.st.coins, sym), Account(paid.st.coins, sym);
      && found == was.(found := was.found + 1)
      && now == found.(confirmed := found.confirmed + 1, reward := found.reward + reward)
      && paid.st.recent != [] && paid.st.recent[0] == Block(sym, height, hash, reward, at, confirmations, false)
  {
    var sym, mined := Text.Upper(coin), Step(b, Mined(coin, height, hash, reward, at));
    var block := Block(sym, height, hash, reward, at, 0, false);
    assert mined.st.recent[0] == block;
    assert IndexOf(mined.st.recent, hash) == 0;
  }

  // ----- orphans -----

  /** Once orphaned, a block stays orphaned, and as the pool is wired no later status moves a counter. */
  lemma OrphanIsFinal(b: Books, e: Event, i: nat)
    requires e.Status? && Law(b) && Settled(b.ledger) && DistinctHashes(b.ledger) && Wired(b, e)
    requires i < |b.ledger| && b.ledger[i].orphaned
    ensures i < |Step(b, e).ledger| && Step(b, e).ledger[i].orphaned
    ensures e.hash == b.ledger[i].hash ==> Step(b, e).st.coins == b.st.coins
  {
  }

  /** Orphaning a confirmed block undoes exactly what its confirmation added. */
  lemma OrphaningUndoes(st: State, sym: string, hash: string, confirmations: int, reported: int)
    requires sym in st.coins && IndexOf(st.recent, hash) < |st.recent|
    requires var block := st.recent[IndexOf(st.recent, hash)];
      !block.orphaned && block.confirmations == 0 && confirmations > 0
    ensures var acc := st.coins[sym];
      var confirmed := Update(st, sym, hash, confirmations, false);
      var orphaned := Update(confirmed, sym, hash, reported, true);
      && confirmed.coins[sym].confirmed == acc.confirmed + 1
      && orphaned.coins == st.coins[sym := acc.(orphaned := acc.orphaned + 1)]
      && orphaned == Update(st, sym, hash, reported, true)
  {
    var i := IndexOf(st.recent, hash);
    var confirmed := Update(st, sym, hash, confirmations, false);
    SameIndex(st.recent, hash, st.recent[i].(confirmations := confirmations));
    assert IndexOf(confirmed.recent, hash) == i;
    var orphaned := Update(confirmed, sym, hash, reported, true);
    assert orphaned.recent == st.recent[i := st.recent[i].(orphaned := true, confirmations := -1)];
    assert orphaned.coins == st.coins[sym := st.coins[sym].(orphaned := st.coins[sym].orphaned + 1)];
  }

  lemma {:induction false} SameIndex(blocks: seq<Block>, hash: string, next: Block)
    requires IndexOf(blocks, hash) < |blocks| && next.hash == hash
    ensures IndexOf(blocks[IndexOf(blocks, hash) := next], hash) == IndexOf(blocks, hash)
  {
    var i := IndexOf(blocks, hash);
    if i > 0 {
      assert blocks[i := next][1..] == blocks[1..][i - 1 := next];
      SameIndex(blocks[1..], hash, next);
    }
  }

  /** Repeating a status the pool sends changes nothing. */
  lemma RepeatsAreIdempotent(st: State, sym: string, hash: string, confirmations: int, orphaned: bool)
    requires if orphaned then confirmations == -1 else confirmations > 0
    ensures var once := Update(st, sym, hash, confirmations, orphaned);
      Update(once, sym, hash, confirmations, orphaned) == once
  {
    var i := IndexOf(st.recent, hash);
    if sym in st.coins && i < |st.recent| {
      var once := Update(st, sym, hash, confirmations, orphaned);
      SameIndex(st.recent, hash, Restated(st.recent[i], confirmations, orphaned));
      var twice := Update(once, sym, hash, confirmations, orphaned);
      assert IndexOf(once.recent, hash) == i;
      assert twice.recent == once.recent;
      assert twice.coins == once.coins;
    }
  }

  // ----- the tracker, updated in place -----

  class Tracker {
    var coins: map<string, Counters>
    var recent: seq<Block>

    function View(): State
      reads this
    {
      State(coins, recent)
    }

    constructor ()
      ensures View() == State(map[], [])
    {
      coins, recent := map[], [];
    }

    method GetOrCreateCoin(sym: string) returns (acc: Counters)
      modifies this`coins
      ensures acc == Account(old(coins), sym) && coins == old(coins)[sym := acc]
    {
      if sym !in coins {
        coins := coins[sym := Counters(0, 0, 0, 0.0)];
      }
      acc := coins[sym];
    }

    method RecordBlock(coin: string, height: int, hash: string, reward: real, now: int)
      modifies this
      ensures View() == Record(old(View()), FreshBlock(coin, height, hash, reward, now))
    {
      var sym := Text.Upper(coin);
      var acc := GetOrCreateCoin(sym);
      coins := coins[sym := acc.(found := acc.found + 1)];
      var block := Block(sym, height, hash, reward, now, 0, false);
      recent := [block] + recent;
      if |recent| > MAX_RECENT {
        recent := recent[..MAX_RECENT];
      }
    }

    method UpdateConfirmations(coin: string, hash: string, confirmations: int, orphaned: bool)
      modifies this
      ensures View() == Update(old(View()), Text.Upper(coin), hash, confirmations, orphaned)
    {
      var sym := Text.Upper(coin);
      if sym !in coins {
        return;
      }
      var acc := coins[sym];
      var i := 0;
      while i < |recent|
        invariant i <= |recent| && IndexOf(recent, hash) == i + IndexOf(recent[i..], hash)
      {
        if recent[i].hash != hash {
          assert recent[i..][1..] == recent[i + 1..];
          i := i + 1;
          continue;
        }
        var prev := recent[i];
        if orphaned && !prev.orphaned {
          recent := recent[i := prev.(orphaned := true, confirmations := -1)];
          acc := acc.(orphaned := acc.orphaned + 1);
          if prev.confirmations > 0 {
            acc := acc.(confirmed := acc.confirmed - 1, reward := acc.reward - prev.reward);
          }
          coins := coins[sym := acc];
          return;
        }
        if !orphaned && prev.confirmations == 0 && confirmations > 0 {
          acc := acc.(confirmed := acc.confirmed + 1, reward := acc.reward + prev.reward);
        }
        coins := coins[sym := acc];
        recent := recent[i := prev.(confirmations := confirmations)];
        return;
      }
    }
  }
}
