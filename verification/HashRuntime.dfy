/**
 The hashrate store as the source writes it: per-coin sample lists appended to and compacted in place.
 Each method is tied to the functions of HashHistory, HashOrder and HashRuns.  (internal/hashstore/store.go)
 */
module HashRuntime {
  import opened Sequences
  import opened Hashstore
  import opened HashHistory
  import opened HashOrder
  import HashRuns

  /** Go's sort.Search, for the first sample no older than the cutoff. */
  method Search(s: seq<Sample>, cutoff: int) returns (idx: nat)
    ensures idx == Found(s, cutoff)
  {
    var i, j := 0, |s|;
    while i < j
      invariant 0 <= i <= j <= |s|
      invariant SearchIn(s, cutoff, i, j) == Found(s, cutoff)
    {
      var h := (i + j) / 2;
      if s[h].at < cutoff {
        i := h + 1;
      } else {
        j := h;
      }
    }
    idx := i;
  }

  /** The loop that deals samples out to zones. */
  method Zones(sl: seq<Sample>, now: int)
    returns (zone30d: seq<Sample>, zone7d: seq<Sample>, zone24h: seq<Sample>, raw: seq<Sample>)
    ensures zone30d == Before(sl, now - 7 * DAY) && zone7d == Between(sl, now - 7 * DAY, now - DAY)
    ensures zone24h == Between(sl, now - DAY, now - HOUR) && raw == From(sl, now - HOUR)
  {
    zone30d, zone7d, zone24h, raw := [], [], [], [];
    for i := 0 to |sl|
      invariant zone30d == Before(sl[..i], now - 7 * DAY) && zone7d == Between(sl[..i], now - 7 * DAY, now - DAY)
      invariant zone24h == Between(sl[..i], now - DAY, now - HOUR) && raw == From(sl[..i], now - HOUR)
    {
      assert sl[..i + 1][..i] == sl[..i];
      var t := sl[i].at;
      if t < now - 7 * DAY {
        zone30d := zone30d + [sl[i]];
      } else if t < now - DAY {
        zone7d := zone7d + [sl[i]];
      } else if t < now - HOUR {
        zone24h := zone24h + [sl[i]];
      } else {
        raw := raw + [sl[i]];
      }
    }
    assert sl[..|sl|] == sl;
  }

  /** One pass of compact's loop over the coins, for samples in any order. */
  method CompactCoin(samples: seq<Sample>, now: int) returns (merged: seq<Sample>)
    ensures merged == Join(Compaction(samples, now))
  {
    if |samples| == 0 {
      return samples;
    }
    var start := Search(samples, now - 30 * DAY);
    var zone30d, zone7d, zone24h, raw := Zones(samples[start..], now);
    zone30d := Downsample(zone30d, QUARTER);
    zone7d := Downsample(zone7d, FIVE);
    zone24h := Downsample(zone24h, MINUTE);
    merged := zone30d + zone7d + zone24h + raw;
  }

  /** What compact makes of every coin. */
  function CompactedAll(samples: map<string, seq<Sample>>, now: int): map<string, seq<Sample>> {
    map coin | coin in samples :: HashRuns.Step(samples[coin], HashRuns.Compact(now))
  }

  /** The coins in `done` are compacted, the others as they were. */
  ghost predicate CompactedIn(done: seq<string>, before: map<string, seq<Sample>>, after: map<string, seq<Sample>>,
                              now: int) {
    && after.Keys == before.Keys
    && forall coin :: coin in before ==>
      after[coin] == if coin in done then CompactedAll(before, now)[coin] else before[coin]
  }

  lemma CompactedOneMore(done: seq<string>, before: map<string, seq<Sample>>, after: map<string, seq<Sample>>, now: int,
                         coin: string, merged: seq<Sample>)
    requires CompactedIn(done, before, after, now) && coin in before && merged == Join(Compaction(before[coin], now))
    ensures CompactedIn(done + [coin], before, after[coin := merged], now)
  {
  }

  lemma CompactedThemAll(done: seq<string>, before: map<string, seq<Sample>>, after: map<string, seq<Sample>>, now: int)
    requires CompactedIn(done, before, after, now) && Lists(done, before.Keys)
    ensures after == CompactedAll(before, now)
  {
  }

  /** The loop of compact over the coins. */
  method CompactEach(samples: map<string, seq<Sample>>, now: int) returns (after: map<string, seq<Sample>>)
    ensures after == CompactedAll(samples, now)
  {
    after := samples;
    var coins := KeysOf(samples);
    for i := 0 to |coins|
      invariant CompactedIn(coins[..i], samples, after, now)
    {
      assert coins[i] !in coins[..i];
      var merged := CompactCoin(after[coins[i]], now);
      CompactedOneMore(coins[..i], samples, after, now, coins[i], merged);
      OneMore(coins, i);
      after := after[coins[i] := merged];
    }
    assert coins[..|coins|] == coins;
    CompactedThemAll(coins, samples, after, now);
  }

  class Store {
    var samples: map<string, seq<Sample>>
    var lastComp: int

    constructor (loaded: map<string, seq<Sample>>, now: int)
      ensures samples == loaded && lastComp == now
    {
      samples, lastComp := loaded, now;
    }

    method Add(coin: string, khs: real, at: int)
      modifies this`samples
      ensures samples == old(samples)[coin :=
        HashRuns.Step(if coin in old(samples) then old(samples)[coin] else [], HashRuns.Arrive(Sample(khs, at)))]
    {
      samples := samples[coin := (if coin in samples then samples[coin] else []) + [Sample(khs, at)]];
    }

    method Compact(now: int)
      modifies this
      ensures samples == CompactedAll(old(samples), now) && lastComp == now
    {
      samples := CompactEach(samples, now);
      lastComp := now;
    }

    /** The samples from where the search ends; exactly those of the last hours iff the list splits there. */
    method Query(coin: string, now: int, windowHours: nat) returns (out: seq<Sample>)
      ensures var cutoff := now - windowHours * 3_600_000; var src := if coin in samples then samples[coin] else [];
        out == Recent(src, cutoff) && (out == From(src, cutoff) <==> SplitsAt(src, cutoff))
    {
      var cutoff := now - windowHours * HOUR;
      var src := if coin in samples then samples[coin] else [];
      var idx := Search(src, cutoff);
      out := src[idx..];
      RecentIsExactIff(src, cutoff);
    }
  }
}
