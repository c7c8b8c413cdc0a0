/**
 Compaction of a hashrate history into tiers, and when its result can be compacted again.
 Compacting can leave the list out of time order where two tiers meet; what the next compaction needs is less than
 that, and half a five-minute bucket of time is exactly enough to have it again.  (internal/hashstore/store.go)
 */
module HashHistory {
  import opened Arithmetic
  import opened Hashstore

  const QUARTER: int := 15 * MINUTE
  const FIVE: int := 5 * MINUTE
  const HALF_FIVE: int := FIVE / 2

  function Between(s: seq<Sample>, lo: int, hi: int): seq<Sample> {
    if s == [] then []
    else
      var rest, x := Between(s[..|s| - 1], lo, hi), s[|s| - 1];
      if lo <= x.at < hi then rest + [x] else rest
  }

  function Before(s: seq<Sample>, hi: int): seq<Sample> {
    if s == [] then []
    else
      var rest, x := Before(s[..|s| - 1], hi), s[|s| - 1];
      if x.at < hi then rest + [x] else rest
  }

  function From(s: seq<Sample>, lo: int): seq<Sample> {
    if s == [] then []
    else
      var rest, x := From(s[..|s| - 1], lo), s[|s| - 1];
      if lo <= x.at then rest + [x] else rest
  }

  /** A history as compaction leaves it: averages per quarter hour, per five minutes, per minute, and raw samples. */
  datatype Tiers = Tiers(quarters: seq<Sample>, fives: seq<Sample>, minutes: seq<Sample>, raw: seq<Sample>)

  function Join(t: Tiers): seq<Sample> {
    t.quarters + t.fives + t.minutes + t.raw
  }

  // ----- compaction, for samples in any order -----

  /** Go's sort.Search for a sample no older than the cutoff: the answer halving gives, on any list. */
  function SearchIn(s: seq<Sample>, cutoff: int, i: nat, j: nat): (k: nat)
    requires i <= j <= |s|
    ensures i <= k <= j
    decreases j - i
  {
    if i == j then i
    else
      var h := (i + j) / 2;
      if s[h].at < cutoff then SearchIn(s, cutoff, h + 1, j) else SearchIn(s, cutoff, i, h)
  }

  predicate EndsAtBoundary(s: seq<Sample>, cutoff: int, k: nat) {
    k <= |s| && (k > 0 ==> s[k - 1].at < cutoff) && (k < |s| ==> cutoff <= s[k].at)
  }

  lemma {:induction false} SearchEndsAtBoundary(s: seq<Sample>, cutoff: int, i: nat, j: nat)
    requires i <= j <= |s|
    requires i > 0 ==> s[i - 1].at < cutoff
    requires j < |s| ==> cutoff <= s[j].at
    ensures EndsAtBoundary(s, cutoff, SearchIn(s, cutoff, i, j))
    decreases j - i
  {
    if i < j {
      var h := (i + j) / 2;
      assert i <= h < j;
      if s[h].at < cutoff {
        SearchEndsAtBoundary(s, cutoff, h + 1, j);
      } else {
        SearchEndsAtBoundary(s, cutoff, i, h);
      }
    }
  }

  function Found(s: seq<Sample>, cutoff: int): (k: nat)
    ensures EndsAtBoundary(s, cutoff, k)
  {
    SearchEndsAtBoundary(s, cutoff, 0, |s|);
    SearchIn(s, cutoff, 0, |s|)
  }

  /** Compaction of one coin's samples: drop, deal out to zones, average the three older ones. */
  function Compaction(s: seq<Sample>, now: int): Tiers {
    var kept := s[Found(s, now - 30 * DAY)..];
    Tiers(Downsampled(Before(kept, now - 7 * DAY), QUARTER),
          Downsampled(Between(kept, now - 7 * DAY, now - DAY), FIVE),
          Downsampled(Between(kept, now - DAY, now - HOUR), MINUTE),
          From(kept, now - HOUR))
  }

  /** What it is for: each tier holds the averages of its span of age, and the last hour is untouched. */
  predicate Compacted(t: Tiers, s: seq<Sample>, now: int) {
    && Averages(t.quarters, Between(s, now - 2_592_000_000, now - 604_800_000), 900_000)
    && Averages(t.fives, Between(s, now - 604_800_000, now - 86_400_000), 300_000)
    && Averages(t.minutes, Between(s, now - 86_400_000, now - 3_600_000), 60_000)
    && t.raw == From(s, now - 3_600_000)
  }

  // ----- what compaction needs of its input -----

  /** In order, up to a bucket, among the samples no older than `lo`. */
  predicate OrderedFrom(s: seq<Sample>, size: int, lo: int)
    requires size > 0
  {
    forall i, j :: 0 <= i < j < |s| && lo <= s[i].at && lo <= s[j].at ==> Bucket(s[i].at, size) <= Bucket(s[j].at, size)
  }

  /** Once a sample is no older than `lo`, none after it is. */
  predicate SplitsAt(s: seq<Sample>, lo: int) {
    forall i, j :: 0 <= i < j < |s| && lo <= s[i].at ==> lo <= s[j].at
  }

  predicate Ready(s: seq<Sample>, now: int) {
    && SplitsAt(s, now - 30 * DAY)
    && OrderedFrom(s, QUARTER, now - 30 * DAY)
    && OrderedFrom(s, FIVE, now - 7 * DAY)
    && OrderedFrom(s, MINUTE, now - DAY)
    && OrderedFrom(s, 1, now - HOUR)
  }

  lemma TimeOrderedIsReady(s: seq<Sample>, now: int)
    requires TimeOrdered(s)
    ensures Ready(s, now)
  {
    forall i, j | 0 <= i < j < |s|
      ensures Bucket(s[i].at, QUARTER) <= Bucket(s[j].at, QUARTER) && Bucket(s[i].at, FIVE) <= Bucket(s[j].at, FIVE)
      ensures Bucket(s[i].at, MINUTE) <= Bucket(s[j].at, MINUTE) && Bucket(s[i].at, 1) <= Bucket(s[j].at, 1)
    {
      BucketMonotone(s[i].at, s[j].at, QUARTER);
      BucketMonotone(s[i].at, s[j].at, FIVE);
      BucketMonotone(s[i].at, s[j].at, MINUTE);
      BucketMonotone(s[i].at, s[j].at, 1);
    }
  }

  lemma {:induction false} BetweenHas(s: seq<Sample>, lo: int, hi: int)
    ensures forall x :: x in Between(s, lo, hi) <==> x in s && lo <= x.at < hi
  {
    if s != [] {
      BetweenHas(s[..|s| - 1], lo, hi);
      assert s == s[..|s| - 1] + [s[|s| - 1]];
    }
  }

  lemma {:induction false} FromHas(s: seq<Sample>, lo: int)
    ensures forall x :: x in From(s, lo) <==> x in s && lo <= x.at
  {
    if s != [] {
      FromHas(s[..|s| - 1], lo);
      assert s == s[..|s| - 1] + [s[|s| - 1]];
    }
  }

  lemma {:induction false} BetweenOrdered(s: seq<Sample>, size: int, lo: int, hi: int)
    requires size > 0 && OrderedFrom(s, size, lo)
    ensures BucketOrdered(Between(s, lo, hi), size)
  {
    if s != [] {
      var front, x := s[..|s| - 1], s[|s| - 1];
      assert OrderedFrom(front, size, lo);
      BetweenOrdered(front, size, lo, hi);
      BetweenHas(front, lo, hi);
      if lo <= x.at < hi {
        AppendOrdered(Between(front, lo, hi), size, x);
      }
    }
  }

  lemma {:induction false} FromOrdered(s: seq<Sample>, size: int, lo: int)
    requires size > 0 && OrderedFrom(s, size, lo)
    ensures BucketOrdered(From(s, lo), size)
  {
    if s != [] {
      var front, x := s[..|s| - 1], s[|s| - 1];
      assert OrderedFrom(front, size, lo);
      FromOrdered(front, size, lo);
      FromHas(front, lo);
      if lo <= x.at {
        AppendOrdered(From(front, lo), size, x);
      }
    }
  }

  lemma AppendOrdered(part: seq<Sample>, size: int, x: Sample)
    requires size > 0 && BucketOrdered(part, size)
    requires forall p :: p in part ==> Bucket(p.at, size) <= Bucket(x.at, size)
    ensures BucketOrdered(part + [x], size)
  {
  }

  lemma {:induction false} NoneFrom(s: seq<Sample>, lo: int, hi: int)
    requires forall k :: 0 <= k < |s| ==> s[k].at < lo
    ensures Between(s, lo, hi) == [] && From(s, lo) == []
  {
    if s != [] {
      NoneFrom(s[..|s| - 1], lo, hi);
    }
  }

  lemma {:induction false} NothingBetween(s: seq<Sample>, lo: int, hi: int, n: nat)
    requires n <= |s| && forall k :: 0 <= k < n ==> s[k].at < lo
    ensures Between(s, lo, hi) == Between(s[n..], lo, hi) && From(s, lo) == From(s[n..], lo)
  {
    if n == |s| {
      NoneFrom(s, lo, hi);
    } else {
      assert s[n..][..|s| - n - 1] == s[..|s| - 1][n..];
      NothingBetween(s[..|s| - 1], lo, hi, n);
    }
  }

  lemma {:induction false} BeforeIsBetween(s: seq<Sample>, lo: int, hi: int)
    requires forall k :: 0 <= k < |s| ==> lo <= s[k].at
    ensures Before(s, hi) == Between(s, lo, hi)
  {
    if s != [] {
      BeforeIsBetween(s[..|s| - 1], lo, hi);
    }
  }

  /** Where the list splits at the cutoff, the search finds the split. */
  lemma FoundSplits(s: seq<Sample>, cutoff: int)
    requires SplitsAt(s, cutoff)
    ensures forall k :: 0 <= k < |s| ==> (cutoff <= s[k].at <==> Found(s, cutoff) <= k)
  {
  }

  lemma ZonesOfKept(s: seq<Sample>, now: int)
    requires SplitsAt(s, now - 30 * DAY)
    ensures var kept := s[Found(s, now - 30 * DAY)..];
      && Before(kept, now - 7 * DAY) == Between(s, now - 30 * DAY, now - 7 * DAY)
      && Between(kept, now - 7 * DAY, now - DAY) == Between(s, now - 7 * DAY, now - DAY)
      && Between(kept, now - DAY, now - HOUR) == Between(s, now - DAY, now - HOUR)
      && From(kept, now - HOUR) == From(s, now - HOUR)
  {
    var n := Found(s, now - 30 * DAY);
    FoundSplits(s, now - 30 * DAY);
    BeforeIsBetween(s[n..], now - 30 * DAY, now - 7 * DAY);
    NothingBetween(s, now - 30 * DAY, now - 7 * DAY, n);
    NothingBetween(s, now - 7 * DAY, now - DAY, n);
    NothingBetween(s, now - DAY, now - HOUR, n);
    NothingBetween(s, now - HOUR, now, n);
  }

  lemma ZoneAverages(s: seq<Sample>, size: int, lo: int, hi: int)
    requires size > 0 && NonNegative(s) && OrderedFrom(s, size, lo)
    ensures Averages(Downsampled(Between(s, lo, hi), size), Between(s, lo, hi), size)
  {
    BetweenHas(s, lo, hi);
    BetweenOrdered(s, size, lo, hi);
    DownsampledAverages(Between(s, lo, hi), size);
  }

  /** Compacting a list that is ready gives the averages of its tiers. */
  lemma ReadyIsCompacted(s: seq<Sample>, now: int)
    requires Ready(s, now) && NonNegative(s)
    ensures Compacted(Compaction(s, now), s, now)
  {
    ZonesOfKept(s, now);
    ZoneAverages(s, QUARTER, now - 30 * DAY, now - 7 * DAY);
    ZoneAverages(s, FIVE, now - 7 * DAY, now - DAY);
    ZoneAverages(s, MINUTE, now - DAY, now - HOUR);
  }

  // ----- the sizes -----

  predicate WithinLimits(t: Tiers) {
    |t.quarters| <= 2880 && |t.fives| <= 2016 && |t.minutes| <= 1440
  }

  /** The promised limits on points per tier hold, with room to spare. */
  lemma TiersAreSmall(t: Tiers, s: seq<Sample>, now: int)
    requires Compacted(t, s, now)
    ensures |t.quarters| <= 23 * 24 * 4 + 1 && |t.fives| <= 6 * 24 * 12 + 1 && |t.minutes| <= 23 * 60 + 1
    ensures WithinLimits(t)
  {
    BetweenHas(s, now - 30 * DAY, now - 7 * DAY);
    BetweenHas(s, now - 7 * DAY, now - DAY);
    BetweenHas(s, now - DAY, now - HOUR);
    SpanBoundsPoints(t.quarters, Between(s, now - 30 * DAY, now - 7 * DAY), QUARTER, now - 30 * DAY, 23 * 24 * 4);
    SpanBoundsPoints(t.fives, Between(s, now - 7 * DAY, now - DAY), FIVE, now - 7 * DAY, 6 * 24 * 12);
    SpanBoundsPoints(t.minutes, Between(s, now - DAY, now - HOUR), MINUTE, now - DAY, 23 * 60);
  }

  // ----- ready for the next compaction -----

  /** A point of a tier: the middle of a bucket that meets [lo, hi). */
  predicate InTier(o: Sample, size: int, lo: int, hi: int)
    requires size > 0
  {
    o.at == Midpoint(Bucket(o.at, size), size) && Bucket(lo, size) <= Bucket(o.at, size) <= Bucket(hi - 1, size)
  }

  predicate Tier(s: seq<Sample>, size: int, lo: int, hi: int)
    requires size > 0
  {
    Increasing(s, size) && forall o :: o in s ==> InTier(o, size, lo, hi)
  }

  /** What compaction at `now` leaves behind, and what later samples in order keep. */
  predicate Tiered(t: Tiers, now: int) {
    && Tier(t.quarters, QUARTER, now - 30 * DAY, now - 7 * DAY)
    && Tier(t.fives, FIVE, now - 7 * DAY, now - DAY)
    && Tier(t.minutes, MINUTE, now - DAY, now - HOUR)
    && BucketOrdered(t.raw, 1)
    && forall o :: o in t.raw ==> now - HOUR <= o.at
  }

  lemma AveragesAreTier(out: seq<Sample>, s: seq<Sample>, size: int, lo: int, hi: int)
    requires size > 0 && Averages(out, Between(s, lo, hi), size)
    ensures Tier(out, size, lo, hi)
  {
    forall o | o in out
      ensures InTier(o, size, lo, hi)
    {
      var part := Between(s, lo, hi);
      CountsWhatItHas(part, size, Bucket(o.at, size));
      var k :| 0 <= k < |part| && Bucket(part[k].at, size) == Bucket(o.at, size);
      BetweenHas(s, lo, hi);
      assert part[k] in part;
      BucketMonotone(lo, part[k].at, size);
      BucketMonotone(part[k].at, hi - 1, size);
    }
  }

  lemma CompactedIsTiered(t: Tiers, s: seq<Sample>, now: int)
    requires Compacted(t, s, now) && Ready(s, now)
    ensures Tiered(t, now)
  {
    AveragesAreTier(t.quarters, s, QUARTER, now - 30 * DAY, now - 7 * DAY);
    AveragesAreTier(t.fives, s, FIVE, now - 7 * DAY, now - DAY);
    AveragesAreTier(t.minutes, s, MINUTE, now - DAY, now - HOUR);
    FromOrdered(s, 1, now - HOUR);
    FromHas(s, now - HOUR);
  }

  /** New samples that arrive in order, none older than an hour at the last compaction, join the raw tier. */
  lemma AddKeepsTiers(t: Tiers, now: int, x: Sample)
    requires Tiered(t, now) && now - HOUR <= x.at
    requires forall o :: o in t.raw ==> o.at <= x.at
    ensures Tiered(t.(raw := t.raw + [x]), now) && Join(t.(raw := t.raw + [x])) == Join(t) + [x]
  {
  }

  predicate Sorted(s: seq<Sample>) {
    forall i, j :: 0 <= i < j < |s| ==> s[i].at <= s[j].at
  }

  lemma MidpointMonotone(p: int, q: int, size: int)
    requires size > 0 && p <= q
    ensures Midpoint(p, size) <= Midpoint(q, size)
  {
    assert (q - p) * size >= 0;
    assert q * size == p * size + (q - p) * size;
  }

  lemma TierIsSorted(s: seq<Sample>, size: int, lo: int, hi: int)
    requires size > 0 && Tier(s, size, lo, hi)
    ensures Sorted(s)
  {
    forall i, j | 0 <= i < j < |s|
      ensures s[i].at <= s[j].at
    {
      assert s[i] in s && s[j] in s;
      MidpointMonotone(Bucket(s[i].at, size), Bucket(s[j].at, size), size);
    }
  }

  lemma SortedIsOrdered(s: seq<Sample>, size: int, lo: int)
    requires size > 0 && Sorted(s)
    ensures OrderedFrom(s, size, lo)
  {
    forall i, j | 0 <= i < j < |s|
      ensures Bucket(s[i].at, size) <= Bucket(s[j].at, size)
    {
      BucketMonotone(s[i].at, s[j].at, size);
    }
  }

  predicate AtMost(s: seq<Sample>, size: int, lo: int, bound: int)
    requires size > 0
  {
    forall o :: o in s && lo <= o.at ==> Bucket(o.at, size) <= bound
  }

  predicate AtLeast(s: seq<Sample>, size: int, lo: int, bound: int)
    requires size > 0
  {
    forall o :: o in s && lo <= o.at ==> bound <= Bucket(o.at, size)
  }

  lemma JoinOrdered(x: seq<Sample>, y: seq<Sample>, size: int, lo: int, bound: int)
    requires size > 0 && OrderedFrom(x, size, lo) && OrderedFrom(y, size, lo)
    requires AtMost(x, size, lo, bound) && AtLeast(y, size, lo, bound)
    ensures OrderedFrom(x + y, size, lo)
  {
  }

  /** Buckets nest: the bucket of a fine tier lies in one bucket of a coarser one. */
  lemma Nested(a: int, b: int, fine: int, k: int)
    requires fine > 0 && k > 0 && Bucket(a, fine) <= Bucket(b, fine)
    ensures Bucket(a, k * fine) <= Bucket(b, k * fine)
  {
    Composed(a, fine, k);
    Composed(b, fine, k);
    BucketMonotone(Bucket(a, fine), Bucket(b, fine), k);
  }

  lemma RemainderFits(d: nat, v: nat, fine: nat, k: nat)
    requires k == d + 1 + v
    ensures k * fine >= v * fine + fine && v * fine >= 0
  {
    assert (d + 1 + v) * fine == d * fine + fine + v * fine;
    assert d * fine >= 0;
  }

  lemma Composed(a: int, fine: int, k: int)
    requires fine > 0 && k > 0
    ensures k * fine > 0 && Bucket(a, k * fine) == Bucket(Bucket(a, fine), k)
  {
    var q, r := a / fine, a % fine;
    var u, v := q / k, q % k;
    assert a == q * fine + r && q == u * k + v;
    assert a == u * (k * fine) + (v * fine + r) by {
      assert q * fine == (u * k) * fine + v * fine;
      assert (u * k) * fine == u * (k * fine);
    }
    RemainderFits(k - 1 - v, v, fine, k);
    DivModUnique(a, k * fine, u, v * fine + r);
  }

  lemma TierBounds(s: seq<Sample>, size: int, lo: int, hi: int, k: int, from: int)
    requires size > 0 && k > 0 && Tier(s, size, lo, hi)
    ensures k * size > 0
    ensures AtMost(s, k * size, from, Bucket(hi - 1, k * size)) && AtLeast(s, k * size, from, Bucket(lo, k * size))
  {
    Composed(lo, size, k);
    forall o | o in s
      ensures Bucket(lo, k * size) <= Bucket(o.at, k * size) <= Bucket(hi - 1, k * size)
    {
      Nested(lo, o.at, size, k);
      Nested(o.at, hi - 1, size, k);
    }
  }

  lemma AllFrom(s: seq<Sample>, size: int, from: int, lo: int)
    requires size > 0 && forall o :: o in s && from <= o.at ==> lo <= o.at
    ensures AtLeast(s, size, from, Bucket(lo, size))
  {
    forall o | o in s && from <= o.at
      ensures Bucket(lo, size) <= Bucket(o.at, size)
    {
      BucketMonotone(lo, o.at, size);
    }
  }

  lemma TierBelow(s: seq<Sample>, size: int, lo: int, hi: int, x: int)
    requires size > 0 && Tier(s, size, lo, hi) && hi + size / 2 <= x
    ensures forall o :: o in s ==> o.at < x
  {
    forall o | o in s
      ensures o.at < x
    {
      assert InTier(o, size, lo, hi);
      MidpointMonotone(Bucket(o.at, size), Bucket(hi - 1, size), size);
      assert Bucket(hi - 1, size) * size <= hi - 1;
    }
  }

  lemma TierAbove(s: seq<Sample>, size: int, lo: int, hi: int, x: int)
    requires size > 0 && Tier(s, size, lo, hi) && x + size <= lo + size / 2
    ensures forall o :: o in s ==> x <= o.at
  {
    forall o | o in s
      ensures x <= o.at
    {
      assert InTier(o, size, lo, hi);
      MidpointMonotone(Bucket(lo, size), Bucket(o.at, size), size);
      assert lo < Bucket(lo, size) * size + size;
    }
  }

  function Tail(t: Tiers): seq<Sample> {
    t.minutes + t.raw
  }

  lemma JoinIsNested(t: Tiers)
    ensures Join(t) == t.quarters + (t.fives + Tail(t))
  {
  }

  lemma AllSorted(t: Tiers, now: int)
    requires Tiered(t, now)
    ensures Sorted(t.quarters) && Sorted(t.fives) && Sorted(t.minutes) && Sorted(t.raw)
  {
    TierIsSorted(t.quarters, QUARTER, now - 30 * DAY, now - 7 * DAY);
    TierIsSorted(t.fives, FIVE, now - 7 * DAY, now - DAY);
    TierIsSorted(t.minutes, MINUTE, now - DAY, now - HOUR);
    forall i, j | 0 <= i < j < |t.raw|
      ensures t.raw[i].at <= t.raw[j].at
    {
      assert Bucket(t.raw[i].at, 1) <= Bucket(t.raw[j].at, 1);
    }
  }

  /** From the minutes on, the list is in order by the minute, and so by any whole number of minutes. */
  lemma TailOrdered(t: Tiers, now: int, k: int, from: int)
    requires Tiered(t, now) && k > 0
    ensures k * MINUTE > 0 && OrderedFrom(Tail(t), k * MINUTE, from)
    ensures AtLeast(Tail(t), k * MINUTE, from, Bucket(now - DAY, k * MINUTE))
  {
    AllSorted(t, now);
    TierBounds(t.minutes, MINUTE, now - DAY, now - HOUR, k, from);
    SortedIsOrdered(t.minutes, k * MINUTE, from);
    SortedIsOrdered(t.raw, k * MINUTE, from);
    AllFrom(t.raw, k * MINUTE, from, now - HOUR);
    BucketMonotone(now - HOUR - 1, now - HOUR, k * MINUTE);
    BucketMonotone(now - DAY, now - HOUR, k * MINUTE);
    JoinOrdered(t.minutes, t.raw, k * MINUTE, from, Bucket(now - HOUR, k * MINUTE));
  }

  lemma FivesOrdered(t: Tiers, now: int, k: int, from: int)
    requires Tiered(t, now) && k > 0
    ensures k * FIVE > 0 && OrderedFrom(t.fives + Tail(t), k * FIVE, from)
    ensures AtLeast(t.fives + Tail(t), k * FIVE, from, Bucket(now - 7 * DAY, k * FIVE))
  {
    AllSorted(t, now);
    assert k * FIVE == (5 * k) * MINUTE;
    TailOrdered(t, now, 5 * k, from);
    TierBounds(t.fives, FIVE, now - 7 * DAY, now - DAY, k, from);
    SortedIsOrdered(t.fives, k * FIVE, from);
    BucketMonotone(now - DAY - 1, now - DAY, k * FIVE);
    BucketMonotone(now - 7 * DAY, now - DAY, k * FIVE);
    JoinOrdered(t.fives, Tail(t), k * FIVE, from, Bucket(now - DAY, k * FIVE));
  }

  lemma ReadyQuarters(t: Tiers, now: int, from: int)
    requires Tiered(t, now)
    ensures OrderedFrom(Join(t), QUARTER, from)
  {
    AllSorted(t, now);
    assert QUARTER == 3 * FIVE == 1 * QUARTER;
    FivesOrdered(t, now, 3, from);
    TierBounds(t.quarters, QUARTER, now - 30 * DAY, now - 7 * DAY, 1, from);
    SortedIsOrdered(t.quarters, QUARTER, from);
    BucketMonotone(now - 7 * DAY - 1, now - 7 * DAY, QUARTER);
    JoinOrdered(t.quarters, t.fives + Tail(t), QUARTER, from, Bucket(now - 7 * DAY, QUARTER));
    JoinIsNested(t);
  }

  /** The bucket of five minutes that holds the middle of a quarter hour. */
  function MiddleFive(quarter: int): int {
    3 * quarter + 1
  }

  lemma QuarterInMiddleFive(o: Sample, lo: int, hi: int)
    requires InTier(o, QUARTER, lo, hi)
    ensures Bucket(o.at, FIVE) == MiddleFive(Bucket(o.at, QUARTER)) <= MiddleFive(Bucket(hi - 1, QUARTER))
  {
    DivModUnique(o.at, FIVE, MiddleFive(Bucket(o.at, QUARTER)), HALF_FIVE);
  }

  /** A five-minute average still in its tier half a bucket later has left the quarter hour's first third. */
  lemma FivePassesQuarter(o: Sample, lo: int, hi: int, from: int)
    requires InTier(o, FIVE, lo, hi) && lo + HALF_FIVE <= from <= o.at
    ensures MiddleFive(Bucket(lo - 1, QUARTER)) <= Bucket(o.at, FIVE)
  {
    var q, p := Bucket(lo - 1, QUARTER), Bucket(o.at, FIVE);
    assert q * QUARTER <= lo - 1;
    assert o.at == p * FIVE + HALF_FIVE;
  }

  lemma ReadyFives(t: Tiers, now: int, from: int)
    requires Tiered(t, now) && now - 7 * DAY + HALF_FIVE <= from
    ensures OrderedFrom(Join(t), FIVE, from)
  {
    AllSorted(t, now);
    FivesOrdered(t, now, 1, from);
    SortedIsOrdered(t.quarters, FIVE, from);
    var bound := MiddleFive(Bucket(now - 7 * DAY - 1, QUARTER));
    forall o | o in t.quarters
      ensures Bucket(o.at, FIVE) <= bound
    {
      QuarterInMiddleFive(o, now - 30 * DAY, now - 7 * DAY);
    }
    forall o | o in t.fives && from <= o.at
      ensures bound <= Bucket(o.at, FIVE)
    {
      FivePassesQuarter(o, now - 7 * DAY, now - DAY, from);
    }
    TailPassesQuarter(t, now, from);
    JoinOrdered(t.quarters, t.fives + Tail(t), FIVE, from, bound);
    JoinIsNested(t);
  }

  lemma TailPassesQuarter(t: Tiers, now: int, from: int)
    requires Tiered(t, now)
    ensures AtLeast(Tail(t), FIVE, from, MiddleFive(Bucket(now - 7 * DAY - 1, QUARTER)))
  {
    TailOrdered(t, now, 5, from);
    var q := Bucket(now - 7 * DAY - 1, QUARTER);
    BucketMonotone(q * QUARTER + FIVE, now - DAY, FIVE);
    DivModUnique(q * QUARTER + FIVE, FIVE, MiddleFive(q), 0);
  }

  lemma SkipTier(x: seq<Sample>, y: seq<Sample>, size: int, from: int)
    requires size > 0 && OrderedFrom(y, size, from) && forall o :: o in x ==> o.at < from
    ensures OrderedFrom(x + y, size, from)
  {
  }

  lemma ReadyMinutes(t: Tiers, now: int, from: int)
    requires Tiered(t, now) && now - DAY + HALF_FIVE <= from
    ensures OrderedFrom(Join(t), MINUTE, from)
  {
    TailOrdered(t, now, 1, from);
    TierBelow(t.quarters, QUARTER, now - 30 * DAY, now - 7 * DAY, from);
    TierBelow(t.fives, FIVE, now - 7 * DAY, now - DAY, from);
    SkipTier(t.fives, Tail(t), MINUTE, from);
    SkipTier(t.quarters, t.fives + Tail(t), MINUTE, from);
    JoinIsNested(t);
  }

  lemma ReadyRaw(t: Tiers, now: int, from: int)
    requires Tiered(t, now) && now - HOUR + HALF_FIVE <= from
    ensures OrderedFrom(Join(t), 1, from)
  {
    AllSorted(t, now);
    SortedIsOrdered(t.raw, 1, from);
    TierBelow(t.quarters, QUARTER, now - 30 * DAY, now - 7 * DAY, from);
    TierBelow(t.fives, FIVE, now - 7 * DAY, now - DAY, from);
    TierBelow(t.minutes, MINUTE, now - DAY, now - HOUR, from);
    SkipTier(t.minutes, t.raw, 1, from);
    SkipTier(t.fives, Tail(t), 1, from);
    SkipTier(t.quarters, t.fives + Tail(t), 1, from);
    JoinIsNested(t);
  }

  lemma SplitsConcat(a: seq<Sample>, b: seq<Sample>, cutoff: int)
    requires SplitsAt(a, cutoff) && SplitsAt(b, cutoff)
    requires (forall o :: o in a ==> o.at < cutoff) || (forall o :: o in b ==> cutoff <= o.at)
    ensures SplitsAt(a + b, cutoff)
  {
    var s := a + b;
    forall i, j | 0 <= i < j < |s| && cutoff <= s[i].at
      ensures cutoff <= s[j].at
    {
      if i < |a| <= j {
        assert a[i] in a && b[j - |a|] in b;
      }
    }
  }

  /**
   Not within half a bucket of where two tiers meet: of the older tier's bucket on the newer side, of the newer
   tier's on the older side.
   */
  predicate AwayFromCutoffs(now: int, at: int) {
    && !(now - 7 * DAY - FIVE / 2 < at < now - 7 * DAY + QUARTER / 2)
    && !(now - DAY - MINUTE / 2 < at < now - DAY + FIVE / 2)
    && !(now - HOUR < at < now - HOUR + MINUTE / 2)
  }

  /** There the list splits, whatever the order where its tiers meet. */
  lemma SplitsAwayFromCutoffs(t: Tiers, now: int, cutoff: int)
    requires Tiered(t, now) && AwayFromCutoffs(now, cutoff)
    ensures SplitsAt(Join(t), cutoff)
  {
    AllSorted(t, now);
    if now - 7 * DAY + QUARTER / 2 <= cutoff {
      TierBelow(t.quarters, QUARTER, now - 30 * DAY, now - 7 * DAY, cutoff);
    }
    if now - DAY + FIVE / 2 <= cutoff {
      TierBelow(t.fives, FIVE, now - 7 * DAY, now - DAY, cutoff);
    } else {
      TierAbove(t.minutes, MINUTE, now - DAY, now - HOUR, cutoff);
    }
    if now - HOUR + MINUTE / 2 <= cutoff {
      TierBelow(t.minutes, MINUTE, now - DAY, now - HOUR, cutoff);
    }
    if cutoff <= now - 7 * DAY - FIVE / 2 {
      TierAbove(t.fives, FIVE, now - 7 * DAY, now - DAY, cutoff);
    }
    SplitsConcat(t.minutes, t.raw, cutoff);
    SplitsConcat(t.fives, Tail(t), cutoff);
    SplitsConcat(t.quarters, t.fives + Tail(t), cutoff);
    JoinIsNested(t);
  }

  /** Two compactions far enough apart, the second not dropping from just where two tiers met at the first. */
  predicate GoodGap(now: int, next: int) {
    now + HALF_FIVE <= next && AwayFromCutoffs(now, next - 30 * DAY)
  }

  /**
   A compacted history, however it is ordered where its tiers meet, is again ready to be compacted at any time from
   two and a half minutes on, unless its drop line is then just where two tiers met: every tier is in order by its
   own bucket.
   */
  lemma CompactionStaysReady(t: Tiers, now: int, next: int)
    requires Tiered(t, now) && GoodGap(now, next)
    ensures Ready(Join(t), next)
  {
    SplitsAwayFromCutoffs(t, now, next - 30 * DAY);
    ReadyQuarters(t, now, next - 30 * DAY);
    ReadyFives(t, now, next - 7 * DAY);
    ReadyMinutes(t, now, next - DAY);
    ReadyRaw(t, now, next - HOUR);
  }

  // ----- no less time will do -----

  /** Two samples a millisecond apart, the first of them on a quarter hour and just past seven days old. */
  const EARLY: Sample := Sample(1.0, 100 * DAY)
  const LATE: Sample := Sample(1.0, 100 * DAY + 1)
  const WHEN: int := 107 * DAY + 1

  lemma ZonesOfEdge()
    ensures Between([EARLY, LATE], WHEN - 30 * DAY, WHEN - 7 * DAY) == [EARLY]
    ensures Between([EARLY, LATE], WHEN - 7 * DAY, WHEN - DAY) == [LATE]
  {
    assert [EARLY, LATE][..1] == [EARLY] && [EARLY][..0] == [];
    assert Between([EARLY], WHEN - 30 * DAY, WHEN - 7 * DAY) == [EARLY];
    assert Between([EARLY], WHEN - 7 * DAY, WHEN - DAY) == [];
  }

  lemma AverageOfOne(out: seq<Sample>, x: Sample, size: int) returns (i: nat)
    requires size > 0 && Averages(out, [x], size)
    ensures i < |out| && out[i].at == Midpoint(Bucket(x.at, size), size)
  {
    assert Has(out, size, Bucket([x][0].at, size));
    i :| 0 <= i < |out| && Bucket(out[i].at, size) == Bucket(x.at, size);
    assert IsBucketOf(out[i], [x], size);
  }

  lemma EdgeIsDealt(t: Tiers) returns (i: nat, j: nat)
    requires Compacted(t, [EARLY, LATE], WHEN)
    ensures i < |t.quarters| && t.quarters[i].at == 28801 * FIVE + HALF_FIVE
    ensures j < |t.fives| && t.fives[j].at == 28800 * FIVE + HALF_FIVE
  {
    ZonesOfEdge();
    i := AverageOfOne(t.quarters, EARLY, QUARTER);
    j := AverageOfOne(t.fives, LATE, FIVE);
    DivModUnique(EARLY.at, QUARTER, 9600, 0);
    DivModUnique(LATE.at, FIVE, 28800, 1);
  }

  lemma EdgeBucket(at: int, bucket: int)
    requires at == bucket * FIVE + HALF_FIVE
    ensures Bucket(at, FIVE) == bucket
  {
    DivModUnique(at, FIVE, bucket, HALF_FIVE);
  }

  /**
   Compacted again sooner, these two are no longer ready: the average of the quarter hour, in its second third, would
   be dealt to the same tier as the average of its first third, before it.
   */
  lemma TooSoonIsNotReady(gap: int)
    requires 0 <= gap < HALF_FIVE
    ensures var s := [EARLY, LATE];
      TimeOrdered(s) && Tiered(Compaction(s, WHEN), WHEN) && !Ready(Join(Compaction(s, WHEN)), WHEN + gap)
  {
    var s := [EARLY, LATE];
    var t := Compaction(s, WHEN);
    TimeOrderedIsReady(s, WHEN);
    ReadyIsCompacted(s, WHEN);
    CompactedIsTiered(t, s, WHEN);
    var i, j := EdgeIsDealt(t);
    EdgeBucket(t.quarters[i].at, 28801);
    EdgeBucket(t.fives[j].at, 28800);
    NotInOrder(t, FIVE, WHEN + gap - 7 * DAY, i, j);
  }

  lemma NotInOrder(t: Tiers, size: int, from: int, i: nat, j: nat)
    requires size > 0 && i < |t.quarters| && j < |t.fives| && from <= t.quarters[i].at && from <= t.fives[j].at
    requires Bucket(t.fives[j].at, size) < Bucket(t.quarters[i].at, size)
    ensures !OrderedFrom(Join(t), size, from)
  {
    assert Join(t)[i] == t.quarters[i] && Join(t)[|t.quarters| + j] == t.fives[j];
  }

  /** A gap between compactions keeps every history ready if and only if it is at least half a five-minute bucket. */
  lemma GapIsExact(gap: int)
    requires 0 <= gap <= 22 * DAY
    ensures (forall t, now :: Tiered(t, now) ==> Ready(Join(t), now + gap)) <==> 150_000 <= gap
  {
    if HALF_FIVE <= gap {
      forall t, now | Tiered(t, now)
        ensures Ready(Join(t), now + gap)
      {
        CompactionStaysReady(t, now, now + gap);
      }
    } else {
      TooSoonIsNotReady(gap);
    }
  }
}
