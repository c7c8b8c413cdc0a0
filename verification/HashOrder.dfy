/**
 When compaction keeps a history in time order, and what a query then finds.  (internal/hashstore/store.go)
 */
module HashOrder {
  import opened Arithmetic
  import opened Hashstore
  import opened HashHistory

  // ----- where compaction puts a sample -----

  /** The time at which a sample of time `at` is found after compaction at `now`. */
  function OutTime(at: int, now: int): int {
    if at < now - 7 * DAY then Midpoint(Bucket(at, QUARTER), QUARTER)
    else if at < now - DAY then Midpoint(Bucket(at, FIVE), FIVE)
    else if at < now - HOUR then Midpoint(Bucket(at, MINUTE), MINUTE)
    else at
  }

  /** No sample is put later than one that came after it: a matter of the three cutoffs and the samples beside them. */
  ghost predicate NonePasses(s: seq<Sample>, now: int) {
    forall x, y :: x in s && y in s && now - 30 * DAY <= x.at <= y.at ==> OutTime(x.at, now) <= OutTime(y.at, now)
  }

  // ----- the times of a tier are those its samples were put at -----

  function Times(out: seq<Sample>): set<int> {
    set o | o in out :: o.at
  }

  function OutTimes(zone: seq<Sample>, now: int): set<int> {
    set x | x in zone :: OutTime(x.at, now)
  }

  lemma AveragesShow(out: seq<Sample>, zone: seq<Sample>, size: int, now: int)
    requires size > 0 && Averages(out, zone, size)
    requires forall x :: x in zone ==> OutTime(x.at, now) == Midpoint(Bucket(x.at, size), size)
    ensures Times(out) == OutTimes(zone, now)
  {
    forall o | o in out
      ensures o.at in OutTimes(zone, now)
    {
      CountsWhatItHas(zone, size, Bucket(o.at, size));
      var k :| 0 <= k < |zone| && Bucket(zone[k].at, size) == Bucket(o.at, size);
      assert zone[k] in zone;
    }
    forall x | x in zone
      ensures OutTime(x.at, now) in Times(out)
    {
      var k :| 0 <= k < |zone| && zone[k] == x;
      assert Has(out, size, Bucket(zone[k].at, size));
      var i :| 0 <= i < |out| && Bucket(out[i].at, size) == Bucket(x.at, size);
      assert IsBucketOf(out[i], zone, size) && out[i] in out;
    }
  }

  lemma RawShows(raw: seq<Sample>, now: int)
    requires forall x :: x in raw ==> now - HOUR <= x.at
    ensures Times(raw) == OutTimes(raw, now)
  {
    forall x | x in raw
      ensures x.at in OutTimes(raw, now) && OutTime(x.at, now) in Times(raw)
    {
      assert OutTime(x.at, now) == x.at;
    }
  }

  // ----- order between tiers -----

  predicate Below(a: set<int>, b: set<int>) {
    forall p, q :: p in a && q in b ==> p <= q
  }

  predicate Precedes(a: seq<Sample>, b: seq<Sample>) {
    Below(Times(a), Times(b))
  }

  predicate PutBefore(a: seq<Sample>, b: seq<Sample>, now: int) {
    Below(OutTimes(a, now), OutTimes(b, now))
  }

  lemma SortedConcat(a: seq<Sample>, b: seq<Sample>)
    requires Sorted(a) && Sorted(b)
    ensures Sorted(a + b) <==> Precedes(a, b)
  {
    var s := a + b;
    if Sorted(s) {
      forall p, q | p in Times(a) && q in Times(b)
        ensures p <= q
      {
        var i :| 0 <= i < |a| && a[i].at == p;
        var j :| 0 <= j < |b| && b[j].at == q;
        assert s[i].at <= s[|a| + j].at;
      }
    }
    if Precedes(a, b) {
      forall i, j | 0 <= i < j < |s|
        ensures s[i].at <= s[j].at
      {
        if i < |a| <= j {
          assert a[i].at in Times(a) && b[j - |a|].at in Times(b);
        }
      }
    }
  }

  lemma TimesOfConcat(b: seq<Sample>, c: seq<Sample>)
    ensures Times(b + c) == Times(b) + Times(c)
  {
  }

  lemma PrecedesParts(a: seq<Sample>, b: seq<Sample>, c: seq<Sample>)
    ensures Precedes(a, b + c) <==> Precedes(a, b) && Precedes(a, c)
  {
    TimesOfConcat(b, c);
  }

  lemma SortedEnd(b: seq<Sample>, c: seq<Sample>)
    requires Sorted(b + c)
    ensures Sorted(c)
  {
    forall i, j | 0 <= i < j < |c| ensures c[i].at <= c[j].at {
      assert (b + c)[|b| + i].at <= (b + c)[|b| + j].at;
    }
  }

  predicate TiersInOrder(t: Tiers) {
    && Precedes(t.quarters, t.fives) && Precedes(t.quarters, t.minutes) && Precedes(t.quarters, t.raw)
    && Precedes(t.fives, t.minutes) && Precedes(t.fives, t.raw) && Precedes(t.minutes, t.raw)
  }

  /** Four tiers, each in order, make an ordered list iff each precedes all that follow. */
  lemma SortedJoin(t: Tiers)
    requires Sorted(t.quarters) && Sorted(t.fives) && Sorted(t.minutes) && Sorted(t.raw)
    ensures Sorted(Join(t)) <==> TiersInOrder(t)
  {
    var rest := t.fives + Tail(t);
    JoinIsNested(t);
    PrecedesParts(t.quarters, t.fives, Tail(t));
    PrecedesParts(t.quarters, t.minutes, t.raw);
    PrecedesParts(t.fives, t.minutes, t.raw);
    SortedConcat(t.minutes, t.raw);
    if Sorted(Tail(t)) {
      SortedConcat(t.fives, Tail(t));
    }
    if Sorted(rest) {
      SortedEnd(t.fives, Tail(t));
      SortedConcat(t.quarters, rest);
    }
    if Sorted(Join(t)) {
      SortedEnd(t.quarters, rest);
    }
  }

  // ----- the zones of a history -----

  function Zone30d(s: seq<Sample>, now: int): seq<Sample> { Between(s, now - 30 * DAY, now - 7 * DAY) }

  function Zone7d(s: seq<Sample>, now: int): seq<Sample> { Between(s, now - 7 * DAY, now - DAY) }

  function Zone24h(s: seq<Sample>, now: int): seq<Sample> { Between(s, now - DAY, now - HOUR) }

  function ZoneRaw(s: seq<Sample>, now: int): seq<Sample> { From(s, now - HOUR) }

  predicate ZonesPutInOrder(s: seq<Sample>, now: int) {
    && PutBefore(Zone30d(s, now), Zone7d(s, now), now) && PutBefore(Zone30d(s, now), Zone24h(s, now), now)
    && PutBefore(Zone30d(s, now), ZoneRaw(s, now), now) && PutBefore(Zone7d(s, now), Zone24h(s, now), now)
    && PutBefore(Zone7d(s, now), ZoneRaw(s, now), now) && PutBefore(Zone24h(s, now), ZoneRaw(s, now), now)
  }

  lemma ZonesHave(s: seq<Sample>, now: int, x: Sample)
    requires x in s && now - 30 * DAY <= x.at
    ensures x in Zone30d(s, now) <==> x.at < now - 7 * DAY
    ensures x in Zone7d(s, now) <==> now - 7 * DAY <= x.at < now - DAY
    ensures x in Zone24h(s, now) <==> now - DAY <= x.at < now - HOUR
    ensures x in ZoneRaw(s, now) <==> now - HOUR <= x.at
  {
    BetweenHas(s, now - 30 * DAY, now - 7 * DAY);
    BetweenHas(s, now - 7 * DAY, now - DAY);
    BetweenHas(s, now - DAY, now - HOUR);
    FromHas(s, now - HOUR);
  }

  lemma SameZoneInOrder(a: int, b: int, size: int)
    requires size > 0 && a <= b
    ensures Midpoint(Bucket(a, size), size) <= Midpoint(Bucket(b, size), size)
  {
    BucketMonotone(a, b, size);
    MidpointMonotone(Bucket(a, size), Bucket(b, size), size);
  }

  lemma PutBeforeAt(a: seq<Sample>, b: seq<Sample>, now: int, x: Sample, y: Sample)
    requires PutBefore(a, b, now) && x in a && y in b
    ensures OutTime(x.at, now) <= OutTime(y.at, now)
  {
    assert OutTime(x.at, now) in OutTimes(a, now) && OutTime(y.at, now) in OutTimes(b, now);
  }

  lemma ZonesPutPair(s: seq<Sample>, now: int, x: Sample, y: Sample)
    requires ZonesPutInOrder(s, now) && x in s && y in s && now - 30 * DAY <= x.at <= y.at
    ensures OutTime(x.at, now) <= OutTime(y.at, now)
  {
    ZonesHave(s, now, x);
    ZonesHave(s, now, y);
    if x.at < now - 7 * DAY {
      if y.at < now - 7 * DAY { SameZoneInOrder(x.at, y.at, QUARTER); }
      else if y.at < now - DAY { PutBeforeAt(Zone30d(s, now), Zone7d(s, now), now, x, y); }
      else if y.at < now - HOUR { PutBeforeAt(Zone30d(s, now), Zone24h(s, now), now, x, y); }
      else { PutBeforeAt(Zone30d(s, now), ZoneRaw(s, now), now, x, y); }
    } else if x.at < now - DAY {
      if y.at < now - DAY { SameZoneInOrder(x.at, y.at, FIVE); }
      else if y.at < now - HOUR { PutBeforeAt(Zone7d(s, now), Zone24h(s, now), now, x, y); }
      else { PutBeforeAt(Zone7d(s, now), ZoneRaw(s, now), now, x, y); }
    } else if x.at < now - HOUR {
      if y.at < now - HOUR { SameZoneInOrder(x.at, y.at, MINUTE); }
      else { PutBeforeAt(Zone24h(s, now), ZoneRaw(s, now), now, x, y); }
    }
  }

  lemma PutBeforeFrom(a: seq<Sample>, b: seq<Sample>, s: seq<Sample>, now: int)
    requires NonePasses(s, now)
    requires forall x :: x in a ==> x in s && now - 30 * DAY <= x.at
    requires forall y :: y in b ==> y in s
    requires forall x, y :: x in a && y in b ==> x.at <= y.at
    ensures PutBefore(a, b, now)
  {
    forall p, q | p in OutTimes(a, now) && q in OutTimes(b, now)
      ensures p <= q
    {
      var x :| x in a && OutTime(x.at, now) == p;
      var y :| y in b && OutTime(y.at, now) == q;
    }
  }

  /** Within one zone nothing passes, so only the cutoffs can put samples out of order. */
  lemma OnlyCutoffsMatter(s: seq<Sample>, now: int)
    ensures NonePasses(s, now) <==> ZonesPutInOrder(s, now)
  {
    if ZonesPutInOrder(s, now) {
      forall x, y | x in s && y in s && now - 30 * DAY <= x.at <= y.at
        ensures OutTime(x.at, now) <= OutTime(y.at, now)
      {
        ZonesPutPair(s, now, x, y);
      }
    }
    if NonePasses(s, now) {
      BetweenHas(s, now - 30 * DAY, now - 7 * DAY);
      BetweenHas(s, now - 7 * DAY, now - DAY);
      BetweenHas(s, now - DAY, now - HOUR);
      FromHas(s, now - HOUR);
      PutBeforeFrom(Zone30d(s, now), Zone7d(s, now), s, now);
      PutBeforeFrom(Zone30d(s, now), Zone24h(s, now), s, now);
      PutBeforeFrom(Zone30d(s, now), ZoneRaw(s, now), s, now);
      PutBeforeFrom(Zone7d(s, now), Zone24h(s, now), s, now);
      PutBeforeFrom(Zone7d(s, now), ZoneRaw(s, now), s, now);
      PutBeforeFrom(Zone24h(s, now), ZoneRaw(s, now), s, now);
    }
  }

  lemma TiersShow(t: Tiers, s: seq<Sample>, now: int)
    requires Compacted(t, s, now)
    ensures Times(t.quarters) == OutTimes(Zone30d(s, now), now) && Times(t.fives) == OutTimes(Zone7d(s, now), now)
    ensures Times(t.minutes) == OutTimes(Zone24h(s, now), now) && Times(t.raw) == OutTimes(ZoneRaw(s, now), now)
  {
    BetweenHas(s, now - 30 * DAY, now - 7 * DAY);
    BetweenHas(s, now - 7 * DAY, now - DAY);
    BetweenHas(s, now - DAY, now - HOUR);
    FromHas(s, now - HOUR);
    AveragesShow(t.quarters, Zone30d(s, now), QUARTER, now);
    AveragesShow(t.fives, Zone7d(s, now), FIVE, now);
    AveragesShow(t.minutes, Zone24h(s, now), MINUTE, now);
    RawShows(t.raw, now);
  }

  lemma TiersInOrderIff(t: Tiers, s: seq<Sample>, now: int)
    requires Compacted(t, s, now)
    ensures TiersInOrder(t) <==> ZonesPutInOrder(s, now)
  {
    TiersShow(t, s, now);
  }

  lemma CompactedInOrderIff(t: Tiers, s: seq<Sample>, now: int)
    requires Compacted(t, s, now) && Tiered(t, now)
    ensures Sorted(Join(t)) <==> NonePasses(s, now)
  {
    AllSorted(t, now);
    SortedJoin(t);
    TiersInOrderIff(t, s, now);
    OnlyCutoffsMatter(s, now);
  }

  /**
   A compacted history is in time order if and only if, among the samples before compaction, none is put later than
   one that came after it.
   */
  lemma CompactionKeepsOrderIff(s: seq<Sample>, now: int)
    requires Ready(s, now) && NonNegative(s)
    ensures Sorted(Join(Compaction(s, now))) <==> NonePasses(s, now)
  {
    ReadyIsCompacted(s, now);
    CompactedIsTiered(Compaction(s, now), s, now);
    CompactedInOrderIff(Compaction(s, now), s, now);
  }

  const BEFORE: Sample := Sample(1.0, 100 * DAY + 5000)
  const AFTER: Sample := Sample(2.0, 100 * DAY + 15000)

  lemma PassingDisorders(now: int)
    requires now >= 0 && now - 30 * DAY <= BEFORE.at && OutTime(BEFORE.at, now) > OutTime(AFTER.at, now)
    ensures !Sorted(Join(Compaction([BEFORE, AFTER], now)))
  {
    var s := [BEFORE, AFTER];
    assert TimeOrdered(s);
    TimeOrderedIsReady(s, now);
    CompactionKeepsOrderIff(s, now);
    assert s[0] in s && s[1] in s;
  }

  lemma PutAt(at: int, size: int, bucket: int, r: nat)
    requires r < size && at == bucket * size + r
    ensures Midpoint(Bucket(at, size), size) == bucket * size + size / 2
  {
    DivModUnique(at, size, bucket, r);
  }

  /** It can fail at each of the three cutoffs: two samples ten seconds apart, with a cutoff between them. */
  lemma CompactionCanDisorder()
    ensures TimeOrdered([BEFORE, AFTER])
    ensures !Sorted(Join(Compaction([BEFORE, AFTER], 107 * DAY + 10000)))
    ensures !Sorted(Join(Compaction([BEFORE, AFTER], 101 * DAY + 10000)))
    ensures !Sorted(Join(Compaction([BEFORE, AFTER], 100 * DAY + HOUR + 10000)))
  {
    PutAt(BEFORE.at, QUARTER, 9600, 5000);
    PutAt(BEFORE.at, FIVE, 28800, 5000);
    PutAt(BEFORE.at, MINUTE, 144000, 5000);
    PutAt(AFTER.at, FIVE, 28800, 15000);
    PutAt(AFTER.at, MINUTE, 144000, 15000);
    PassingDisorders(107 * DAY + 10000);
    PassingDisorders(101 * DAY + 10000);
    PassingDisorders(100 * DAY + HOUR + 10000);
  }

  // ----- what a query finds -----

  /** The samples a query returns: from the place its binary search ends. */
  function Recent(src: seq<Sample>, cutoff: int): seq<Sample> {
    src[Found(src, cutoff)..]
  }

  lemma {:induction false} AllKept(s: seq<Sample>, lo: int)
    requires forall k :: 0 <= k < |s| ==> lo <= s[k].at
    ensures From(s, lo) == s
  {
    if s != [] {
      AllKept(s[..|s| - 1], lo);
    }
  }

  lemma {:induction false} FromConcat(a: seq<Sample>, b: seq<Sample>, lo: int)
    ensures From(a + b, lo) == From(a, lo) + From(b, lo)
  {
    if b == [] {
      assert a + b == a;
    } else {
      var n := |b| - 1;
      assert (a + b)[..|a| + n] == a + b[..n];
      FromConcat(a, b[..n], lo);
    }
  }

  lemma SplitIsExact(src: seq<Sample>, cutoff: int)
    requires SplitsAt(src, cutoff)
    ensures Recent(src, cutoff) == From(src, cutoff)
  {
    var n := Found(src, cutoff);
    FoundSplits(src, cutoff);
    NothingBetween(src, cutoff, cutoff, n);
    AllKept(src[n..], cutoff);
  }

  lemma ExactParts(older: seq<Sample>, recent: seq<Sample>, cutoff: int)
    requires From(older + recent, cutoff) == recent
    ensures From(older, cutoff) == [] && forall k :: 0 <= k < |recent| ==> cutoff <= recent[k].at
  {
    FromHas(older + recent, cutoff);
    forall k | 0 <= k < |recent| ensures cutoff <= recent[k].at {
      assert recent[k] in recent;
    }
    AllKept(recent, cutoff);
    FromConcat(older, recent, cutoff);
    assert |From(older, cutoff)| == 0;
  }

  lemma ExactSplits(src: seq<Sample>, cutoff: int)
    requires Recent(src, cutoff) == From(src, cutoff)
    ensures SplitsAt(src, cutoff)
  {
    var n := Found(src, cutoff);
    var older, recent := src[..n], src[n..];
    assert src == older + recent;
    ExactParts(older, recent, cutoff);
    NothingKept(older, cutoff);
    SplitAfter(src, n, cutoff);
  }

  lemma SplitAfter(src: seq<Sample>, n: nat, cutoff: int)
    requires n <= |src|
    requires forall k :: 0 <= k < n ==> src[..n][k].at < cutoff
    requires forall k :: 0 <= k < |src| - n ==> cutoff <= src[n..][k].at
    ensures SplitsAt(src, cutoff)
  {
    forall i | 0 <= i < |src|
      ensures cutoff <= src[i].at <==> n <= i
    {
      if i < n {
        assert src[..n][i] == src[i];
      } else {
        assert src[n..][i - n] == src[i];
      }
    }
  }

  lemma NothingKept(s: seq<Sample>, lo: int)
    requires From(s, lo) == []
    ensures forall k :: 0 <= k < |s| ==> s[k].at < lo
  {
    FromHas(s, lo);
    forall k | 0 <= k < |s| ensures s[k].at < lo {
      assert s[k] in s;
    }
  }

  /** A query is exact if and only if no sample older than its cutoff follows one that is not. */
  lemma RecentIsExactIff(src: seq<Sample>, cutoff: int)
    ensures Recent(src, cutoff) == From(src, cutoff) <==> SplitsAt(src, cutoff)
  {
    if SplitsAt(src, cutoff) {
      SplitIsExact(src, cutoff);
    }
    if Recent(src, cutoff) == From(src, cutoff) {
      ExactSplits(src, cutoff);
    }
  }

  /** Every query is exact if and only if the list is in time order. */
  lemma QueriesAreExactIff(src: seq<Sample>)
    ensures (forall cutoff :: Recent(src, cutoff) == From(src, cutoff)) <==> Sorted(src)
  {
    if Sorted(src) {
      forall cutoff ensures Recent(src, cutoff) == From(src, cutoff) {
        RecentIsExactIff(src, cutoff);
      }
    }
    if forall cutoff :: Recent(src, cutoff) == From(src, cutoff) {
      forall i, j | 0 <= i < j < |src|
        ensures src[i].at <= src[j].at
      {
        assert Recent(src, src[i].at) == From(src, src[i].at);
        RecentIsExactIff(src, src[i].at);
      }
    }
  }

  /** After compaction every query is exact if and only if none of the samples passed another. */
  lemma QueriesAfterCompaction(s: seq<Sample>, now: int)
    requires Ready(s, now) && NonNegative(s)
    ensures var src := Join(Compaction(s, now));
      (forall cutoff :: Recent(src, cutoff) == From(src, cutoff)) <==> NonePasses(s, now)
  {
    CompactionKeepsOrderIff(s, now);
    QueriesAreExactIff(Join(Compaction(s, now)));
  }

  /** Whatever passed what, a query is exact when its cutoff is not just where two tiers meet. */
  lemma QueriesAwayFromCutoffs(t: Tiers, now: int, cutoff: int)
    requires Tiered(t, now) && AwayFromCutoffs(now, cutoff)
    ensures Recent(Join(t), cutoff) == From(Join(t), cutoff)
  {
    SplitsAwayFromCutoffs(t, now, cutoff);
    RecentIsExactIff(Join(t), cutoff);
  }
}
