/**
 One coin's hashrate history over every run: a history loaded from disk or empty, samples arriving, and compactions
 whenever the ticker fires.  (internal/hashstore/store.go)
 */
module HashRuns {
  import opened Wrappers
  import opened Hashstore
  import opened HashHistory

  datatype Event = Arrive(x: Sample) | Compact(now: int)

  function Step(s: seq<Sample>, e: Event): seq<Sample> {
    match e
    case Arrive(x) => s + [x]
    case Compact(now) => Join(Compaction(s, now))
  }

  function Run(start: seq<Sample>, events: seq<Event>): seq<Sample> {
    if events == [] then start else Step(Run(start, events[..|events| - 1]), events[|events| - 1])
  }

  /** Every sample there ever was, as it came. */
  function Arrived(start: seq<Sample>, events: seq<Event>): seq<Sample> {
    if events == [] then start
    else
      var arrived, e := Arrived(start, events[..|events| - 1]), events[|events| - 1];
      if e.Arrive? then arrived + [e.x] else arrived
  }

  function LastCompaction(events: seq<Event>): Option<int> {
    if events == [] then None
    else if events[|events| - 1].Compact? then Some(events[|events| - 1].now)
    else LastCompaction(events[..|events| - 1])
  }

  /** The run again, with the tiers told apart; a history not yet compacted is all raw. */
  function TiersAfter(start: seq<Sample>, events: seq<Event>): Tiers {
    if events == [] then Tiers([], [], [], start)
    else
      var t, e := TiersAfter(start, events[..|events| - 1]), events[|events| - 1];
      match e
      case Arrive(x) => t.(raw := t.raw + [x])
      case Compact(now) => Compaction(Join(t), now)
  }

  /**
   What the clocks give: samples arrive in time order, none over an hour older than the last compaction, and two
   compactions are half a five-minute bucket or more apart, and not, to within minutes, 23 or 29 days or 30 days less
   an hour.
   */
  ghost predicate Timely(arrived: seq<Sample>, last: Option<int>, e: Event) {
    match e
    case Arrive(x) =>
      && 0 <= x.at && (forall o :: o in arrived ==> o.at <= x.at)
      && (last.Some? ==> last.value - HOUR <= x.at)
    case Compact(now) => last.Some? ==> GoodGap(last.value, now)
  }

  ghost predicate Regular(start: seq<Sample>, events: seq<Event>) {
    if events == [] then TimeOrdered(start)
    else
      var front := events[..|events| - 1];
      Regular(start, front) && Timely(Arrived(start, front), LastCompaction(front), events[|events| - 1])
  }

  // ----- what every run keeps -----

  ghost predicate Sound(t: Tiers, arrived: seq<Sample>, last: Option<int>) {
    && NonNegative(Join(t))
    && (forall o :: o in t.raw ==> o in arrived)
    && match last
       case None => t == Tiers([], [], [], t.raw) && TimeOrdered(t.raw)
       case Some(now) => Tiered(t, now) && WithinLimits(t)
  }

  lemma SoundIsReady(t: Tiers, arrived: seq<Sample>, last: Option<int>, now: int)
    requires Sound(t, arrived, last) && Timely(arrived, last, Compact(now))
    ensures Ready(Join(t), now)
  {
    match last
    case None =>
      assert Join(t) == t.raw;
      TimeOrderedIsReady(t.raw, now);
    case Some(before) =>
      CompactionStaysReady(t, before, now);
  }

  lemma AveragesAreOld(t: Tiers, now: int, x: int)
    requires Tiered(t, now) && now - HOUR + HALF_FIVE <= x
    ensures forall o :: o in t.quarters + t.fives + t.minutes ==> o.at < x
  {
    TierBelow(t.quarters, QUARTER, now - 30 * DAY, now - 7 * DAY, x);
    TierBelow(t.fives, FIVE, now - 7 * DAY, now - DAY, x);
    TierBelow(t.minutes, MINUTE, now - DAY, now - HOUR, x);
  }

  /** What is left raw by the next compaction was raw before: no average is that young. */
  lemma RawStaysRaw(t: Tiers, arrived: seq<Sample>, last: Option<int>, now: int, o: Sample)
    requires Sound(t, arrived, last) && Timely(arrived, last, Compact(now))
    requires o in Join(t) && now - HOUR <= o.at
    ensures o in t.raw
  {
    match last
    case None =>
    case Some(before) =>
      AveragesAreOld(t, before, now - HOUR);
  }

  lemma TiersNonNegative(t: Tiers, s: seq<Sample>, now: int)
    requires Compacted(t, s, now) && NonNegative(s)
    ensures NonNegative(Join(t))
  {
    BetweenHas(s, now - 30 * DAY, now - 7 * DAY);
    BetweenHas(s, now - 7 * DAY, now - DAY);
    BetweenHas(s, now - DAY, now - HOUR);
    FromHas(s, now - HOUR);
    AveragesNonNegative(t.quarters, Between(s, now - 30 * DAY, now - 7 * DAY), QUARTER);
    AveragesNonNegative(t.fives, Between(s, now - 7 * DAY, now - DAY), FIVE);
    AveragesNonNegative(t.minutes, Between(s, now - DAY, now - HOUR), MINUTE);
  }

  lemma CompactionIsSound(t: Tiers, arrived: seq<Sample>, last: Option<int>, now: int)
    requires Sound(t, arrived, last) && Timely(arrived, last, Compact(now))
    ensures Sound(Compaction(Join(t), now), arrived, Some(now))
    ensures Compacted(Compaction(Join(t), now), Join(t), now)
  {
    var s := Join(t);
    var next := Compaction(s, now);
    SoundIsReady(t, arrived, last, now);
    ReadyIsCompacted(s, now);
    CompactedIsTiered(next, s, now);
    TiersAreSmall(next, s, now);
    TiersNonNegative(next, s, now);
    FromHas(s, now - HOUR);
    forall o | o in next.raw
      ensures o in arrived
    {
      RawStaysRaw(t, arrived, last, now, o);
    }
  }

  lemma ArrivalIsSound(t: Tiers, arrived: seq<Sample>, last: Option<int>, x: Sample)
    requires Sound(t, arrived, last) && Timely(arrived, last, Arrive(x))
    ensures Sound(t.(raw := t.raw + [x]), arrived + [x], last)
    ensures Join(t.(raw := t.raw + [x])) == Join(t) + [x]
  {
    assert Join(t.(raw := t.raw + [x])) == Join(t) + [x];
    if last.Some? {
      AddKeepsTiers(t, last.value, x);
    }
  }

  lemma StartIsSound(start: seq<Sample>)
    requires TimeOrdered(start)
    ensures Sound(Tiers([], [], [], start), start, None) && Join(Tiers([], [], [], start)) == start
  {
    assert Join(Tiers([], [], [], start)) == start;
  }

  lemma {:induction false} EveryRunIsSound(start: seq<Sample>, events: seq<Event>)
    requires Regular(start, events)
    ensures Sound(TiersAfter(start, events), Arrived(start, events), LastCompaction(events))
    ensures Run(start, events) == Join(TiersAfter(start, events))
  {
    if events == [] {
      StartIsSound(start);
    } else {
      var front, e := events[..|events| - 1], events[|events| - 1];
      EveryRunIsSound(start, front);
      var t, arrived, last := TiersAfter(start, front), Arrived(start, front), LastCompaction(front);
      match e
      case Arrive(x) => ArrivalIsSound(t, arrived, last, x);
      case Compact(now) => CompactionIsSound(t, arrived, last, now);
    }
  }

  /**
   Over every regular run the tiers stay within the promised sizes from the first compaction on, and each compaction
   gives exactly the averages of what it found, however the list is ordered where its tiers meet.
   */
  lemma EveryRunStaysSmall(start: seq<Sample>, events: seq<Event>)
    requires Regular(start, events) && LastCompaction(events).Some?
    ensures WithinLimits(TiersAfter(start, events)) && Run(start, events) == Join(TiersAfter(start, events))
    ensures events[|events| - 1].Compact? ==>
      var s, now := Run(start, events[..|events| - 1]), events[|events| - 1].now;
      Compacted(Compaction(s, now), s, now) && Run(start, events) == Join(Compaction(s, now))
  {
    EveryRunIsSound(start, events);
    if events[|events| - 1].Compact? {
      var front := events[..|events| - 1];
      EveryRunIsSound(start, front);
      CompactionIsSound(TiersAfter(start, front), Arrived(start, front), LastCompaction(front),
                        events[|events| - 1].now);
    }
  }
}
