/**
 When the tally of a window is the true online time, as far as a caller can tell from the record the tracker keeps.
 (internal/uptime/tracker.go)
 */
module UptimeTruth {
  import opened Sequences
  import opened Uptime

  // ----- exactly when the tally is the truth -----

  predicate OldBefore(log: seq<Event>, n: int, cutoff: int) {
    forall i :: 0 <= i < n && i < |log| ==> log[i].at < cutoff
  }

  /** Unless the log is full, what was trimmed from it was older than anything the tracker answers for. */
  ghost predicate DropsOnlyOld(w: Track, log: seq<Event>) {
    |w.events| < MAX_EVENTS ==> OldBefore(log, |log| - |w.events|, w.since - KEPT_FOR)
  }

  /** What was dropped before, and what is dropped now, is old. */
  lemma OldUpTo(all: seq<Event>, d: nat, k: nat, cutoff: int)
    requires Ordered(all) && d + k <= |all|
    requires forall i :: d <= i < d + k ==> all[i].at < cutoff
    requires k == 0 ==> OldBefore(all, d, cutoff)
    ensures OldBefore(all, d + k, cutoff)
  {
    if k > 0 {
      forall i | 0 <= i < d ensures all[i].at < cutoff {
        assert all[i].at <= all[d].at;
      }
    }
  }

  /** Of the end of a list that starts at `d`, the events up to the first one kept are old. */
  lemma SkippedAreOld(all: seq<Event>, d: nat, more: seq<Event>, cutoff: int)
    requires d <= |all| && more == all[d..]
    ensures var k := FirstKept(more, cutoff, 0);
      d + k <= |all| && forall i :: d <= i < d + k ==> all[i].at < cutoff
  {
    forall i | d <= i < d + FirstKept(more, cutoff, 0) ensures all[i].at < cutoff {
      assert all[i] == more[i - d];
    }
  }

  lemma TrimDrops(all: seq<Event>, d: nat, more: seq<Event>, now: int)
    requires Ordered(all) && d <= |all| && more == all[d..] && |Trim(more, now)| < MAX_EVENTS
    requires |more| < MAX_EVENTS ==> OldBefore(all, d, now - KEPT_FOR)
    ensures OldBefore(all, |all| - |Trim(more, now)|, now - KEPT_FOR)
  {
    var k := FirstKept(more, now - KEPT_FOR, 0);
    SkippedAreOld(all, d, more, now - KEPT_FOR);
    OldUpTo(all, d, k, now - KEPT_FOR);
    assert |Trim(more, now)| == |more| - k;
  }

  lemma OldGrows(log: seq<Event>, e: Event, n: int, earlier: int, cutoff: int)
    requires n <= |log| && OldBefore(log, n, earlier) && earlier <= cutoff
    ensures OldBefore(log + [e], n, cutoff)
  {
    forall i | 0 <= i < n ensures (log + [e])[i].at < cutoff {
      assert (log + [e])[i] == log[i];
    }
  }

  lemma TrimDropsOnlyOld(w: Track, log: seq<Event>, e: Event)
    requires Suffix(w.events, log) && Ordered(log + [e]) && DropsOnlyOld(w, log) && (log != [] ==> w.since <= e.at)
    ensures var kept := Trim(w.events + [e], e.at);
      |kept| < MAX_EVENTS ==> OldBefore(log + [e], |log| + 1 - |kept|, e.at - KEPT_FOR)
  {
    var more, d := w.events + [e], |log| - |w.events|;
    assert (log + [e])[d..] == more;
    if |Trim(more, e.at)| < MAX_EVENTS {
      if |w.events| < MAX_EVENTS && log != [] {
        OldGrows(log, e, d, w.since - KEPT_FOR, e.at - KEPT_FOR);
      }
      TrimDrops(log + [e], d, more, e.at);
    }
  }

  lemma ApplyDropsOnlyOld(w: Track, log: seq<Event>, c: Change)
    requires Tracks(w, log) && DropsOnlyOld(w, log) && 0 < c.at && EndsBy(log, c.at)
    ensures DropsOnlyOld(Apply(w, c), Extend(log, c))
  {
    if c.online != w.online {
      var e := Event(c.online, c.at, if c.online then 0 else c.at - w.since);
      ExtendsOrdered(log, e);
      TrimDropsOnlyOld(w, log, e);
      assert Extend(log, c) == log + [e];
    }
  }

  lemma {:induction false} EveryRunDropsOnlyOld(changes: seq<Change>)
    requires Clocked(changes)
    ensures DropsOnlyOld(Run(changes), History(changes))
  {
    if changes != [] {
      var n := |changes| - 1;
      FrontClocked(changes);
      EveryRunTracks(changes[..n]);
      EveryRunDropsOnlyOld(changes[..n]);
      ApplyDropsOnlyOld(Run(changes[..n]), History(changes[..n]), changes[n]);
    }
  }

  /** The event before the first retained one, if any, tells the state up to it. */
  lemma StateBeforeFirst(log: seq<Event>, d: nat, t: int)
    requires Ordered(log) && Alternating(log) && d < |log| && t < log[d].at && (d > 0 ==> log[d - 1].at <= t)
    ensures OnlineAt(log, t) == (d > 0 && !log[d].online)
  {
    StateSetBy(log, d, t);
  }

  lemma HiddenTime(log: seq<Event>, d: nat, a: int, b: int)
    requires Ordered(log) && Alternating(log) && d < |log| && a <= b <= log[d].at && (d > 0 ==> log[d - 1].at <= a)
    ensures OnlineTime(log, a, b) == if d > 0 && !log[d].online then b - a else 0
  {
    forall t | a <= t < b
      ensures OnlineAt(log, t) == (d > 0 && !log[d].online)
    {
      StateBeforeFirst(log, d, t);
    }
    ConstantState(log, a, b, d > 0 && !log[d].online);
  }

  /** The first retained event of a run, in the run's history. */
  lemma FirstRetained(changes: seq<Change>) returns (d: nat)
    requires Clocked(changes) && Run(changes).events != []
    ensures var events, log := Run(changes).events, History(changes);
      && Tracks(Run(changes), log) && d == |log| - |events| && d < |log| && log[d] == events[0]
      && events[0].at <= Run(changes).since <= changes[|changes| - 1].at
      && (!events[0].online ==> d > 0 && events[0].session == events[0].at - log[d - 1].at)
  {
    EveryRunTracks(changes);
    var events, log := Run(changes).events, History(changes);
    d := |log| - |events|;
    assert log[d].at <= log[|log| - 1].at;
  }

  /**
   While the log is not full, a caller can tell from its first event whether the tally of a window is the truth: it
   is if and only if that event is no later than the window's start, or is a connection.
   */
  lemma TallyIsTruthIff(changes: seq<Change>, now: int, window: int)
    requires Clocked(changes) && Run(changes).events != [] && changes[|changes| - 1].at <= now
    requires 0 <= window <= 31 * 24 * 3600 * 1_000_000_000 && |Run(changes).events| < 2000
    ensures var events, start := Run(changes).events, now - window;
      OnlineTime(events, start, now) == OnlineTime(History(changes), start, now)
      <==> events[0].at <= start || events[0].online
  {
    var events, log, start := Run(changes).events, History(changes), now - window;
    TallyNeverExceedsTruth(changes, now, window);
    var d := FirstRetained(changes);
    if start < events[0].at {
      EveryRunDropsOnlyOld(changes);
      HiddenBeforeFirst(Run(changes), log, d, start);
    }
  }

  lemma HiddenBeforeFirst(w: Track, log: seq<Event>, d: nat, start: int)
    requires Ordered(log) && Alternating(log) && DropsOnlyOld(w, log) && 0 < |w.events| < MAX_EVENTS
    requires |w.events| <= |log| && log[0].online
    requires d == |log| - |w.events| && log[d] == w.events[0] && w.since - KEPT_FOR <= start < log[d].at
    ensures OnlineTime(log, start, log[d].at) == 0 <==> log[d].online
  {
    if d > 0 {
      assert log[d - 1].at < w.since - KEPT_FOR;
    }
    HiddenTime(log, d, start, log[d].at);
  }

  /**
   Whether or not the log is full: a first event no later than the window's start makes the tally exact, and a later
   first event that ends a session makes it fall short.
   */
  lemma FirstEventTells(changes: seq<Change>, now: int, window: int)
    requires Clocked(changes) && Run(changes).events != [] && changes[|changes| - 1].at <= now && 0 <= window
    ensures var events, start := Run(changes).events, now - window;
      var tally, truth := OnlineTime(events, start, now), OnlineTime(History(changes), start, now);
      && (events[0].at <= start ==> tally == truth)
      && (start < events[0].at && !events[0].online && events[0].session > 0 ==> tally < truth)
  {
    var events, log, start := Run(changes).events, History(changes), now - window;
    TallyNeverExceedsTruth(changes, now, window);
    var d := FirstRetained(changes);
    if start < events[0].at && !events[0].online && events[0].session > 0 {
      var from := if log[d - 1].at <= start then start else log[d - 1].at;
      HiddenTime(log, d, from, events[0].at);
      OnlineTimeSplits(log, start, from, events[0].at);
    }
  }

  // ----- a full log can hide the truth -----

  /** A connection and a disconnection, over and over: the n-th change comes at time 100 + n. */
  function Flaps(n: nat): seq<Change> {
    if n == 0 then [] else Flaps(n - 1) + [Change(n % 2 == 1, 100 + n)]
  }

  function FlapEvents(n: nat): (e: seq<Event>)
    ensures |e| == n
  {
    if n == 0 then [] else FlapEvents(n - 1) + [Event(n % 2 == 1, 100 + n, if n % 2 == 1 then 0 else 1)]
  }

  /** One session from 1 to `end`, then the flapping. */
  function Flapping(end: int, n: nat): seq<Change> {
    [Change(true, 1), Change(false, end)] + Flaps(n)
  }

  function FlappingLog(end: int, n: nat): seq<Event> {
    [Event(true, 1, 0), Event(false, end, end - 1)] + FlapEvents(n)
  }

  lemma FlappingFront(end: int, n: nat)
    requires n > 0
    ensures |Flapping(end, n)| == |Flapping(end, n - 1)| + 1
    ensures Flapping(end, n)[..|Flapping(end, n)| - 1] == Flapping(end, n - 1)
    ensures Flapping(end, n)[|Flapping(end, n)| - 1] == Change(n % 2 == 1, 100 + n)
    ensures FlappingLog(end, n) == FlappingLog(end, n - 1) + [Event(n % 2 == 1, 100 + n, if n % 2 == 1 then 0 else 1)]
  {
    var c := Change(n % 2 == 1, 100 + n);
    assert Flapping(end, n) == Flapping(end, n - 1) + [c];
  }

  lemma YoungTrim(events: seq<Event>, now: int)
    requires events != [] && now - KEPT_FOR <= events[0].at
    ensures Trim(events, now) == LastN(events, MAX_EVENTS)
  {
    assert FirstKept(events, now - KEPT_FOR, 0) == 0;
    assert events[0..] == events;
  }

  /** A change while everything is young: the record keeps the newest events of the history. */
  lemma YoungStep(w: Track, log: seq<Event>, c: Change)
    requires log != [] && w.events == LastN(log, MAX_EVENTS) && w.online == StateAfter(log) != c.online
    requires w.since == log[|log| - 1].at && forall e :: e in log ==> c.at - KEPT_FOR <= e.at
    ensures Apply(w, c).events == LastN(Extend(log, c), MAX_EVENTS)
    ensures Apply(w, c).online == c.online && Apply(w, c).since == c.at
    ensures Apply(w, c).sessions == w.sessions + if c.online then 1 else 0
  {
    var e := Event(c.online, c.at, if c.online then 0 else c.at - w.since);
    assert w.events[0] in log;
    YoungTrim(w.events + [e], c.at);
    LastNAbsorbs(log, [e], MAX_EVENTS);
    assert Extend(log, c) == log + [e];
  }

  lemma {:induction false} FlapTimes(n: nat)
    ensures forall e :: e in FlapEvents(n) ==> 100 < e.at <= 100 + n
  {
    if n > 0 {
      FlapTimes(n - 1);
    }
  }

  lemma FlappingStart(end: int)
    requires 1 <= end <= 100
    ensures Run(Flapping(end, 0)) == Track(false, end, 1, FlappingLog(end, 0))
    ensures History(Flapping(end, 0)) == FlappingLog(end, 0)
  {
    var on, off := Change(true, 1), Change(false, end);
    var e, f := Event(true, 1, 0), Event(false, end, end - 1);
    RunOfOne(on, e);
    assert Flapping(end, 0) == [on, off] && [on, off][..1] == [on];
    assert FlappingLog(end, 0) == [e, f] == [e] + [f];
    YoungStep(Run([on]), [e], off);
    assert LastN([e, f], MAX_EVENTS) == [e, f];
  }

  /** The record of a flapping worker: the newest events, and counts that do not depend on the first session. */
  ghost predicate FlappingRecord(w: Track, end: int, n: nat) {
    && w.events == LastN(FlappingLog(end, n), MAX_EVENTS) && w.online == (n % 2 == 1)
    && w.since == (if n == 0 then end else 100 + n) && w.sessions == 1 + (n + 1) / 2
  }

  lemma LogEnd(end: int, n: nat)
    ensures var log := FlappingLog(end, n);
      && StateAfter(log) == (n % 2 == 1) && log[|log| - 1].at == if n == 0 then end else 100 + n
  {
    if n > 0 {
      FlappingFront(end, n);
    }
  }

  lemma ExtendFlapping(end: int, n: nat)
    requires 0 < n
    ensures Extend(FlappingLog(end, n - 1), Change(n % 2 == 1, 100 + n)) == FlappingLog(end, n)
  {
    var log := FlappingLog(end, n - 1);
    LogEnd(end, n - 1);
    FlappingFront(end, n);
    if n == 1 {
      assert Extend(log, Change(true, 101)) == log + [Event(true, 101, 0)];
    } else {
      assert log[|log| - 1].at == 100 + n - 1;
    }
  }

  lemma FlapsAreYoung(end: int, n: nat)
    requires 0 < n <= 10000 && 1 <= end
    ensures forall e :: e in FlappingLog(end, n - 1) ==> 100 + n - KEPT_FOR <= e.at
  {
    FlapTimes(n - 1);
  }

  lemma FlappingStep(w: Track, end: int, n: nat)
    requires 0 < n <= 10000 && 1 <= end <= 100 && FlappingRecord(w, end, n - 1)
    ensures FlappingRecord(Apply(w, Change(n % 2 == 1, 100 + n)), end, n)
  {
    LogEnd(end, n - 1);
    FlapsAreYoung(end, n);
    ExtendFlapping(end, n);
    YoungStep(w, FlappingLog(end, n - 1), Change(n % 2 == 1, 100 + n));
  }

  lemma {:induction false} FlappingRun(end: int, n: nat)
    requires 1 <= end <= 100 && n <= 10000
    ensures FlappingRecord(Run(Flapping(end, n)), end, n)
    ensures History(Flapping(end, n)) == FlappingLog(end, n)
  {
    if n == 0 {
      FlappingStart(end);
      assert LastN(FlappingLog(end, 0), MAX_EVENTS) == FlappingLog(end, 0);
    } else {
      FlappingRun(end, n - 1);
      FlappingFront(end, n);
      FlappingStep(Run(Flapping(end, n - 1)), end, n);
      ExtendFlapping(end, n);
    }
  }

  lemma {:induction false} FlapAt(n: nat, i: nat)
    requires i < n
    ensures |Flaps(n)| == n && Flaps(n)[i].at == 101 + i && FlapEvents(n)[i].at == 101 + i
  {
    if i < n - 1 {
      FlapAt(n - 1, i);
    } else if n > 1 {
      FlapAt(n - 1, 0);
    } else {
      assert Flaps(0) == [];
    }
  }

  lemma FlappingClocked(end: int, n: nat)
    requires 1 <= end <= 100 && n > 0
    ensures Clocked(Flapping(end, n)) && |Flapping(end, n)| == n + 2 && Flapping(end, n)[n + 1].at == 100 + n
  {
    FlapAt(n, n - 1);
    var c := Flapping(end, n);
    forall i | 0 <= i < |c|
      ensures 0 < c[i].at && (0 < i ==> c[i - 1].at <= c[i].at)
    {
      if i >= 2 {
        FlapAt(n, i - 2);
      }
      if i >= 3 {
        FlapAt(n, i - 3);
      }
    }
  }

  lemma HiddenSession(log: seq<Event>, end: int)
    requires Ordered(log) && |log| > 2 && 1 <= end <= 100
    requires log[0] == Event(true, 1, 0) && log[1] == Event(false, end, end - 1) && log[2].at == 101
    ensures OnlineTime(log, 0, 101) == end - 1
  {
    Advance(log, 0, 0, 0, 1, false);
    Advance(log, 1, 0, 1, end, true);
    Advance(log, 2, 0, end, 101, false);
  }

  lemma FullLog(end: int, n: nat)
    requires n == MAX_EVENTS
    ensures LastN(FlappingLog(end, n), MAX_EVENTS) == FlapEvents(n)
    ensures Suffix(FlapEvents(n), FlappingLog(end, n)) && FlappingLog(end, n)[2] == FlapEvents(n)[0]
    ensures FlapEvents(n)[0].at == 101
  {
    FlapAt(n, 0);
    var log := FlappingLog(end, n);
    assert log[|log| - n..] == FlapEvents(n);
  }

  lemma RecordIs(w: Track, end: int, n: nat, events: seq<Event>, sessions: nat)
    requires FlappingRecord(w, end, n) && 0 < n && n % 2 == 0 && sessions == 1 + (n + 1) / 2
    requires events == LastN(FlappingLog(end, n), MAX_EVENTS)
    ensures w == Track(false, 100 + n, sessions, events)
  {
  }

  lemma FlappingRecorded(end: int, n: nat)
    requires 1 <= end <= 100 && n == MAX_EVENTS
    ensures Clocked(Flapping(end, n)) && History(Flapping(end, n)) == FlappingLog(end, n)
    ensures Run(Flapping(end, n)) == Track(false, 100 + n, 1001, FlapEvents(n))
  {
    FlappingClocked(end, n);
    FlappingRun(end, n);
    FullLog(end, n);
    RecordIs(Run(Flapping(end, n)), end, n, FlapEvents(n), 1001);
  }

  /** What the full log no longer shows is the first session. */
  lemma FlappingHides(end: int, n: nat)
    requires 1 <= end <= 100 && n == MAX_EVENTS
    ensures OnlineTime(FlapEvents(n), 0, 100 + n) + (end - 1) == OnlineTime(FlappingLog(end, n), 0, 100 + n)
  {
    var log := FlappingLog(end, n);
    FlappingRecorded(end, n);
    FullLog(end, n);
    EveryRunTracks(Flapping(end, n));
    TrimmedTime(FlapEvents(n), log, 0, 100 + n);
    HiddenSession(log, end);
    OnlineTimeSplits(log, 0, 101, 100 + n);
  }

  /**
   When the log is full nothing kept can tell: two workers end with the same record, and over the same window the
   tally is the truth for one of them and not for the other.
   */
  lemma FullLogHidesTheTruth(n: nat)
    requires n == MAX_EVENTS
    ensures var one, two, now := Flapping(1, n), Flapping(10, n), 100 + n;
      && Clocked(one) && Clocked(two) && Run(one) == Run(two) == Track(false, 100 + n, 1001, FlapEvents(n))
      && OnlineTime(Run(one).events, 0, now) == OnlineTime(History(one), 0, now)
      && OnlineTime(Run(two).events, 0, now) < OnlineTime(History(two), 0, now)
  {
    FlappingRecorded(1, n);
    FlappingRecorded(10, n);
    FlappingHides(1, n);
    FlappingHides(10, n);
  }
}
