/**
 Worker uptime: a log of transitions that is trimmed as it grows, and the statistics read off it.
 Time is an integer count of the clock's unit; zero is Go's zero time.  (internal/uptime/tracker.go)
 */
module Uptime {
  import opened Sequences

  const DAY: int := 24 * 3600 * 1000000000
  const KEPT_FOR: int := 31 * DAY
  const MAX_EVENTS: nat := 2000

  datatype Event = Event(online: bool, at: int, session: int)

  /** A worker's record as a value; `events` is what survived trimming. */
  datatype Track = Track(online: bool, since: int, sessions: nat, events: seq<Event>)

  const UNKNOWN := Track(false, 0, 0, [])

  // ----- transitions -----

  /** Where the events no older than the cutoff begin, looking from `i` on. */
  function FirstKept(events: seq<Event>, cutoff: int, i: nat): (k: nat)
    requires i <= |events|
    ensures i <= k <= |events|
    ensures forall j :: i <= j < k ==> events[j].at < cutoff
    ensures k < |events| ==> cutoff <= events[k].at
    decreases |events| - i
  {
    if i < |events| && events[i].at < cutoff then FirstKept(events, cutoff, i + 1) else i
  }

  function DropOld(events: seq<Event>, cutoff: int): seq<Event> {
    events[FirstKept(events, cutoff, 0)..]
  }

  function Trim(events: seq<Event>, now: int): seq<Event> {
    LastN(DropOld(events, now - KEPT_FOR), MAX_EVENTS)
  }

  function GoOnline(w: Track, now: int): Track {
    if w.online then w
    else Track(true, now, w.sessions + 1, Trim(w.events + [Event(true, now, 0)], now))
  }

  function GoOffline(w: Track, now: int): Track {
    if !w.online then w
    else Track(false, now, w.sessions, Trim(w.events + [Event(false, now, now - w.since)], now))
  }

  /** A connection or a disconnection, seen by the tracker at some time. */
  datatype Change = Change(online: bool, at: int)

  function Apply(w: Track, c: Change): Track {
    if c.online then GoOnline(w, c.at) else GoOffline(w, c.at)
  }

  function Run(changes: seq<Change>): Track {
    if changes == [] then UNKNOWN else Apply(Run(changes[..|changes| - 1]), changes[|changes| - 1])
  }

  /** Everything that ever happened: the log a tracker that never trims would hold. */
  function History(changes: seq<Change>): seq<Event> {
    if changes == [] then [] else Extend(History(changes[..|changes| - 1]), changes[|changes| - 1])
  }

  function Extend(log: seq<Event>, c: Change): seq<Event> {
    if c.online == StateAfter(log) then log
    else log + [Event(c.online, c.at, if c.online then 0 else c.at - log[|log| - 1].at)]
  }

  function StateAfter(log: seq<Event>): (online: bool)
    ensures online ==> log != []
  {
    log != [] && log[|log| - 1].online
  }

  predicate Clocked(changes: seq<Change>) {
    forall i :: 0 <= i < |changes| ==> 0 < changes[i].at && (0 < i ==> changes[i - 1].at <= changes[i].at)
  }

  // ----- every reachable log is well formed -----

  /** Ordered, alternating, each disconnection carrying the length of the session it ends. */
  predicate WellFormed(log: seq<Event>) {
    Positive(log) && Ordered(log) && Alternating(log) && SessionsExact(log)
  }

  predicate Positive(log: seq<Event>) {
    forall i :: 0 <= i < |log| ==> 0 < log[i].at && (log[i].online || 0 <= log[i].session)
  }

  predicate Ordered(log: seq<Event>) {
    forall i, j :: 0 <= i < j < |log| ==> log[i].at <= log[j].at
  }

  predicate Alternating(log: seq<Event>) {
    forall i :: 0 < i < |log| ==> log[i].online != log[i - 1].online
  }

  predicate SessionsExact(log: seq<Event>) {
    forall i :: 0 < i < |log| && !log[i].online ==> log[i].session == log[i].at - log[i - 1].at
  }

  ghost predicate Suffix(events: seq<Event>, log: seq<Event>) {
    |events| <= |log| && events == log[|log| - |events|..]
  }

  /** Trimming never drops an event as new as the clock. */
  lemma TrimIsSuffix(events: seq<Event>, now: int)
    requires events != [] && events[|events| - 1].at == now
    ensures Trim(events, now) != [] && |Trim(events, now)| <= 2000 && Suffix(Trim(events, now), events)
  {
    var k := FirstKept(events, now - KEPT_FOR, 0);
    assert k < |events|;
    var kept := events[k..];
    assert LastN(kept, MAX_EVENTS) == events[|events| - |LastN(kept, MAX_EVENTS)|..];
  }

  lemma SuffixOfMore(events: seq<Event>, log: seq<Event>, e: Event, kept: seq<Event>)
    requires Suffix(events, log) && Suffix(kept, events + [e])
    ensures Suffix(kept, log + [e])
  {
  }

  function Connections(log: seq<Event>): nat {
    if log == [] then 0 else Connections(log[..|log| - 1]) + if log[|log| - 1].online then 1 else 0
  }

  /** The record is what the tracker keeps of a history. */
  ghost predicate Tracks(w: Track, log: seq<Event>) {
    WellFormed(log) && Agrees(w, log)
  }

  ghost predicate Agrees(w: Track, log: seq<Event>) {
    && Suffix(w.events, log)
    && (log != [] ==> w.events != [])
    && |w.events| <= MAX_EVENTS
    && w.online == StateAfter(log)
    && (log != [] ==> w.since == log[|log| - 1].at && log[0].online)
    && w.sessions == Connections(log)
  }

  lemma ExtendsOrdered(log: seq<Event>, e: Event)
    requires Ordered(log) && (log != [] ==> log[|log| - 1].at <= e.at)
    ensures Ordered(log + [e])
  {
  }

  lemma ExtendsAlternating(log: seq<Event>, e: Event)
    requires Alternating(log) && (log != [] ==> log[|log| - 1].online != e.online)
    ensures Alternating(log + [e])
  {
  }

  lemma ExtendsExact(log: seq<Event>, e: Event)
    requires SessionsExact(log) && (log != [] && !e.online ==> e.session == e.at - log[|log| - 1].at)
    ensures SessionsExact(log + [e])
  {
  }

  lemma ExtendAgrees(w: Track, log: seq<Event>, e: Event, sessions: nat)
    requires Agrees(w, log) && (log == [] ==> e.online)
    requires sessions == w.sessions + if e.online then 1 else 0
    ensures Agrees(Track(e.online, e.at, sessions, Trim(w.events + [e], e.at)), log + [e])
  {
    TrimIsSuffix(w.events + [e], e.at);
    SuffixOfMore(w.events, log, e, Trim(w.events + [e], e.at));
    assert (log + [e])[..|log|] == log;
  }

  predicate EndsBy(log: seq<Event>, now: int) {
    log != [] ==> log[|log| - 1].at <= now
  }

  lemma OnlineTracks(w: Track, log: seq<Event>, now: int)
    requires Tracks(w, log) && 0 < now && EndsBy(log, now) && !w.online
    ensures Tracks(GoOnline(w, now), log + [Event(true, now, 0)])
  {
    NextIsWellFormed(log, Event(true, now, 0));
    ExtendAgrees(w, log, Event(true, now, 0), w.sessions + 1);
  }

  lemma OfflineTracks(w: Track, log: seq<Event>, now: int)
    requires Tracks(w, log) && 0 < now && EndsBy(log, now) && w.online
    ensures Tracks(GoOffline(w, now), log + [Event(false, now, now - w.since)])
  {
    var e := Event(false, now, now - w.since);
    OfflineIsNext(w, log, now);
    ExtendAgrees(w, log, e, w.sessions);
    OfflineRecord(w, now);
  }

  lemma OfflineRecord(w: Track, now: int)
    requires w.online
    ensures GoOffline(w, now) == Track(false, now, w.sessions, Trim(w.events + [Event(false, now, now - w.since)], now))
  {
  }

  lemma OfflineIsNext(w: Track, log: seq<Event>, now: int)
    requires WellFormed(log) && Agrees(w, log) && 0 < now && EndsBy(log, now) && w.online
    ensures WellFormed(log + [Event(false, now, now - w.since)])
  {
    NextIsWellFormed(log, Event(false, now, now - w.since));
  }

  lemma ApplyTracks(w: Track, log: seq<Event>, c: Change)
    requires Tracks(w, log) && 0 < c.at && EndsBy(log, c.at)
    ensures Tracks(Apply(w, c), Extend(log, c))
    ensures EndsBy(Extend(log, c), c.at)
  {
    if c.online == w.online {
      assert Apply(w, c) == w && Extend(log, c) == log;
    } else if c.online {
      OnlineTracks(w, log, c.at);
      assert Apply(w, c) == GoOnline(w, c.at) && Extend(log, c) == log + [Event(true, c.at, 0)];
    } else {
      OfflineTracks(w, log, c.at);
      assert Apply(w, c) == GoOffline(w, c.at) && Extend(log, c) == log + [Event(false, c.at, c.at - w.since)];
    }
  }

  lemma NextIsWellFormed(log: seq<Event>, e: Event)
    requires WellFormed(log) && 0 < e.at && EndsBy(log, e.at)
    requires log != [] ==> log[|log| - 1].online != e.online
    requires if e.online then e.session == 0 else log != [] && e.session == e.at - log[|log| - 1].at
    ensures WellFormed(log + [e])
  {
    ExtendsOrdered(log, e);
    ExtendsAlternating(log, e);
    ExtendsExact(log, e);
  }

  lemma UnknownTracks()
    ensures Tracks(UNKNOWN, [])
  {
  }

  lemma FrontClocked(changes: seq<Change>)
    requires Clocked(changes) && changes != []
    ensures var n := |changes| - 1;
      Clocked(changes[..n]) && 0 < changes[n].at && (n > 0 ==> changes[..n][n - 1].at <= changes[n].at)
  {
  }

  /**
   Under a clock that never goes back, every reachable log is ordered and alternating, agrees with the status
   fields, and is the end of the full history.
   */
  lemma {:induction false} EveryRunTracks(changes: seq<Change>)
    requires Clocked(changes)
    ensures Tracks(Run(changes), History(changes))
    ensures changes != [] ==> EndsBy(History(changes), changes[|changes| - 1].at)
  {
    if changes == [] {
      UnknownTracks();
    } else {
      var n := |changes| - 1;
      var w, log, c := Run(changes[..n]), History(changes[..n]), changes[n];
      FrontClocked(changes);
      EveryRunTracks(changes[..n]);
      ApplyTracks(w, log, c);
      assert Run(changes) == Apply(w, c) && History(changes) == Extend(log, c);
    }
  }

  // ----- session time and downtime -----

  /** The session time carried by the disconnections of a log. */
  function Sessions(events: seq<Event>): int {
    if events == [] then 0
    else
      var e := events[|events| - 1];
      Sessions(events[..|events| - 1]) + if !e.online && e.session > 0 then e.session else 0
  }

  function SessionCount(events: seq<Event>): nat {
    if events == [] then 0
    else
      var e := events[|events| - 1];
      SessionCount(events[..|events| - 1]) + if !e.online && e.session > 0 then 1 else 0
  }

  /** Closed gaps so far, and when the open one began (zero when there is none). */
  datatype Gaps = Gaps(closed: int, since: int)

  function GapsOf(events: seq<Event>): Gaps {
    if events == [] then Gaps(0, 0)
    else
      var g, e := GapsOf(events[..|events| - 1]), events[|events| - 1];
      if !e.online then Gaps(g.closed, e.at)
      else if g.since != 0 then Gaps(g.closed + (e.at - g.since), 0)
      else g
  }

  function TotalSession(w: Track, now: int): int {
    Sessions(w.events) + if w.online && w.since != 0 then now - w.since else 0
  }

  function TotalDowntime(w: Track, now: int): int {
    var g := GapsOf(w.events);
    g.closed + if !w.online && g.since != 0 then now - g.since else 0
  }

  /** The session an offline event at the head of a trimmed log still reports. */
  function Lead(first: Event): int {
    if first.online then 0 else first.session
  }

  lemma {:induction false} SessionsAndGapsTile(events: seq<Event>)
    requires WellFormed(events) && events != []
    ensures var last := events[|events| - 1];
      && Sessions(events) + GapsOf(events).closed == last.at - events[0].at + Lead(events[0])
      && GapsOf(events).since == if last.online then 0 else last.at
  {
    var n := |events| - 1;
    var front, last := events[..n], events[n];
    if n > 0 {
      SessionsAndGapsTile(front);
      assert front[n - 1] == events[n - 1];
    } else {
      assert front == [];
    }
  }

  lemma SuffixWellFormed(events: seq<Event>, log: seq<Event>)
    requires Suffix(events, log) && WellFormed(log)
    ensures WellFormed(events)
  {
  }

  /**
   Session time plus downtime is exactly the time since the first retained event, plus the session that event
   reports when it is a disconnection: nothing is lost and nothing counted twice.
   */
  lemma TimeIsConserved(changes: seq<Change>, now: int)
    requires Clocked(changes) && Run(changes).events != []
    ensures var w := Run(changes); var first := w.events[0];
      TotalSession(w, now) + TotalDowntime(w, now) == now - first.at + Lead(first)
  {
    EveryRunTracks(changes);
    var w, log := Run(changes), History(changes);
    SuffixWellFormed(w.events, log);
    SessionsAndGapsTile(w.events);
    assert log[|log| - 1] == w.events[|w.events| - 1];
  }

  // ----- online time in a rolling window -----

  /** The state at one instant, by the last event no later than it. */
  function OnlineAt(log: seq<Event>, t: int): bool {
    if log == [] then false
    else if log[|log| - 1].at <= t then log[|log| - 1].online
    else OnlineAt(log[..|log| - 1], t)
  }

  /** How many instants of [a, b) the worker was online. */
  function OnlineTime(log: seq<Event>, a: int, b: int): nat
    decreases b - a
  {
    if a >= b then 0 else OnlineTime(log, a, b - 1) + if OnlineAt(log, b - 1) then 1 else 0
  }

  lemma {:induction false} OnlineTimeSplits(log: seq<Event>, a: int, m: int, b: int)
    requires a <= m <= b
    ensures OnlineTime(log, a, b) == OnlineTime(log, a, m) + OnlineTime(log, m, b)
    decreases b - m
  {
    if m < b {
      OnlineTimeSplits(log, a, m, b - 1);
    }
  }

  lemma {:induction false} OnlineTimeBounded(log: seq<Event>, a: int, b: int)
    requires a <= b
    ensures OnlineTime(log, a, b) <= b - a
    decreases b - a
  {
    if a < b {
      OnlineTimeBounded(log, a, b - 1);
    }
  }

  /** While the state does not change, the online time is all or nothing. */
  lemma {:induction false} ConstantState(log: seq<Event>, a: int, b: int, online: bool)
    requires a <= b && forall t :: a <= t < b ==> OnlineAt(log, t) == online
    ensures OnlineTime(log, a, b) == if online then b - a else 0
    decreases b - a
  {
    if a < b {
      ConstantState(log, a, b - 1, online);
    }
  }

  /** The state at `t` is set by the last event no later than `t`, wherever it stands in an ordered log. */
  lemma {:induction false} StateSetBy(log: seq<Event>, k: nat, t: int)
    requires Ordered(log) && k <= |log|
    requires k > 0 ==> log[k - 1].at <= t
    requires k < |log| ==> t < log[k].at
    ensures OnlineAt(log, t) == (k > 0 && log[k - 1].online)
  {
    if k < |log| {
      var n := |log| - 1;
      assert t < log[n].at by {
        assert k < n ==> log[k].at <= log[n].at;
      }
      assert Ordered(log[..n]);
      StateSetBy(log[..n], k, t);
    }
  }

  lemma Advance(events: seq<Event>, k: nat, start: int, cursor: int, next: int, state: bool)
    requires Ordered(events) && k <= |events| && start <= cursor <= next
    requires k > 0 ==> events[k - 1].at <= cursor
    requires state == (k > 0 && events[k - 1].online)
    requires k < |events| ==> next <= events[k].at
    ensures OnlineTime(events, start, next) == OnlineTime(events, start, cursor) + if state then next - cursor else 0
  {
    forall t | cursor <= t < next
      ensures OnlineAt(events, t) == state
    {
      StateSetBy(events, k, t);
    }
    ConstantState(events, cursor, next, state);
    OnlineTimeSplits(events, start, cursor, next);
  }

  lemma {:induction false} SessionsUpTo(events: seq<Event>, k: nat)
    requires WellFormed(events) && 0 < k <= |events|
    ensures Sessions(events[..k]) == OnlineTime(events, events[0].at, events[k - 1].at) + Lead(events[0])
  {
    assert events[..k][..k - 1] == events[..k - 1];
    if k > 1 {
      SessionsUpTo(events, k - 1);
      Advance(events, k - 1, events[0].at, events[k - 2].at, events[k - 1].at, events[k - 2].online);
    } else {
      assert events[..0] == [];
    }
  }

  lemma RecordedSessions(w: Track, now: int)
    requires WellFormed(w.events) && w.events != []
    requires var last := w.events[|w.events| - 1]; w.online == last.online && w.since == last.at <= now
    ensures TotalSession(w, now) == OnlineTime(w.events, w.events[0].at, now) + Lead(w.events[0])
  {
    var n := |w.events|;
    assert w.events[..n] == w.events;
    SessionsUpTo(w.events, n);
    Advance(w.events, n, w.events[0].at, w.since, now, w.online);
  }

  lemma RecordAgrees(changes: seq<Change>, now: int)
    requires Clocked(changes) && Run(changes).events != [] && changes[|changes| - 1].at <= now
    ensures var w := Run(changes); var last := w.events[|w.events| - 1];
      WellFormed(w.events) && w.online == last.online && w.since == last.at <= now
  {
    EveryRunTracks(changes);
    var w, log := Run(changes), History(changes);
    SuffixWellFormed(w.events, log);
    assert log[|log| - 1] == w.events[|w.events| - 1];
  }

  /** Session time is the time online since the first retained event, and downtime the time not. */
  lemma SessionTimeIsOnlineTime(changes: seq<Change>, now: int)
    requires Clocked(changes) && Run(changes).events != [] && changes[|changes| - 1].at <= now
    ensures var w := Run(changes); var first := w.events[0];
      && TotalSession(w, now) == OnlineTime(w.events, first.at, now) + Lead(first)
      && TotalDowntime(w, now) == now - first.at - OnlineTime(w.events, first.at, now)
  {
    RecordAgrees(changes, now);
    RecordedSessions(Run(changes), now);
    TimeIsConserved(changes, now);
  }

  /** The tally of the source: it finds the state at the window's start, then walks the log with a cursor. */
  method OnlineInWindow(events: seq<Event>, now: int, window: int) returns (online: int)
    requires Ordered(events) && 0 <= window
    ensures online == OnlineTime(events, now - window, now)
  {
    var start := now - window;
    var state := false;
    var k := 0;
    while k < |events| && events[k].at <= start
      invariant k <= |events|
      invariant k > 0 ==> events[k - 1].at <= start
      invariant state == (k > 0 && events[k - 1].online)
    {
      state := events[k].online;
      k := k + 1;
    }
    assert forall j :: 0 <= j < |events| ==> (events[j].at <= start <==> j < k);
    online := 0;
    var cursor := start;
    var i := 0;
    while i < |events|
      invariant i <= |events| && start <= cursor <= now
      invariant i < k ==> cursor == start
      invariant online == OnlineTime(events, start, cursor)
      invariant var done := if i < k then k else i;
        && (done > 0 ==> events[done - 1].at <= cursor)
        && (done < |events| ==> cursor <= events[done].at)
        && state == (done > 0 && events[done - 1].online)
    {
      var e := events[i];
      if e.at <= start {
        i := i + 1;
        continue;
      }
      if now < e.at {
        break;
      }
      Advance(events, i, start, cursor, e.at, state);
      var seg := e.at - cursor;
      if state {
        online := online + seg;
      }
      cursor, state := e.at, e.online;
      assert i + 1 < |events| ==> e.at <= events[i + 1].at;
      i := i + 1;
    }
    Advance(events, if i < k then k else i, start, cursor, now, state);
    var seg := now - cursor;
    if state {
      online := online + seg;
    }
  }

  /** The percentage the source reports, before it is rounded to two decimals. */
  method UptimePct(w: Track, now: int, window: int) returns (pct: real)
    requires Ordered(w.events) && 0 < window
    ensures w.events != [] ==> pct == OnlineTime(w.events, now - window, now) as real / window as real * 100.0
    ensures w.events == [] ==> pct == if w.online && w.since != 0 && w.since < now then 100.0 else 0.0
  {
    if |w.events| == 0 {
      if w.online && w.since != 0 && w.since < now {
        return 100.0;
      }
      return 0.0;
    }
    var online := OnlineInWindow(w.events, now, window);
    OnlineTimeBounded(w.events, now - window, now);
    FractionBounded(online as real, window as real);
    pct := online as real / window as real * 100.0;
    if pct > 100.0 {
      pct := 100.0;
    }
    if pct < 0.0 {
      pct := 0.0;
    }
  }

  lemma FractionBounded(x: real, y: real)
    requires 0.0 <= x <= y && 0.0 < y
    ensures 0.0 <= x / y * 100.0 <= 100.0
  {
    assert 0.0 <= x / y <= 1.0;
  }

  // ----- what trimming costs -----

  /** From its first retained event on, a trimmed log tells the same state as the full history; before, none. */
  lemma {:induction false} TrimmedState(events: seq<Event>, log: seq<Event>, t: int)
    requires Suffix(events, log) && Ordered(log) && events != []
    ensures OnlineAt(events, t) == (events[0].at <= t && OnlineAt(log, t))
  {
    var n, m := |events| - 1, |log| - 1;
    assert events[n] == log[m];
    if events[n].at <= t {
      assert events[0] == log[m - n];
      assert events[0].at <= events[n].at;
    } else if n > 0 {
      assert events[..n] == log[..m][m - n..];
      TrimmedState(events[..n], log[..m], t);
    } else {
      assert events[..n] == [];
    }
  }

  lemma {:induction false} SameStateSameTime(one: seq<Event>, two: seq<Event>, a: int, b: int)
    requires forall t :: a <= t < b ==> OnlineAt(one, t) == OnlineAt(two, t)
    ensures OnlineTime(one, a, b) == OnlineTime(two, a, b)
    decreases b - a
  {
    if a < b {
      SameStateSameTime(one, two, a, b - 1);
    }
  }

  /** Where the part of the window begins that the retained events speak for. */
  function KnownFrom(events: seq<Event>, a: int, b: int): (m: int)
    requires events != [] && a <= b
    ensures a <= m <= b
  {
    if events[0].at <= a then a else if events[0].at <= b then events[0].at else b
  }

  lemma TrimmedTime(events: seq<Event>, log: seq<Event>, a: int, b: int)
    requires Suffix(events, log) && Ordered(log) && events != [] && a <= b
    ensures OnlineTime(events, a, b) == OnlineTime(log, KnownFrom(events, a, b), b)
  {
    var m := KnownFrom(events, a, b);
    forall t | a <= t < m
      ensures !OnlineAt(events, t)
    {
      TrimmedState(events, log, t);
    }
    ConstantState(events, a, m, false);
    forall t | m <= t < b
      ensures OnlineAt(events, t) == OnlineAt(log, t)
    {
      TrimmedState(events, log, t);
    }
    SameStateSameTime(events, log, m, b);
    OnlineTimeSplits(events, a, m, b);
  }

  /**
   The tally never exceeds the true online time of the window, and equals it if and only if the worker was offline
   for the part of the window before the first retained event; so always when nothing was trimmed, or when the
   first retained event is no later than the window's start.
   */
  lemma TallyNeverExceedsTruth(changes: seq<Change>, now: int, window: int)
    requires Clocked(changes) && Run(changes).events != [] && 0 <= window
    ensures var events, log, start := Run(changes).events, History(changes), now - window;
      var tally, truth := OnlineTime(events, start, now), OnlineTime(log, start, now);
      && 0 <= tally <= truth <= window
      && (tally == truth <==> OnlineTime(log, start, KnownFrom(events, start, now)) == 0)
      && (events == log || events[0].at <= start ==> tally == truth)
  {
    EveryRunTracks(changes);
    var events, log, start := Run(changes).events, History(changes), now - window;
    TrimmedTime(events, log, start, now);
    OnlineTimeSplits(log, start, KnownFrom(events, start, now), now);
    OnlineTimeBounded(log, start, now);
  }

  /** A longer window never tallies less. */
  lemma TallyGrowsWithTheWindow(events: seq<Event>, now: int, shorter: int, longer: int)
    requires 0 <= shorter <= longer
    ensures OnlineTime(events, now - shorter, now) <= OnlineTime(events, now - longer, now)
  {
    OnlineTimeSplits(events, now - longer, now - shorter, now);
  }

  lemma StateBetween(e: Event, f: Event, a: int, b: int)
    requires e.online && e.at <= a <= b <= f.at
    ensures OnlineTime([f], a, b) == 0 && OnlineTime([e, f], a, b) == b - a
  {
    assert [e, f][..1] == [e] && [f][..0] == [];
    ConstantState([f], a, b, false);
    ConstantState([e, f], a, b, true);
  }

  lemma RunOfOne(on: Change, e: Event)
    requires on == Change(true, 1) && e == Event(true, 1, 0)
    ensures Run([on]) == Track(true, 1, 1, [e]) && History([on]) == [e]
  {
    assert [on][..0] == [];
    assert FirstKept([e], 1 - KEPT_FOR, 0) == 0;
    assert Trim([e], 1) == [e];
  }

  lemma LastDropped(e: Event, f: Event, cutoff: int)
    requires e.at < cutoff <= f.at
    ensures DropOld([e, f], cutoff) == [f]
  {
    assert [e, f][1] == f;
    assert FirstKept([e, f], cutoff, 0) == 1;
  }

  /**
   The tally can miss everything: a session of forty days ends, its beginning is trimmed at that moment, and the
   thirty-day window then shows no uptime although the worker was online throughout it.
   */
  lemma LongSessionIsForgotten()
    ensures var changes, now := [Change(true, 1), Change(false, 40 * DAY)], 40 * DAY;
      && Clocked(changes)
      && Run(changes).events != []
      && OnlineTime(Run(changes).events, now - 30 * DAY, now) == 0
      && OnlineTime(History(changes), now - 30 * DAY, now) == 30 * DAY
  {
    var on, off := Change(true, 1), Change(false, 40 * DAY);
    var e, f := Event(true, 1, 0), Event(false, 40 * DAY, 40 * DAY - 1);
    RunOfOne(on, e);
    assert [on, off][..1] == [on];
    assert [e] + [f] == [e, f];
    LastDropped(e, f, 9 * DAY);
    assert Trim([e, f], 40 * DAY) == [f];
    assert Run([on, off]).events == [f];
    assert History([on, off]) == [e, f];
    StateBetween(e, f, 10 * DAY, 40 * DAY);
  }

  // ----- the record of one worker, updated in place -----

  lemma SkipsOld(events: seq<Event>, cutoff: int, i: nat)
    requires i < |events| && events[i].at < cutoff
    ensures FirstKept(events, cutoff, i) == FirstKept(events, cutoff, i + 1)
  {
  }

  lemma StopsAtYoung(events: seq<Event>, cutoff: int, i: nat)
    requires i <= |events| && (i < |events| ==> cutoff <= events[i].at)
    requires FirstKept(events, cutoff, i) == FirstKept(events, cutoff, 0)
    ensures DropOld(events, cutoff) == events[i..]
  {
  }

  /** The scan past old events and the hard cap. */
  method Trimmed(events: seq<Event>, now: int) returns (kept: seq<Event>)
    ensures kept == Trim(events, now)
  {
    var cutoff := now - KEPT_FOR;
    var start := 0;
    while start < |events| && events[start].at < cutoff
      invariant start <= |events|
      invariant FirstKept(events, cutoff, start) == FirstKept(events, cutoff, 0)
    {
      SkipsOld(events, cutoff, start);
      start := start + 1;
    }
    StopsAtYoung(events, cutoff, start);
    kept := events;
    if start > 0 {
      kept := kept[start..];
    }
    if |kept| > MAX_EVENTS {
      kept := kept[|kept| - MAX_EVENTS..];
    }
  }

  class Worker {
    var online: bool
    var since: int
    var sessions: nat
    var events: seq<Event>

    function View(): Track
      reads this
    {
      Track(online, since, sessions, events)
    }

    constructor ()
      ensures View() == UNKNOWN
    {
      online, since, sessions, events := false, 0, 0, [];
    }

    method WorkerOnline(now: int)
      modifies this
      ensures View() == Apply(old(View()), Change(true, now))
    {
      if !online {
        online := true;
        since := now;
        sessions := sessions + 1;
        events := events + [Event(true, now, 0)];
        TrimEvents(now);
      }
    }

    method WorkerOffline(now: int)
      modifies this
      ensures View() == Apply(old(View()), Change(false, now))
    {
      if online {
        OfflineRecord(View(), now);
        var session := now - since;
        online := false;
        since := now;
        events := events + [Event(false, now, session)];
        TrimEvents(now);
      }
    }

    method TrimEvents(now: int)
      modifies this`events
      ensures events == Trim(old(events), now)
    {
      var kept := Trimmed(events, now);
      events := kept;
    }

    /** How many sessions there were, their total length, and the longest of them. */
    method SessionStats(now: int) returns (count: nat, total: int, longest: int)
      ensures total == TotalSession(View(), now)
      ensures count == SessionCount(events) + if online && since != 0 then 1 else 0
      ensures forall i :: 0 <= i < |events| && !events[i].online ==> events[i].session <= longest
      ensures online && since != 0 ==> now - since <= longest
      ensures longest == 0 || (online && longest == now - since)
              || exists i :: 0 <= i < |events| && !events[i].online && events[i].session == longest
    {
      count, total, longest := 0, 0, 0;
      for i := 0 to |events|
        invariant total == Sessions(events[..i]) && 0 <= longest && 0 <= total
        invariant count == SessionCount(events[..i])
        invariant forall j :: 0 <= j < i && !events[j].online ==> events[j].session <= longest
        invariant longest == 0 || exists j :: 0 <= j < i && !events[j].online && events[j].session == longest
      {
        assert events[..i + 1][..i] == events[..i];
        var e := events[i];
        if !e.online && e.session > 0 {
          count := count + 1;
          total := total + e.session;
          if e.session > longest {
            longest := e.session;
          }
        }
      }
      assert events[..|events|] == events;
      if online && since != 0 {
        var live := now - since;
        count := count + 1;
        total := total + live;
        if live > longest {
          longest := live;
        }
      }
    }

    method Downtime(now: int) returns (downtime: int)
      ensures downtime == TotalDowntime(View(), now)
    {
      if |events| == 0 {
        return 0;
      }
      downtime := 0;
      var lastOfflineAt := 0;
      for i := 0 to |events|
        invariant Gaps(downtime, lastOfflineAt) == GapsOf(events[..i])
      {
        assert events[..i + 1][..i] == events[..i];
        var e := events[i];
        if !e.online {
          lastOfflineAt := e.at;
        } else if lastOfflineAt != 0 {
          downtime := downtime + (e.at - lastOfflineAt);
          lastOfflineAt := 0;
        }
      }
      assert events[..|events|] == events;
      if !online && lastOfflineAt != 0 {
        downtime := downtime + (now - lastOfflineAt);
      }
    }
  }
}
