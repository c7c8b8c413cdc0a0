/**
 The window of recent jobs: which submissions are stale, and when a worker is disconnected for them.
 (internal/stratum/server.go)
 */
module RecentJobs {
  import opened Wrappers
  import opened Sequences

  /** Of a job only its identity and its age matter here. */
  datatype Job = Job(id: string, created: int)

  datatype Pool = Pool(current: Option<Job>, recent: map<string, Job>)

  const NO_JOBS := Pool(None, map[])

  // ----- the two ways a job enters the window -----

  predicate Oldest(recent: map<string, Job>, id: string) {
    id in recent && forall other :: other in recent ==> recent[id].created <= recent[other].created
  }

  /** A job of the pool's own: when the window overflows an oldest job leaves it. */
  function Broadcast(p: Pool, job: Job, max: nat, oldest: string): Pool {
    var recent := p.recent[job.id := job];
    Pool(Some(job), if |recent| > max then recent - {oldest} else recent)
  }

  /** A job from the upstream proxy: when the window is over its size, everything else leaves it. */
  function FromProxy(p: Pool, job: Job, max: nat): Pool {
    Pool(Some(job), if |p.recent| > max then map[job.id := job] else p.recent[job.id := job])
  }

  /** The scan for the oldest job, in whatever order the map gives its entries. */
  method FindOldest(recent: map<string, Job>) returns (oldest: string)
    requires |recent| > 0 && "" !in recent
    ensures Oldest(recent, oldest)
  {
    oldest := "";
    var oldestTime := 0;
    var left := recent.Keys;
    while left != {}
      invariant left <= recent.Keys && (oldest == "" ==> left == recent.Keys)
      invariant oldest != "" ==> oldest in recent && oldestTime == recent[oldest].created
      invariant oldest != "" ==> forall id :: id in recent && id !in left ==> oldestTime <= recent[id].created
      decreases |left|
    {
      var id :| id in left;
      left := left - {id};
      if oldest == "" || recent[id].created < oldestTime {
        oldest, oldestTime := id, recent[id].created;
      }
    }
  }

  /** The answer to the lookup that opens every submission. */
  datatype Verdict = NoJob | Stale(kick: bool) | Known(job: Job)

  /** What the server remembers of a worker's stale shares. */
  datatype Streak = Streak(job: string, length: nat)

  function OnStale(s: Streak, id: string): Streak {
    if id == s.job then Streak(id, s.length + 1) else Streak(id, 1)
  }

  function OnGood(s: Streak): Streak {
    s.(length := 0)
  }

  function KickAt(configured: int): (k: nat)
    ensures k > 0
  {
    if configured <= 0 then 5 else configured
  }

  class Worker {
    var lastStaleJob: string
    var staleStreak: nat

    function View(): Streak
      reads this
    {
      Streak(lastStaleJob, staleStreak)
    }

    constructor ()
      ensures View() == Streak("", 0)
    {
      lastStaleJob, staleStreak := "", 0;
    }

    method NoteStale(id: string)
      modifies this
      ensures View() == OnStale(old(View()), id)
    {
      if id == lastStaleJob {
        staleStreak := staleStreak + 1;
      } else {
        lastStaleJob := id;
        staleStreak := 1;
      }
    }

    method NoteGood()
      modifies this
      ensures View() == OnGood(old(View()))
    {
      staleStreak := 0;
    }
  }

  class Server {
    const max: nat
    var current: Option<Job>
    var recent: map<string, Job>

    function View(): Pool
      reads this
    {
      Pool(current, recent)
    }

    constructor (configured: int)
      ensures View() == NO_JOBS && max == if configured <= 0 then 4 else configured
    {
      max := if configured <= 0 then 4 else configured;
      current, recent := None, map[];
    }

    method BroadcastJob(job: Job) returns (ghost oldest: string)
      requires job.id != "" && "" !in recent
      modifies this
      ensures View() == Broadcast(old(View()), job, max, oldest)
      ensures Oldest(old(recent)[job.id := job], oldest)
    {
      current := Some(job);
      recent := recent[job.id := job];
      assert job.id in recent;
      var id := FindOldest(recent);
      oldest := id;
      if |recent| > max {
        recent := recent - {id};
      }
    }

    /** The job lookup of a submission, with the count of stale shares it keeps. */
    method Lookup(w: Worker, id: string, kickCount: int) returns (verdict: Verdict)
      modifies w
      ensures current.None? ==> verdict == NoJob
      ensures current.Some? && id in recent ==> verdict == Known(recent[id])
      ensures current.Some? && id !in recent ==>
        verdict == Stale(OnStale(old(w.View()), id).length >= KickAt(kickCount))
      ensures w.View() == if verdict.Stale? then OnStale(old(w.View()), id) else old(w.View())
    {
      if current.None? {
        return NoJob;
      }
      if id !in recent {
        w.NoteStale(id);
        return Stale(w.staleStreak >= KickAt(kickCount));
      }
      verdict := Known(recent[id]);
    }

    method ProxyJob(job: Job)
      modifies this
      ensures View() == FromProxy(old(View()), job, max)
    {
      current := Some(job);
      if |recent| > max {
        recent := map[job.id := job];
      } else {
        recent := recent[job.id := job];
      }
    }
  }

  // ----- every run -----

  datatype Event = Own(job: Job, oldest: string) | Proxy(job: Job)

  function Step(p: Pool, e: Event, max: nat): Pool {
    match e
    case Own(job, oldest) => Broadcast(p, job, max, oldest)
    case Proxy(job) => FromProxy(p, job, max)
  }

  function Run(events: seq<Event>, max: nat): Pool {
    if events == [] then NO_JOBS else Step(Run(events[..|events| - 1], max), events[|events| - 1], max)
  }

  /** Each job is newer than all in the window; its id may even repeat one of them. */
  ghost predicate Newer(p: Pool, e: Event) {
    && (forall id :: id in p.recent ==> p.recent[id].created < e.job.created)
    && (e.Own? ==> Oldest(p.recent[e.job.id := e.job], e.oldest))
  }

  ghost predicate NewerRun(events: seq<Event>, max: nat) {
    events != [] ==>
      NewerRun(events[..|events| - 1], max) && Newer(Run(events[..|events| - 1], max), events[|events| - 1])
  }

  lemma Sizes(recent: map<string, Job>, id: string, job: Job)
    ensures |recent[id := job]| == |recent| + if id in recent then 0 else 1
    ensures id in recent ==> |recent - {id}| == |recent| - 1
  {
  }

  lemma TwoEntries(recent: map<string, Job>, id: string)
    requires id in recent && |recent| > 1
    ensures exists other :: other in recent && other != id
  {
    var rest := recent.Keys - {id};
    assert |rest| == |recent.Keys| - 1 == |recent| - 1;
    var other :| other in rest;
  }

  /** With own and proxy jobs in any order the window exceeds its size by at most one, and holds the current job. */
  lemma {:induction false} WindowIsBounded(events: seq<Event>, max: nat)
    requires max > 0 && NewerRun(events, max)
    ensures var p := Run(events, max);
      && |p.recent| <= max + 1
      && (events != [] ==> p.current == Some(events[|events| - 1].job))
      && (p.current.Some? ==> p.current.value.id in p.recent && p.recent[p.current.value.id] == p.current.value)
  {
    if events != [] {
      var front, e := events[..|events| - 1], events[|events| - 1];
      var p := Run(front, max);
      WindowIsBounded(front, max);
      Sizes(p.recent, e.job.id, e.job);
      if e.Own? {
        var more := p.recent[e.job.id := e.job];
        Sizes(more, e.oldest, e.job);
        if |more| > max {
          TwoEntries(more, e.job.id);
        }
      }
    }
  }

  /** Who is known after a proxy job: that job, and all others unless the window was over its size. */
  lemma ProxyJobEnters(p: Pool, job: Job, max: nat, id: string)
    ensures var next := FromProxy(p, job, max);
      && next.current == Some(job) && job.id in next.recent && next.recent[job.id] == job
      && (id != job.id ==>
            && (id in next.recent <==> id in p.recent && |p.recent| <= max)
            && (id in next.recent ==> next.recent[id] == p.recent[id]))
  {
  }

  /** Who is known after a job of the pool's own: all but the one that leaves an overfull window. */
  lemma OwnJobEnters(p: Pool, job: Job, max: nat, oldest: string, id: string)
    requires oldest in p.recent[job.id := job]
    ensures var next, size := Broadcast(p, job, max, oldest), |p.recent| + if job.id in p.recent then 0 else 1;
      && next.current == Some(job)
      && (id in next.recent <==> (id == job.id || id in p.recent) && !(size > max && id == oldest))
      && (id in next.recent ==> next.recent[id] == if id == job.id then job else p.recent[id])
  {
    Sizes(p.recent, job.id, job);
  }

  // ----- the pool's own jobs alone: a first-in, first-out window -----

  function ById(jobs: seq<Job>): map<string, Job> {
    if jobs == [] then map[] else ById(jobs[..|jobs| - 1])[jobs[|jobs| - 1].id := jobs[|jobs| - 1]]
  }

  predicate DistinctAndOrdered(jobs: seq<Job>) {
    forall i, j :: 0 <= i < j < |jobs| ==> jobs[i].id != jobs[j].id && jobs[i].created < jobs[j].created
  }

  predicate HasId(jobs: seq<Job>, id: string) {
    exists i :: 0 <= i < |jobs| && jobs[i].id == id
  }

  lemma HasIdSplits(jobs: seq<Job>, last: Job, id: string)
    ensures HasId(jobs + [last], id) <==> HasId(jobs, id) || last.id == id
  {
    var more := jobs + [last];
    assert more[|jobs|] == last;
    if i :| 0 <= i < |jobs| && jobs[i].id == id {
      assert more[i].id == id;
    }
    if i :| 0 <= i < |more| && more[i].id == id {
      assert i < |jobs| ==> jobs[i].id == id;
    }
  }

  lemma {:induction false} ByIdMember(jobs: seq<Job>, id: string)
    ensures id in ById(jobs) <==> HasId(jobs, id)
  {
    if jobs != [] {
      var front, last := jobs[..|jobs| - 1], jobs[|jobs| - 1];
      ByIdMember(front, id);
      HasIdSplits(front, last, id);
      assert jobs == front + [last];
    }
  }

  lemma FrontOrdered(jobs: seq<Job>)
    requires DistinctAndOrdered(jobs) && jobs != []
    ensures DistinctAndOrdered(jobs[..|jobs| - 1]) && !HasId(jobs[..|jobs| - 1], jobs[|jobs| - 1].id)
  {
  }

  lemma {:induction false} ByIdHas(jobs: seq<Job>, i: nat)
    requires DistinctAndOrdered(jobs) && i < |jobs|
    ensures jobs[i].id in ById(jobs) && ById(jobs)[jobs[i].id] == jobs[i]
  {
    var n := |jobs| - 1;
    if i < n {
      FrontOrdered(jobs);
      ByIdHas(jobs[..n], i);
      assert jobs[i].id != jobs[n].id;
    }
  }

  lemma {:induction false} ByIdSize(jobs: seq<Job>)
    requires DistinctAndOrdered(jobs)
    ensures |ById(jobs)| == |jobs|
  {
    if jobs != [] {
      var front, last := jobs[..|jobs| - 1], jobs[|jobs| - 1];
      FrontOrdered(jobs);
      ByIdSize(front);
      ByIdMember(front, last.id);
      Sizes(ById(front), last.id, last);
    }
  }

  lemma {:induction false} DropFirst(jobs: seq<Job>)
    requires DistinctAndOrdered(jobs) && jobs != []
    ensures ById(jobs) - {jobs[0].id} == ById(jobs[1..])
  {
    var n := |jobs| - 1;
    if n == 0 {
      assert jobs[1..] == [] && jobs[..0] == [];
    } else {
      FrontOrdered(jobs);
      DropFirst(jobs[..n]);
      assert jobs[1..][..n - 1] == jobs[..n][1..];
      assert jobs[0].id != jobs[n].id;
    }
  }

  lemma OldestIsFirst(jobs: seq<Job>, oldest: string)
    requires DistinctAndOrdered(jobs) && jobs != [] && Oldest(ById(jobs), oldest)
    ensures oldest == jobs[0].id
  {
    ByIdMember(jobs, oldest);
    var i :| 0 <= i < |jobs| && jobs[i].id == oldest;
    ByIdHas(jobs, i);
    ByIdHas(jobs, 0);
    assert jobs[i].created <= jobs[0].created;
  }

  lemma SuffixOrdered(jobs: seq<Job>, d: nat)
    requires DistinctAndOrdered(jobs) && d <= |jobs|
    ensures DistinctAndOrdered(jobs[d..])
  {
  }

  lemma WindowEvicts(window: seq<Job>, max: nat, oldest: string)
    requires max > 0 && DistinctAndOrdered(window) && 0 < |window| <= max + 1 && Oldest(ById(window), oldest)
    ensures (if |ById(window)| > max then ById(window) - {oldest} else ById(window)) == ById(LastN(window, max))
  {
    ByIdSize(window);
    if |window| > max {
      OldestIsFirst(window, oldest);
      DropFirst(window);
    }
  }

  lemma BroadcastSlides(jobs: seq<Job>, job: Job, max: nat, current: Option<Job>, oldest: string)
    requires max > 0 && DistinctAndOrdered(jobs + [job])
    requires Oldest(ById(LastN(jobs, max))[job.id := job], oldest)
    ensures Broadcast(Pool(current, ById(LastN(jobs, max))), job, max, oldest).recent == ById(LastN(jobs + [job], max))
  {
    var window := LastN(jobs, max) + [job];
    assert window[..|window| - 1] == LastN(jobs, max);
    SuffixOrdered(jobs + [job], |jobs| + 1 - |window|);
    assert window == (jobs + [job])[|jobs| + 1 - |window|..];
    WindowEvicts(window, max, oldest);
    LastNAbsorbs(jobs, [job], max);
  }

  function Jobs(events: seq<Event>): seq<Job> {
    if events == [] then [] else Jobs(events[..|events| - 1]) + [events[|events| - 1].job]
  }

  /** Under the pool's own broadcasts, with distinct ids and increasing times, the window is the last `max` jobs. */
  lemma {:induction false} WindowIsLastJobs(events: seq<Event>, max: nat)
    requires max > 0 && NewerRun(events, max) && DistinctAndOrdered(Jobs(events))
    requires forall i :: 0 <= i < |events| ==> events[i].Own?
    ensures Run(events, max).recent == ById(LastN(Jobs(events), max))
  {
    if events != [] {
      var front, e := events[..|events| - 1], events[|events| - 1];
      assert Jobs(events) == Jobs(front) + [e.job];
      assert DistinctAndOrdered(Jobs(front)) by {
        assert Jobs(front) == Jobs(events)[..|Jobs(front)|];
      }
      WindowIsLastJobs(front, max);
      BroadcastSlides(Jobs(front), e.job, max, Run(front, max).current, e.oldest);
    }
  }

  /** So a submission is for a known job if and only if its job is among the last `max`; otherwise it is stale. */
  lemma KnownIffRecent(events: seq<Event>, max: nat, id: string)
    requires max > 0 && NewerRun(events, max) && DistinctAndOrdered(Jobs(events))
    requires forall i :: 0 <= i < |events| ==> events[i].Own?
    ensures var jobs := Jobs(events);
      id in Run(events, max).recent <==> exists i :: |jobs| - max <= i < |jobs| && 0 <= i && jobs[i].id == id
  {
    var jobs := Jobs(events);
    WindowIsLastJobs(events, max);
    ByIdMember(LastN(jobs, max), id);
    HasIdInSuffix(jobs, |jobs| - |LastN(jobs, max)|, id);
  }

  lemma HasIdInSuffix(jobs: seq<Job>, d: nat, id: string)
    requires d <= |jobs|
    ensures HasId(jobs[d..], id) <==> exists i :: d <= i < |jobs| && jobs[i].id == id
  {
  }

  // ----- when stale shares disconnect a worker -----

  /** The jobs of the stale shares a worker sent since its last good one. */
  datatype Share = Good | Late(id: string)

  function Track(shares: seq<Share>): Streak {
    if shares == [] then Streak("", 0)
    else
      var s, last := Track(shares[..|shares| - 1]), shares[|shares| - 1];
      if last.Good? then OnGood(s) else OnStale(s, last.id)
  }

  function LateSinceGood(shares: seq<Share>): seq<string> {
    if shares == [] || shares[|shares| - 1].Good? then []
    else LateSinceGood(shares[..|shares| - 1]) + [shares[|shares| - 1].id]
  }

  predicate EndsWith(ids: seq<string>, id: string, k: nat) {
    k <= |ids| && forall i :: |ids| - k <= i < |ids| ==> ids[i] == id
  }

  /**
   The streak is the number of stale shares for one and the same job at the end of those sent since the last good
   share: they are at least `k` if and only if the last `k` of them all name that job.
   */
  lemma {:induction false} StreakIsTail(shares: seq<Share>, k: nat)
    requires k > 0
    ensures var s, late := Track(shares), LateSinceGood(shares);
      && s.length <= |late|
      && (late != [] ==> s.length > 0 && s.job == late[|late| - 1])
      && (s.length >= k <==> EndsWith(late, s.job, k))
  {
    if shares != [] && shares[|shares| - 1].Late? {
      var front, id := shares[..|shares| - 1], shares[|shares| - 1].id;
      StreakIsTail(front, k);
      if k > 1 {
        StreakIsTail(front, k - 1);
        EndsWithMore(LateSinceGood(front), Track(front), id, k);
      } else {
        assert EndsWith(LateSinceGood(shares), id, 1);
      }
    }
  }

  /** So a worker is disconnected when the last shares since its good one, five by default, all name one old job. */
  lemma DisconnectsIff(shares: seq<Share>, configured: int)
    ensures var k := if configured <= 0 then 5 else configured;
      Track(shares).length >= KickAt(configured) <==> EndsWith(LateSinceGood(shares), Track(shares).job, k)
  {
    StreakIsTail(shares, if configured <= 0 then 5 else configured);
  }

  lemma EndsWithMore(late: seq<string>, s: Streak, id: string, k: nat)
    requires k > 1 && (late != [] ==> s.job == late[|late| - 1])
    requires s.length <= |late| && (s.length >= k - 1 <==> EndsWith(late, s.job, k - 1))
    ensures OnStale(s, id).length >= k <==> EndsWith(late + [id], id, k)
  {
    var more := late + [id];
    if EndsWith(more, id, k) {
      assert more[|late| - 1] == id;
      assert forall i :: |late| - (k - 1) <= i < |late| ==> late[i] == more[i];
    }
    if id == s.job && EndsWith(late, id, k - 1) {
      assert forall i :: |more| - k <= i < |late| ==> more[i] == late[i];
    }
  }
}
