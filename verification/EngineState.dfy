/** The state of the scheduler's event engine (colossal/src/engine.cpp, event.cpp, pool.cpp) and what
    is invariant of it. */
module EngineState {
  import opened Common
  import opened FairShare
  import opened FairSelect
  import opened EngineBooks

  /** A pool's preemption settings; a negative timeout disables preemption. */
  datatype Timeout = Timeout(ms: real, hf: real)

  /** When a pool was last seen starved; negative when it is not. */
  datatype Timer = Timer(ms: real, hf: real)

  datatype Event = Create(time: real) | Finish(time: real, task: nat) | Preempt(time: real, pool: nat)

  /** Where the one creation event is: nowhere, in the event heap, or suspended on the semaphore. */
  datatype Chain = Ended | Pending(time: real) | Suspended(time: real)

  // ---------- Starvation ----------

  /** The allocation the min share entitles a pool to. */
  function Entitled(c: Context): int { MinInt(c.demand, Trunc(c.minshare)) }

  predicate BelowMinshare(c: Context) { c.alloc < Entitled(c) }

  predicate BelowHalfShare(c: Context) { c.alloc < Trunc(c.fairshare / 2.0) }

  /** The min share timer runs exactly while the pool is below its min share. */
  ghost predicate TimerOk(lim: Timeout, tm: Timer, c: Context) {
    TimerSane(lim, tm) && (lim.ms >= 0.0 ==> (tm.ms >= 0.0 <==> BelowMinshare(c)))
  }

  /** Disabled timers do not run. */
  ghost predicate TimerSane(lim: Timeout, tm: Timer) {
    (lim.ms < 0.0 ==> tm.ms < 0.0) && (lim.hf < 0.0 ==> tm.hf < 0.0)
  }

  /** As much of it as holds after a demand has grown. */
  ghost predicate TimerNotSpurious(lim: Timeout, tm: Timer, c: Context) {
    TimerSane(lim, tm) && (tm.ms >= 0.0 ==> BelowMinshare(c))
  }

  /** As much of it as holds after an allocation has grown. */
  ghost predicate TimerNotMissing(lim: Timeout, tm: Timer, c: Context) {
    TimerSane(lim, tm) && (lim.ms >= 0.0 && BelowMinshare(c) ==> tm.ms >= 0.0)
  }

  /** The min share timer is started: the pool is below its demand and its min share. */
  ghost predicate StartsMs(lim: Timeout, tm: Timer, c: Context) {
    lim.ms >= 0.0 && tm.ms < 0.0 && c.alloc < c.demand && c.alloc < Trunc(c.minshare)
  }

  /** The half fair share timer is started. */
  ghost predicate StartsHf(lim: Timeout, tm: Timer, c: Context) {
    lim.hf >= 0.0 && tm.hf < 0.0 && c.alloc < Trunc(c.fairshare / 2.0)
  }

  /** The timers after `map_transit_n2s`. */
  ghost function MsSince(lim: Timeout, tm: Timer, c: Context, now: real): real {
    if StartsMs(lim, tm, c) then now else tm.ms
  }

  ghost function HfSince(lim: Timeout, tm: Timer, c: Context, now: real): real {
    if StartsHf(lim, tm, c) then now else tm.hf
  }

  ghost function StartTimers(lim: Timeout, tm: Timer, c: Context, now: real): Timer {
    Timer(MsSince(lim, tm, c, now), HfSince(lim, tm, c, now))
  }

  /** The checks it schedules: one for each timer it starts, when that has run for its timeout. */
  ghost function MsCheck(lim: Timeout, tm: Timer, c: Context, now: real, p: nat): multiset<Event> {
    if StartsMs(lim, tm, c) then multiset{Preempt(now + lim.ms, p)} else multiset{}
  }

  ghost function HfCheck(lim: Timeout, tm: Timer, c: Context, now: real, p: nat): multiset<Event> {
    if StartsHf(lim, tm, c) then multiset{Preempt(now + lim.hf, p)} else multiset{}
  }

  ghost function ChecksFor(lim: Timeout, tm: Timer, c: Context, now: real, p: nat): multiset<Event> {
    MsCheck(lim, tm, c, now, p) + HfCheck(lim, tm, c, now, p)
  }

  /** `map_transit_s2n`. */
  ghost function StopTimers(tm: Timer, c: Context): Timer {
    Timer(if c.alloc < c.demand && c.alloc < Trunc(c.minshare) then tm.ms else -1.0,
          if c.alloc < Trunc(c.fairshare / 2.0) then tm.hf else -1.0)
  }

  /** After demand has grown, starting the timers is enough; after allocation has, stopping them is;
      whatever has happened, starting and then stopping them is. */
  lemma TransitsRestoreTimer(lim: Timeout, tm: Timer, c: Context, now: real)
    requires now >= 0.0
    ensures TimerNotSpurious(lim, tm, c) ==> TimerOk(lim, StartTimers(lim, tm, c, now), c)
    ensures TimerNotMissing(lim, tm, c) ==> TimerOk(lim, StopTimers(tm, c), c)
    ensures TimerSane(lim, tm) ==> TimerOk(lim, StopTimers(StartTimers(lim, tm, c, now), c), c)
    ensures TimerSane(lim, tm) && lim.hf >= 0.0 ==>
              (StopTimers(StartTimers(lim, tm, c, now), c).hf >= 0.0 <==> c.alloc < Trunc(c.fairshare / 2.0))
  {
  }

  /** A starved pool's timer that is started runs exactly if the clock is not below zero. */
  lemma StartedTimerRunsExactlyWhen(lim: Timeout, tm: Timer, c: Context, now: real)
    requires TimerSane(lim, tm) && lim.ms >= 0.0 && tm.ms < 0.0 && BelowMinshare(c)
    ensures TimerOk(lim, StartTimers(lim, tm, c, now), c) <==> now >= 0.0
  {
  }

  ghost predicate TimersOk(timeouts: seq<Timeout>, timers: seq<Timer>, pools: seq<Context>) {
    |timeouts| == |timers| == |pools| &&
    forall p :: 0 <= p < |pools| ==> TimerOk(timeouts[p], timers[p], pools[p])
  }

  /** Preemption is disabled everywhere. */
  ghost predicate Disabled(timeouts: seq<Timeout>) {
    forall p :: 0 <= p < |timeouts| ==> timeouts[p].ms < 0.0 && timeouts[p].hf < 0.0
  }

  ghost predicate ShareFloor(c: Context) { Min(c.demand as real, c.minshare) <= c.fairshare }

  ghost predicate ShareOk(c: Context) { ShareFloor(c) && c.fairshare <= c.demand as real }

  /** The pools have their fair shares of `total` slots. */
  ghost predicate SharesOk(pools: seq<Context>, total: int) {
    (forall p :: 0 <= p < |pools| ==> ShareOk(pools[p])) && SharesFor(pools, total)
  }

  /** Computed shares are within demands and no less than what min shares entitle to. */
  lemma SharesAreInRange(cs: seq<Context>, total: int, k: nat, m: real, r: real)
    requires AtRatio(cs, total, k, m, r)
    ensures SharesOk(cs, total)
  {
    forall p | 0 <= p < |cs|
      ensures ShareOk(cs[p])
    {
      assert IsShare(cs[p], m, cs[p].fairshare);
    }
  }

  /** Fair shares do not depend on what has been allocated. */
  lemma AllocationKeepsShares(cs: seq<Context>, cs': seq<Context>, total: int)
    requires SharesOk(cs, total) && |cs| == |cs'|
    requires forall p :: 0 <= p < |cs| ==> cs'[p] == cs[p].(alloc := cs'[p].alloc)
    ensures SharesOk(cs', total)
  {
    var k: nat, m, r :| AtRatio(cs, total, k, m, r);
    assert Fairshares(cs) == Fairshares(cs');
    SameNeedsStayAtRatio(cs, cs', total, k, m, r);
    hide AtRatio;
    assert forall p :: 0 <= p < |cs| && ShareOk(cs[p]) ==> ShareOk(cs'[p]);
  }

  lemma TruncBelow(x: real)
    requires x >= 0.0
    ensures 0 <= Trunc(x) && Trunc(x) as real <= x
  {
  }

  /** Preempting a task of a pool above its fair share never starves that pool for its min share. */
  lemma VictimIsNotStarved(c: Context)
    requires ShareFloor(c) && c.minshare >= 0.0 && c.alloc as real > c.fairshare
    ensures !BelowMinshare(c)
    ensures var c' := c.(alloc := c.alloc - 1, demand := c.demand - 1); !BelowMinshare(c') && ShareFloor(c')
  {
    TruncBelow(c.minshare);
  }

  /** Timers are in order except that those of the pools in `rest` may still have to be started. */
  ghost predicate TimersAlmost(timeouts: seq<Timeout>, timers: seq<Timer>, pools: seq<Context>, rest: set<nat>) {
    |timeouts| == |timers| == |pools| && forall p :: 0 <= p < |pools| ==>
      TimerNotSpurious(timeouts[p], timers[p], pools[p]) && (p !in rest ==> TimerOk(timeouts[p], timers[p], pools[p]))
  }

  /** Only demands of the pools in `changes` have grown. */
  ghost predicate DemandsGrew(cs: seq<Context>, cs': seq<Context>, changes: set<nat>) {
    && |cs'| == |cs|
    && (forall p :: p in changes ==> p < |cs|)
    && (forall p :: 0 <= p < |cs| ==>
          cs'[p] == cs[p].(demand := cs'[p].demand) && cs'[p].demand >= cs[p].demand
          && (p !in changes ==> cs'[p] == cs[p]))
  }

  /** One more task of pool `p` has been allocated. */
  ghost predicate TookOne(cs: seq<Context>, cs': seq<Context>, p: nat) {
    p < |cs| && cs' == cs[p := cs[p].(alloc := cs[p].alloc + 1)]
  }

  /** Task `t`, the first of its job's queue, has been popped and its pool charged. */
  ghost predicate Popped(b: Books, b': Books, t: nat) {
    && t < |b.tasks| && Queue(b, b.tasks[t].job) != [] && t == Queue(b, b.tasks[t].job)[0]
    && TookOne(b.pools, b'.pools, b.tasks[t].pool) && TookOne(b.jobs, b'.jobs, b.tasks[t].job)
    && b'.tasks == b.tasks[t := b.tasks[t].(popped := true)]
    && b'.unseen == b.unseen && b'.seen == b.seen && b'.popped == b.popped + 1
    && forall j :: Queue(b', j) == if j == b.tasks[t].job then Queue(b, j)[1..] else Queue(b, j)
  }

  lemma PoppedFacts(b: Books, b': Books, t: nat)
    requires Popped(b, b', t)
    ensures t < |b.tasks| && b.tasks[t].pool < |b.pools| == |b'.pools|
    ensures TookOne(b.pools, b'.pools, b.tasks[t].pool) && TookOne(b.jobs, b'.jobs, b.tasks[t].job)
    ensures b'.tasks == b.tasks[t := b.tasks[t].(popped := true)]
    ensures b'.unseen == b.unseen && b'.seen == b.seen && b'.popped == b.popped + 1
  {
  }

  lemma TookShares(cs: seq<Context>, cs': seq<Context>, p: nat, total: int)
    requires SharesOk(cs, total) && TookOne(cs, cs', p)
    ensures SharesOk(cs', total)
  {
    AllocationKeepsShares(cs, cs', total);
  }

  lemma GrownAllocs(cs: seq<Context>, cs': seq<Context>, cs'': seq<Context>, changes: set<nat>)
    requires DemandsGrew(cs, cs', changes) && SameUsers(cs', cs'')
    ensures SameAllocs(cs, cs'')
  {
  }

  /** Task `t` has been started at `now`. */
  ghost predicate Started(tasks: seq<Task>, tasks': seq<Task>, t: nat, now: real) {
    t < |tasks| && tasks' == tasks[t := tasks[t].(popped := false, preempted := false, stime := now)]
  }

  lemma TakePops(b: Books, p: nat, j: nat)
    requires BooksOk(b) && j in b.queues && p == b.jobPool[j]
    ensures Queue(b, j) != [] && Queue(b, j)[0] < |b.tasks| && p < |b.pools| && j < |b.jobs|
    ensures Popped(b, Take(b, p, j), Queue(b, j)[0])
  {
    assert JobOk(b, j);
  }

  lemma SeeGrowsDemand(b: Books, t: nat, cs: seq<Context>, jobs: seq<Context>, changes: set<nat>)
    requires BooksOk(b) && t in b.unseen && DemandsGrew(cs, b.pools, changes) && SameAllocs(jobs, b.jobs)
    ensures DemandsGrew(cs, See(b, t).pools, changes + {b.tasks[t].pool}) && SameAllocs(jobs, See(b, t).jobs)
    ensures |See(b, t).unseen| == |b.unseen| - 1 && |See(b, t).seen| == |b.seen| + 1 && See(b, t).tasks == b.tasks
  {
  }

  lemma GrownTimers(timeouts: seq<Timeout>, timers: seq<Timer>, cs: seq<Context>, cs': seq<Context>,
                    cs'': seq<Context>, changes: set<nat>)
    requires TimersOk(timeouts, timers, cs) && DemandsGrew(cs, cs', changes) && SameUsers(cs', cs'')
    ensures |cs''| == |cs| == |timeouts| && TimersAlmost(timeouts, timers, cs'', changes)
    ensures forall p :: p in changes ==> p < |cs|
  {
    forall p | 0 <= p < |cs''|
      ensures TimerNotSpurious(timeouts[p], timers[p], cs''[p])
      ensures p !in changes ==> TimerOk(timeouts[p], timers[p], cs''[p])
    {
      assert TimerOk(timeouts[p], timers[p], cs[p]);
    }
  }

  /** After a task of pool `p` was popped, stopping that pool's timers is enough. */
  lemma TookTimers(timeouts: seq<Timeout>, timers: seq<Timer>, cs: seq<Context>, cs': seq<Context>, p: nat)
    requires TimersOk(timeouts, timers, cs) && TookOne(cs, cs', p)
    ensures |timers| == |timeouts| == |cs'| && TimersOk(timeouts, timers[p := StopTimers(timers[p], cs'[p])], cs')
  {
    var timers' := timers[p := StopTimers(timers[p], cs'[p])];
    forall q | 0 <= q < |cs'|
      ensures TimerOk(timeouts[q], timers'[q], cs'[q])
    {
      assert TimerOk(timeouts[q], timers[q], cs[q]);
      TransitsRestoreTimer(timeouts[q], timers[q], cs'[q], 0.0);
    }
  }

  // ---------- Checks that are due ----------

  /** The check of a timer that has not yet run for its timeout is pending. */
  ghost predicate CheckDue(lim: Timeout, tm: Timer, p: nat, events: multiset<Event>, now: real) {
    && (lim.ms >= 0.0 && tm.ms >= 0.0 && tm.ms + lim.ms > now ==> Preempt(tm.ms + lim.ms, p) in events)
    && (lim.hf >= 0.0 && tm.hf >= 0.0 && tm.hf + lim.hf > now ==> Preempt(tm.hf + lim.hf, p) in events)
  }

  ghost predicate ChecksDue(timeouts: seq<Timeout>, timers: seq<Timer>, events: multiset<Event>, now: real) {
    |timeouts| == |timers| && forall p :: 0 <= p < |timers| ==> CheckDue(timeouts[p], timers[p], p, events, now)
  }

  /** A timer that has not been started in between. */
  ghost predicate NotStarted(tm: Timer, tm': Timer) {
    (tm'.ms == tm.ms || tm'.ms < 0.0) && (tm'.hf == tm.hf || tm'.hf < 0.0)
  }

  /** Time passes, timers are stopped, and of the pending checks only those whose time has come go. */
  lemma ChecksStayDue(timeouts: seq<Timeout>, timers: seq<Timer>, events: multiset<Event>, now: real,
                      timers': seq<Timer>, events': multiset<Event>, now': real)
    requires ChecksDue(timeouts, timers, events, now) && now <= now' && |timers'| == |timers|
    requires forall p :: 0 <= p < |timers| ==> NotStarted(timers[p], timers'[p])
    requires forall e: Event :: e.Preempt? && e.time > now' && e in events ==> e in events'
    ensures ChecksDue(timeouts, timers', events', now')
  {
    forall p | 0 <= p < |timers'|
      ensures CheckDue(timeouts[p], timers'[p], p, events', now')
    {
      assert CheckDue(timeouts[p], timers[p], p, events, now) && NotStarted(timers[p], timers'[p]);
    }
  }

  /** A pool's timers are started and their checks scheduled. */
  lemma StartedChecksAreDue(timeouts: seq<Timeout>, timers: seq<Timer>, events: multiset<Event>, now: real,
                            p: nat, c: Context)
    requires ChecksDue(timeouts, timers, events, now) && p < |timers| && now >= 0.0
    ensures ChecksDue(timeouts, timers[p := StartTimers(timeouts[p], timers[p], c, now)],
                      events + ChecksFor(timeouts[p], timers[p], c, now, p), now)
  {
    var timers' := timers[p := StartTimers(timeouts[p], timers[p], c, now)];
    var events' := events + ChecksFor(timeouts[p], timers[p], c, now, p);
    forall q | 0 <= q < |timers'|
      ensures CheckDue(timeouts[q], timers'[q], q, events', now)
    {
      assert CheckDue(timeouts[q], timers[q], q, events, now);
    }
  }

  /** Some task seen was created by now, so the first one was. */
  ghost predicate SeenInTime(tasks: seq<Task>, seen: seq<nat>, now: real) {
    seen != [] ==> seen[0] < |tasks| && tasks[seen[0]].ctime <= now
  }

  /** Checks are due and tasks have been seen in time. */
  ghost predicate Timely(timeouts: seq<Timeout>, timers: seq<Timer>, events: multiset<Event>, now: real,
                         tasks: seq<Task>, seen: seq<nat>) {
    ChecksDue(timeouts, timers, events, now) && SeenInTime(tasks, seen, now)
  }

  ghost predicate SameCreations(tasks: seq<Task>, tasks': seq<Task>) {
    |tasks| == |tasks'| && forall t :: 0 <= t < |tasks| ==> tasks'[t].ctime == tasks[t].ctime
  }

  lemma StaysTimely(timeouts: seq<Timeout>, timers: seq<Timer>, events: multiset<Event>, now: real,
                    tasks: seq<Task>, seen: seq<nat>, timers': seq<Timer>, events': multiset<Event>, now': real,
                    tasks': seq<Task>)
    requires Timely(timeouts, timers, events, now, tasks, seen) && now <= now' && |timers'| == |timers|
    requires forall p :: 0 <= p < |timers| ==> NotStarted(timers[p], timers'[p])
    requires forall e: Event :: e.Preempt? && e.time > now' && e in events ==> e in events'
    requires SameCreations(tasks, tasks')
    ensures Timely(timeouts, timers', events', now', tasks', seen)
  {
    ChecksStayDue(timeouts, timers, events, now, timers', events', now');
  }

  /** Its parts, for use where it is hidden. */
  lemma TimelyParts(timeouts: seq<Timeout>, timers: seq<Timer>, events: multiset<Event>, now: real,
                    tasks: seq<Task>, seen: seq<nat>)
    requires Timely(timeouts, timers, events, now, tasks, seen)
    ensures ChecksDue(timeouts, timers, events, now) && SeenInTime(tasks, seen, now)
  {
  }

  lemma TimelyWhole(timeouts: seq<Timeout>, timers: seq<Timer>, events: multiset<Event>, now: real,
                    tasks: seq<Task>, seen: seq<nat>)
    requires ChecksDue(timeouts, timers, events, now) && SeenInTime(tasks, seen, now)
    ensures Timely(timeouts, timers, events, now, tasks, seen)
  {
  }

  lemma FreshTimely(timeouts: seq<Timeout>, npools: nat, now: real, tasks: seq<Task>)
    requires |timeouts| == npools
    ensures Timely(timeouts, StoppedTimers(npools), multiset{}, now, tasks, [])
  {
  }

  /** A pool's timers are stopped as far as it is no longer starved. */
  lemma StopsTimely(timeouts: seq<Timeout>, timers: seq<Timer>, events: multiset<Event>, now: real,
                    tasks: seq<Task>, seen: seq<nat>, p: nat, c: Context)
    requires Timely(timeouts, timers, events, now, tasks, seen) && p < |timers|
    ensures Timely(timeouts, timers[p := StopTimers(timers[p], c)], events, now, tasks, seen)
  {
    StaysTimely(timeouts, timers, events, now, tasks, seen, timers[p := StopTimers(timers[p], c)], events, now, tasks);
  }

  /** A popped task is launched. */
  lemma LaunchTimely(timeouts: seq<Timeout>, timers: seq<Timer>, events: multiset<Event>, now: real,
                     b: Books, b': Books, t: nat, seen: seq<nat>)
    requires Timely(timeouts, timers, events, now, b.tasks, seen) && Popped(b, b', t)
    ensures Timely(timeouts, timers, events + multiset{Finish(now + b'.tasks[t].ptime, t)}, now,
                   b'.tasks[t := b'.tasks[t].(popped := false, preempted := false, stime := now)], seen)
  {
    var tasks' := b'.tasks[t := b'.tasks[t].(popped := false, preempted := false, stime := now)];
    StaysTimely(timeouts, timers, events, now, b.tasks, seen, timers,
                events + multiset{Finish(now + b'.tasks[t].ptime, t)}, now, tasks');
  }

  ghost predicate HalfTimerRuns(lim: Timeout, tm: Timer, c: Context) {
    lim.hf >= 0.0 && c.alloc < Trunc(c.fairshare / 2.0) ==> tm.hf >= 0.0
  }

  /** Every pool of `s` that is below half its fair share has the timer for that running. */
  ghost predicate HalfTimersRun(timeouts: seq<Timeout>, timers: seq<Timer>, pools: seq<Context>, s: set<nat>) {
    |timeouts| == |timers| == |pools| &&
    forall p :: p in s && p < |pools| ==> HalfTimerRuns(timeouts[p], timers[p], pools[p])
  }

  lemma NoneStarted(timeouts: seq<Timeout>, timers: seq<Timer>, pools: seq<Context>, changes: set<nat>)
    requires |timeouts| == |timers| == |pools|
    ensures HalfTimersRun(timeouts, timers, pools, changes - changes)
  {
  }

  /** One turn of the loop that starts the timers of the pools in `changes`. */
  lemma StartedInTurn(timeouts: seq<Timeout>, timers: seq<Timer>, events: multiset<Event>, now: real,
                      pools: seq<Context>, rest: set<nat>, changes: set<nat>, p: nat)
    requires TimersAlmost(timeouts, timers, pools, rest) && ChecksDue(timeouts, timers, events, now) && now >= 0.0
    requires HalfTimersRun(timeouts, timers, pools, changes - rest) && p in rest && p < |pools|
    ensures var timers' := timers[p := StartTimers(timeouts[p], timers[p], pools[p], now)];
            && TimersAlmost(timeouts, timers', pools, rest - {p})
            && ChecksDue(timeouts, timers', events + ChecksFor(timeouts[p], timers[p], pools[p], now, p), now)
            && HalfTimersRun(timeouts, timers', pools, changes - (rest - {p}))
  {
    StartedChecksAreDue(timeouts, timers, events, now, p, pools[p]);
    TransitsRestoreTimer(timeouts[p], timers[p], pools[p], now);
    hide ChecksDue, ChecksFor;
  }

  // ---------- Clock and events ----------

  /** Nothing that sets the clock back is pending. */
  ghost predicate ClockOk(now: real, events: multiset<Event>, waiting: seq<Event>) {
    && now >= 0.0
    && (forall e :: e in events && !e.Create? ==> e.time >= now)
    && (forall k :: 0 <= k < |waiting| ==> waiting[k].time <= now)
  }

  ghost predicate EventsOk(events: multiset<Event>, ntasks: nat, npools: nat) {
    forall e :: e in events ==> (e.Finish? ==> e.task < ntasks) && (e.Preempt? ==> e.pool < npools)
  }

  /** Only checks, of pools and for now or later, have been added; none if preemption is disabled. */
  ghost predicate ChecksOnly(events: multiset<Event>, events': multiset<Event>, timeouts: seq<Timeout>, now: real) {
    && events <= events'
    && (forall e :: e in events' && events'[e] != events[e] ==> e.Preempt? && e.pool < |timeouts| && e.time >= now)
    && (Disabled(timeouts) ==> events' == events)
  }

  lemma ClockBounds(now: real, events: multiset<Event>, waiting: seq<Event>)
    requires ClockOk(now, events, waiting)
    ensures now >= 0.0 && (forall e :: e in events && !e.Create? ==> e.time >= now)
    ensures forall k :: 0 <= k < |waiting| ==> waiting[k].time <= now
  {
  }

  /** The checks of a pool's timers are checks. */
  lemma ChecksForAreChecks(events: multiset<Event>, timeouts: seq<Timeout>, tm: Timer, c: Context, now: real, p: nat)
    requires p < |timeouts|
    ensures ChecksOnly(events, events + ChecksFor(timeouts[p], tm, c, now, p), timeouts, now)
  {
  }

  lemma ChecksChain(events: multiset<Event>, events': multiset<Event>, events'': multiset<Event>,
                    timeouts: seq<Timeout>, now: real)
    requires ChecksOnly(events, events', timeouts, now) && ChecksOnly(events', events'', timeouts, now)
    ensures ChecksOnly(events, events'', timeouts, now)
  {
  }

  lemma NoChecks(events: multiset<Event>, timeouts: seq<Timeout>, now: real)
    ensures ChecksOnly(events, events, timeouts, now)
  {
  }

  lemma NoneLeftToStart(timeouts: seq<Timeout>, timers: seq<Timer>, pools: seq<Context>)
    requires TimersAlmost(timeouts, timers, pools, {})
    ensures TimersOk(timeouts, timers, pools)
  {
  }

  lemma AlmostMatch(timeouts: seq<Timeout>, timers: seq<Timer>, pools: seq<Context>, rest: set<nat>)
    requires TimersAlmost(timeouts, timers, pools, rest)
    ensures |timeouts| == |timers| == |pools|
  {
  }

  /** Starting the min share timer does not bear on the other. */
  lemma HalfShareAlone(lim: Timeout, tm: Timer, ms: real, c: Context, now: real, p: nat)
    ensures HfSince(lim, tm.(ms := ms), c, now) == HfSince(lim, tm, c, now)
    ensures HfCheck(lim, tm.(ms := ms), c, now, p) == HfCheck(lim, tm, c, now, p)
  {
  }

  /** When timers are started, by the tests the code makes. */
  lemma StartsWhen(lim: Timeout, tm: Timer, c: Context)
    ensures lim.ms >= 0.0 && tm.ms < 0.0 && BelowMinshare(c) <==> StartsMs(lim, tm, c)
    ensures lim.hf >= 0.0 && tm.hf < 0.0 && BelowHalfShare(c) <==> StartsHf(lim, tm, c)
  {
  }

  lemma FinishTimely(timeouts: seq<Timeout>, timers: seq<Timer>, events: multiset<Event>, now: real,
                     tasks: seq<Task>, seen: seq<nat>, t: nat, time: real)
    requires Timely(timeouts, timers, events, now, tasks, seen) && t < |tasks|
    ensures Timely(timeouts, timers, events, now, tasks[t := tasks[t].(ftime := time)], seen)
  {
    StaysTimely(timeouts, timers, events, now, tasks, seen, timers, events, now,
                tasks[t := tasks[t].(ftime := time)]);
  }

  lemma DisabledChecks(events: multiset<Event>, events': multiset<Event>, timeouts: seq<Timeout>, now: real)
    requires ChecksOnly(events, events', timeouts, now) && Disabled(timeouts)
    ensures events' == events
  {
  }

  lemma ChecksKeepEvents(events: multiset<Event>, events': multiset<Event>, timeouts: seq<Timeout>, now: real,
                         ntasks: nat, waiting: seq<Event>)
    requires ChecksOnly(events, events', timeouts, now)
    requires EventsOk(events, ntasks, |timeouts|) && now >= 0.0
    requires forall e :: e in events && !e.Create? ==> e.time >= now
    requires forall k :: 0 <= k < |waiting| ==> waiting[k].time <= now
    ensures EventsOk(events', ntasks, |timeouts|) && ClockOk(now, events', waiting)
    ensures (forall e :: e in events ==> !e.Create?) ==> forall e :: e in events' ==> !e.Create?
  {
    forall e | e in events'
      ensures (e.Finish? ==> e.task < ntasks) && (e.Preempt? ==> e.pool < |timeouts|)
      ensures !e.Create? ==> e.time >= now
      ensures e.Create? ==> e in events
    {
      assert events'[e] != events[e] || e in events;
    }
  }

  lemma {:induction false} Earliest(events: multiset<Event>) returns (m: Event)
    requires events != multiset{}
    ensures m in events && forall f :: f in events ==> m.time <= f.time
    decreases |events|
  {
    var e :| e in events;
    var rest := events - multiset{e};
    m := e;
    if rest != multiset{} {
      var r := Earliest(rest);
      if r.time < e.time { m := r; }
    }
    forall f | f in events
      ensures m.time <= f.time
    {
      assert f == e || f in rest;
    }
  }

  lemma {:induction false} Oldest(unseen: multiset<nat>, tasks: seq<Task>) returns (m: nat)
    requires unseen != multiset{} && forall u :: u in unseen ==> u < |tasks|
    ensures m in unseen && forall u :: u in unseen ==> tasks[m].ctime <= tasks[u].ctime
    decreases |unseen|
  {
    var t :| t in unseen;
    var rest := unseen - multiset{t};
    m := t;
    if rest != multiset{} {
      var r := Oldest(rest, tasks);
      if tasks[r].ctime < tasks[t].ctime { m := r; }
    }
    forall u | u in unseen
      ensures tasks[m].ctime <= tasks[u].ctime
    {
      assert u == t || u in rest;
    }
  }

  // ---------- The creation chain ----------

  predicate HasMap(b: Books) { b.unseen != multiset{} || b.popped < |b.seen| }

  /** A creation event of time `time` will find a task to launch. */
  ghost predicate WillFind(b: Books, time: real) {
    b.popped < |b.seen| || exists u :: u in b.unseen && u < |b.tasks| && b.tasks[u].ctime <= time
  }

  /** A creation event of time `time` comes no later than any task still to be launched needs it. */
  ghost predicate Prompt(b: Books, time: real) {
    && (forall u :: u in b.unseen && u < |b.tasks| ==> time <= b.tasks[u].ctime)
    && (b.popped < |b.seen| ==> forall t :: 0 <= t < |b.tasks| ==> time <= b.tasks[t].ctime)
  }

  /** No task is flagged as popped, processing takes no negative time, and the first task ever seen is
      an oldest one. */
  ghost predicate TasksOk(tasks: seq<Task>, unseen: multiset<nat>, seen: seq<nat>) {
    && (forall t :: 0 <= t < |tasks| ==> !tasks[t].popped && tasks[t].ptime >= 0.0)
    && (seen == [] ==> forall t :: 0 <= t < |tasks| ==> t in unseen)
    && (seen != [] ==> seen[0] < |tasks|)
    && (seen != [] ==> forall t :: 0 <= t < |tasks| ==> tasks[seen[0]].ctime <= tasks[t].ctime)
  }

  /** A task changed in its start or finish only. */
  ghost predicate Retimed(tasks: seq<Task>, tasks': seq<Task>) {
    |tasks| == |tasks'| && forall t :: 0 <= t < |tasks| ==>
      tasks'[t] == tasks[t].(stime := tasks'[t].stime, ftime := tasks'[t].ftime, preempted := tasks'[t].preempted)
  }

  lemma RetimedTasks(b: Books, tasks: seq<Task>, tasks': seq<Task>)
    requires BooksOk(b) && TasksOk(tasks, b.unseen, b.seen)
    requires SameOwners(tasks, b.tasks) && Retimed(tasks, tasks')
    ensures BooksOk(b.(tasks := tasks')) && TasksOk(tasks', b.unseen, b.seen)
  {
    TasksKeepBooks(b, tasks');
  }

  /** The popped task is launched as it was before it was flagged. */
  lemma LaunchRetimes(b: Books, b': Books, t: nat, now: real)
    requires Popped(b, b', t) && TasksOk(b.tasks, b.unseen, b.seen)
    ensures var task := b'.tasks[t].(popped := false, preempted := false, stime := now);
            && b'.tasks[t := task] == b.tasks[t := b.tasks[t].(popped := false, preempted := false, stime := now)]
            && Retimed(b.tasks, b'.tasks[t := task])
            && SameOwners(b.tasks, b'.tasks)
            && b.tasks[t].ptime >= 0.0
  {
  }

  /** The ledger after a pop and a launch. */
  lemma PoppedAndLaunched(b: Books, b': Books, l: Ledger, t: nat)
    requires Popped(b, b', t) && Conserved(l)
    requires l.tasks == b.tasks && l.queues == b.queues
    ensures Conserved(Launched(l, t, b'.queues)) && t !in l.running
  {
    assert TaskOk(l, t);
    forall i
      ensures QueueIn(b'.queues, i) ==
              if i == l.tasks[t].job then QueueIn(l.queues, i)[1..] else QueueIn(l.queues, i)
    {
      assert Queue(b', i) == if i == b.tasks[t].job then Queue(b, i)[1..] else Queue(b, i);
    }
    LaunchConserves(l, t, b'.queues);
    assert t in QueueIn(l.queues, l.tasks[t].job);
  }

  /** The next creation event. */
  lemma CreationFits(b: Books, events: multiset<Event>, time: real, ntasks: nat, npools: nat, now: real)
    requires EventsOk(events, ntasks, npools) && ClockOk(now, events, [])
    requires forall e :: e in events ==> !e.Create?
    requires HasMap(b) && WillFind(b, time) && Prompt(b, time)
    ensures var events' := events + multiset{Create(time)};
            && EventsOk(events', ntasks, npools) && ClockOk(now, events', [])
            && ChainOk(Pending(time), b, events', [])
  {
    assert Create(time) !in events;
  }

  lemma FinishRetimes(tasks: seq<Task>, t: nat, now: real)
    requires t < |tasks|
    ensures Retimed(tasks, tasks[t := tasks[t].(ftime := now)]) && SameOwners(tasks, tasks)
    ensures SameOwners(tasks, tasks[t := tasks[t].(ftime := now)])
  {
  }

  lemma FinishFits(events: multiset<Event>, e: Event, ntasks: nat, npools: nat, now: real, waiting: seq<Event>)
    requires EventsOk(events, ntasks, npools) && ClockOk(now, events, waiting)
    requires e.Finish? && e.task < ntasks && e.time >= now
    ensures EventsOk(events + multiset{e}, ntasks, npools) && ClockOk(now, events + multiset{e}, waiting)
  {
    forall f | f in events + multiset{e}
      ensures f == e || f in events
    {
    }
  }

  /** There is one creation event as long as there are tasks to launch, and none otherwise. */
  ghost predicate ChainOk(chain: Chain, b: Books, events: multiset<Event>, waiting: seq<Event>) {
    && (chain != Ended <==> HasMap(b))
    && (forall e :: e in events && e.Create? ==> chain == Pending(e.time))
    && (match chain
        case Ended => waiting == []
        case Pending(time) => waiting == [] && events[Create(time)] == 1 && WillFind(b, time) && Prompt(b, time)
        case Suspended(time) => waiting == [Create(time)] && b.popped < |b.seen|)
  }

  /** The creation event has been taken out to be handled. */
  ghost predicate ChainTaken(b: Books, events: multiset<Event>, waiting: seq<Event>, e: Event) {
    && e.Create? && WillFind(b, e.time)
    && (forall f :: f in events ==> !f.Create?)
    && waiting == []
  }

  /** A creation event that found no slot waits for one. */
  lemma SuspensionFits(b: Books, events: multiset<Event>, e: Event, now: real)
    requires ClockOk(now, events, []) && e.Create? && e.time <= now && b.popped < |b.seen|
    requires forall f :: f in events ==> !f.Create?
    ensures ClockOk(now, events, [e]) && ChainOk(Suspended(e.time), b, events, [e])
  {
  }

  lemma TimersMatch(timeouts: seq<Timeout>, timers: seq<Timer>, pools: seq<Context>)
    requires TimersOk(timeouts, timers, pools)
    ensures |timeouts| == |timers| == |pools|
  {
  }

  /** Retiming tasks and adding checks leaves the creation chain alone. */
  lemma ChainStays(chain: Chain, b: Books, b': Books, events: multiset<Event>, events': multiset<Event>,
                   waiting: seq<Event>, timeouts: seq<Timeout>, now: real)
    requires ChainOk(chain, b, events, waiting) && ChecksOnly(events, events', timeouts, now)
    requires b'.unseen == b.unseen && b'.seen == b.seen && b'.popped == b.popped && Retimed(b.tasks, b'.tasks)
    ensures ChainOk(chain, b', events', waiting)
  {
    assert forall e :: e in events' && e.Create? ==> events'[e] == events[e];
  }

  /** What remains when an event has been popped, now or once its time has come. */
  lemma EventGone(events: multiset<Event>, e: Event, ntasks: nat, npools: nat, now: real, waiting: seq<Event>)
    requires EventsOk(events + multiset{e}, ntasks, npools) && ClockOk(now, events + multiset{e}, waiting)
    requires e.time >= now && forall f :: f in events && !f.Create? ==> f.time >= e.time
    ensures EventsOk(events, ntasks, npools)
    ensures ClockOk(now, events, waiting) && ClockOk(e.time, events, waiting)
  {
    assert forall f :: f in events ==> f in events + multiset{e};
  }

  /** Without preemption a finish event always is that of the task's only run. */
  lemma FinishIsOwn(l: Ledger, e: Event)
    requires Conserved(l) && e in l.events && e.Finish?
    ensures e.task < |l.tasks| && l.tasks[e.task].stime + l.tasks[e.task].ptime == e.time
    ensures !l.tasks[e.task].preempted
  {
    assert EventFits(l, e);
    assert TaskOk(l, e.task);
  }

  /** A creation event woken from the semaphore is ready to be handled, and nothing pending precedes it. */
  lemma WokenIsTaken(chain: Chain, b: Books, events: multiset<Event>, waiting: seq<Event>, now: real)
    requires ChainOk(chain, b, events, waiting) && waiting != [] && ClockOk(now, events, waiting)
    ensures ChainTaken(b, events, waiting[1..], waiting[0])
    ensures waiting[0].time <= now && ClockOk(now, events, waiting[1..])
    ensures forall f :: f in events ==> f.time >= waiting[0].time
  {
  }

  lemma OwedNotNegative(b: Books)
    requires BooksOk(b)
    ensures b.popped <= |b.seen|
  {
    OwedAtLeast(b, |b.pools|, 0);
    assert b.pools[..|b.pools|] == b.pools;
  }

  lemma PoolsInRange(b: Books)
    requires BooksOk(b)
    ensures (forall p :: p in b.active ==> p < |b.pools|)
    ensures (forall j :: j in b.queues ==> j < |b.jobs| == |b.jobPool|)
    ensures (forall p :: 0 <= p < |b.pools| ==> b.pools[p].weight > 0.0)
    ensures (forall j :: 0 <= j < |b.jobs| ==> b.jobs[j].weight > 0.0)
  {
  }

  lemma UnseenInRange(b: Books)
    requires BooksOk(b)
    ensures forall u :: u in b.unseen ==> u < |b.tasks|
    ensures forall t :: 0 <= t < |b.tasks| ==> b.tasks[t].job < |b.jobs| && b.tasks[t].pool < |b.pools|
  {
  }

  lemma HeadInRange(b: Books, j: nat)
    requires BooksOk(b) && j in b.queues
    ensures b.queues[j] != [] && b.queues[j][0] < |b.tasks| && b.tasks[b.queues[j][0]].job == j
    ensures b.tasks[b.queues[j][0]].pool == b.jobPool[j]
  {
    assert JobOk(b, j);
  }

  lemma SeeKeepsTasks(b: Books, t: nat)
    requires BooksOk(b) && TasksOk(b.tasks, b.unseen, b.seen) && t in b.unseen
    requires forall u :: u in b.unseen ==> b.tasks[t].ctime <= b.tasks[u].ctime
    ensures TasksOk(b.tasks, See(b, t).unseen, See(b, t).seen)
  {
  }

  /** What taking the head of the chosen job's queue amounts to. */
  lemma ChosenIsTaken(b: Books, p: nat, j: nat)
    requires BooksOk(b) && j in b.queues && p < |b.pools| && j < |b.jobs| == |b.jobPool| && p == b.jobPool[j]
    requires IsLeast(b.pools, multiset(b.active), p) && IsLeast(b.jobs, multiset(JobsOf(b, p)), j)
    ensures b.queues[j] != [] && b.queues[j][0] < |b.tasks| && BooksOk(Take(b, p, j))
    ensures |Take(b, p, j).tasks| == |b.tasks|
    ensures PopsTask(b, Take(b, p, j), b.queues[j][0]) && Popped(b, Take(b, p, j), b.queues[j][0])
  {
    TakeKeepsBooks(b, p, j);
    HeadInRange(b, j);
    ThisPopsTask(b, p, j);
    TakePops(b, p, j);
    hide IsLeast, JobsOf, PopsTask, Popped, Take;
  }

  // ---------- Where a task is ----------

  /** In every run a task is not yet visible, queued or running, and that only once, or none of these. */
  ghost predicate Placed(tasks: seq<Task>, unseen: multiset<nat>, queues: map<nat, seq<nat>>, running: set<nat>) {
    forall t :: 0 <= t < |tasks| ==> PlacedOnce(tasks, unseen, queues, running, t)
  }

  /** How often task `t` occurs in a queue. */
  ghost function Occurs(q: seq<nat>, t: nat): nat { multiset(q)[t] }

  ghost predicate PlacedOnce(tasks: seq<Task>, unseen: multiset<nat>, queues: map<nat, seq<nat>>, running: set<nat>,
                             t: nat)
    requires t < |tasks|
  {
    unseen[t] + Occurs(QueueIn(queues, tasks[t].job), t) + (if t in running then 1 else 0) <= 1
  }

  lemma PlacedApart(tasks: seq<Task>, unseen: multiset<nat>, queues: map<nat, seq<nat>>, running: set<nat>, t: nat)
    requires Placed(tasks, unseen, queues, running) && t < |tasks| && t in running
    ensures t !in unseen && t !in QueueIn(queues, tasks[t].job)
  {
    assert PlacedOnce(tasks, unseen, queues, running, t);
    var q := QueueIn(queues, tasks[t].job);
    assert t in q ==> Occurs(q, t) > 0;
  }

  lemma SeePlaces(b: Books, t: nat, running: set<nat>)
    requires BooksOk(b) && t in b.unseen && Placed(b.tasks, b.unseen, b.queues, running)
    ensures Placed(b.tasks, See(b, t).unseen, See(b, t).queues, running)
  {
    UnseenInRange(b);
    hide BooksOk;
    var b', j := See(b, t), b.tasks[t].job;
    assert multiset(Queue(b, j) + [t]) == multiset(Queue(b, j)) + multiset{t};
    forall u | 0 <= u < |b.tasks|
      ensures PlacedOnce(b.tasks, b'.unseen, b'.queues, running, u)
    {
      assert PlacedOnce(b.tasks, b.unseen, b.queues, running, u);
      var i := b.tasks[u].job;
      assert Queue(b', i) == if i == j then Queue(b, j) + [t] else Queue(b, i);
    }
  }

  /** A popped task was queued, so it is not running. */
  lemma LaunchPlaces(b: Books, b': Books, t: nat, running: set<nat>, tasks: seq<Task>)
    requires Popped(b, b', t) && Placed(b.tasks, b.unseen, b.queues, running) && SameOwners(b.tasks, tasks)
    ensures t !in running && Placed(tasks, b'.unseen, b'.queues, running + {t})
  {
    var j := b.tasks[t].job;
    var q := Queue(b, j);
    assert q == [t] + q[1..];
    assert multiset(q) == multiset{t} + multiset(q[1..]);
    assert PlacedOnce(b.tasks, b.unseen, b.queues, running, t);
    forall u | 0 <= u < |tasks|
      ensures PlacedOnce(tasks, b'.unseen, b'.queues, running + {t}, u)
    {
      assert PlacedOnce(b.tasks, b.unseen, b.queues, running, u);
      var i := b.tasks[u].job;
      assert Queue(b', i) == if i == j then q[1..] else Queue(b, i);
    }
  }

  lemma StripPlaces(b: Books, t: nat, running: set<nat>)
    requires Placed(b.tasks, b.unseen, b.queues, running) && t in running && t < |b.tasks|
    requires b.tasks[t].job < |b.jobs| && b.tasks[t].pool < |b.pools|
    ensures Placed(Stripped(b, t).tasks, Stripped(b, t).unseen, Stripped(b, t).queues, running - {t})
  {
    var b' := Stripped(b, t);
    forall u | 0 <= u < |b'.tasks|
      ensures PlacedOnce(b'.tasks, b'.unseen, b'.queues, running - {t}, u)
    {
      assert PlacedOnce(b.tasks, b.unseen, b.queues, running, u);
    }
  }

  /** Tasks that leave the running set, and changed times. */
  lemma FinishPlaces(tasks: seq<Task>, tasks': seq<Task>, unseen: multiset<nat>, queues: map<nat, seq<nat>>,
                     running: set<nat>, t: nat)
    requires Placed(tasks, unseen, queues, running) && SameOwners(tasks, tasks')
    ensures Placed(tasks', unseen, queues, running - {t})
  {
    forall u | 0 <= u < |tasks'|
      ensures PlacedOnce(tasks', unseen, queues, running - {t}, u)
    {
      assert PlacedOnce(tasks, unseen, queues, running, u);
    }
  }

  ghost predicate SameFinishes(tasks: seq<Task>, tasks': seq<Task>) {
    |tasks| == |tasks'| && forall u :: 0 <= u < |tasks| ==> tasks'[u].ftime == tasks[u].ftime
  }

  lemma FinishesStay(tasks: seq<Task>)
    ensures SameFinishes(tasks, tasks)
  {
  }

  /** A launch leaves every task in at most one place and changes no finish time. */
  lemma LaunchKeepsRest(b: Books, b': Books, t: nat, running: set<nat>, now: real)
    requires Popped(b, b', t) && Placed(b.tasks, b.unseen, b.queues, running)
    ensures var tasks := b.tasks[t := b.tasks[t].(popped := false, preempted := false, stime := now)];
            t !in running && Placed(tasks, b'.unseen, b'.queues, running + {t}) && SameFinishes(b.tasks, tasks)
  {
    LaunchPlaces(b, b', t, running, b.tasks[t := b.tasks[t].(popped := false, preempted := false, stime := now)]);
    hide Placed, Popped;
  }

  /** Everything but the ledgers after a pop and a launch. */
  lemma LaunchFits(b: Books, b': Books, t: nat, running: set<nat>, now: real, events: multiset<Event>, npools: nat,
                   waiting: seq<Event>, timeouts: seq<Timeout>, timers: seq<Timer>, seen: seq<nat>)
    requires Popped(b, b', t) && Placed(b.tasks, b.unseen, b.queues, running)
    requires TasksOk(b.tasks, b.unseen, b.seen) && BooksOk(b')
    requires EventsOk(events, |b'.tasks|, npools) && ClockOk(now, events, waiting)
    requires Timely(timeouts, timers, events, now, b.tasks, seen)
    ensures t < |b.tasks| == |b'.tasks| && t !in running && b'.tasks[t].ptime == b.tasks[t].ptime
    ensures var tasks := b.tasks[t := b.tasks[t].(popped := false, preempted := false, stime := now)];
            var all := events + multiset{Finish(now + b.tasks[t].ptime, t)};
            && b'.tasks[t := b'.tasks[t].(popped := false, preempted := false, stime := now)] == tasks
            && Placed(tasks, b'.unseen, b'.queues, running + {t}) && SameFinishes(b.tasks, tasks)
            && EventsOk(all, |tasks|, npools) && ClockOk(now, all, waiting)
            && Timely(timeouts, timers, all, now, tasks, seen)
            && BooksOk(b'.(tasks := tasks)) && TasksOk(tasks, b'.unseen, b'.seen)
  {
    PoppedFacts(b, b', t);
    LaunchKeepsRest(b, b', t, running, now);
    LaunchRetimes(b, b', t, now);
    FinishFits(events, Finish(now + b.tasks[t].ptime, t), |b'.tasks|, npools, now, waiting);
    LaunchTimely(timeouts, timers, events, now, b, b', t, seen);
    hide Popped, Placed, TasksOk, BooksOk, EventsOk, ClockOk, Timely, SameFinishes, Retimed, SameOwners;
    RetimedTasks(b', b.tasks, b.tasks[t := b.tasks[t].(popped := false, preempted := false, stime := now)]);
  }

  /** The same after a task has finished. */
  lemma FinishFitsIn(b: Books, t: nat, running: set<nat>, now: real, events: multiset<Event>,
                     timeouts: seq<Timeout>, timers: seq<Timer>)
    requires BooksOk(b) && TasksOk(b.tasks, b.unseen, b.seen) && Placed(b.tasks, b.unseen, b.queues, running)
    requires Timely(timeouts, timers, events, now, b.tasks, b.seen) && t < |b.tasks|
    ensures var tasks := b.tasks[t := b.tasks[t].(ftime := now)];
            && BooksOk(b.(tasks := tasks)) && TasksOk(tasks, b.unseen, b.seen) && Retimed(b.tasks, tasks)
            && Placed(tasks, b.unseen, b.queues, running - {t})
            && Timely(timeouts, timers, events, now, tasks, b.seen)
  {
    var tasks := b.tasks[t := b.tasks[t].(ftime := now)];
    FinishRetimes(b.tasks, t, now);
    hide BooksOk, TasksOk, Placed, Timely, Retimed, SameOwners;
    FinishPlaces(b.tasks, tasks, b.unseen, b.queues, running, t);
    FinishTimely(timeouts, timers, events, now, b.tasks, b.seen, t, now);
    RetimedTasks(b, b.tasks, tasks);
  }

  // ---------- What is allocated ----------

  /** The tasks of `s` that belong to pool `p`. */
  ghost function OfPool(tasks: seq<Task>, s: set<nat>, p: nat): set<nat> {
    set t | t in s && t < |tasks| && tasks[t].pool == p
  }

  /** The tasks of `s` that belong to job `j`. */
  ghost function OfJob(tasks: seq<Task>, s: set<nat>, j: nat): set<nat> {
    set t | t in s && t < |tasks| && tasks[t].job == j
  }

  /** Pools and jobs are charged exactly their running tasks. */
  ghost predicate AllocsOk(tasks: seq<Task>, pools: seq<Context>, jobs: seq<Context>, running: set<nat>) {
    && (forall p :: 0 <= p < |pools| ==> pools[p].alloc == |OfPool(tasks, running, p)|)
    && (forall j :: 0 <= j < |jobs| ==> jobs[j].alloc == |OfJob(tasks, running, j)|)
  }

  ghost predicate SameAllocs(cs: seq<Context>, cs': seq<Context>) {
    |cs| == |cs'| && forall i :: 0 <= i < |cs| ==> cs'[i].alloc == cs[i].alloc
  }

  lemma OwnersStay(tasks: seq<Task>)
    ensures SameOwners(tasks, tasks)
  {
  }

  lemma UsersKeepAllocs(cs: seq<Context>, cs': seq<Context>)
    requires SameUsers(cs, cs')
    ensures SameAllocs(cs, cs')
  {
  }

  lemma AllocsStay(cs: seq<Context>)
    ensures SameAllocs(cs, cs)
  {
  }

  lemma SameAllocsOk(tasks: seq<Task>, pools: seq<Context>, jobs: seq<Context>, running: set<nat>,
                     tasks': seq<Task>, pools': seq<Context>, jobs': seq<Context>)
    requires AllocsOk(tasks, pools, jobs, running) && SameOwners(tasks, tasks')
    requires SameAllocs(pools, pools') && SameAllocs(jobs, jobs')
    ensures AllocsOk(tasks', pools', jobs', running)
  {
    forall p | 0 <= p < |pools|
      ensures OfPool(tasks', running, p) == OfPool(tasks, running, p)
    {
    }
    forall j | 0 <= j < |jobs|
      ensures OfJob(tasks', running, j) == OfJob(tasks, running, j)
    {
    }
  }

  lemma OneMoreOfPool(tasks: seq<Task>, running: set<nat>, t: nat, p: nat)
    requires t < |tasks| && t !in running
    ensures |OfPool(tasks, running + {t}, p)| == |OfPool(tasks, running, p)| + if p == tasks[t].pool then 1 else 0
  {
    assert OfPool(tasks, running + {t}, p) == OfPool(tasks, running, p) + if p == tasks[t].pool then {t} else {};
  }

  lemma OneMoreOfJob(tasks: seq<Task>, running: set<nat>, t: nat, j: nat)
    requires t < |tasks| && t !in running
    ensures |OfJob(tasks, running + {t}, j)| == |OfJob(tasks, running, j)| + if j == tasks[t].job then 1 else 0
  {
    assert OfJob(tasks, running + {t}, j) == OfJob(tasks, running, j) + if j == tasks[t].job then {t} else {};
  }

  /** One more task of its pool and job runs. */
  lemma OneMoreRuns(tasks: seq<Task>, running: set<nat>, t: nat)
    requires t < |tasks| && t !in running
    ensures forall p :: |OfPool(tasks, running + {t}, p)| ==
                        |OfPool(tasks, running, p)| + if p == tasks[t].pool then 1 else 0
    ensures forall j :: |OfJob(tasks, running + {t}, j)| ==
                        |OfJob(tasks, running, j)| + if j == tasks[t].job then 1 else 0
  {
    hide OfPool, OfJob;
    forall p
      ensures |OfPool(tasks, running + {t}, p)| == |OfPool(tasks, running, p)| + if p == tasks[t].pool then 1 else 0
    {
      OneMoreOfPool(tasks, running, t, p);
    }
    forall j
      ensures |OfJob(tasks, running + {t}, j)| == |OfJob(tasks, running, j)| + if j == tasks[t].job then 1 else 0
    {
      OneMoreOfJob(tasks, running, t, j);
    }
  }

  /** A popped task is charged to its pool and its job, and runs. */
  lemma LaunchKeepsAllocs(b: Books, b': Books, t: nat, running: set<nat>)
    requires Popped(b, b', t) && AllocsOk(b.tasks, b.pools, b.jobs, running) && t !in running
    ensures AllocsOk(b.tasks, b'.pools, b'.jobs, running + {t})
  {
    OneMoreRuns(b.tasks, running, t);
    hide OfPool, OfJob;
  }

  lemma LaunchIsCharged(b: Books, b': Books, t: nat, running: set<nat>, now: real)
    requires Popped(b, b', t) && AllocsOk(b.tasks, b.pools, b.jobs, running)
    ensures t < |b.tasks|
    ensures t !in running ==>
              AllocsOk(b.tasks[t := b.tasks[t].(popped := false, preempted := false, stime := now)],
                       b'.pools, b'.jobs, running + {t})
  {
    var tasks' := b.tasks[t := b.tasks[t].(popped := false, preempted := false, stime := now)];
    if t !in running {
      LaunchKeepsAllocs(b, b', t, running);
      hide AllocsOk, Popped;
      SameAllocsOk(b.tasks, b'.pools, b'.jobs, running + {t}, tasks', b'.pools, b'.jobs);
    }
  }

  /** A task that leaves the running set is no longer charged. */
  lemma LeaveKeepsAllocs(b: Books, t: nat, running: set<nat>)
    requires t < |b.tasks| && b.tasks[t].job < |b.jobs| && b.tasks[t].pool < |b.pools| && t in running
    requires AllocsOk(b.tasks, b.pools, b.jobs, running)
    ensures AllocsOk(b.tasks, Leave(b, t).pools, Leave(b, t).jobs, running - {t})
  {
    OneMoreRuns(b.tasks, running - {t}, t);
    assert running - {t} + {t} == running;
    hide OfPool, OfJob;
  }

  lemma FinishIsCharged(b: Books, t: nat, running: set<nat>, now: real, pools: seq<Context>, jobs: seq<Context>)
    requires t < |b.tasks| && b.tasks[t].job < |b.jobs| && b.tasks[t].pool < |b.pools| && t in running
    requires AllocsOk(b.tasks, b.pools, b.jobs, running)
    requires var b' := b.(tasks := b.tasks[t := b.tasks[t].(ftime := now)]);
             SameAllocs(Leave(b', t).pools, pools) && jobs == Leave(b', t).jobs
    ensures AllocsOk(b.tasks[t := b.tasks[t].(ftime := now)], pools, jobs, running - {t})
  {
    LeaveKeepsAllocs(b, t, running);
    hide AllocsOk;
    SameAllocsOk(b.tasks, Leave(b, t).pools, Leave(b, t).jobs, running - {t},
                 b.tasks[t := b.tasks[t].(ftime := now)], pools, jobs);
  }

  lemma VictimIsDischarged(b: Books, t: nat, running: set<nat>)
    requires t < |b.tasks| && b.tasks[t].job < |b.jobs| && b.tasks[t].pool < |b.pools| && t in running
    requires AllocsOk(b.tasks, b.pools, b.jobs, running)
    ensures AllocsOk(Stripped(b, t).tasks, Stripped(b, t).pools, Stripped(b, t).jobs, running - {t})
  {
    LeaveKeepsAllocs(b, t, running);
    hide AllocsOk;
    SameAllocsOk(b.tasks, Leave(b, t).pools, Leave(b, t).jobs, running - {t},
                 Stripped(b, t).tasks, Stripped(b, t).pools, Stripped(b, t).jobs);
  }

  lemma FreshAllocsOk(tasks: seq<Task>, pools: seq<Context>, jobs: seq<Context>, jobPool: seq<nat>)
    requires Loaded(tasks, pools, jobs, jobPool)
    ensures AllocsOk(tasks, pools, jobs, {})
  {
    assert forall p :: 0 <= p < |pools| ==> Idle(pools[p]) && OfPool(tasks, {}, p) == {};
    assert forall j :: 0 <= j < |jobs| ==> Idle(jobs[j]) && OfJob(tasks, {}, j) == {};
  }

  // ---------- What becomes of every task when nothing is preempted ----------

  datatype Phase = Unseen | Queued | Running | Done

  /** What the life of a task depends on. */
  datatype Ledger = Ledger(
    tasks: seq<Task>, unseen: multiset<nat>, queues: map<nat, seq<nat>>,
    phase: seq<Phase>, launches: seq<nat>, running: set<nat>, events: multiset<Event>, now: real)

  /** A task is in exactly one place, was launched exactly once if at all, never before its creation, and
      finishes its processing time after its start. */
  ghost predicate TaskOk(l: Ledger, t: nat)
    requires t < |l.tasks| == |l.phase| == |l.launches|
  {
    var task, ph := l.tasks[t], l.phase[t];
    && l.unseen[t] == (if ph == Unseen then 1 else 0)
    && (t in QueueIn(l.queues, task.job) <==> ph == Queued)
    && (t in l.running <==> ph == Running)
    && l.launches[t] == (if ph == Running || ph == Done then 1 else 0)
    && (ph == Running ==> l.events[Finish(task.stime + task.ptime, t)] == 1)
    && (ph == Queued ==> task.ctime <= l.now)
    && (ph == Running || ph == Done ==> task.ctime <= task.stime)
    && (ph == Done ==> task.ftime == task.stime + task.ptime)
    && !task.preempted
  }

  /** Only finishes of running tasks and creations are pending. */
  ghost predicate EventFits(l: Ledger, e: Event)
    requires |l.phase| == |l.tasks|
  {
    && !e.Preempt?
    && (e.Finish? ==> e.task < |l.tasks| && l.phase[e.task] == Running &&
                      e.time == l.tasks[e.task].stime + l.tasks[e.task].ptime)
  }

  /** `t` was created no later than `u`. */
  ghost predicate NotLater(tasks: seq<Task>, t: nat, u: nat) {
    t < |tasks| && u < |tasks| ==> tasks[t].ctime <= tasks[u].ctime
  }

  /** A queue holds its tasks oldest first, none younger than a task not yet visible. */
  ghost predicate OldestFirst(tasks: seq<Task>, unseen: multiset<nat>, q: seq<nat>) {
    && (forall i, k :: 0 <= i < k < |q| ==> NotLater(tasks, q[i], q[k]))
    && (forall i, u :: 0 <= i < |q| && u in unseen ==> NotLater(tasks, q[i], u))
  }

  ghost predicate QueuesInOrder(tasks: seq<Task>, unseen: multiset<nat>, queues: map<nat, seq<nat>>) {
    forall j :: j in queues ==> OldestFirst(tasks, unseen, queues[j])
  }

  /** An oldest task becomes visible. */
  lemma SeeKeepsOrder(tasks: seq<Task>, unseen: multiset<nat>, queues: map<nat, seq<nat>>, t: nat, j: nat)
    requires QueuesInOrder(tasks, unseen, queues) && t in unseen && forall u :: u in unseen ==> NotLater(tasks, t, u)
    ensures QueuesInOrder(tasks, unseen - multiset{t}, queues[j := QueueIn(queues, j) + [t]])
  {
    hide NotLater;
    var queues' := queues[j := QueueIn(queues, j) + [t]];
    forall i | i in queues'
      ensures OldestFirst(tasks, unseen - multiset{t}, queues'[i])
    {
      assert i in queues ==> OldestFirst(tasks, unseen, queues[i]);
    }
  }

  ghost predicate Conserved(l: Ledger) {
    && QueuesInOrder(l.tasks, l.unseen, l.queues)
    && |l.tasks| == |l.phase| == |l.launches|
    && (forall t :: 0 <= t < |l.tasks| ==> TaskOk(l, t))
    && (forall t :: t in l.running ==> t < |l.tasks|)
    && (forall j :: j in l.queues ==> Distinct(l.queues[j]))
    && (forall e :: e in l.events ==> EventFits(l, e))
  }

  lemma QueueOldestFirst(l: Ledger, j: nat)
    requires Conserved(l)
    ensures OldestFirst(l.tasks, l.unseen, QueueIn(l.queues, j))
  {
    hide NotLater;
  }

  /** Creation events come and go without touching any task. */
  lemma CreationsDoNotMatter(l: Ledger, events: multiset<Event>)
    requires Conserved(l)
    requires forall e: Event :: !e.Create? ==> events[e] == l.events[e]
    ensures Conserved(l.(events := events))
  {
    var l' := l.(events := events);
    forall t | 0 <= t < |l.tasks|
      ensures TaskOk(l', t)
    {
      assert TaskOk(l, t);
    }
    forall e | e in events
      ensures EventFits(l', e)
    {
      assert !e.Create? ==> e in l.events;
    }
  }

  lemma TimePasses(l: Ledger, now: real)
    requires Conserved(l) && now >= l.now
    ensures Conserved(l.(now := now))
  {
    var l' := l.(now := now);
    forall t | 0 <= t < |l.tasks|
      ensures TaskOk(l', t)
    {
      assert TaskOk(l, t);
    }
    forall e | e in l.events
      ensures EventFits(l', e)
    {
      assert EventFits(l, e);
    }
  }

  lemma SeeConserves(l: Ledger, t: nat)
    requires Conserved(l) && t in l.unseen && t < |l.tasks| && l.tasks[t].ctime <= l.now
    requires forall u :: u in l.unseen ==> NotLater(l.tasks, t, u)
    ensures var j := l.tasks[t].job;
            Conserved(l.(unseen := l.unseen - multiset{t}, queues := l.queues[j := QueueIn(l.queues, j) + [t]],
                         phase := l.phase[t := Queued]))
  {
    var j := l.tasks[t].job;
    var l' := l.(unseen := l.unseen - multiset{t}, queues := l.queues[j := QueueIn(l.queues, j) + [t]],
                 phase := l.phase[t := Queued]);
    assert TaskOk(l, t);
    assert t !in multiset(QueueIn(l.queues, j));
    AppendNew(QueueIn(l.queues, j), t);
    SeeKeepsOrder(l.tasks, l.unseen, l.queues, t, j);
    hide Distinct, QueuesInOrder;
    forall u | 0 <= u < |l.tasks|
      ensures TaskOk(l', u)
    {
      assert TaskOk(l, u);
      var i := l.tasks[u].job;
      assert QueueIn(l'.queues, i) == if i == j then QueueIn(l.queues, j) + [t] else QueueIn(l.queues, i);
    }
    forall e | e in l'.events
      ensures EventFits(l', e)
    {
      assert EventFits(l, e);
    }
  }

  lemma AppendNew(s: seq<nat>, x: nat)
    requires Distinct(s) && x !in multiset(s)
    ensures Distinct(s + [x])
  {
    assert multiset(s + [x]) == multiset(s) + multiset{x};
  }

  /** The first task of a queue occurs nowhere else in it. */
  lemma HeadOnce(s: seq<nat>)
    requires Distinct(s) && s != []
    ensures s[0] !in s[1..] && Distinct(s[1..])
  {
    assert forall k :: 0 <= k < |s| - 1 ==> s[1..][k] == s[k + 1];
  }

  /** The ledger after the first task of queue `j` has been launched. */
  ghost function Launched(l: Ledger, t: nat, queues: map<nat, seq<nat>>): Ledger
    requires t < |l.tasks| == |l.phase| == |l.launches|
  {
    l.(tasks := l.tasks[t := l.tasks[t].(popped := false, preempted := false, stime := l.now)],
       queues := queues,
       phase := l.phase[t := Running],
       launches := l.launches[t := l.launches[t] + 1],
       running := l.running + {t},
       events := l.events + multiset{Finish(l.now + l.tasks[t].ptime, t)})
  }

  lemma LaunchedInOrder(l: Ledger, t: nat, queues: map<nat, seq<nat>>)
    requires QueuesInOrder(l.tasks, l.unseen, l.queues) && t < |l.tasks| == |l.phase| == |l.launches|
    requires QueueIn(l.queues, l.tasks[t].job) != []
    requires forall i :: QueueIn(queues, i) ==
                         if i == l.tasks[t].job then QueueIn(l.queues, i)[1..] else QueueIn(l.queues, i)
    ensures QueuesInOrder(Launched(l, t, queues).tasks, l.unseen, queues)
  {
    forall i | i in queues
      ensures OldestFirst(Launched(l, t, queues).tasks, l.unseen, queues[i])
    {
      assert QueueIn(queues, i) == queues[i];
      assert i in l.queues ==> OldestFirst(l.tasks, l.unseen, l.queues[i]);
    }
  }

  lemma LaunchConserves(l: Ledger, t: nat, queues: map<nat, seq<nat>>)
    requires Conserved(l) && t < |l.tasks|
    requires var q := QueueIn(l.queues, l.tasks[t].job); q != [] && q[0] == t
    requires forall i :: QueueIn(queues, i) ==
                         if i == l.tasks[t].job then QueueIn(l.queues, i)[1..] else QueueIn(l.queues, i)
    ensures Conserved(Launched(l, t, queues))
  {
    var j, l' := l.tasks[t].job, Launched(l, t, queues);
    HeadOnce(QueueIn(l.queues, j));
    LaunchedInOrder(l, t, queues);
    hide QueuesInOrder;
    assert TaskOk(l, t);
    assert l.events[Finish(l.now + l.tasks[t].ptime, t)] == 0 by {
      var e := Finish(l.now + l.tasks[t].ptime, t);
      assert e in l.events ==> EventFits(l, e);
    }
    forall u | 0 <= u < |l.tasks|
      ensures TaskOk(l', u)
    {
      assert TaskOk(l, u);
      assert QueueIn(l'.queues, l.tasks[u].job) ==
             if l.tasks[u].job == j then QueueIn(l.queues, j)[1..] else QueueIn(l.queues, l.tasks[u].job);
      assert QueueIn(l.queues, j) == [t] + QueueIn(l.queues, j)[1..];
    }
    forall i | i in l'.queues
      ensures Distinct(l'.queues[i])
    {
      assert l'.queues[i] == if i == j then QueueIn(l.queues, i)[1..] else QueueIn(l.queues, i);
    }
    forall e | e in l'.events
      ensures EventFits(l', e)
    {
      assert e in l.events ==> EventFits(l, e);
    }
  }

  /** The ledger after task `t` has finished. */
  ghost function Finished(l: Ledger, t: nat, time: real): Ledger
    requires t < |l.tasks| == |l.phase|
  {
    l.(tasks := l.tasks[t := l.tasks[t].(ftime := time)],
       phase := l.phase[t := Done],
       running := l.running - {t})
  }

  lemma FinishKeepsOrder(tasks: seq<Task>, tasks': seq<Task>, unseen: multiset<nat>, queues: map<nat, seq<nat>>)
    requires QueuesInOrder(tasks, unseen, queues) && SameCreations(tasks, tasks')
    ensures QueuesInOrder(tasks', unseen, queues)
  {
    forall i | i in queues
      ensures OldestFirst(tasks', unseen, queues[i])
    {
      assert OldestFirst(tasks, unseen, queues[i]);
    }
  }

  /** Its finish event has been popped. */
  lemma FinishConserves(l: Ledger, t: nat, time: real)
    requires Conserved(l.(events := l.events + multiset{Finish(time, t)}))
    ensures t < |l.tasks| && t in l.running && Conserved(Finished(l, t, time))
  {
    var l0 := l.(events := l.events + multiset{Finish(time, t)});
    assert EventFits(l0, Finish(time, t));
    var l' := Finished(l, t, time);
    FinishKeepsOrder(l.tasks, l'.tasks, l.unseen, l.queues);
    hide QueuesInOrder;
    assert TaskOk(l0, t);
    forall u | 0 <= u < |l.tasks|
      ensures TaskOk(l', u)
    {
      assert TaskOk(l0, u);
    }
    forall e | e in l'.events
      ensures EventFits(l', e)
    {
      assert EventFits(l0, e);
    }
  }

  // ---------- Whose finish events are pending ----------

  /** When task `t` finishes, if nothing happens to it. */
  function Ending(tasks: seq<Task>, t: nat): Event
    requires t < |tasks|
  {
    Finish(tasks[t].stime + tasks[t].ptime, t)
  }

  /** At most one event would make the task finish, and that one is pending exactly while it runs. */
  ghost predicate OwnFinish(tasks: seq<Task>, launches: seq<nat>, running: set<nat>, events: multiset<Event>,
                            now: real, t: nat)
    requires t < |tasks| == |launches|
  {
    var own := events[Ending(tasks, t)];
    && own <= 1
    && (t in running ==> own == 1 && !tasks[t].preempted)
    && (own == 1 && !tasks[t].preempted ==> t in running)
    && (launches[t] > 0 ==> tasks[t].stime <= now)
  }

  /** A finish event is that of a launch of its task, the last one or one before. */
  ghost predicate NotAhead(tasks: seq<Task>, launches: seq<nat>, e: Event)
    requires |tasks| == |launches|
  {
    e.Finish? ==> e.task < |tasks| && launches[e.task] > 0 && e.time <= Ending(tasks, e.task).time
  }

  /** No task's finish event can be taken for that of another launch of it. */
  ghost predicate Unmixed(tasks: seq<Task>, launches: seq<nat>, running: set<nat>, events: multiset<Event>, now: real) {
    && |tasks| == |launches|
    && (forall t :: 0 <= t < |tasks| ==> OwnFinish(tasks, launches, running, events, now, t))
    && (forall e :: e in events ==> NotAhead(tasks, launches, e))
  }

  /** Other events and the time do not matter. */
  lemma UnmixedStays(tasks: seq<Task>, launches: seq<nat>, running: set<nat>, events: multiset<Event>, now: real,
                     events': multiset<Event>, now': real)
    requires Unmixed(tasks, launches, running, events, now) && now <= now'
    requires forall e: Event :: e.Finish? ==> events'[e] == events[e]
    ensures Unmixed(tasks, launches, running, events', now')
  {
    forall t | 0 <= t < |tasks|
      ensures OwnFinish(tasks, launches, running, events', now', t)
    {
      assert OwnFinish(tasks, launches, running, events, now, t);
    }
    forall e | e in events'
      ensures NotAhead(tasks, launches, e)
    {
      assert e.Finish? ==> e in events;
    }
  }

  /** A task is launched, not at the instant of its launch before. */
  lemma UnmixedLaunch(tasks: seq<Task>, launches: seq<nat>, running: set<nat>, events: multiset<Event>, now: real,
                      t: nat)
    requires Unmixed(tasks, launches, running, events, now) && t < |tasks|
    requires launches[t] == 0 || tasks[t].stime != now
    ensures var tasks' := tasks[t := tasks[t].(popped := false, preempted := false, stime := now)];
            Unmixed(tasks', launches[t := launches[t] + 1], running + {t}, events + multiset{Ending(tasks', t)}, now)
  {
    var tasks' := tasks[t := tasks[t].(popped := false, preempted := false, stime := now)];
    var e, launches' := Ending(tasks', t), launches[t := launches[t] + 1];
    var running', events' := running + {t}, events + multiset{e};
    assert OwnFinish(tasks, launches, running, events, now, t);
    var pending := NotAhead(tasks, launches, e);
    assert events[e] == 0;
    forall u | 0 <= u < |tasks'|
      ensures OwnFinish(tasks', launches', running', events', now, u)
    {
      assert OwnFinish(tasks, launches, running, events, now, u);
    }
    forall f | f in events'
      ensures NotAhead(tasks', launches', f)
    {
      assert f in events ==> NotAhead(tasks, launches, f);
    }
  }

  /** The event that makes a task finish finds it running. */
  lemma UnmixedFinish(tasks: seq<Task>, launches: seq<nat>, running: set<nat>, events: multiset<Event>, now: real,
                      t: nat, time: real)
    requires t < |tasks| && !tasks[t].preempted
    requires Unmixed(tasks, launches, running, events + multiset{Ending(tasks, t)}, now)
    ensures t in running
    ensures Unmixed(tasks[t := tasks[t].(ftime := time)], launches, running - {t}, events, now)
  {
    var all, tasks' := events + multiset{Ending(tasks, t)}, tasks[t := tasks[t].(ftime := time)];
    assert OwnFinish(tasks, launches, running, all, now, t);
    forall u | 0 <= u < |tasks'|
      ensures OwnFinish(tasks', launches, running - {t}, events, now, u)
    {
      assert OwnFinish(tasks, launches, running, all, now, u);
    }
    forall f | f in events
      ensures NotAhead(tasks', launches, f)
    {
      assert f in all && NotAhead(tasks, launches, f);
    }
  }

  lemma UnmixedStale(tasks: seq<Task>, launches: seq<nat>, running: set<nat>, events: multiset<Event>, now: real,
                     e: Event)
    requires Unmixed(tasks, launches, running, events + multiset{e}, now)
    requires e.Finish? && e.task < |tasks| && (e != Ending(tasks, e.task) || tasks[e.task].preempted)
    ensures Unmixed(tasks, launches, running, events, now)
  {
    var all := events + multiset{e};
    forall u | 0 <= u < |tasks|
      ensures OwnFinish(tasks, launches, running, events, now, u)
    {
      assert OwnFinish(tasks, launches, running, all, now, u);
    }
    forall f | f in events
      ensures NotAhead(tasks, launches, f)
    {
      assert f in all && NotAhead(tasks, launches, f);
    }
  }

  lemma UnmixedStrip(tasks: seq<Task>, launches: seq<nat>, running: set<nat>, events: multiset<Event>, now: real,
                     t: nat)
    requires Unmixed(tasks, launches, running, events, now) && t < |tasks|
    ensures Unmixed(tasks[t := tasks[t].(preempted := true)], launches, running - {t}, events, now)
  {
    var tasks' := tasks[t := tasks[t].(preempted := true)];
    forall u | 0 <= u < |tasks'|
      ensures OwnFinish(tasks', launches, running - {t}, events, now, u)
    {
      assert OwnFinish(tasks, launches, running, events, now, u);
    }
    forall f | f in events
      ensures NotAhead(tasks', launches, f)
    {
      assert NotAhead(tasks, launches, f);
    }
  }

  function LaunchedAt(tasks: seq<Task>, t: nat, now: real): seq<Task>
    requires t < |tasks|
  {
    tasks[t := tasks[t].(popped := false, preempted := false, stime := now)]
  }

  /** A task launched, preempted and launched again at one instant has two finish events alike: when the
      first has taken effect, the second still does, though the task is not running. */
  lemma SecondFinishIsStray(tasks: seq<Task>, t: nat, now: real, running: set<nat>)
    requires t < |tasks|
    ensures var once := LaunchedAt(tasks, t, now);
            var twice := LaunchedAt(once[t := once[t].(preempted := true)], t, now);
            var e := Ending(once, t);
            var finished := twice[t := twice[t].(ftime := e.time)];
            && Ending(twice, t) == e == Ending(finished, t) && !finished[t].preempted
            && t !in running + {t} - {t}
  {
  }

  /** As long as no task has been launched `again` at the instant of its launch before, every finish event
      belongs to its launch. */
  ghost predicate Traced(again: nat, tasks: seq<Task>, launches: seq<nat>, running: set<nat>, events: multiset<Event>,
                         now: real) {
    again == 0 ==> Unmixed(tasks, launches, running, events, now)
  }

  lemma TracedStays(again: nat, tasks: seq<Task>, launches: seq<nat>, running: set<nat>, events: multiset<Event>,
                    now: real, events': multiset<Event>, now': real)
    requires Traced(again, tasks, launches, running, events, now) && now <= now'
    requires forall e: Event :: e.Finish? ==> events'[e] == events[e]
    ensures Traced(again, tasks, launches, running, events', now')
  {
    if again == 0 { UnmixedStays(tasks, launches, running, events, now, events', now'); }
  }

  lemma TracedChecks(again: nat, tasks: seq<Task>, launches: seq<nat>, running: set<nat>, events: multiset<Event>,
                     now: real, events': multiset<Event>, timeouts: seq<Timeout>)
    requires Traced(again, tasks, launches, running, events, now) && ChecksOnly(events, events', timeouts, now)
    ensures Traced(again, tasks, launches, running, events', now)
  {
    assert forall e: Event :: e.Finish? ==> events'[e] == events[e];
    TracedStays(again, tasks, launches, running, events, now, events', now);
  }

  lemma TracedFresh(tasks: seq<Task>, launches: seq<nat>, now: real)
    requires |tasks| == |launches| && forall t :: 0 <= t < |tasks| ==> launches[t] == 0
    ensures Traced(0, tasks, launches, {}, multiset{}, now)
  {
  }

  lemma TracedLaunch(again: nat, tasks: seq<Task>, launches: seq<nat>, running: set<nat>, events: multiset<Event>,
                     now: real, t: nat)
    requires Traced(again, tasks, launches, running, events, now) && t < |tasks| == |launches|
    ensures var tasks' := tasks[t := tasks[t].(popped := false, preempted := false, stime := now)];
            Traced(again + if launches[t] > 0 && tasks[t].stime == now then 1 else 0, tasks',
                   launches[t := launches[t] + 1], running + {t}, events + multiset{Ending(tasks', t)}, now)
  {
    if again == 0 && (launches[t] == 0 || tasks[t].stime != now) {
      UnmixedLaunch(tasks, launches, running, events, now, t);
    }
  }

  lemma TracedFinish(again: nat, tasks: seq<Task>, launches: seq<nat>, running: set<nat>, events: multiset<Event>,
                     now: real, t: nat, time: real)
    requires t < |tasks| && !tasks[t].preempted
    requires Traced(again, tasks, launches, running, events + multiset{Ending(tasks, t)}, now)
    ensures again == 0 ==> t in running
    ensures Traced(again, tasks[t := tasks[t].(ftime := time)], launches, running - {t}, events, now)
  {
    if again == 0 { UnmixedFinish(tasks, launches, running, events, now, t, time); }
  }

  lemma TracedStale(again: nat, tasks: seq<Task>, launches: seq<nat>, running: set<nat>, events: multiset<Event>,
                    now: real, e: Event)
    requires Traced(again, tasks, launches, running, events + multiset{e}, now)
    requires e.Finish? && e.task < |tasks| && (e != Ending(tasks, e.task) || tasks[e.task].preempted)
    ensures Traced(again, tasks, launches, running, events, now)
  {
    if again == 0 { UnmixedStale(tasks, launches, running, events, now, e); }
  }

  lemma TracedStrip(again: nat, tasks: seq<Task>, launches: seq<nat>, running: set<nat>, events: multiset<Event>,
                    now: real, t: nat)
    requires Traced(again, tasks, launches, running, events, now) && t < |tasks|
    ensures Traced(again, tasks[t := tasks[t].(preempted := true)], launches, running - {t}, events, now)
  {
    if again == 0 { UnmixedStrip(tasks, launches, running, events, now, t); }
  }

  // ---------- Finishing and preempting ----------

  /** Starting and then stopping the timers of the pool that lost a task restores them. */
  lemma LeftTimers(timeouts: seq<Timeout>, timers: seq<Timer>, cs: seq<Context>, cs': seq<Context>, p: nat, now: real)
    requires TimersOk(timeouts, timers, cs) && p < |cs'| == |cs| && now >= 0.0
    requires forall q :: 0 <= q < |cs| && q != p ==>
               cs'[q] == cs[q].(fairshare := cs'[q].fairshare)
    ensures |timers| == |timeouts| == |cs|
    ensures var started := StartTimers(timeouts[p], timers[p], cs'[p], now);
            && TimersOk(timeouts, timers[p := started][p := StopTimers(started, cs'[p])], cs')
            && HalfTimerExact(timeouts, timers[p := started][p := StopTimers(started, cs'[p])], cs', p)
  {
    var started := StartTimers(timeouts[p], timers[p], cs'[p], now);
    TransitsRestoreTimer(timeouts[p], timers[p], cs'[p], now);
    assert TimerOk(timeouts[p], timers[p], cs[p]);
    var timers' := timers[p := started][p := StopTimers(started, cs'[p])];
    forall q | 0 <= q < |cs'|
      ensures TimerOk(timeouts[q], timers'[q], cs'[q])
    {
      assert TimerOk(timeouts[q], timers[q], cs[q]);
    }
  }

  /** The pool's half fair share timer runs exactly while the pool is below half its fair share. */
  ghost predicate HalfTimerExact(timeouts: seq<Timeout>, timers: seq<Timer>, pools: seq<Context>, p: nat)
    requires |timeouts| == |timers| == |pools|
  {
    p < |pools| && (timeouts[p].hf >= 0.0 ==>
                      (timers[p].hf >= 0.0 <==> pools[p].alloc < Trunc(pools[p].fairshare / 2.0)))
  }

  /** Starting and then stopping them keeps the checks due. */
  lemma LeaveTimely(timeouts: seq<Timeout>, timers: seq<Timer>, events: multiset<Event>, now: real,
                    tasks: seq<Task>, seen: seq<nat>, p: nat, c: Context)
    requires Timely(timeouts, timers, events, now, tasks, seen) && p < |timers| && now >= 0.0
    ensures |timeouts| == |timers|
    ensures var started := StartTimers(timeouts[p], timers[p], c, now);
            Timely(timeouts, timers[p := started][p := StopTimers(started, c)],
                   events + ChecksFor(timeouts[p], timers[p], c, now, p), now, tasks, seen)
  {
    StartedChecksAreDue(timeouts, timers, events, now, p, c);
    var started := StartTimers(timeouts[p], timers[p], c, now);
    hide ChecksDue, StartTimers, StopTimers, ChecksFor;
    StopsTimely(timeouts, timers[p := started], events + ChecksFor(timeouts[p], timers[p], c, now, p), now,
                tasks, seen, p, c);
  }

  lemma LeaveThenShares(b: Books, t: nat, pools: seq<Context>)
    requires BooksOk(b) && t < |b.tasks| && SameUsers(Leave(b, t).pools, pools)
    ensures |pools| == |b.pools| && b.tasks[t].pool < |pools|
    ensures forall q :: 0 <= q < |pools| && q != b.tasks[t].pool ==>
              pools[q] == b.pools[q].(fairshare := pools[q].fairshare)
  {
  }

  /** What remains true of the shares while victims are taken. */
  ghost predicate FloorsOk(pools: seq<Context>) {
    forall p :: 0 <= p < |pools| ==> ShareFloor(pools[p])
  }

  /** Taking a victim from a pool above its fair share starves nobody. */
  lemma VictimKeepsTimers(b: Books, t: nat, timeouts: seq<Timeout>, timers: seq<Timer>)
    requires BooksOk(b) && t < |b.tasks| && TimersOk(timeouts, timers, b.pools) && FloorsOk(b.pools)
    requires b.tasks[t].pool < |b.pools|
    requires b.pools[b.tasks[t].pool].alloc as real > b.pools[b.tasks[t].pool].fairshare
    ensures TimersOk(timeouts, timers, Leave(b, t).pools) && FloorsOk(Leave(b, t).pools)
  {
    var p, cs := b.tasks[t].pool, Leave(b, t).pools;
    VictimIsNotStarved(b.pools[p]);
    forall q | 0 <= q < |cs|
      ensures TimerOk(timeouts[q], timers[q], cs[q]) && ShareFloor(cs[q])
    {
      assert TimerOk(timeouts[q], timers[q], b.pools[q]) && ShareFloor(b.pools[q]);
    }
  }

  lemma VictimKeepsBooks(b: Books, t: nat)
    requires BooksOk(b) && t < |b.tasks| && TasksOk(b.tasks, b.unseen, b.seen)
    ensures b.tasks[t].job < |b.jobs| && b.tasks[t].pool < |b.pools|
    ensures BooksOk(Stripped(b, t))
    ensures TasksOk(Stripped(b, t).tasks, Stripped(b, t).unseen, b.seen)
  {
    LeaveKeepsBooks(b, t);
    PutBackKeepsBooks(Leave(b, t), t);
    TasksKeepBooks(PutBack(Leave(b, t), t), b.tasks[t := b.tasks[t].(preempted := true)]);
  }

  /** The pool of task `t` holds more than its fair share. */
  predicate Preemptible(b: Books, t: nat) {
    t < |b.tasks| && b.tasks[t].pool < |b.pools| &&
    b.pools[b.tasks[t].pool].alloc as real > b.pools[b.tasks[t].pool].fairshare
  }

  /** The books after task `t` has been preempted. */
  function Stripped(b: Books, t: nat): Books
    requires t < |b.tasks| && b.tasks[t].job < |b.jobs| && b.tasks[t].pool < |b.pools|
  {
    PutBack(Leave(b, t), t).(tasks := b.tasks[t := b.tasks[t].(preempted := true)])
  }

  ghost predicate SameStarts(tasks: seq<Task>, tasks': seq<Task>) {
    |tasks| == |tasks'| && forall u :: 0 <= u < |tasks| ==> tasks'[u].stime == tasks[u].stime
  }

  ghost predicate NonePreemptible(b: Books, s: set<nat>) { forall u :: u in s ==> !Preemptible(b, u) }

  /** No task of `s` started after one of `gone`. */
  ghost predicate NotYounger(tasks: seq<Task>, s: set<nat>, gone: set<nat>) {
    forall u, v :: u in s && v in gone && u < |tasks| && v < |tasks| ==> tasks[u].stime <= tasks[v].stime
  }

  /** Of the tasks that could be preempted, those that still run are not younger than those taken. */
  ghost predicate YoungestTaken(b: Books, running: set<nat>, gone: set<nat>) {
    forall u, v :: u in running && Preemptible(b, u) && v in gone && v < |b.tasks| ==>
      b.tasks[u].stime <= b.tasks[v].stime
  }

  /** Every victim's pool held more than its fair share when it was taken: with that one task more it would. */
  ghost predicate OnlyFromAbove(b: Books, gone: set<nat>) {
    forall t :: t in gone ==>
      (t < |b.tasks| && b.tasks[t].pool < |b.pools| &&
       (b.pools[b.tasks[t].pool].alloc + 1) as real > b.pools[b.tasks[t].pool].fairshare)
  }

  lemma OneMoreFromAbove(b: Books, gone: set<nat>, t: nat)
    requires OnlyFromAbove(b, gone) && t < |b.tasks| && b.tasks[t].job < |b.jobs| && b.tasks[t].pool < |b.pools|
    requires b.pools[b.tasks[t].pool].alloc as real > b.pools[b.tasks[t].pool].fairshare
    ensures OnlyFromAbove(Stripped(b, t), gone + {t})
  {
  }

  /** Pools have lost the tasks of `gone` and their demand for them. */
  ghost predicate LostTasks(tasks: seq<Task>, pools: seq<Context>, pools': seq<Context>, gone: set<nat>) {
    |pools'| == |pools| && forall p :: 0 <= p < |pools| ==> var n := |OfPool(tasks, gone, p)|;
      pools'[p] == pools[p].(alloc := pools[p].alloc - n, demand := pools[p].demand - n)
  }

  lemma OneMoreLost(tasks: seq<Task>, pools: seq<Context>, b: Books, gone: set<nat>, t: nat)
    requires LostTasks(tasks, pools, b.pools, gone) && SameOwners(tasks, b.tasks) && t < |tasks| && t !in gone
    requires b.tasks[t].job < |b.jobs| && b.tasks[t].pool < |b.pools|
    ensures LostTasks(tasks, pools, Stripped(b, t).pools, gone + {t})
  {
    OneMoreRuns(tasks, gone, t);
    hide OfPool, OfJob;
  }

  lemma StrippedFacts(b: Books, t: nat)
    requires t < |b.tasks| && b.tasks[t].job < |b.jobs| && b.tasks[t].pool < |b.pools| && Preemptible(b, t)
    ensures var b' := Stripped(b, t);
            && SameStarts(b.tasks, b'.tasks) && |b'.pools| == |b.pools| && |b'.tasks| == |b.tasks|
            && b'.pools == Leave(b, t).pools && b'.unseen == b.unseen + multiset{t} && b'.seen == b.seen
            && b'.popped == b.popped && b'.queues == b.queues
            && b'.tasks == b.tasks[t := b.tasks[t].(preempted := true)]
            && forall u :: Preemptible(b', u) ==> Preemptible(b, u)
  {
  }

  lemma VictimKeepsChain(chain: Chain, b: Books, t: nat, events: multiset<Event>, waiting: seq<Event>)
    requires t < |b.tasks| && b.tasks[t].job < |b.jobs| && b.tasks[t].pool < |b.pools|
    requires ChainOk(chain, b, events, waiting) && b.popped < |b.seen|
    ensures ChainOk(chain, Stripped(b, t), events, waiting)
  {
    PutBackKeepsChain(chain, b, Stripped(b, t), events, waiting);
  }

  lemma StartVisits(b: Books, running: set<nat>)
    ensures NonePreemptible(b, running - running) && NotYounger(b.tasks, running, running - running)
    ensures TakenSoFar(b.tasks, b.pools, b, running - running)
  {
    assert running - running == {};
    assert forall p :: OfPool(b.tasks, {}, p) == {};
  }

  /** What has become of the books when the tasks of `gone` have been taken. */
  ghost predicate TakenSoFar(tasks: seq<Task>, pools: seq<Context>, b: Books, gone: set<nat>) {
    && SameStarts(tasks, b.tasks) && SameOwners(tasks, b.tasks)
    && OnlyFromAbove(b, gone) && LostTasks(tasks, pools, b.pools, gone)
  }

  lemma OneMoreTaken(tasks: seq<Task>, pools: seq<Context>, b: Books, running0: set<nat>, running: set<nat>, t: nat)
    requires TakenSoFar(tasks, pools, b, running0 - running) && t in running && running <= running0
    requires Preemptible(b, t) && b.tasks[t].job < |b.jobs|
    ensures TakenSoFar(tasks, pools, Stripped(b, t), running0 - (running - {t}))
  {
    assert running0 - (running - {t}) == (running0 - running) + {t};
    OneMoreFromAbove(b, running0 - running, t);
    OneMoreLost(tasks, pools, b, running0 - running, t);
    hide OnlyFromAbove, LostTasks;
  }

  lemma StrippedTimely(timeouts: seq<Timeout>, timers: seq<Timer>, events: multiset<Event>, now: real,
                       tasks: seq<Task>, seen: seq<nat>, t: nat)
    requires Timely(timeouts, timers, events, now, tasks, seen) && t < |tasks|
    ensures Timely(timeouts, timers, events, now, tasks[t := tasks[t].(preempted := true)], seen)
  {
    StaysTimely(timeouts, timers, events, now, tasks, seen, timers, events, now,
                tasks[t := tasks[t].(preempted := true)]);
  }

  lemma VisitYoungest(b: Books, running: set<nat>, rest: set<nat>, running0: set<nat>, t: nat)
    requires t in rest && rest <= running <= running0 && t < |b.tasks|
    requires forall u :: u in rest ==> u < |b.tasks| && b.tasks[u].stime <= b.tasks[t].stime
    requires NonePreemptible(b, running - rest) && NotYounger(b.tasks, rest, running0 - rest)
    ensures NotYounger(b.tasks, rest - {t}, running0 - (rest - {t}))
    ensures !Preemptible(b, t) ==> NonePreemptible(b, running - (rest - {t}))
    ensures NonePreemptible(b, running - {t} - (rest - {t}))
  {
  }

  lemma AfterVictim(b: Books, b': Books, running0: set<nat>, running: set<nat>, rest: set<nat>, t: nat)
    requires SameStarts(b.tasks, b'.tasks)
    requires NotYounger(b.tasks, rest, running0 - rest) && NonePreemptible(b, running - rest)
    requires forall u :: Preemptible(b', u) ==> Preemptible(b, u)
    ensures NotYounger(b'.tasks, rest, running0 - rest) && NonePreemptible(b', running - rest)
  {
  }

  lemma EndVisits(b: Books, running: set<nat>, rest: set<nat>, running0: set<nat>)
    requires rest <= running <= running0
    requires NonePreemptible(b, running - rest) && NotYounger(b.tasks, rest, running0 - rest)
    ensures rest == {} ==> NonePreemptible(b, running)
    ensures YoungestTaken(b, running, running0 - running)
  {
    forall u | u in running && Preemptible(b, u)
      ensures u in rest
    {
      assert u !in rest ==> u in running - rest;
    }
  }

  lemma NothingTaken(b: Books, unseen: multiset<nat>, running: set<nat>)
    ensures running - running == {} && unseen == unseen + multiset(running - running)
    ensures YoungestTaken(b, running, running - running) && SameStarts(b.tasks, b.tasks) && SameOwners(b.tasks, b.tasks)
    ensures OnlyFromAbove(b, running - running) && LostTasks(b.tasks, b.pools, b.pools, running - running)
  {
    assert running - running == {};
    assert forall p :: OfPool(b.tasks, {}, p) == {};
  }

  lemma NobodyTaken(b: Books, unseen: multiset<nat>, running: set<nat>)
    ensures running - {} == running && unseen == unseen + multiset({})
    ensures YoungestTaken(b, running, {}) && SameStarts(b.tasks, b.tasks) && SameOwners(b.tasks, b.tasks)
    ensures OnlyFromAbove(b, {}) && LostTasks(b.tasks, b.pools, b.pools, {})
  {
    assert forall p :: OfPool(b.tasks, {}, p) == {};
  }

  /** `n` tasks have left the running set and are waiting to become visible. */
  ghost predicate Tally(unseen0: multiset<nat>, unseen: multiset<nat>, running0: set<nat>, running: set<nat>, n: nat) {
    running <= running0 && n == |running0 - running| && unseen == unseen0 + multiset(running0 - running)
  }

  lemma NoneTaken(unseen: multiset<nat>, running: set<nat>)
    ensures Tally(unseen, unseen, running, running, 0)
  {
    assert running - running == {};
  }

  lemma OneMore(unseen0: multiset<nat>, unseen: multiset<nat>, running0: set<nat>, running: set<nat>, n: nat, t: nat)
    requires Tally(unseen0, unseen, running0, running, n) && t in running
    ensures Tally(unseen0, unseen + multiset{t}, running0, running - {t}, n + 1)
  {
    assert running0 - (running - {t}) == (running0 - running) + {t};
    assert multiset((running0 - running) + {t}) == multiset(running0 - running) + multiset{t};
  }

  lemma Tallied(unseen0: multiset<nat>, unseen: multiset<nat>, running0: set<nat>, running: set<nat>, n: nat)
    requires Tally(unseen0, unseen, running0, running, n)
    ensures n == |running0 - running| && |running| + n == |running0|
    ensures unseen == unseen0 + multiset(running0 - running)
  {
    assert running0 == running + (running0 - running);
  }

  lemma SharesAreFloors(pools: seq<Context>, total: int)
    ensures SharesOk(pools, total) ==> FloorsOk(pools)
  {
  }

  /** Recomputed shares leave timers, events and the creation chain alone. */
  lemma SharesKeepRest(chain: Chain, b: Books, pools: seq<Context>, timeouts: seq<Timeout>, timers: seq<Timer>,
                       events: multiset<Event>, waiting: seq<Event>)
    requires SameUsers(b.pools, pools) && TimersOk(timeouts, timers, b.pools) && ChainOk(chain, b, events, waiting)
    ensures |pools| == |b.pools| && TimersOk(timeouts, timers, pools)
    ensures ChainOk(chain, b.(pools := pools), events, waiting)
  {
    forall p | 0 <= p < |pools|
      ensures TimerOk(timeouts[p], timers[p], pools[p])
    {
      assert TimerOk(timeouts[p], timers[p], b.pools[p]);
    }
  }

  lemma TimerOfPool(timeouts: seq<Timeout>, timers: seq<Timer>, pools: seq<Context>, p: nat)
    requires TimersOk(timeouts, timers, pools) && p < |pools|
    ensures |timeouts| == |timers| == |pools| && TimerOk(timeouts[p], timers[p], pools[p])
  {
  }

  /** The slots a pool needs for its min share at time `at`: none unless its timer has run for its timeout. */
  ghost function MinshareNeed(lim: Timeout, tm: Timer, c: Context, at: real): int {
    if tm.ms >= 0.0 && at - tm.ms >= lim.ms then MinInt(c.demand, Trunc(c.minshare)) - c.alloc else 0
  }

  /** The slots it needs for its fair share, if it has been below half of that for its timeout. */
  ghost function FairshareNeed(lim: Timeout, tm: Timer, c: Context, at: real): int {
    if tm.hf >= 0.0 && at - tm.hf >= lim.hf && c.alloc < Trunc(c.fairshare / 2.0)
    then Trunc(c.fairshare - c.alloc as real) else 0
  }

  /** The greater of the two. */
  ghost function Need(lim: Timeout, tm: Timer, c: Context, at: real): int {
    var ms, hf := MinshareNeed(lim, tm, c, at), FairshareNeed(lim, tm, c, at);
    if ms > hf then ms else hf
  }

  /** A pool is never in need of a negative number of slots. */
  lemma FairshareNeedNotNegative(lim: Timeout, tm: Timer, c: Context, at: real)
    requires ShareOk(c) && c.minshare >= 0.0 && c.demand >= c.alloc
    ensures FairshareNeed(lim, tm, c, at) >= 0
  {
    if c.fairshare >= 0.0 { TruncBelow(c.fairshare / 2.0); }
  }

  lemma ShareOfPool(b: Books, p: nat, total: int, lim: Timeout, tm: Timer, at: real)
    requires BooksOk(b) && SharesOk(b.pools, total) && p < |b.pools|
    ensures FairshareNeed(lim, tm, b.pools[p], at) >= 0
  {
    PoolOwesItsJobs(b, p);
    FairshareNeedNotNegative(lim, tm, b.pools[p], at);
  }

  /** A pool starved for its half fair share by a positive number of slots is owed a task. */
  lemma HalfShareStarvedIsOwed(c: Context)
    requires ShareOk(c) && Trunc(c.fairshare - c.alloc as real) > 0
    ensures c.demand > c.alloc
  {
  }

  /** A pool starved for its min share, or by a positive number of slots for its half fair share, is owed
      a task, so a visible one is left to launch. */
  lemma StarvedIsOwed(b: Books, p: nat, total: int)
    requires BooksOk(b) && SharesOk(b.pools, total) && p < |b.pools|
    ensures Entitled(b.pools[p]) > b.pools[p].alloc ==> b.popped < |b.seen|
    ensures Trunc(b.pools[p].fairshare - b.pools[p].alloc as real) > 0 ==> b.popped < |b.seen|
  {
    var c := b.pools[p];
    assert ShareOk(c);
    if Trunc(c.fairshare - c.alloc as real) > 0 { HalfShareStarvedIsOwed(c); }
    if c.demand > c.alloc { OwedPoolHasMap(b, p); }
  }

  lemma {:induction false} Youngest(running: set<nat>, tasks: seq<Task>) returns (m: nat)
    requires running != {} && forall t :: t in running ==> t < |tasks|
    ensures m in running && forall u :: u in running ==> tasks[u].stime <= tasks[m].stime
    decreases |running|
  {
    var t :| t in running;
    var rest := running - {t};
    m := t;
    if rest != {} {
      var r := Youngest(rest, tasks);
      if tasks[r].stime > tasks[t].stime { m := r; }
    }
    forall u | u in running
      ensures tasks[u].stime <= tasks[m].stime
    {
      assert u == t || u in rest;
    }
  }

  /** Putting a task back leaves the creation event with something to find. */
  lemma PutBackKeepsChain(chain: Chain, b: Books, b': Books, events: multiset<Event>, waiting: seq<Event>)
    requires ChainOk(chain, b, events, waiting) && b.popped < |b.seen|
    requires b'.seen == b.seen && b'.popped == b.popped
    requires |b'.tasks| == |b.tasks| && forall t :: 0 <= t < |b.tasks| ==> b'.tasks[t].ctime == b.tasks[t].ctime
    ensures ChainOk(chain, b', events, waiting)
  {
    forall time | Prompt(b, time)
      ensures Prompt(b', time)
    {
    }
  }

  /** A pool that is owed a task keeps the creation chain alive. */
  lemma OwedPoolHasMap(b: Books, p: nat)
    requires BooksOk(b) && p < |b.pools| && b.pools[p].demand > b.pools[p].alloc
    ensures b.popped < |b.seen|
  {
    OwedAtLeast(b, |b.pools|, p);
    assert b.pools[..|b.pools|] == b.pools;
  }

  // ---------- The end of a run without preemption ----------

  /** Nothing is owed any more when all visible tasks have been popped. */
  lemma NothingQueued(b: Books, j: nat)
    requires BooksOk(b) && b.popped >= |b.seen| && j < |b.jobs|
    ensures Queue(b, j) == []
  {
    var p := b.jobPool[j];
    OwedAtLeast(b, |b.pools|, p);
    assert b.pools[..|b.pools|] == b.pools;
    PoolOwesItsJobs(b, p);
  }

  /** With nothing pending and nothing left to launch, every task has been launched once and has
      finished its processing time after its start. */
  lemma AllDone(b: Books, l: Ledger)
    requires BooksOk(b) && Conserved(l) && !HasMap(b) && l.events == multiset{}
    requires l.tasks == b.tasks && l.unseen == b.unseen && l.queues == b.queues
    ensures l.running == {}
    ensures forall t :: 0 <= t < |l.tasks| ==>
              && l.phase[t] == Done && l.launches[t] == 1
              && l.tasks[t].ctime <= l.tasks[t].stime
              && l.tasks[t].ftime == l.tasks[t].stime + l.tasks[t].ptime
  {
    forall t | 0 <= t < |l.tasks|
      ensures TaskOk(l, t) && l.phase[t] == Done && t !in l.running
    {
      assert TaskOk(l, t);
      NothingQueued(b, l.tasks[t].job);
      assert QueueIn(l.queues, l.tasks[t].job) == Queue(b, l.tasks[t].job);
    }
  }

  // ---------- The beginning of a run ----------

  /** Users before anything has been demanded. */
  predicate Idle(c: Context) {
    c.demand == 0 && c.alloc == 0 && c.fairshare == 0.0 && c.weight > 0.0 && c.minshare >= 0.0
  }

  /** What a run starts from: idle pools and jobs, and tasks that belong to them and have not been touched. */
  ghost predicate Loaded(tasks: seq<Task>, pools: seq<Context>, jobs: seq<Context>, jobPool: seq<nat>) {
    && |jobPool| == |jobs|
    && (forall p :: 0 <= p < |pools| ==> Idle(pools[p]))
    && (forall j :: 0 <= j < |jobs| ==> Idle(jobs[j]) && jobPool[j] < |pools|)
    && (forall t :: 0 <= t < |tasks| ==>
          && tasks[t].job < |jobs| && tasks[t].pool == jobPool[tasks[t].job]
          && tasks[t].ptime >= 0.0 && !tasks[t].popped && !tasks[t].preempted)
  }

  lemma FreshEvents(ntasks: nat, npools: nat, now: real)
    requires now >= 0.0
    ensures EventsOk(multiset{}, ntasks, npools) && ClockOk(now, multiset{}, [])
  {
  }

  /** Each of the first `n` tasks, once. */
  function FirstTasks(n: nat): (r: multiset<nat>)
    ensures forall t: nat :: r[t] == if t < n then 1 else 0
  {
    if n == 0 then multiset{} else FirstTasks(n - 1) + multiset{n - 1}
  }

  function Fresh(tasks: seq<Task>, pools: seq<Context>, jobs: seq<Context>, jobPool: seq<nat>): Books {
    Books(tasks, pools, jobs, jobPool, FirstTasks(|tasks|), [], 0, map[], {})
  }

  function StoppedTimers(n: nat): seq<Timer> { seq(n, _ => Timer(-1.0, -1.0)) }

  ghost function FreshLedger(tasks: seq<Task>, now: real): Ledger {
    Ledger(tasks, FirstTasks(|tasks|), map[], seq(|tasks|, _ => Unseen), seq(|tasks|, _ => 0), {}, multiset{}, now)
  }

  lemma {:induction false} NothingOwedIn(jobs: seq<Context>, jobPool: seq<nat>, p: nat)
    requires |jobs| == |jobPool| && forall j :: 0 <= j < |jobs| ==> Idle(jobs[j])
    ensures OwedIn(jobs, jobPool, p) == 0
  {
    if jobs != [] { NothingOwedIn(jobs[..|jobs| - 1], jobPool[..|jobs| - 1], p); }
  }

  lemma FreshPlaced(tasks: seq<Task>)
    ensures Placed(tasks, FirstTasks(|tasks|), map[], {})
  {
    forall t | 0 <= t < |tasks|
      ensures PlacedOnce(tasks, FirstTasks(|tasks|), map[], {}, t)
    {
      assert QueueIn(map[], tasks[t].job) == [];
    }
  }

  lemma FreshShares(pools: seq<Context>, total: nat)
    requires forall p :: 0 <= p < |pools| ==> Idle(pools[p])
    ensures SharesFor(pools, total)
  {
    assert forall p :: 0 <= p < |pools| ==> Idle(pools[p]);
    NothingAskedNothingShared(pools, total);
  }

  lemma FreshBooksOk(tasks: seq<Task>, pools: seq<Context>, jobs: seq<Context>, jobPool: seq<nat>, total: nat)
    requires Loaded(tasks, pools, jobs, jobPool)
    ensures BooksOk(Fresh(tasks, pools, jobs, jobPool)) && SharesOk(pools, total)
    ensures TasksOk(tasks, Fresh(tasks, pools, jobs, jobPool).unseen, [])
  {
    var b := Fresh(tasks, pools, jobs, jobPool);
    NothingOwed(pools);
    FreshShares(pools, total);
    forall p | 0 <= p < |pools|
      ensures PoolOk(b, p) && ShareOk(pools[p])
    {
      NothingOwedIn(jobs, jobPool, p);
      assert Idle(pools[p]);
    }
    forall j | 0 <= j < |jobs|
      ensures JobOk(b, j)
    {
      assert Idle(jobs[j]);
    }
    assert ShapeOk(b) by {
      assert forall p :: 0 <= p < |pools| ==> Idle(pools[p]);
      assert forall j :: 0 <= j < |jobs| ==> Idle(jobs[j]);
    }
  }

  lemma FreshLedgerOk(tasks: seq<Task>, pools: seq<Context>, jobs: seq<Context>, jobPool: seq<nat>, now: real)
    requires Loaded(tasks, pools, jobs, jobPool)
    ensures Conserved(FreshLedger(tasks, now))
  {
  }

  lemma FreshTimersOk(timeouts: seq<Timeout>, tasks: seq<Task>, pools: seq<Context>, jobs: seq<Context>,
                      jobPool: seq<nat>)
    requires |timeouts| == |pools| && Loaded(tasks, pools, jobs, jobPool)
    ensures TimersOk(timeouts, StoppedTimers(|pools|), pools)
  {
    forall p | 0 <= p < |pools|
      ensures !BelowMinshare(pools[p])
    {
      assert Idle(pools[p]);
      TruncBelow(pools[p].minshare);
    }
  }

  // ---------- The event popped ----------

  /** Popping the creation event leaves none. */
  lemma PoppedCreation(chain: Chain, b: Books, events: multiset<Event>, e: Event, waiting: seq<Event>,
                       ntasks: nat, npools: nat, now: real)
    requires e.Create? && ChainOk(chain, b, events + multiset{e}, waiting)
    requires EventsOk(events + multiset{e}, ntasks, npools) && ClockOk(now, events + multiset{e}, waiting)
    ensures ChainTaken(b, events, waiting, e)
    ensures EventsOk(events, ntasks, npools) && ClockOk(now, events, waiting)
  {
    var all := events + multiset{e};
    assert e in all && all[e] == events[e] + 1;
    forall f | f in events
      ensures f in all && !f.Create?
    {
    }
  }

  /** While a slot is free and a visible task is left to launch, the creation event is pending and due. */
  lemma ReadyTaskIsDue(chain: Chain, b: Books, events: multiset<Event>, waiting: seq<Event>,
                       timeouts: seq<Timeout>, timers: seq<Timer>, now: real, slots: int)
    requires ChainOk(chain, b, events, waiting) && Timely(timeouts, timers, events, now, b.tasks, b.seen)
    requires waiting != [] ==> slots == 0
    ensures slots > 0 && b.popped < |b.seen| ==> exists time :: time <= now && Create(time) in events
  {
    if slots > 0 && b.popped < |b.seen| {
      assert chain.Pending? && Create(chain.time) in events;
      assert chain.time <= b.tasks[b.seen[0]].ctime;
    }
  }

  /** Popping any other event leaves the creation chain alone. */
  lemma PoppedOther(chain: Chain, b: Books, events: multiset<Event>, e: Event, waiting: seq<Event>)
    requires !e.Create? && ChainOk(chain, b, events + multiset{e}, waiting)
    ensures ChainOk(chain, b, events, waiting)
  {
    var all := events + multiset{e};
    assert forall f: Event :: f.Create? ==> all[f] == events[f];
    assert forall f :: f in events ==> f in all;
  }

  lemma PoppedCheck(events: multiset<Event>, e: Event, ntasks: nat, npools: nat, now: real, waiting: seq<Event>)
    requires !e.Create? && EventsOk(events + multiset{e}, ntasks, npools) && ClockOk(now, events + multiset{e}, waiting)
    ensures e.time >= now && (e.Finish? ==> e.task < ntasks) && (e.Preempt? ==> e.pool < npools)
  {
    assert e in events + multiset{e};
  }

  lemma NoPreemption(l: Ledger, e: Event)
    requires Conserved(l) && e in l.events
    ensures !e.Preempt?
  {
    assert EventFits(l, e);
  }

  /** With nothing pending nobody runs. */
  lemma NobodyRuns(l: Ledger)
    requires Conserved(l) && l.events == multiset{}
    ensures l.running == {}
  {
    forall t | 0 <= t < |l.tasks|
      ensures t !in l.running
    {
      assert TaskOk(l, t);
    }
  }
}
