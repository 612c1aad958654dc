/** The discrete-event engine of the scheduler simulator (colossal/src/engine.cpp, event.cpp,
    selector.cpp, pool.cpp, vsem.hpp), for map tasks and fair scheduling, with times and shares over the
    reals.  The event heap is the multiset of its events, from which some event of least time is popped. */
module Engine {
  import opened Common
  import opened FairShare
  import opened FairSelect
  import opened EngineBooks
  import opened EngineState

  class Engine {
    const nmap: int                  // the number of slots
    const jobPool: seq<nat>
    const timeouts: seq<Timeout>
    var now: real
    var tasks: seq<Task>
    var pools: seq<Context>
    var timers: seq<Timer>
    var jobs: seq<Context>
    var unseen: multiset<nat>
    var seen: seq<nat>
    var popped: nat
    var queues: map<nat, seq<nat>>
    var active: set<nat>
    var events: multiset<Event>
    var slots: int                   // the semaphore's value
    var waiting: seq<Event>          // the semaphore's queue
    var running: set<nat>
    ghost var chain: Chain
    ghost var phase: seq<Phase>
    ghost var launches: seq<nat>
    ghost var again: nat             // launches of a task at the instant of its launch before
    ghost var strays: nat            // finish events that took effect for a task not running

    function B(): Books
      reads this
    {
      Books(tasks, pools, jobs, jobPool, unseen, seen, popped, queues, active)
    }

    ghost function L(): Ledger
      reads this
    {
      Ledger(tasks, unseen, queues, phase, launches, running, events, now)
    }

    /** No pool has preemption enabled. */
    ghost predicate Quiet() { Disabled(timeouts) }

    /** What concerns neither shares nor slots, while `all` are the events not yet dealt with. */
    ghost predicate Settled(all: multiset<Event>)
      reads this
    {
      && BooksOk(B()) && TasksOk(tasks, unseen, seen) && TimersOk(timeouts, timers, pools)
      && EventsOk(all, |tasks|, |pools|) && ClockOk(now, all, waiting)
      && |phase| == |launches| == |tasks|
      && (forall t :: t in running ==> t < |tasks|)
      && Placed(tasks, unseen, queues, running)
      && Timely(timeouts, timers, all, now, tasks, seen)
    }

    ghost predicate Own(all: multiset<Event>)
      reads this
    {
      Traced(again, tasks, launches, running, all, now)
    }

    ghost predicate SoundBut(all: multiset<Event>)
      reads this
    {
      Settled(all) && SharesOk(pools, nmap) && Own(all) && (Quiet() ==> Conserved(L().(events := all)))
    }

    /** Everything but the creation chain and the slots is in order. */
    ghost predicate Sound()
      reads this
    {
      SoundBut(events)
    }

    /** Pools and jobs are charged exactly their running tasks, but for stray finishes. */
    ghost predicate Charged()
      reads this
    {
      AllocsOk(tasks, pools, jobs, running)
    }

    ghost predicate StraysOk()
      reads this
    {
      (Quiet() || again == 0 ==> strays == 0) && (strays == 0 ==> Charged())
    }

    /** No slot is free while a creation event waits for one. */
    ghost predicate SlotsOk()
      reads this
    {
      slots >= 0 && (waiting != [] ==> slots == 0) && StraysOk()
    }

    /** Free slots and running tasks, without the slots freed for tasks that were not running. */
    ghost function Total(): int
      reads this
    {
      slots + |running| - strays
    }

    /** Everything but the total of the slots is in order. */
    ghost predicate Ready()
      reads this
    {
      Sound() && ChainOk(chain, B(), events, waiting) && SlotsOk()
    }

    /** What holds between any two events of any run. */
    ghost predicate Valid()
      reads this
    {
      Ready() && Total() == nmap
    }

    /** Pools, jobs and tasks are loaded, and the first creation event is scheduled if there are tasks. */
    constructor (nmap: nat, now: real, timeouts: seq<Timeout>, pools: seq<Context>, jobs: seq<Context>,
                 jobPool: seq<nat>, tasks: seq<Task>)
      requires now >= 0.0 && |timeouts| == |pools| && Loaded(tasks, pools, jobs, jobPool)
      ensures Valid() && this.tasks == tasks && this.nmap == nmap && this.timeouts == timeouts && this.now == now
      ensures this.pools == pools && this.jobs == jobs && this.jobPool == jobPool
    {
      this.nmap, this.now, this.timeouts, this.pools, this.jobs := nmap, now, timeouts, pools, jobs;
      this.jobPool, this.tasks := jobPool, tasks;
      timers := StoppedTimers(|pools|);
      unseen, seen, popped, queues, active := FirstTasks(|tasks|), [], 0, map[], {};
      events, slots, waiting, running := multiset{}, nmap, [], {};
      chain, strays, again := Ended, 0, 0;
      phase, launches := FreshLedger(tasks, now).phase, FreshLedger(tasks, now).launches;
      new;
      hide BooksOk, TasksOk, TimersOk, SharesOk, Conserved, EventsOk, ClockOk, ChainOk, Disabled, Idle, Loaded, Placed,
           Traced, Timely, AllocsOk;
      Begin();
    }

    /** `process` before its loop: the first creation event. */
    method Begin()
      requires now >= 0.0 && |timeouts| == |pools| && Loaded(tasks, pools, jobs, jobPool)
      requires B() == Fresh(tasks, pools, jobs, jobPool) && L() == FreshLedger(tasks, now)
      requires timers == StoppedTimers(|pools|) && waiting == [] && slots == nmap >= 0 && strays == again == 0
      modifies this`events, this`chain
      ensures Valid()
    {
      hide BooksOk, TasksOk, TimersOk, SharesOk, Conserved, EventsOk, ClockOk, ChainOk, Disabled, Idle, Loaded, Placed,
           Traced, Timely, AllocsOk;
      FreshPlaced(tasks);
      TracedFresh(tasks, launches, now);
      FreshEvents(|tasks|, |pools|, now);
      FreshBooksOk(tasks, pools, jobs, jobPool, nmap);
      FreshAllocsOk(tasks, pools, jobs, jobPool);
      FreshTimely(timeouts, |pools|, now, tasks);
      FreshTimersOk(timeouts, tasks, pools, jobs, jobPool);
      FreshLedgerOk(tasks, pools, jobs, jobPool, now);
      NextCreation();
    }

    /** The min share timer of a pool runs exactly while the pool is below its min share; jobs and pools are
        owed exactly their queued tasks. */
    lemma BetweenEvents()
      requires Valid()
      ensures |timeouts| == |timers| == |pools| && |jobs| == |jobPool|
      ensures forall p :: 0 <= p < |pools| && timeouts[p].ms >= 0.0 ==>
                (timers[p].ms >= 0.0 <==> pools[p].alloc < MinInt(pools[p].demand, Trunc(pools[p].minshare)))
      ensures forall j :: 0 <= j < |jobs| ==> jobs[j].demand - jobs[j].alloc == |Queue(B(), j)|
      ensures forall p :: 0 <= p < |pools| ==> pools[p].demand - pools[p].alloc == OwedIn(jobs, jobPool, p)
    {
      forall p | 0 <= p < |pools|
        ensures timeouts[p].ms >= 0.0 ==> (timers[p].ms >= 0.0 <==> BelowMinshare(pools[p]))
        ensures pools[p].demand - pools[p].alloc == OwedIn(jobs, jobPool, p)
      {
        assert TimerOk(timeouts[p], timers[p], pools[p]) && PoolOk(B(), p);
      }
      forall j | 0 <= j < |jobs|
        ensures jobs[j].demand - jobs[j].alloc == |Queue(B(), j)|
      {
        assert JobOk(B(), j);
      }
    }

    /** Nothing that could set the clock back is pending; no slot is free while a creation event waits; free
        slots and running tasks add up to the slots, but for finish events that took effect for a task not
        running, of which there are none as long as no task is launched again at the instant of its launch
        before; a running task is neither queued nor waiting to become visible. */
    lemma SlotsBetweenEvents()
      requires Valid()
      ensures forall e :: e in events && !e.Create? ==> e.time >= now
      ensures slots >= 0 && (waiting != [] ==> slots == 0) && slots + |running| == nmap + strays
      ensures forall t :: t in running ==> t < |tasks| && t !in unseen && t !in Queue(B(), tasks[t].job)
      ensures again == 0 ==> strays == 0 && forall t :: t in running ==> events[Ending(tasks, t)] == 1
    {
      forall t | t in running
        ensures t !in unseen && t !in Queue(B(), tasks[t].job)
      {
        PlacedApart(tasks, unseen, queues, running, t);
      }
      forall t | again == 0 && t in running
        ensures events[Ending(tasks, t)] == 1
      {
        assert OwnFinish(tasks, launches, running, events, now, t);
      }
    }

    /** The pools have the fair shares of all slots: no pool that gets less than it demands gets less for its
        weight than one that gets more than its min share; and if the min shares fit the slots, so do the
        fair shares, to within the width of the last interval. */
    lemma SharesBetweenEvents()
      requires Valid()
      ensures MaxMin(pools)
      ensures SumMinshares(pools) <= nmap as real ==>
                exists k: nat :: FirstEnough(pools, nmap, k) && FitSlots(pools, nmap, Fairshares(pools), LastWidth(k))
    {
      PoolsInRange(B());
      hide ClockOk, EventsOk, TasksOk, TimersOk, Placed, Traced, Timely, AllocsOk, Conserved, ChainOk;
      assert Weighted(pools) && Floored(pools);
      hide BooksOk;
      SharesForAreMaxMin(pools, nmap);
    }

    /** The check of every timer that has not yet run for its timeout is pending. */
    lemma ChecksBetweenEvents(p: nat)
      requires Valid() && p < |pools|
      ensures |timeouts| == |timers| == |pools|
      ensures timeouts[p].ms >= 0.0 && timers[p].ms >= 0.0 && timers[p].ms + timeouts[p].ms > now ==>
                Preempt(timers[p].ms + timeouts[p].ms, p) in events
      ensures timeouts[p].hf >= 0.0 && timers[p].hf >= 0.0 && timers[p].hf + timeouts[p].hf > now ==>
                Preempt(timers[p].hf + timeouts[p].hf, p) in events
      ensures CheckDue(timeouts[p], timers[p], p, events, now)
    {
      TimersMatch(timeouts, timers, pools);
      TimelyParts(timeouts, timers, events, now, tasks, seen);
      hide BooksOk, ClockOk, EventsOk, TasksOk, TimersOk, Placed, Traced, Timely, AllocsOk, Conserved, ChainOk,
           SharesOk;
      assert CheckDue(timeouts[p], timers[p], p, events, now);
    }

    /** As long as something is left to launch, the creation event is pending or waits for a slot; pending, it
        is never later than any task not yet visible needs it, and due while a visible task is left to launch.
        Pools and jobs are charged exactly their running tasks, unless a finish event took effect for a task
        not running. */
    lemma LaunchesBetweenEvents()
      requires Valid()
      ensures unseen != multiset{} || popped < |seen| ==> waiting != [] || exists time :: Create(time) in events
      ensures forall e, u :: e in events && e.Create? && u in unseen && u < |tasks| ==> e.time <= tasks[u].ctime
      ensures slots > 0 && popped < |seen| ==> exists time :: time <= now && Create(time) in events
      ensures strays == 0 ==> forall p :: 0 <= p < |pools| ==> pools[p].alloc == |OfPool(tasks, running, p)|
      ensures strays == 0 ==> forall j :: 0 <= j < |jobs| ==> jobs[j].alloc == |OfJob(tasks, running, j)|
    {
      hide BooksOk, ClockOk, EventsOk, TasksOk, TimersOk, Placed, Traced, Conserved, SharesOk, OfPool, OfJob;
      ReadyTaskIsDue(chain, B(), events, waiting, timeouts, timers, now, slots);
      OwedNotNegative(B());
      assert chain.Pending? ==> Create(chain.time) in events;
    }

    /** Without preemption every queue holds its tasks in the order of their creation, none younger than a task
        not yet visible. */
    lemma QueuesBetweenQuietEvents(j: nat)
      requires Valid() && Quiet()
      ensures var q := Queue(B(), j);
              forall i, k :: 0 <= i < k < |q| && q[i] < |tasks| && q[k] < |tasks| ==>
                tasks[q[i]].ctime <= tasks[q[k]].ctime
      ensures var q := Queue(B(), j);
              forall i, u :: 0 <= i < |q| && q[i] < |tasks| && u in unseen && u < |tasks| ==>
                tasks[q[i]].ctime <= tasks[u].ctime
    {
      QueueOldestFirst(L(), j);
      hide BooksOk, ClockOk, EventsOk, TasksOk, TimersOk, Placed, Traced, Timely, AllocsOk, Conserved, ChainOk,
           SharesOk;
      var q := Queue(B(), j);
      forall i, k | 0 <= i < k < |q| && q[i] < |tasks| && q[k] < |tasks|
        ensures tasks[q[i]].ctime <= tasks[q[k]].ctime
      {
        assert NotLater(tasks, q[i], q[k]);
      }
      forall i, u | 0 <= i < |q| && q[i] < |tasks| && u in unseen && u < |tasks|
        ensures tasks[q[i]].ctime <= tasks[u].ctime
      {
        assert NotLater(tasks, q[i], u);
      }
    }

    /** Without preemption free slots and running tasks always add up to the slots, and no task is in two
        places: a task is launched at most once, and it is running, queued, not yet visible or done. */
    lemma BetweenQuietEvents(t: nat)
      requires Valid() && Quiet() && t < |tasks|
      ensures slots >= 0 && slots + |running| == nmap
      ensures |launches| == |phase| == |tasks|
      ensures launches[t] == if phase[t] == Running || phase[t] == Done then 1 else 0
      ensures unseen[t] == if phase[t] == Unseen then 1 else 0
      ensures t in Queue(B(), tasks[t].job) <==> phase[t] == Queued
      ensures t in running <==> phase[t] == Running
      ensures t in running ==> events[Finish(tasks[t].stime + tasks[t].ptime, t)] == 1
    {
      assert TaskOk(L(), t);
    }

    // ---------- Events ----------

    method AddEvent(e: Event)
      modifies this`events
      ensures events == old(events) + multiset{e}
    {
      events := events + multiset{e};
    }

    /** The root of the event heap: some event of least time. */
    method PopEvent() returns (e: Event)
      requires events != multiset{}
      modifies this`events
      ensures e in old(events) && events == old(events) - multiset{e}
      ensures forall f :: f in old(events) ==> e.time <= f.time
    {
      ghost var w := Earliest(events);
      e :| e in events && forall f :: f in events ==> e.time <= f.time;
      events := events - multiset{e};
    }

    // ---------- The selector ----------

    /** The root of the heap of tasks not yet visible: some task of least creation time. */
    method NextUnseen() returns (t: nat)
      requires unseen != multiset{} && forall u :: u in unseen ==> u < |tasks|
      ensures t in unseen && forall u :: u in unseen ==> tasks[t].ctime <= tasks[u].ctime
    {
      ghost var w := Oldest(unseen, tasks);
      t :| t in unseen && forall u :: u in unseen ==> tasks[t].ctime <= tasks[u].ctime;
    }

    /** What the selector maintains. */
    ghost predicate Selecting()
      reads this
    {
      && BooksOk(B()) && TasksOk(tasks, unseen, seen) && |phase| == |tasks| && (Quiet() ==> Conserved(L()))
      && Placed(tasks, unseen, queues, running) && SeenInTime(tasks, seen, now)
    }

    /** `see_maps`: every task created by now becomes visible; returns the pools that changed. */
    method SeeMaps() returns (changes: set<nat>)
      requires Selecting()
      modifies this`unseen, this`seen, this`queues, this`active, this`pools, this`jobs, this`phase
      ensures Selecting()
      ensures forall u :: u in unseen ==> tasks[u].ctime > now
      ensures |unseen| + |seen| == old(|unseen| + |seen|) && |seen| >= old(|seen|)
      ensures (exists u :: u in old(unseen) && tasks[u].ctime <= now) ==> |seen| > old(|seen|)
      ensures DemandsGrew(old(pools), pools, changes) && SameAllocs(old(jobs), jobs)
    {
      changes := {};
      while unseen != multiset{}
        invariant Selecting()
        invariant |unseen| + |seen| == old(|unseen| + |seen|) && |seen| >= old(|seen|)
        invariant unseen == old(unseen) || |seen| > old(|seen|)
        invariant DemandsGrew(old(pools), pools, changes) && SameAllocs(old(jobs), jobs)
        decreases |unseen|
      {
        UnseenInRange(B());
        hide DemandsGrew, Conserved, TasksOk, BooksOk, Placed, SameAllocs, SeenInTime, See;
        var top := NextUnseen();
        if tasks[top].ctime > now { break; }
        SeeGrowsDemand(B(), top, old(pools), old(jobs), changes);
        SeeTop(top);
        changes := changes + {tasks[top].pool};
      }
    }

    /** The oldest of the tasks not yet visible becomes so. */
    method SeeTop(t: nat)
      requires Selecting() && t in unseen && t < |tasks| && tasks[t].ctime <= now
      requires forall u :: u in unseen ==> u < |tasks| && tasks[t].ctime <= tasks[u].ctime
      modifies this`unseen, this`seen, this`queues, this`active, this`pools, this`jobs, this`phase
      ensures Selecting() && B() == See(old(B()), t)
    {
      hide Conserved, TasksOk, Placed, Traced, Timely, AllocsOk;
      SeePlaces(B(), t, running);
      SeeKeepsBooks(B(), t);
      SeeKeepsTasks(B(), t);
      if Quiet() { SeeConserves(L(), t); }
      SeeOne(t);
    }

    method SeeOne(t: nat)
      requires t < |tasks| == |phase| && tasks[t].job < |jobs| && tasks[t].pool < |pools|
      modifies this`unseen, this`seen, this`queues, this`active, this`pools, this`jobs, this`phase
      ensures B() == See(old(B()), t) && phase == old(phase)[t := Queued]
    {
      var j, p := tasks[t].job, tasks[t].pool;
      unseen, seen := unseen - multiset{t}, seen + [t];
      queues, active := queues[j := (if j in queues then queues[j] else []) + [t]], active + {p};
      pools := pools[p := pools[p].(demand := pools[p].demand + 1)];
      jobs, phase := jobs[j := jobs[j].(demand := jobs[j].demand + 1)], phase[t := Queued];
    }

    /** `map_min_ctime`: the creation time of the first visible task not flagged as popped or, when all
        visible tasks have been popped, of the next that is not visible.  It is a task's creation time,
        and never later than that of a task still to be launched. */
    method MapMinCtime() returns (r: real)
      requires BooksOk(B()) && TasksOk(tasks, unseen, seen) && HasMap(B())
      ensures WillFind(B(), r)
      ensures exists t :: 0 <= t < |tasks| && r == tasks[t].ctime
      ensures forall t :: t in unseen ==> r <= tasks[t].ctime
      ensures popped < |seen| ==> forall t :: 0 <= t < |tasks| ==> r <= tasks[t].ctime
    {
      OwedNotNegative(B());
      if popped == |seen| {
        var t := NextUnseen();
        return tasks[t].ctime;
      }
      for k := 0 to |seen|
        invariant forall i :: 0 <= i < k ==> tasks[seen[i]].popped
      {
        if !tasks[seen[k]].popped { return tasks[seen[k]].ctime; }
      }
      return -1.0;
    }

    /** One selection by `fs_select` among the users in `s`. */
    method ServeLeast(cs: Users, s: set<nat>) returns (i: nat, cs': seq<Context>)
      requires forall x :: x in s ==> x < |cs|
      requires exists x :: x in s && cs[x].alloc != cs[x].demand
      ensures i in s && IsPick(cs, cs', multiset(s), i)
    {
      var users := new Context[|cs|](k requires 0 <= k < |cs| => cs[k]);
      assert users[..] == cs;
      var entries := Enumerate(s);
      assert forall k :: 0 <= k < |entries| ==> entries[k] in multiset(entries);
      var select := new Selector(users, entries);
      var r := select.Select();
      i, cs' := r.value, users[..];
    }

    /** The users in the order in which the hash table lists them: any order. */
    method Enumerate(s: set<nat>) returns (q: seq<nat>)
      ensures Distinct(q) && multiset(q) == multiset(s)
    {
      q := [];
      var rest := s;
      while rest != {}
        invariant rest <= s && multiset(q) == multiset(s - rest)
        decreases |rest|
      {
        var x :| x in rest;
        assert s - (rest - {x}) == (s - rest) + {x};
        q, rest := q + [x], rest - {x};
      }
      assert s - rest == s;
      DistinctIsOnce(q);
    }

    /** The two selections of `pop_map`: a listed pool, then a job of it; both are charged a task. */
    method Choose() returns (p: nat, j: nat, pools': seq<Context>, jobs': seq<Context>)
      requires BooksOk(B()) && popped < |seen|
      ensures p < |pools| && j in queues && j < |jobs| && p == jobPool[j] && IsLeast(pools, multiset(active), p)
      ensures IsLeast(jobs, multiset(JobsOf(B(), p)), j)
      ensures pools' == pools[p := pools[p].(alloc := pools[p].alloc + 1)]
      ensures jobs' == jobs[j := jobs[j].(alloc := jobs[j].alloc + 1)]
    {
      hide BooksOk, Compare;
      PoolsInRange(B());
      ghost var p0 := SomePoolIsOwed(B());
      p, pools' := ServeLeast(pools, active);
      ghost var j0 := SomeJobOfPoolIsOwed(B(), p);
      j, jobs' := ServeLeast(jobs, JobsOf(B(), p));
    }

    /** The chosen job's first task leaves its queue, flagged as popped; emptied jobs and pools are no
        longer listed. */
    method TakeFront(p: nat, j: nat, pools': seq<Context>, jobs': seq<Context>) returns (t: nat)
      requires p < |pools| && j < |jobs| && j in queues && queues[j] != [] && queues[j][0] < |tasks|
      requires pools' == pools[p := pools[p].(alloc := pools[p].alloc + 1)]
      requires jobs' == jobs[j := jobs[j].(alloc := jobs[j].alloc + 1)]
      modifies this`tasks, this`pools, this`jobs, this`queues, this`active, this`popped
      ensures B() == Take(old(B()), p, j) && t == old(queues)[j][0]
    {
      t := queues[j][0];
      pools := pools';
      jobs := jobs';
      if jobs[j].alloc == jobs[j].demand {
        queues := queues - {j};
      } else {
        queues := queues[j := queues[j][1..]];
      }
      tasks := tasks[t := tasks[t].(popped := true)];
      popped := popped + 1;
      if pools[p].alloc == pools[p].demand { active := active - {p}; }
    }

    /** `pop_map`. */
    method PopMap() returns (r: Option<nat>)
      requires BooksOk(B())
      modifies this`tasks, this`pools, this`jobs, this`queues, this`active, this`popped
      ensures old(popped) == |seen| ==> r == None && B() == old(B())
      ensures old(popped) < |seen| ==> r != None && PopsTask(old(B()), B(), r.value)
      ensures BooksOk(B())
      ensures r != None ==> r.value < |tasks| && Popped(old(B()), B(), r.value)
    {
      hide BooksOk, IsLeast, JobsOf, PopsTask, Popped, Take;
      if popped == |seen| { return None; }
      OwedNotNegative(B());
      UnseenInRange(B());
      PoolsInRange(B());
      var p, j, pools', jobs' := Choose();
      ChosenIsTaken(B(), p, j);
      var t := TakeFront(p, j, pools', jobs');
      return Some(t);
    }

    // ---------- Timers and shares ----------

    /** `map_transit_n2s`: starts the timers of a starved pool and schedules the check of each it starts. */
    method TransitN2S(p: nat)
      requires p < |pools| == |timers| == |timeouts|
      modifies this`timers, this`events
      ensures timers == old(timers)[p := StartTimers(timeouts[p], old(timers[p]), pools[p], now)]
      ensures events == old(events) + ChecksFor(timeouts[p], old(timers[p]), pools[p], now, p)
      ensures ChecksOnly(old(events), events, timeouts, now)
    {
      hide MsSince, HfSince, MsCheck, HfCheck, Disabled, ChecksOnly;
      ChecksForAreChecks(events, timeouts, timers[p], pools[p], now, p);
      StartMinshareTimer(p);
      HalfShareAlone(timeouts[p], old(timers[p]), timers[p].ms, pools[p], now, p);
      StartHalfShareTimer(p);
    }

    method StartMinshareTimer(p: nat)
      requires p < |pools| == |timers| == |timeouts|
      modifies this`timers, this`events
      ensures timers == old(timers)[p := old(timers[p]).(ms := MsSince(timeouts[p], old(timers[p]), pools[p], now))]
      ensures events == old(events) + MsCheck(timeouts[p], old(timers[p]), pools[p], now, p)
    {
      hide BelowMinshare, BelowHalfShare, StartsMs, StartsHf;
      StartsWhen(timeouts[p], timers[p], pools[p]);
      if timeouts[p].ms >= 0.0 && timers[p].ms < 0.0 && BelowMinshare(pools[p]) {
        timers := timers[p := timers[p].(ms := now)];
        AddEvent(Preempt(now + timeouts[p].ms, p));
      }
    }

    method StartHalfShareTimer(p: nat)
      requires p < |pools| == |timers| == |timeouts|
      modifies this`timers, this`events
      ensures timers == old(timers)[p := old(timers[p]).(hf := HfSince(timeouts[p], old(timers[p]), pools[p], now))]
      ensures events == old(events) + HfCheck(timeouts[p], old(timers[p]), pools[p], now, p)
    {
      hide BelowMinshare, BelowHalfShare, StartsMs, StartsHf;
      StartsWhen(timeouts[p], timers[p], pools[p]);
      if timeouts[p].hf >= 0.0 && timers[p].hf < 0.0 && BelowHalfShare(pools[p]) {
        timers := timers[p := timers[p].(hf := now)];
        AddEvent(Preempt(now + timeouts[p].hf, p));
      }
    }

    /** `map_transit_s2n`. */
    method TransitS2N(p: nat)
      requires p < |pools| == |timers|
      modifies this`timers
      ensures timers == old(timers)[p := StopTimers(old(timers[p]), pools[p])]
    {
      if !BelowMinshare(pools[p]) { timers := timers[p := timers[p].(ms := -1.0)]; }
      if !BelowHalfShare(pools[p]) { timers := timers[p := timers[p].(hf := -1.0)]; }
    }

    /** The timers of the pools whose demand has grown: afterwards each such pool that is below its min share or
        half its fair share has the timer running, and the checks of all timers are pending. */
    method StartTimersOf(changes: set<nat>)
      requires TimersAlmost(timeouts, timers, pools, changes) && now >= 0.0
      requires ChecksDue(timeouts, timers, events, now)
      requires forall p :: p in changes ==> p < |pools|
      modifies this`timers, this`events
      ensures TimersOk(timeouts, timers, pools) && ChecksOnly(old(events), events, timeouts, now)
      ensures ChecksDue(timeouts, timers, events, now) && HalfTimersRun(timeouts, timers, pools, changes)
    {
      hide StartTimers, ChecksFor, ChecksDue, HalfTimersRun, TimersAlmost, TimersOk, ChecksOnly;
      var rest := changes;
      AlmostMatch(timeouts, timers, pools, rest);
      NoChecks(events, timeouts, now);
      NoneStarted(timeouts, timers, pools, changes);
      while rest != {}
        invariant |timeouts| == |timers| == |pools|
        invariant rest <= changes && TimersAlmost(timeouts, timers, pools, rest)
        invariant ChecksOnly(old(events), events, timeouts, now) && ChecksDue(timeouts, timers, events, now)
        invariant HalfTimersRun(timeouts, timers, pools, changes - rest)
        decreases |rest|
      {
        var p :| p in rest;
        ghost var before := events;
        StartedInTurn(timeouts, timers, events, now, pools, rest, changes, p);
        TransitN2S(p);
        ChecksChain(old(events), before, events, timeouts, now);
        rest := rest - {p};
      }
      assert changes - rest == changes;
      NoneLeftToStart(timeouts, timers, pools);
    }

    /** `update_map_fairshares`: the pools get their fair shares of all slots. */
    method UpdateFairshares()
      requires BooksOk(B())
      modifies this`pools
      ensures BooksOk(B()) && SameUsers(old(pools), pools) && SharesOk(pools, nmap)
    {
      PoolsInRange(B());
      PositiveWeightsSuffice(pools, nmap);
      var cs := pools;
      var users := new Context[|cs|](k requires 0 <= k < |cs| => cs[k]);
      assert users[..] == cs;
      var r; ghost var k, m;
      r, k, m := ComputeFairshares(users, nmap);
      hide AtRatio;
      SharesKeepBooks(B(), users[..]);
      SharesAreInRange(users[..], nmap, k, m, r);
      pools := users[..];
    }

    /** `starved_for_map_minshare`: the number of slots needed by a pool starved for its min share long
        enough.  A pool whose timer runs always needs some. */
    method StarvedForMinshare(p: nat, at: real) returns (need: int)
      requires p < |pools| == |timers| == |timeouts| && TimerOk(timeouts[p], timers[p], pools[p])
      ensures timers[p].ms < 0.0 || at - timers[p].ms < timeouts[p].ms ==> need == 0
      ensures !(timers[p].ms < 0.0 || at - timers[p].ms < timeouts[p].ms) ==>
                need == Entitled(pools[p]) - pools[p].alloc > 0
    {
      if timers[p].ms < 0.0 || at - timers[p].ms < timeouts[p].ms { return 0; }
      need := Entitled(pools[p]) - pools[p].alloc;
      if need <= 0 { return 0; }
    }

    /** `starved_for_map_halffairshare`. */
    method StarvedForHalfShare(p: nat, at: real) returns (need: int)
      requires p < |pools| == |timers| == |timeouts|
      ensures need == if timers[p].hf < 0.0 || at - timers[p].hf < timeouts[p].hf || !BelowHalfShare(pools[p])
                      then 0 else Trunc(pools[p].fairshare - pools[p].alloc as real)
    {
      if timers[p].hf < 0.0 || at - timers[p].hf < timeouts[p].hf { return 0; }
      if pools[p].alloc >= Trunc(pools[p].fairshare / 2.0) { return 0; }
      need := Trunc(pools[p].fairshare - pools[p].alloc as real);
    }

    // ---------- The semaphore ----------

    /** `vsem::wait`. */
    method Wait(e: Event) returns (acquired: bool)
      modifies this`slots, this`waiting
      ensures acquired <==> old(slots) > 0
      ensures acquired ==> slots == old(slots) - 1 && waiting == old(waiting)
      ensures !acquired ==> slots == old(slots) && waiting == old(waiting) + [e]
    {
      if slots > 0 {
        slots := slots - 1;
        return true;
      }
      waiting := waiting + [e];
      return false;
    }

    // ---------- Creation ----------

    /** Launches a task: its description is cleaned, its start time set and its finish scheduled. */
    method RunMap(t: nat)
      requires t < |tasks| == |phase| == |launches|
      modifies this`tasks, this`running, this`events, this`phase, this`launches, this`again
      ensures tasks == old(tasks)[t := old(tasks[t]).(popped := false, preempted := false, stime := now)]
      ensures running == old(running) + {t}
      ensures events == old(events) + multiset{Finish(now + tasks[t].ptime, t)}
      ensures phase == old(phase)[t := Running] && launches == old(launches)[t := old(launches[t]) + 1]
      ensures again == old(again) + if old(launches[t]) > 0 && old(tasks[t]).stime == now then 1 else 0
    {
      again := again + if launches[t] > 0 && tasks[t].stime == now then 1 else 0;
      tasks := tasks[t := tasks[t].(popped := false, preempted := false)];
      tasks := tasks[t := tasks[t].(stime := now)];
      running := running + {t};
      AddEvent(Finish(tasks[t].stime + tasks[t].ptime, t));
      phase := phase[t := Running];
      launches := launches[t := launches[t] + 1];
    }

    /** Demand grows as tasks become visible; fair shares and timers follow. */
    method GrowDemand()
      requires Selecting() && TimersOk(timeouts, timers, pools) && now >= 0.0
      requires Timely(timeouts, timers, events, now, tasks, seen)
      modifies this`unseen, this`seen, this`queues, this`active, this`pools, this`jobs,
               this`timers, this`events, this`phase
      ensures BooksOk(B()) && TasksOk(tasks, unseen, seen) && |phase| == |tasks| && |pools| == |timeouts|
      ensures Placed(tasks, unseen, queues, running)
      ensures Quiet() ==> Conserved(L()) && events == old(events)
      ensures TimersOk(timeouts, timers, pools) && SharesOk(pools, nmap)
      ensures forall u :: u in unseen ==> tasks[u].ctime > now
      ensures |unseen| + |seen| == old(|unseen| + |seen|) && |seen| >= old(|seen|)
      ensures (exists u :: u in old(unseen) && tasks[u].ctime <= now) ==> |seen| > old(|seen|)
      ensures ChecksOnly(old(events), events, timeouts, now)
      ensures Timely(timeouts, timers, events, now, tasks, seen)
      ensures SameAllocs(old(pools), pools) && SameAllocs(old(jobs), jobs)
    {
      hide BooksOk, TasksOk, TimersOk, SharesOk, TimersAlmost, DemandsGrew, SameUsers, ChecksOnly, Conserved, Disabled,
           Placed, Traced, Timely, AllocsOk;
      ghost var before := pools;
      TimelyParts(timeouts, timers, events, now, tasks, seen);
      var changes := SeeMaps();
      ghost var grown, l := pools, L();
      UpdateFairshares();
      GrownAllocs(before, grown, pools, changes);
      GrownTimers(timeouts, timers, before, grown, pools, changes);
      StartTimersOf(changes);
      TimelyWhole(timeouts, timers, events, now, tasks, seen);
      if Quiet() {
        DisabledChecks(old(events), events, timeouts, now);
        assert L() == l;
      }
    }

    /** The first half of a creation event: tasks become visible and starved pools' timers start. */
    method Admit(e: Event)
      requires Sound() && ChainTaken(B(), events, waiting, e)
      requires forall f :: f in events ==> f.time >= e.time
      modifies this`now, this`unseen, this`seen, this`queues, this`active, this`pools, this`jobs,
               this`timers, this`events, this`phase
      ensures Sound() && now == Max(old(now), e.time)
      ensures popped < |seen| && |unseen| + |seen| == old(|unseen| + |seen|)
      ensures forall f :: f in events ==> !f.Create?
      ensures forall u :: u in unseen ==> tasks[u].ctime > now
      ensures SameAllocs(old(pools), pools) && SameAllocs(old(jobs), jobs)
      ensures Quiet() ==> events == old(events)
    {
      hide BooksOk, TasksOk, TimersOk, SharesOk, EventsOk, ChecksOnly, Conserved, Disabled, Placed, Traced, Timely,
           AllocsOk;
      OwedNotNegative(B());
      TimeComes(e);
      TimelyParts(timeouts, timers, events, now, tasks, seen);
      GrowDemand();
      TracedChecks(again, tasks, launches, running, old(events), now, events, timeouts);
      ChecksKeepEvents(old(events), events, timeouts, now, |tasks|, waiting);
    }

    /** The clock moves to the event, unless it is ahead of it. */
    method TimeComes(e: Event)
      requires Sound() && waiting == [] && forall f :: f in events ==> f.time >= e.time
      modifies this`now
      ensures Sound() && now == Max(old(now), e.time)
    {
      hide BooksOk, TasksOk, TimersOk, SharesOk, EventsOk, Conserved, Disabled, Placed, Traced, Timely, AllocsOk;
      if e.time > now {
        if Quiet() { TimePasses(L(), e.time); }
        TracedStays(again, tasks, launches, running, events, now, events, e.time);
        StaysTimely(timeouts, timers, events, now, tasks, seen, timers, events, e.time, tasks);
        now := e.time;
      }
    }

    /** The popped task stops its pool's timers if need be and is launched. */
    method StartPopped(t: nat, ghost b: Books, ghost l: Ledger)
      requires Popped(b, B(), t) && BooksOk(B()) && TasksOk(b.tasks, b.unseen, b.seen)
      requires TimersOk(timeouts, timers, b.pools) && SharesOk(b.pools, nmap)
      requires EventsOk(events, |tasks|, |pools|) && ClockOk(now, events, waiting)
      requires |phase| == |launches| == |tasks| && forall u :: u in running ==> u < |tasks|
      requires Placed(b.tasks, b.unseen, b.queues, running)
      requires Traced(again, b.tasks, launches, running, events, now)
      requires Timely(timeouts, timers, events, now, b.tasks, seen)
      requires l == L().(tasks := b.tasks, queues := b.queues) && (Quiet() ==> Conserved(l))
      modifies this`tasks, this`timers, this`running, this`events, this`phase, this`launches, this`again
      ensures Sound() && running == old(running) + {t} && t < |tasks| && t !in old(running)
      ensures tasks == b.tasks[t := b.tasks[t].(popped := false, preempted := false, stime := now)]
      ensures SameFinishes(b.tasks, tasks) && again >= old(again)
      ensures events == old(events) + multiset{Finish(now + tasks[t].ptime, t)}
    {
      hide BooksOk, TasksOk, TimersOk, SharesOk, EventsOk, ClockOk, Conserved, Retimed, SameOwners, Placed, Traced,
           Timely, AllocsOk, SameFinishes, Popped, TookOne, Disabled;
      PoppedFacts(b, B(), t);
      TookTimers(timeouts, timers, b.pools, pools, tasks[t].pool);
      TookShares(b.pools, pools, tasks[t].pool, nmap);
      StopsTimely(timeouts, timers, events, now, b.tasks, seen, tasks[t].pool, pools[tasks[t].pool]);
      TransitS2N(tasks[t].pool);
      RunPopped(t, b, l);
    }

    method RunPopped(t: nat, ghost b: Books, ghost l: Ledger)
      requires Popped(b, B(), t) && BooksOk(B()) && TasksOk(b.tasks, b.unseen, b.seen)
      requires TimersOk(timeouts, timers, pools) && SharesOk(pools, nmap)
      requires EventsOk(events, |tasks|, |pools|) && ClockOk(now, events, waiting)
      requires |phase| == |launches| == |tasks| && forall u :: u in running ==> u < |tasks|
      requires Placed(b.tasks, b.unseen, b.queues, running)
      requires Traced(again, b.tasks, launches, running, events, now)
      requires Timely(timeouts, timers, events, now, b.tasks, seen)
      requires l == L().(tasks := b.tasks, queues := b.queues) && (Quiet() ==> Conserved(l))
      modifies this`tasks, this`running, this`events, this`phase, this`launches, this`again
      ensures Sound() && running == old(running) + {t} && t < |tasks| && t !in old(running)
      ensures tasks == b.tasks[t := b.tasks[t].(popped := false, preempted := false, stime := now)]
      ensures SameFinishes(b.tasks, tasks) && again >= old(again)
      ensures events == old(events) + multiset{Finish(now + tasks[t].ptime, t)}
    {
      hide BooksOk, TasksOk, TimersOk, SharesOk, EventsOk, ClockOk, Conserved, Retimed, SameOwners, Placed, Traced,
           Timely, AllocsOk, SameFinishes, Popped, TookOne, Disabled;
      ghost var b' := B();
      PoppedFacts(b, b', t);
      LaunchFits(b, b', t, running, now, events, |pools|, waiting, timeouts, timers, seen);
      if Quiet() { PoppedAndLaunched(b, b', l, t); }
      TracedLaunch(again, b.tasks, launches, running, events, now, t);
      RunMap(t);
      assert Quiet() ==> L() == Launched(l, t, b'.queues);
    }

    /** Pops a task and launches it; there always is one.  `b` are the books when it has been popped. */
    method Launch() returns (t: nat, ghost b: Books)
      requires Sound() && popped < |seen|
      modifies this`tasks, this`pools, this`jobs, this`queues, this`active, this`popped,
               this`timers, this`running, this`events, this`phase, this`launches, this`again
      ensures Sound() && popped == old(popped) + 1
      ensures t < |tasks| && running == old(running) + {t} && t !in old(running)
      ensures PopsTask(old(B()), b, t) && B() == b.(tasks := tasks) && Started(old(tasks), tasks, t, now)
      ensures SameFinishes(old(tasks), tasks) && again >= old(again) && (old(Charged()) ==> Charged())
      ensures events == old(events) + multiset{Finish(now + tasks[t].ptime, t)}
    {
      hide BooksOk, TasksOk, TimersOk, SharesOk, EventsOk, ClockOk, PopsTask, Conserved, Placed, Traced, SameFinishes,
           Timely, AllocsOk, Popped;
      ghost var b0, l := B(), L();
      var r := PopMap();
      t := r.value;
      b := B();
      PoppedFacts(b0, b, t);
      if AllocsOk(b0.tasks, b0.pools, b0.jobs, running) { LaunchIsCharged(b0, b, t, running, now); }
      StartPopped(t, b0, l);
    }

    /** `submit_tasks` and the tail of `ev_create_map`: the next creation event, if there is anything left. */
    method NextCreation()
      requires Sound() && waiting == [] && forall f :: f in events ==> !f.Create?
      modifies this`events, this`chain
      ensures Sound() && ChainOk(chain, B(), events, waiting)
      ensures |events| <= old(|events|) + 1
    {
      if unseen != multiset{} || popped < |seen| {
        var time := MapMinCtime();
        AddCreation(time);
      } else {
        hide BooksOk, TasksOk, TimersOk, SharesOk, EventsOk, ClockOk, Conserved, Placed, Traced, Timely, AllocsOk;
        chain := Ended;
      }
    }

    method AddCreation(time: real)
      requires Sound() && waiting == [] && HasMap(B()) && WillFind(B(), time) && Prompt(B(), time)
      requires forall f :: f in events ==> !f.Create?
      modifies this`events, this`chain
      ensures Sound() && ChainOk(chain, B(), events, waiting)
      ensures |events| == old(|events|) + 1
    {
      hide BooksOk, TasksOk, TimersOk, SharesOk, EventsOk, ClockOk, Conserved, ChainOk, WillFind, Prompt, Placed,
           Traced, Timely, AllocsOk;
      CreationFits(B(), events, time, |tasks|, |pools|, now);
      if Quiet() { CreationsDoNotMatter(L(), events + multiset{Create(time)}); }
      TracedStays(again, tasks, launches, running, events, now, events + multiset{Create(time)}, now);
      StaysTimely(timeouts, timers, events, now, tasks, seen, timers, events + multiset{Create(time)}, now, tasks);
      AddEvent(Create(time));
      chain := Pending(time);
    }

    /** What is left to launch, three times, and what is pending: it bounds the events still to come. */
    ghost function Work(): int
      reads this
    {
      3 * (|unseen| + |seen| - popped) + |events|
    }

    /** The second half of a creation event, once it holds a slot.  `b` are the books when the task `t` has
        been popped. */
    method FillSlot() returns (ghost t: nat, ghost b: Books)
      requires Sound() && popped < |seen| && waiting == [] && forall f :: f in events ==> !f.Create?
      requires slots >= 0 && StraysOk()
      modifies this`tasks, this`pools, this`jobs, this`queues, this`active, this`popped,
               this`timers, this`running, this`events, this`phase, this`launches, this`again, this`chain
      ensures Ready() && Work() < old(Work()) && |running| == old(|running|) + 1
      ensures t !in old(running) && running == old(running) + {t}
      ensures PopsTask(old(B()), b, t) && B() == b.(tasks := tasks) && Started(old(tasks), tasks, t, now)
      ensures SameFinishes(old(tasks), tasks)
    {
      hide BooksOk, TasksOk, TimersOk, SharesOk, EventsOk, ClockOk, Conserved, ChainOk, Placed, Traced, SameFinishes,
           Timely, AllocsOk, PopsTask, Started;
      var t';
      t', b := Launch();
      t := t';
      NextCreation();
    }

    /** `ev_create_map`: true when the event is done, false when it waits for a slot.  `b` are the books when
        all tasks created by now are visible, and `b'` those when the task `t` has been popped. */
    method HandleCreate(e: Event) returns (done: bool, ghost t: nat, ghost b: Books, ghost b': Books)
      requires Sound() && ChainTaken(B(), events, waiting, e)
      requires forall f :: f in events ==> f.time >= e.time
      requires slots >= 0 && StraysOk()
      modifies this
      ensures Ready() && Total() == old(Total()) && strays == old(strays)
      ensures now == Max(old(now), e.time)
      ensures b.tasks == old(tasks) && forall u :: u in b.unseen ==> u < |b.tasks| && b.tasks[u].ctime > now
      ensures done <==> old(slots) > 0
      ensures done ==> slots == old(slots) - 1 && waiting == [] && |running| == old(|running|) + 1
      ensures done ==> t !in old(running) && running == old(running) + {t}
      ensures done ==> PopsTask(b, b', t) && B() == b'.(tasks := tasks) && Started(old(tasks), tasks, t, now)
      ensures !done ==> slots == old(slots) && waiting == [e] && running == old(running) && B() == b
      ensures SameFinishes(old(tasks), tasks)
      ensures Quiet() ==> Work() <= old(Work())
    {
      hide BooksOk, TasksOk, TimersOk, SharesOk, EventsOk, ClockOk, Conserved, ChainOk, Placed, Traced, SameFinishes,
           Timely, AllocsOk, PopsTask, Started, SameAllocs;
      ghost var b0 := B();
      Admit(e);
      b := B();
      UnseenInRange(b);
      if AllocsOk(b0.tasks, b0.pools, b0.jobs, running) {
        OwnersStay(tasks);
        SameAllocsOk(tasks, b0.pools, b0.jobs, running, tasks, pools, jobs);
      }
      done, t, b' := WaitAndFill(e);
    }

    /** From the wait for a slot on. */
    method WaitAndFill(e: Event) returns (done: bool, ghost t: nat, ghost b: Books)
      requires Sound() && popped < |seen| && waiting == [] && forall f :: f in events ==> !f.Create?
      requires e.Create? && e.time <= now && slots >= 0 && StraysOk()
      modifies this`tasks, this`pools, this`jobs, this`queues, this`active, this`popped, this`slots, this`waiting,
               this`timers, this`running, this`events, this`phase, this`launches, this`again, this`chain
      ensures Ready() && Total() == old(Total())
      ensures done <==> old(slots) > 0
      ensures done ==> slots == old(slots) - 1 && waiting == [] && |running| == old(|running|) + 1
      ensures done ==> t !in old(running) && running == old(running) + {t}
      ensures done ==> PopsTask(old(B()), b, t) && B() == b.(tasks := tasks) && Started(old(tasks), tasks, t, now)
      ensures !done ==> slots == old(slots) && waiting == [e] && running == old(running) && B() == old(B())
      ensures SameFinishes(old(tasks), tasks) && Work() <= old(Work())
    {
      hide BooksOk, TasksOk, TimersOk, SharesOk, EventsOk, ClockOk, Conserved, ChainOk, Placed, Traced, SameFinishes,
           Timely, AllocsOk, PopsTask, Started;
      FinishesStay(tasks);
      SuspensionFits(B(), events, e, now);
      done := Wait(e);
      t, b := 0, B();
      if !done {
        assert waiting == [e];
        chain := Suspended(e.time);
      } else {
        t, b := FillSlot();
      }
    }

    // ---------- Finish ----------

    /** `vsem::post`: frees a slot, and if a creation event waits for one it is handled at once and gets it. */
    method Post()
      requires Ready()
      modifies this
      ensures Ready() && now == old(now) && strays == old(strays) && Total() == old(Total()) + 1
      ensures old(waiting) == [] ==> slots == old(slots) + 1 && L() == old(L()) && B() == old(B())
      ensures old(waiting) != [] ==> slots == 0 && waiting == [] && |running| == old(|running|) + 1
      ensures old(running) <= running
      ensures SameFinishes(old(tasks), tasks)
      ensures Quiet() ==> Work() <= old(Work())
    {
      hide BooksOk, TasksOk, TimersOk, SharesOk, EventsOk, ClockOk, Conserved, ChainOk, ChainTaken, Placed, Traced,
           Timely, AllocsOk, SameFinishes;
      FinishesStay(tasks);
      slots := slots + 1;
      if waiting != [] {
        var e := waiting[0];
        WokenIsTaken(chain, B(), events, waiting, now);
        waiting := waiting[1..];
        var done; ghost var t, b, b';
        done, t, b, b' := HandleCreate(e);
        assert done;
      }
    }

    /** The counters, fair shares and timers when a task leaves the running set. */
    method Release(t: nat)
      requires BooksOk(B()) && t < |tasks| && TimersOk(timeouts, timers, pools) && now >= 0.0
      requires EventsOk(events, |tasks|, |timeouts|) && ClockOk(now, events, waiting)
      requires Timely(timeouts, timers, events, now, tasks, seen)
      modifies this`pools, this`jobs, this`timers, this`events
      ensures BooksOk(B()) && TimersOk(timeouts, timers, pools) && SharesOk(pools, nmap)
      ensures Timely(timeouts, timers, events, now, tasks, seen)
      ensures tasks[t].job < |old(jobs)| && tasks[t].pool < |old(pools)| && jobs == Leave(old(B()), t).jobs
      ensures SameAllocs(Leave(old(B()), t).pools, pools) && HalfTimerExact(timeouts, timers, pools, tasks[t].pool)
      ensures EventsOk(events, |tasks|, |pools|) && ClockOk(now, events, waiting)
      ensures ChecksOnly(old(events), events, timeouts, now)
    {
      hide BooksOk, TimersOk, SharesOk, EventsOk, ClockOk, ChecksOnly, SameUsers, Timely, SameAllocs, StartTimers,
           StopTimers, ChecksFor, HalfTimerExact;
      UnseenInRange(B());
      ghost var b := B();
      var j, p := tasks[t].job, tasks[t].pool;
      LeaveKeepsBooks(b, t);
      jobs := jobs[j := jobs[j].(alloc := jobs[j].alloc - 1)];
      jobs := jobs[j := jobs[j].(demand := jobs[j].demand - 1)];
      pools := pools[p := pools[p].(alloc := pools[p].alloc - 1)];
      pools := pools[p := pools[p].(demand := pools[p].demand - 1)];
      assert B() == Leave(b, t);
      UpdateFairshares();
      LeaveThenShares(b, t, pools);
      LeftTimers(timeouts, timers, b.pools, pools, p, now);
      LeaveTimely(timeouts, timers, events, now, tasks, seen, p, pools[p]);
      UsersKeepAllocs(Leave(b, t).pools, pools);
      TransitN2S(p);
      TransitS2N(p);
      ClockBounds(now, old(events), waiting);
      ChecksKeepEvents(old(events), events, timeouts, now, |tasks|, waiting);
    }

    /** The task has finished and is no longer running. */
    method MarkFinished(t: nat)
      requires t < |tasks| && FinishTaken(t)
      modifies this`tasks, this`running, this`phase
      ensures Sound() && Retimed(old(tasks), tasks) && tasks == old(tasks)[t := old(tasks[t]).(ftime := now)]
      ensures running == old(running) - {t} && (Quiet() || again == 0 ==> t in old(running))
    {
      hide BooksOk, TasksOk, TimersOk, SharesOk, EventsOk, ClockOk, Conserved, Retimed, Disabled, Placed, Traced,
           Timely, AllocsOk;
      FinishFitsIn(B(), t, running, now, events, timeouts, timers);
      ghost var l := L();
      if Quiet() { FinishConserves(l, t, now); }
      TracedFinish(again, tasks, launches, running, events, now, t, now);
      tasks := tasks[t := tasks[t].(ftime := now)];
      running, phase := running - {t}, phase[t := Done];
      assert L() == Finished(l, t, now);
    }

    /** Everything `finish_map` does before it frees the slot. */
    method Complete(t: nat)
      requires t < |tasks| && FinishTaken(t) && ChainOk(chain, B(), events, waiting)
      modifies this`tasks, this`running, this`phase, this`pools, this`jobs, this`timers, this`events
      ensures Sound() && ChainOk(chain, B(), events, waiting)
      ensures running == old(running) - {t} && (Quiet() || again == 0 ==> t in old(running))
      ensures t in old(running) && old(Charged()) ==> Charged()
      ensures Quiet() ==> events == old(events)
      ensures tasks == old(tasks)[t := old(tasks[t]).(ftime := now)]
      ensures |timers| == |timeouts| == |pools| && HalfTimerExact(timeouts, timers, pools, tasks[t].pool)
    {
      hide BooksOk, TasksOk, TimersOk, SharesOk, EventsOk, ClockOk, Conserved, ChainOk, Retimed, ChecksOnly, Disabled,
           Placed, Traced, Timely, AllocsOk;
      ghost var b := B();
      MarkFinished(t);
      ghost var l := L();
      ClockBounds(now, events, waiting);
      TimersMatch(timeouts, timers, pools);
      Release(t);
      TimersMatch(timeouts, timers, pools);
      if t in old(running) && AllocsOk(b.tasks, b.pools, b.jobs, old(running)) {
        FinishIsCharged(b, t, old(running), now, pools, jobs);
      }
      ChainStays(chain, b, B(), old(events), events, waiting, timeouts, now);
      TracedChecks(again, tasks, launches, running, old(events), now, events, timeouts);
      if Quiet() {
        DisabledChecks(old(events), events, timeouts, now);
        assert L() == l;
      }
    }

    /** The same with its account: one slot is to be freed. */
    method Vacate(t: nat)
      requires t < |tasks| && FinishTaken(t) && ChainOk(chain, B(), events, waiting) && SlotsOk()
      modifies this`tasks, this`running, this`phase, this`pools, this`jobs, this`timers, this`events, this`strays
      ensures Ready() && Total() == old(Total()) - 1
      ensures strays == old(strays) + if t in old(running) then 0 else 1
      ensures Quiet() ==> events == old(events)
      ensures tasks == old(tasks)[t := old(tasks[t]).(ftime := now)]
      ensures |timers| == |timeouts| == |pools| && HalfTimerExact(timeouts, timers, pools, tasks[t].pool)
    {
      hide BooksOk, TasksOk, TimersOk, SharesOk, EventsOk, ClockOk, Conserved, ChainOk, Placed, Traced, Timely,
           AllocsOk, HalfTimerExact;
      Complete(t);
      strays := strays + if t in old(running) then 0 else 1;
    }

    /** `finish_map`. */
    method FinishMap(t: nat)
      requires t < |tasks| && FinishTaken(t) && ChainOk(chain, B(), events, waiting) && SlotsOk()
      modifies this
      ensures Ready() && now == old(now) && Total() == old(Total())
      ensures strays == old(strays) + if t in old(running) then 0 else 1
      ensures SameFinishes(old(tasks)[t := old(tasks[t]).(ftime := now)], tasks)
      ensures Quiet() ==> Work() <= old(Work())
    {
      hide BooksOk, TasksOk, TimersOk, SharesOk, EventsOk, ClockOk, Conserved, ChainOk, Placed, Traced, Timely,
           AllocsOk, SameFinishes;
      Vacate(t);
      Post();
    }

    /** The event is that of the task's current run, by its time, and the task is not flagged as preempted. */
    predicate Effective(e: Event)
      requires e.Finish? && e.task < |tasks|
      reads this
    {
      tasks[e.task].stime + tasks[e.task].ptime == e.time && !tasks[e.task].preempted
    }

    /** `ev_finish_map`: effective only if the task has not been preempted since.  Slots and running tasks
        keep adding up exactly if a task that finishes was running. */
    method HandleFinish(e: Event)
      requires e.Finish? && e.task < |tasks| && e.time >= now && ChainOk(chain, B(), events, waiting)
      requires forall f :: f in events && !f.Create? ==> f.time >= e.time
      requires SoundBut(events + multiset{e}) && SlotsOk() && Total() == nmap
      modifies this
      ensures Valid() && now >= old(now)
      ensures !old(Effective(e)) ==> unchanged(this)
      ensures old(Effective(e)) ==> now == e.time && |tasks| == old(|tasks|) && tasks[e.task].ftime == e.time
      ensures strays == old(strays) + if old(Effective(e)) && e.task !in old(running) then 1 else 0
      ensures Quiet() ==> Work() <= old(Work())
    {
      hide BooksOk, TasksOk, TimersOk, SharesOk, EventsOk, ClockOk, Conserved, ChainOk, Disabled, Placed, Traced,
           Timely, AllocsOk;
      if Effective(e) {
        FinishNow(e);
      } else {
        EventGone(events, e, |tasks|, |pools|, now, waiting);
        StaysTimely(timeouts, timers, events + multiset{e}, now, tasks, seen, timers, events, now, tasks);
        if Quiet() { FinishIsOwn(L().(events := events + multiset{e}), e); }
        TracedStale(again, tasks, launches, running, events, now, e);
      }
    }

    method FinishNow(e: Event)
      requires e.Finish? && e.task < |tasks| && Effective(e) && e.time >= now && ChainOk(chain, B(), events, waiting)
      requires forall f :: f in events && !f.Create? ==> f.time >= e.time
      requires SoundBut(events + multiset{e}) && SlotsOk()
      modifies this
      ensures Ready() && now == e.time && Total() == old(Total())
      ensures strays == old(strays) + if e.task in old(running) then 0 else 1
      ensures SameFinishes(old(tasks)[e.task := old(tasks[e.task]).(ftime := e.time)], tasks)
      ensures Quiet() ==> Work() <= old(Work())
    {
      hide BooksOk, TasksOk, TimersOk, SharesOk, EventsOk, ClockOk, Conserved, ChainOk, Disabled, Placed, Traced,
           Timely, AllocsOk, SameFinishes;
      EventGone(events, e, |tasks|, |pools|, now, waiting);
      if Quiet() { TimePasses(L().(events := events + multiset{e}), e.time); }
      TracedStays(again, tasks, launches, running, events + multiset{e}, now, events + multiset{e}, e.time);
      StaysTimely(timeouts, timers, events + multiset{e}, now, tasks, seen, timers, events, e.time, tasks);
      now := e.time;
      FinishMap(e.task);
    }

    /** `Sound` at the moment a finish event of task `t` has been popped. */
    ghost predicate FinishTaken(t: nat)
      requires t < |tasks|
      reads this
    {
      && Settled(events) && SharesOk(pools, nmap) && Own(events + multiset{Finish(now, t)})
      && Finish(now, t) == Ending(tasks, t) && !tasks[t].preempted
      && (Quiet() ==> Conserved(L().(events := events + multiset{Finish(now, t)})))
    }

    // ---------- Preemption ----------

    /** What holds while victims are being taken: shares need not be bounded by demands. */
    ghost predicate Taking()
      reads this
    {
      Settled(events) && FloorsOk(pools) && Own(events) && ChainOk(chain, B(), events, waiting) && popped < |seen|
    }

    /** One victim: flagged, taken off the counters and put back among the tasks not yet visible. */
    method StripVictim(t: nat)
      requires t < |tasks| && tasks[t].job < |jobs| && tasks[t].pool < |pools|
      modifies this`tasks, this`pools, this`jobs, this`unseen, this`running
      ensures B() == Stripped(old(B()), t) && running == old(running) - {t}
      ensures tasks == old(tasks)[t := old(tasks[t]).(preempted := true)]
    {
      var j, p := tasks[t].job, tasks[t].pool;
      tasks := tasks[t := tasks[t].(preempted := true)];
      jobs := jobs[j := jobs[j].(alloc := jobs[j].alloc - 1)];
      jobs := jobs[j := jobs[j].(demand := jobs[j].demand - 1)];
      pools := pools[p := pools[p].(alloc := pools[p].alloc - 1)];
      pools := pools[p := pools[p].(demand := pools[p].demand - 1)];
      unseen := unseen + multiset{t};
      running := running - {t};
    }

    method TakeVictim(t: nat)
      requires Taking() && !Quiet() && t in running && Preemptible(B(), t)
      modifies this`tasks, this`pools, this`jobs, this`unseen, this`running
      ensures Taking() && running == old(running) - {t} && unseen == old(unseen) + multiset{t}
      ensures old(B().tasks[t].job < |B().jobs|) && B() == Stripped(old(B()), t)
    {
      UnseenInRange(B());
      hide BooksOk, TasksOk, TimersOk, FloorsOk, EventsOk, ClockOk, ChainOk, Preemptible, SameStarts, SameOwners,
           HasMap, Placed, Traced, Timely, AllocsOk, Stripped, Leave;
      StripPlaces(B(), t, running);
      TracedStrip(again, tasks, launches, running, events, now, t);
      VictimKeepsTimers(B(), t, timeouts, timers);
      VictimKeepsBooks(B(), t);
      VictimKeepsChain(chain, B(), t, events, waiting);
      StrippedFacts(B(), t);
      StrippedTimely(timeouts, timers, events, now, tasks, seen, t);
      StripVictim(t);
    }

    /** The loop of `preempt_maps`: the running tasks are visited youngest first, and those of pools above
        their fair share are taken, no more than `num` of them. */
    method TakeVictims(num: nat) returns (n: nat)
      requires Taking() && !Quiet()
      modifies this`tasks, this`pools, this`jobs, this`unseen, this`running
      ensures Taking() && n <= num && running <= old(running)
      ensures n == |old(running) - running| && |running| + n == old(|running|)
      ensures unseen == old(unseen) + multiset(old(running) - running)
      ensures SameStarts(old(tasks), tasks) && SameOwners(old(tasks), tasks) && (old(Charged()) ==> Charged())
      ensures n < num ==> NonePreemptible(B(), running)
      ensures YoungestTaken(B(), running, old(running) - running)
      ensures OnlyFromAbove(B(), old(running) - running)
      ensures LostTasks(old(tasks), old(pools), pools, old(running) - running)
    {
      n := 0;
      var rest := running;
      var m := num;
      NoneTaken(unseen, running);
      StartVisits(B(), running);
      while rest != {} && m != 0
        invariant Taking() && n + m == num && rest <= running <= old(running)
        invariant Tally(old(unseen), unseen, old(running), running, n)
        invariant TakenSoFar(old(tasks), old(pools), B(), old(running) - running)
        invariant old(Charged()) ==> Charged()
        invariant NonePreemptible(B(), running - rest)
        invariant NotYounger(tasks, rest, old(running) - rest)
        decreases |rest|
      {
        hide BooksOk, TasksOk, TimersOk, FloorsOk, EventsOk, ClockOk, ChainOk, Preemptible, SameStarts, SameOwners,
             NonePreemptible, NotYounger, HasMap, Placed, Traced, Tally, Timely, AllocsOk, TakenSoFar, Stripped;
        ghost var w := Youngest(rest, tasks);
        var t :| t in rest && forall u :: u in rest ==> tasks[u].stime <= tasks[t].stime;
        VisitYoungest(B(), running, rest, old(running), t);
        rest := rest - {t};
        ghost var b, r := B(), running;
        if Preemptible(B(), t) {
          n, m := n + 1, m - 1;
          OneMore(old(unseen), unseen, old(running), running, n - 1, t);
          TakeVictim(t);
          StrippedFacts(b, t);
          if AllocsOk(b.tasks, b.pools, b.jobs, r) { VictimIsDischarged(b, t, r); }
          OneMoreTaken(old(tasks), old(pools), b, old(running), r, t);
          AfterVictim(b, B(), old(running), running, rest, t);
        }
      }
      EndVisits(B(), running, rest, old(running));
      Tallied(old(unseen), unseen, old(running), running, n);
    }

    /** `preempt_maps`: takes victims, recomputes the fair shares and frees one slot for each.  `b` are the
        books when the victims `taken` have been taken. */
    method PreemptMaps(num: nat) returns (ghost taken: set<nat>, ghost b: Books)
      requires Valid() && !Quiet() && (num > 0 ==> popped < |seen|)
      modifies this
      ensures Valid() && now == old(now) && strays == old(strays)
      ensures taken <= old(running) && |taken| <= num && b.unseen == old(unseen) + multiset(taken)
      ensures SameStarts(old(tasks), b.tasks) && SameOwners(old(tasks), b.tasks)
      ensures YoungestTaken(b, old(running) - taken, taken) && old(running) - taken <= running
      ensures |taken| < num ==> NonePreemptible(b, old(running) - taken)
      ensures OnlyFromAbove(b, taken) && LostTasks(old(tasks), old(pools), b.pools, taken)
      ensures slots + |running| == old(slots + |running|)
    {
      hide BooksOk, TasksOk, TimersOk, SharesOk, EventsOk, ClockOk, ChainOk, HasMap, Placed, Traced, Timely, AllocsOk,
           NonePreemptible, YoungestTaken, SameStarts, SameOwners, OnlyFromAbove, LostTasks;
      var n;
      n, b := Evict(num);
      taken := old(running) - running;
      assert old(running) - taken == running;
      for i := 0 to n
        invariant Ready() && Total() == nmap - n + i && now == old(now) && strays == old(strays)
        invariant old(running) - taken <= running
      {
        Post();
      }
    }

    /** As far as the fair shares, before the slots are freed. */
    method Evict(num: nat) returns (n: nat, ghost b: Books)
      requires Ready() && !Quiet() && (num > 0 ==> popped < |seen|)
      modifies this`tasks, this`pools, this`jobs, this`unseen, this`running
      ensures Ready() && running <= old(running) && |running| + n == old(|running|)
      ensures n == |old(running) - running| <= num && b.unseen == old(unseen) + multiset(old(running) - running)
      ensures SameStarts(old(tasks), b.tasks) && SameOwners(old(tasks), b.tasks)
      ensures YoungestTaken(b, running, old(running) - running)
      ensures n < num ==> NonePreemptible(b, running)
      ensures OnlyFromAbove(b, old(running) - running)
      ensures LostTasks(old(tasks), old(pools), b.pools, old(running) - running)
    {
      hide BooksOk, TasksOk, TimersOk, SharesOk, FloorsOk, EventsOk, ClockOk, ChainOk, HasMap, Placed, Traced, Timely,
           AllocsOk, NonePreemptible, YoungestTaken, SameStarts, SameOwners, SameUsers, Conserved, Disabled,
           OnlyFromAbove, LostTasks;
      n := 0;
      SharesAreFloors(pools, nmap);
      NothingTaken(B(), unseen, running);
      if num > 0 { n := TakeVictims(num); }
      b := B();
      Reshare();
    }

    /** The fair shares after demands have changed. */
    method Reshare()
      requires Settled(events) && Own(events) && ChainOk(chain, B(), events, waiting) && SlotsOk() && !Quiet()
      modifies this`pools
      ensures Ready()
    {
      hide BooksOk, TasksOk, TimersOk, SharesOk, EventsOk, ClockOk, ChainOk, Placed, Traced, SameUsers, Timely,
           AllocsOk, SameAllocs;
      ghost var b := B();
      UpdateFairshares();
      if AllocsOk(tasks, b.pools, jobs, running) {
        UsersKeepAllocs(b.pools, pools);
        AllocsStay(jobs);
        OwnersStay(tasks);
        SameAllocsOk(tasks, b.pools, jobs, running, tasks, pools, jobs);
      }
      SharesKeepRest(chain, b, pools, timeouts, timers, events, waiting);
    }

    /** `ev_preempt_map`: a pool starved long enough gets slots from pools above their fair share: as many as it
        needs, or all there are to get; nothing but the clock changes if it needs none. */
    method HandlePreempt(e: Event) returns (ghost taken: set<nat>, ghost b: Books)
      requires e.Preempt? && e.pool < |pools| == |timers| == |timeouts| && e.time >= now && !Quiet()
      requires SoundBut(events + multiset{e}) && ChainOk(chain, B(), events, waiting) && SlotsOk() && Total() == nmap
      requires forall f :: f in events && !f.Create? ==> f.time >= e.time
      modifies this
      ensures Valid() && now == e.time
      ensures var need := Need(timeouts[e.pool], old(timers[e.pool]), old(pools[e.pool]), e.time);
              && taken <= old(running) && |taken| <= need
              && (|taken| < need ==> NonePreemptible(b, old(running) - taken))
              && (need == 0 ==> B() == old(B()) && running == old(running) && slots == old(slots) &&
                                waiting == old(waiting) && events == old(events) && timers == old(timers))
      ensures b.unseen == old(unseen) + multiset(taken)
      ensures SameStarts(old(tasks), b.tasks) && SameOwners(old(tasks), b.tasks)
      ensures YoungestTaken(b, old(running) - taken, taken) && old(running) - taken <= running
      ensures OnlyFromAbove(b, taken) && LostTasks(old(tasks), old(pools), b.pools, taken)
    {
      hide BooksOk, TasksOk, TimersOk, SharesOk, EventsOk, ClockOk, ChainOk, HasMap, Placed, Traced, Timely, AllocsOk,
           NonePreemptible, YoungestTaken, SameStarts, SameOwners, OnlyFromAbove, LostTasks, MinshareNeed,
           FairshareNeed;
      CheckTimeComes(e);
      var ms, hf := Needs(e.pool);
      NobodyTaken(B(), unseen, running);
      taken, b := {}, B();
      if ms > hf {
        taken, b := PreemptMaps(ms);
      } else if hf > 0 {
        taken, b := PreemptMaps(hf);
      }
    }

    /** The clock moves to the check that has been popped. */
    method CheckTimeComes(e: Event)
      requires e.Preempt? && e.time >= now && !Quiet()
      requires SoundBut(events + multiset{e}) && ChainOk(chain, B(), events, waiting) && SlotsOk() && Total() == nmap
      requires forall f :: f in events && !f.Create? ==> f.time >= e.time
      modifies this`now
      ensures Valid() && now == e.time
    {
      hide BooksOk, TasksOk, TimersOk, SharesOk, EventsOk, ClockOk, ChainOk, HasMap, Placed, Traced, Timely, AllocsOk;
      EventGone(events, e, |tasks|, |pools|, now, waiting);
      TracedStays(again, tasks, launches, running, events + multiset{e}, now, events, e.time);
      StaysTimely(timeouts, timers, events + multiset{e}, now, tasks, seen, timers, events, e.time, tasks);
      now := e.time;
    }

    /** What a pool needs now; if it needs any slot, there is a visible task left to launch. */
    method Needs(p: nat) returns (ms: int, hf: int)
      requires BooksOk(B()) && SharesOk(pools, nmap) && TimersOk(timeouts, timers, pools) && p < |pools|
      ensures |timers| == |timeouts| == |pools|
      ensures ms == MinshareNeed(timeouts[p], timers[p], pools[p], now) >= 0
      ensures hf == FairshareNeed(timeouts[p], timers[p], pools[p], now) >= 0
      ensures ms > 0 || hf > 0 ==> popped < |seen|
    {
      TimerOfPool(timeouts, timers, pools, p);
      StarvedIsOwed(B(), p, nmap);
      ShareOfPool(B(), p, nmap, timeouts[p], timers[p], now);
      hide BooksOk, TimersOk, SharesOk, TimerOk, Trunc, HasMap;
      ms := StarvedForMinshare(p, now);
      hf := StarvedForHalfShare(p, now);
    }

    // ---------- The main loop ----------

    /** The event popped is the creation event. */
    method StepCreate(e: Event) returns (done: bool, ghost t: nat, ghost b: Books, ghost b': Books)
      requires e.Create? && SoundBut(events + multiset{e}) && ChainOk(chain, B(), events + multiset{e}, waiting)
      requires forall f :: f in events ==> f.time >= e.time
      requires SlotsOk() && Total() == nmap
      modifies this
      ensures Valid() && now == Max(old(now), e.time)
      ensures b.tasks == old(tasks) && forall u :: u in b.unseen ==> u < |b.tasks| && b.tasks[u].ctime > now
      ensures done <==> old(slots) > 0
      ensures done ==> slots == old(slots) - 1 && t !in old(running) && running == old(running) + {t}
      ensures done ==> PopsTask(b, b', t) && B() == b'.(tasks := tasks) && Started(old(tasks), tasks, t, now)
      ensures !done ==> waiting == [e] && running == old(running) && B() == b
      ensures Quiet() ==> Work() <= old(Work())
    {
      hide BooksOk, TasksOk, TimersOk, SharesOk, EventsOk, ClockOk, ChainOk, ChainTaken, Conserved, Placed, Traced,
           Timely, AllocsOk, PopsTask, Started;
      PoppedCreation(chain, B(), events, e, waiting, |tasks|, |pools|, now);
      TracedStays(again, tasks, launches, running, events + multiset{e}, now, events, now);
      StaysTimely(timeouts, timers, events + multiset{e}, now, tasks, seen, timers, events, now, tasks);
      if Quiet() {
        CreationsDoNotMatter(L().(events := events + multiset{e}), events);
        assert L().(events := events + multiset{e}).(events := events) == L();
      }
      done, t, b, b' := HandleCreate(e);
    }

    /** The event popped is a preemption check, which does not occur when preemption is disabled. */
    method StepPreempt(e: Event) returns (ghost taken: set<nat>, ghost b: Books)
      requires e.Preempt? && SoundBut(events + multiset{e}) && ChainOk(chain, B(), events, waiting)
      requires SlotsOk() && Total() == nmap
      requires forall f :: f in events ==> f.time >= e.time
      modifies this
      ensures Valid() && now == e.time >= old(now) && !Quiet() && e.pool < |old(pools)| == |old(timers)| == |timeouts|
      ensures var need := Need(timeouts[e.pool], old(timers[e.pool]), old(pools[e.pool]), e.time);
              && taken <= old(running) && |taken| <= need
              && (|taken| < need ==> NonePreemptible(b, old(running) - taken))
              && (need == 0 ==> B() == old(B()) && running == old(running) && slots == old(slots) &&
                                waiting == old(waiting) && events == old(events) && timers == old(timers))
      ensures b.unseen == old(unseen) + multiset(taken)
      ensures SameStarts(old(tasks), b.tasks) && SameOwners(old(tasks), b.tasks)
      ensures YoungestTaken(b, old(running) - taken, taken) && old(running) - taken <= running
      ensures OnlyFromAbove(b, taken) && LostTasks(old(tasks), old(pools), b.pools, taken)
    {
      hide BooksOk, TasksOk, TimersOk, SharesOk, EventsOk, ClockOk, ChainOk, Conserved, Placed, Traced, Timely,
           AllocsOk, NonePreemptible, YoungestTaken, SameStarts, SameOwners, OnlyFromAbove, LostTasks, Need;
      if Quiet() { NoPreemption(L().(events := events + multiset{e}), e); }
      TimersMatch(timeouts, timers, pools);
      PoppedCheck(events, e, |tasks|, |pools|, now, waiting);
      taken, b := HandlePreempt(e);
    }

    /** The event popped is a finish event. */
    method StepFinish(e: Event)
      requires e.Finish? && SoundBut(events + multiset{e}) && ChainOk(chain, B(), events, waiting)
      requires SlotsOk() && Total() == nmap
      requires forall f :: f in events ==> f.time >= e.time
      modifies this
      ensures Valid() && now >= old(now) && e.task < |old(tasks)|
      ensures !old(Effective(e)) ==> unchanged(this)
      ensures old(Effective(e)) ==> now == e.time && |tasks| == old(|tasks|) && tasks[e.task].ftime == e.time
      ensures Quiet() ==> Work() <= old(Work())
    {
      hide BooksOk, TasksOk, TimersOk, SharesOk, EventsOk, ClockOk, ChainOk, Conserved, Placed, Traced, Timely,
           AllocsOk;
      PoppedCheck(events, e, |tasks|, |pools|, now, waiting);
      HandleFinish(e);
    }

    /** One turn of the loop of `process`: an event `e` of least time is dealt with.  While a slot is free and a
        visible task is left to launch, the clock stands still. */
    method Step() returns (ghost e: Event)
      requires Valid() && events != multiset{}
      modifies this
      ensures Valid() && now >= old(now)
      ensures e in old(events) && forall f :: f in old(events) ==> e.time <= f.time
      ensures e.Create? ==> now == Max(old(now), e.time) && (old(slots) > 0 ==> |running| == old(|running|) + 1)
      ensures e.Finish? ==> e.task < |old(tasks)| && (old(Effective(e)) ==> now == e.time) &&
                            (!old(Effective(e)) ==> now == old(now) && B() == old(B()) && slots == old(slots))
      ensures e.Preempt? ==> now == e.time
      ensures old(slots > 0 && popped < |seen|) ==> now == old(now)
      ensures Quiet() ==> Work() < old(Work())
    {
      hide BooksOk, TasksOk, TimersOk, SharesOk, EventsOk, ClockOk, ChainOk, Conserved, Placed, Traced, Timely,
           AllocsOk;
      ghost var all := events;
      hide Need, NonePreemptible, YoungestTaken, SameStarts, SameOwners, OnlyFromAbove, LostTasks, PopsTask, Started;
      ReadyTaskIsDue(chain, B(), events, waiting, timeouts, timers, now, slots);
      var e' := PopEvent();
      e := e';
      assert events + multiset{e'} == all;
      assert L().(events := all) == old(L());
      match e' {
        case Create(_) =>
          var done; ghost var t, b, b';
          done, t, b, b' := StepCreate(e');
        case Finish(_, _) =>
          PoppedOther(chain, B(), events, e', waiting);
          StepFinish(e');
        case Preempt(_, _) =>
          PoppedOther(chain, B(), events, e', waiting);
          ghost var taken, b := StepPreempt(e');
      }
    }

    /** `process`, when no pool has preemption enabled: the loop ends, by when every task has been launched
        exactly once, no earlier than it was created, and has finished its processing time after its
        start; all slots are free again. */
    method Process()
      requires Valid() && Quiet() && nmap >= 1
      modifies this
      ensures events == multiset{} && running == {} && slots == nmap && waiting == []
      ensures AllRanOnce()
    {
      WorkIsBounded();
      while events != multiset{}
        invariant Valid() && Work() >= 0
        decreases Work()
      {
        hide Valid;
        ghost var e := Step();
        WorkIsBounded();
      }
      EndOfRun();
    }

    /** Every task was launched exactly once, no earlier than it was created, and finished its processing
        time after its start. */
    ghost predicate AllRanOnce()
      reads this
    {
      |launches| == |tasks| && forall t :: 0 <= t < |tasks| ==>
        && launches[t] == 1
        && tasks[t].ctime <= tasks[t].stime
        && tasks[t].ftime == tasks[t].stime + tasks[t].ptime
    }

    lemma WorkIsBounded()
      requires Valid()
      ensures Work() >= 0
    {
      OwedNotNegative(B());
    }

    lemma EndOfRun()
      requires Valid() && Quiet() && nmap >= 1 && events == multiset{}
      ensures running == {} && slots == nmap && waiting == [] && AllRanOnce()
    {
      hide BooksOk, TasksOk, TimersOk, SharesOk, EventsOk, ClockOk, Conserved, Placed, Traced, Timely, AllocsOk;
      NobodyRuns(L());
      AllDone(B(), L());
    }
  }

  /** Any number of events of any run from its beginning, with or without preemption. */
  method AnyRun(nmap: nat, now: real, timeouts: seq<Timeout>, pools: seq<Context>, jobs: seq<Context>,
                jobPool: seq<nat>, tasks: seq<Task>, count: nat) returns (e: Engine)
    requires now >= 0.0 && |timeouts| == |pools| && Loaded(tasks, pools, jobs, jobPool)
    ensures fresh(e) && e.nmap == nmap && e.timeouts == timeouts && e.now >= now
    ensures |e.timers| == |e.pools| == |timeouts| && |e.jobs| == |e.jobPool|
    ensures forall p :: 0 <= p < |e.pools| && timeouts[p].ms >= 0.0 ==>
              (e.timers[p].ms >= 0.0 <==> e.pools[p].alloc < MinInt(e.pools[p].demand, Trunc(e.pools[p].minshare)))
    ensures forall j :: 0 <= j < |e.jobs| ==> e.jobs[j].demand - e.jobs[j].alloc == |Queue(e.B(), j)|
    ensures forall p :: 0 <= p < |e.pools| ==> e.pools[p].demand - e.pools[p].alloc == OwedIn(e.jobs, e.jobPool, p)
    ensures forall f :: f in e.events && !f.Create? ==> f.time >= e.now
    ensures e.slots >= 0 && (e.waiting != [] ==> e.slots == 0) && e.slots + |e.running| == nmap + e.strays
    ensures e.again == 0 ==> e.strays == 0
    ensures MaxMin(e.pools)
    ensures forall p :: 0 <= p < |e.pools| ==> CheckDue(timeouts[p], e.timers[p], p, e.events, e.now)
    ensures e.slots > 0 && e.popped < |e.seen| ==> exists time :: time <= e.now && Create(time) in e.events
    ensures e.strays == 0 ==> forall p :: 0 <= p < |e.pools| ==> e.pools[p].alloc == |OfPool(e.tasks, e.running, p)|
  {
    hide *;
    e := ManyEvents(nmap, now, timeouts, pools, jobs, jobPool, tasks, count);
    e.BetweenEvents();
    e.SlotsBetweenEvents();
    e.SharesBetweenEvents();
    e.LaunchesBetweenEvents();
    forall p | 0 <= p < |e.pools|
      ensures CheckDue(timeouts[p], e.timers[p], p, e.events, e.now)
    {
      e.ChecksBetweenEvents(p);
    }
  }

  method ManyEvents(nmap: nat, now: real, timeouts: seq<Timeout>, pools: seq<Context>, jobs: seq<Context>,
                    jobPool: seq<nat>, tasks: seq<Task>, count: nat) returns (e: Engine)
    requires now >= 0.0 && |timeouts| == |pools| && Loaded(tasks, pools, jobs, jobPool)
    ensures fresh(e) && e.Valid() && e.nmap == nmap && e.timeouts == timeouts && e.now >= now
  {
    e := new Engine(nmap, now, timeouts, pools, jobs, jobPool, tasks);
    var k := 0;
    while k < count && e.events != multiset{}
      invariant e.Valid() && fresh(e) && e.now >= now
    {
      hide *;
      ghost var event := e.Step();
      k := k + 1;
    }
  }
}
