/** The books of the scheduler: tasks not yet visible, tasks queued by job, and the demand and
    allocation counters of jobs and pools (colossal/src/selector.cpp, colossal/src/engine.cpp).
    Map tasks only; reduces are kept in the same way beside them. */
module EngineBooks {
  import opened FairShare
  import opened FairSelect

  /** A task with its description's flags. */
  datatype Task = Task(ctime: real, ptime: real, pool: nat, job: nat,
                       stime: real, ftime: real, popped: bool, preempted: bool)

  datatype Books = Books(
    tasks: seq<Task>,
    pools: seq<Context>,            // the pools' fair scheduling contexts
    jobs: seq<Context>,             // the jobs' fair scheduling contexts
    jobPool: seq<nat>,              // the pool of each job
    unseen: multiset<nat>,          // _map_refs
    seen: seq<nat>,                 // _seen_maps
    popped: nat,                    // _maps_popped
    queues: map<nat, seq<nat>>,     // _map_tasks: the queue of each job listed there
    active: set<nat>)               // the pools listed in _map_tasks

  function QueueIn(queues: map<nat, seq<nat>>, j: nat): seq<nat> {
    if j in queues then queues[j] else []
  }

  function Queue(b: Books, j: nat): seq<nat> { QueueIn(b.queues, j) }

  /** What the jobs of pool `p` are owed together. */
  ghost function OwedIn(jobs: seq<Context>, jobPool: seq<nat>, p: nat): int
    requires |jobs| == |jobPool|
  {
    if jobs == [] then 0 else
      var n := |jobs| - 1;
      OwedIn(jobs[..n], jobPool[..n], p) + if jobPool[n] == p then jobs[n].demand - jobs[n].alloc else 0
  }

  ghost predicate ShapeOk(b: Books) {
    && |b.jobPool| == |b.jobs|
    && (forall j :: 0 <= j < |b.jobs| ==> b.jobPool[j] < |b.pools| && b.jobs[j].weight > 0.0)
    && (forall p :: 0 <= p < |b.pools| ==> b.pools[p].weight > 0.0 && b.pools[p].minshare >= 0.0)
    && (forall t :: 0 <= t < |b.tasks| ==> b.tasks[t].job < |b.jobs| && b.tasks[t].pool == b.jobPool[b.tasks[t].job])
    && (forall t :: t in b.unseen ==> t < |b.tasks|)
    && (forall k :: 0 <= k < |b.seen| ==> b.seen[k] < |b.tasks|)
  }

  /** A job is owed exactly its queued tasks, and is listed exactly when there are any. */
  ghost predicate JobOk(b: Books, j: nat)
    requires j < |b.jobs|
  {
    && b.jobs[j].demand - b.jobs[j].alloc == |Queue(b, j)|
    && (j in b.queues ==> b.queues[j] != [])
    && (forall k :: 0 <= k < |Queue(b, j)| ==> Queue(b, j)[k] < |b.tasks| && b.tasks[Queue(b, j)[k]].job == j)
  }

  /** A pool is owed exactly what its jobs are, and is listed exactly when that is not nothing. */
  ghost predicate PoolOk(b: Books, p: nat)
    requires p < |b.pools| && |b.jobs| == |b.jobPool|
  {
    && b.pools[p].demand - b.pools[p].alloc == OwedIn(b.jobs, b.jobPool, p)
    && (p in b.active <==> b.pools[p].demand != b.pools[p].alloc)
  }

  ghost predicate BooksOk(b: Books) {
    && ShapeOk(b)
    && (forall j :: 0 <= j < |b.jobs| ==> JobOk(b, j))
    && (forall p :: 0 <= p < |b.pools| ==> PoolOk(b, p))
    && (forall p :: p in b.active ==> p < |b.pools|)
    && (forall j :: j in b.queues ==> j < |b.jobs|)
    && |b.seen| - b.popped == Owed(b.pools)
  }

  // ---------- The operations on the books ----------

  /** One turn of `see_maps`: task `t` becomes visible and is queued with its job. */
  function See(b: Books, t: nat): Books
    requires t < |b.tasks| && b.tasks[t].job < |b.jobs| && b.tasks[t].pool < |b.pools|
  {
    var j, p := b.tasks[t].job, b.tasks[t].pool;
    b.(unseen := b.unseen - multiset{t},
       seen := b.seen + [t],
       queues := b.queues[j := Queue(b, j) + [t]],
       active := b.active + {p},
       pools := b.pools[p := b.pools[p].(demand := b.pools[p].demand + 1)],
       jobs := b.jobs[j := b.jobs[j].(demand := b.jobs[j].demand + 1)])
  }

  /** `pop_map` once pool `p` and job `j` are chosen: the job's first task leaves its queue. */
  function Take(b: Books, p: nat, j: nat): Books
    requires p < |b.pools| && j < |b.jobs| && Queue(b, j) != [] && Queue(b, j)[0] < |b.tasks|
  {
    var t := Queue(b, j)[0];
    var pools := b.pools[p := b.pools[p].(alloc := b.pools[p].alloc + 1)];
    var jobs := b.jobs[j := b.jobs[j].(alloc := b.jobs[j].alloc + 1)];
    var rest := Queue(b, j)[1..];
    b.(tasks := b.tasks[t := b.tasks[t].(popped := true)],
       pools := pools,
       jobs := jobs,
       queues := if jobs[j].alloc == jobs[j].demand then b.queues - {j} else b.queues[j := rest],
       active := if pools[p].alloc == pools[p].demand then b.active - {p} else b.active,
       popped := b.popped + 1)
  }

  /** The counters when a running task finishes or is preempted. */
  function Leave(b: Books, t: nat): Books
    requires t < |b.tasks| && b.tasks[t].job < |b.jobs| && b.tasks[t].pool < |b.pools|
  {
    var j, p := b.tasks[t].job, b.tasks[t].pool;
    b.(pools := b.pools[p := b.pools[p].(alloc := b.pools[p].alloc - 1, demand := b.pools[p].demand - 1)],
       jobs := b.jobs[j := b.jobs[j].(alloc := b.jobs[j].alloc - 1, demand := b.jobs[j].demand - 1)])
  }

  /** `add_preempted_map`: the task goes back among those not visible. */
  function PutBack(b: Books, t: nat): Books { b.(unseen := b.unseen + multiset{t}) }

  // ---------- What they owe ----------

  lemma {:induction false} OwedUpdate(cs: seq<Context>, i: nat, c: Context)
    requires i < |cs|
    ensures Owed(cs[i := c]) == Owed(cs) - (cs[i].demand - cs[i].alloc) + (c.demand - c.alloc)
  {
    var n := |cs| - 1;
    if i < n {
      OwedUpdate(cs[..n], i, c);
      assert cs[i := c][..n] == cs[..n][i := c];
    } else {
      assert cs[i := c][..n] == cs[..n];
    }
  }

  lemma {:induction false} OwedInUpdate(jobs: seq<Context>, jobPool: seq<nat>, p: nat, j: nat, c: Context)
    requires |jobs| == |jobPool| && j < |jobs|
    ensures OwedIn(jobs[j := c], jobPool, p) == OwedIn(jobs, jobPool, p) +
            if jobPool[j] == p then (c.demand - c.alloc) - (jobs[j].demand - jobs[j].alloc) else 0
  {
    var n := |jobs| - 1;
    if j < n {
      OwedInUpdate(jobs[..n], jobPool[..n], p, j, c);
      assert jobs[j := c][..n] == jobs[..n][j := c];
    } else {
      assert jobs[j := c][..n] == jobs[..n];
    }
  }

  /** Nobody is ever owed a negative number of tasks. */
  lemma {:induction false} OwedInAtLeast(b: Books, p: nat, n: nat, j: nat)
    requires BooksOk(b) && n <= |b.jobs|
    ensures OwedIn(b.jobs[..n], b.jobPool[..n], p) >= 0
    ensures j < n && b.jobPool[j] == p ==> OwedIn(b.jobs[..n], b.jobPool[..n], p) >= |Queue(b, j)|
  {
    if n > 0 {
      OwedInAtLeast(b, p, n - 1, j);
      assert b.jobs[..n][..n - 1] == b.jobs[..n - 1] && b.jobPool[..n][..n - 1] == b.jobPool[..n - 1];
      assert JobOk(b, n - 1);
    }
  }

  lemma PoolOwesItsJobs(b: Books, p: nat)
    requires BooksOk(b) && p < |b.pools|
    ensures b.pools[p].demand >= b.pools[p].alloc
    ensures forall j :: 0 <= j < |b.jobs| && b.jobPool[j] == p ==>
              b.pools[p].demand - b.pools[p].alloc >= |Queue(b, j)|
  {
    var n := |b.jobs|;
    assert PoolOk(b, p);
    assert b.jobs[..n] == b.jobs && b.jobPool[..n] == b.jobPool;
    OwedInAtLeast(b, p, n, 0);
    forall j | 0 <= j < n && b.jobPool[j] == p
      ensures b.pools[p].demand - b.pools[p].alloc >= |Queue(b, j)|
    {
      OwedInAtLeast(b, p, n, j);
    }
  }

  lemma {:induction false} OwedAtLeast(b: Books, n: nat, p: nat)
    requires BooksOk(b) && n <= |b.pools|
    ensures Owed(b.pools[..n]) >= 0
    ensures p < n ==> Owed(b.pools[..n]) >= b.pools[p].demand - b.pools[p].alloc
    ensures Owed(b.pools[..n]) > 0 ==> exists q :: 0 <= q < n && b.pools[q].demand > b.pools[q].alloc
  {
    if n > 0 {
      OwedAtLeast(b, n - 1, p);
      assert b.pools[..n][..n - 1] == b.pools[..n - 1];
      PoolOwesItsJobs(b, n - 1);
    }
  }

  lemma {:induction false} SomeJobIsOwed(b: Books, p: nat, n: nat) returns (j: nat)
    requires BooksOk(b) && n <= |b.jobs| && OwedIn(b.jobs[..n], b.jobPool[..n], p) > 0
    ensures j < n && b.jobPool[j] == p && j in b.queues
  {
    assert b.jobs[..n][..n - 1] == b.jobs[..n - 1] && b.jobPool[..n][..n - 1] == b.jobPool[..n - 1];
    assert JobOk(b, n - 1);
    if b.jobPool[n - 1] == p && Queue(b, n - 1) != [] {
      j := n - 1;
    } else {
      j := SomeJobIsOwed(b, p, n - 1);
    }
  }

  // ---------- Every operation keeps the books ----------

  lemma SeeKeepsBooks(b: Books, t: nat)
    requires BooksOk(b) && t in b.unseen
    ensures BooksOk(See(b, t))
  {
    var j, p, b' := b.tasks[t].job, b.tasks[t].pool, See(b, t);
    OwedUpdate(b.pools, p, b'.pools[p]);
    assert JobOk(b, j);
    forall i | 0 <= i < |b'.jobs|
      ensures JobOk(b', i)
    {
      assert JobOk(b, i);
    }
    PoolOwesItsJobs(b, p);
    forall q | 0 <= q < |b'.pools|
      ensures PoolOk(b', q)
    {
      assert PoolOk(b, q);
      OwedInUpdate(b.jobs, b.jobPool, q, j, b'.jobs[j]);
    }
  }

  lemma TakeKeepsBooks(b: Books, p: nat, j: nat)
    requires BooksOk(b) && j in b.queues && p == b.jobPool[j]
    ensures Queue(b, j) != [] && Queue(b, j)[0] < |b.tasks| && BooksOk(Take(b, p, j))
    ensures b.pools[p].demand > b.pools[p].alloc
  {
    assert JobOk(b, j);
    var b' := Take(b, p, j);
    OwedUpdate(b.pools, p, b'.pools[p]);
    PoolOwesItsJobs(b, p);
    forall i | 0 <= i < |b'.jobs|
      ensures JobOk(b', i)
    {
      assert JobOk(b, i);
    }
    forall q | 0 <= q < |b'.pools|
      ensures PoolOk(b', q)
    {
      assert PoolOk(b, q);
      OwedInUpdate(b.jobs, b.jobPool, q, j, b'.jobs[j]);
    }
  }

  lemma LeaveKeepsBooks(b: Books, t: nat)
    requires BooksOk(b) && t < |b.tasks|
    ensures BooksOk(Leave(b, t))
  {
    var j, p, b' := b.tasks[t].job, b.tasks[t].pool, Leave(b, t);
    OwedUpdate(b.pools, p, b'.pools[p]);
    forall i | 0 <= i < |b'.jobs|
      ensures JobOk(b', i)
    {
      assert JobOk(b, i);
    }
    forall q | 0 <= q < |b'.pools|
      ensures PoolOk(b', q)
    {
      assert PoolOk(b, q);
      OwedInUpdate(b.jobs, b.jobPool, q, j, b'.jobs[j]);
    }
  }

  /** Recomputed fair shares do not touch the books. */
  lemma SharesKeepBooks(b: Books, pools: seq<Context>)
    requires BooksOk(b) && SameUsers(b.pools, pools)
    ensures BooksOk(b.(pools := pools))
  {
    var b' := b.(pools := pools);
    SameOwed(b.pools, pools);
    forall i | 0 <= i < |b'.jobs|
      ensures JobOk(b', i)
    {
      assert JobOk(b, i);
    }
    forall q | 0 <= q < |b'.pools|
      ensures PoolOk(b', q)
    {
      assert PoolOk(b, q);
    }
  }

  lemma {:induction false} SameOwed(cs: seq<Context>, cs': seq<Context>)
    requires SameUsers(cs, cs')
    ensures Owed(cs) == Owed(cs')
  {
    if cs != [] { SameOwed(cs[..|cs| - 1], cs'[..|cs| - 1]); }
  }

  /** The tasks still belong to the same jobs and pools. */
  ghost predicate SameOwners(tasks: seq<Task>, tasks': seq<Task>) {
    |tasks| == |tasks'| && forall t :: 0 <= t < |tasks| ==>
      tasks'[t].job == tasks[t].job && tasks'[t].pool == tasks[t].pool
  }

  /** Flags and times of tasks do not touch the books. */
  lemma TasksKeepBooks(b: Books, tasks: seq<Task>)
    requires BooksOk(b) && SameOwners(b.tasks, tasks)
    ensures BooksOk(b.(tasks := tasks))
  {
    var b' := b.(tasks := tasks);
    forall i | 0 <= i < |b'.jobs|
      ensures JobOk(b', i)
    {
      assert JobOk(b, i);
    }
    forall q | 0 <= q < |b'.pools|
      ensures PoolOk(b', q)
    {
      assert PoolOk(b, q);
    }
  }

  lemma PutBackKeepsBooks(b: Books, t: nat)
    requires BooksOk(b) && t < |b.tasks|
    ensures BooksOk(PutBack(b, t))
  {
    var b' := PutBack(b, t);
    forall i | 0 <= i < |b'.jobs|
      ensures JobOk(b', i)
    {
      assert JobOk(b, i);
    }
    forall q | 0 <= q < |b'.pools|
      ensures PoolOk(b', q)
    {
      assert PoolOk(b, q);
    }
  }

  // ---------- Choosing the next task ----------

  /** The jobs of pool `p` with queued tasks. */
  function JobsOf(b: Books, p: nat): (r: set<nat>)
    requires |b.jobPool| == |b.jobs|
  {
    set j | j in b.queues && j < |b.jobPool| && b.jobPool[j] == p
  }

  /** With a visible task left, some listed pool is owed a task. */
  lemma SomePoolIsOwed(b: Books) returns (p: nat)
    requires BooksOk(b) && b.popped < |b.seen|
    ensures p in b.active && p < |b.pools| && b.pools[p].alloc != b.pools[p].demand
  {
    OwedAtLeast(b, |b.pools|, 0);
    assert b.pools[..|b.pools|] == b.pools;
    p :| 0 <= p < |b.pools| && b.pools[p].demand > b.pools[p].alloc;
    assert PoolOk(b, p);
  }

  /** A pool that is owed a task has a job that is. */
  lemma SomeJobOfPoolIsOwed(b: Books, p: nat) returns (j: nat)
    requires BooksOk(b) && p in b.active
    ensures j in JobsOf(b, p) && j < |b.jobs| && b.jobs[j].alloc != b.jobs[j].demand
  {
    PoolOwesItsJobs(b, p);
    assert PoolOk(b, p);
    assert b.jobs[..|b.jobs|] == b.jobs && b.jobPool[..|b.jobs|] == b.jobPool;
    j := SomeJobIsOwed(b, p, |b.jobs|);
    assert JobOk(b, j);
  }

  /** `pop_map`: a least listed pool, a least job of it, and the first task of that job's queue. */
  ghost predicate PopsTask(b: Books, b': Books, t: nat) {
    && ShapeOk(b)
    && exists p, j ::
         && IsLeast(b.pools, multiset(b.active), p)
         && IsLeast(b.jobs, multiset(JobsOf(b, p)), j)
         && Queue(b, j) != [] && t == Queue(b, j)[0] && t < |b.tasks|
         && b' == Take(b, p, j)
  }

  lemma ThisPopsTask(b: Books, p: nat, j: nat)
    requires ShapeOk(b) && Queue(b, j) != [] && Queue(b, j)[0] < |b.tasks|
    requires IsLeast(b.pools, multiset(b.active), p) && IsLeast(b.jobs, multiset(JobsOf(b, p)), j)
    ensures PopsTask(b, Take(b, p, j), Queue(b, j)[0])
  {
  }
}
