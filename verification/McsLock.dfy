/** The MCS queue lock with compare-and-swap release (ulib/include/ulib/os_spinlock.h).

    Every thread owns one queue entry.  One step of the machine is one access to shared
    memory by one thread, so a run is the sequence of the thread numbers that were scheduled,
    and quantifying over all such sequences is quantifying over all interleavings of
    any number of threads, each locking and unlocking as often as it likes. */
module McsLock {
  import opened Common

  type Tid = nat

  /** The next access a thread will perform. */
  datatype Pc =
    | Idle                  // outside; the next step clears me->next
    | Exchange              // swap me into the lock word
    | SetLock(pred: Tid)    // me->lock = 1
    | Link(pred: Tid)       // pred->next = me
    | Spin                  // while (me->lock)
    | Critical              // owns the lock
    | TestNext              // if (!me->next)
    | Cas                   // compare-and-swap the lock word from me to NULL
    | AwaitNext             // while (!me->next)
    | LoadNext              // read me->next for the hand-over
    | HandOver(succ: Tid)   // succ->lock = 0
    | Crashed               // dereferenced a NULL next pointer

  datatype Entry = Entry(next: Option<Tid>, lock: bool, pc: Pc)

  /** `tail` is the lock word. */
  datatype State = State(tail: Option<Tid>, threads: seq<Entry>)

  /** Entries are uninitialised memory: only the lock word is set up. */
  ghost predicate Init(s: State) {
    s.tail == None && forall t :: 0 <= t < |s.threads| ==> s.threads[t].pc == Idle
  }

  function Goto(s: State, t: Tid, pc: Pc): State
    requires t < |s.threads|
  {
    s.(threads := s.threads[t := s.threads[t].(pc := pc)])
  }

  /** One shared-memory access by thread `t`. */
  function Step(s: State, t: Tid): State
    requires t < |s.threads|
  {
    var me := s.threads[t];
    match me.pc
    case Idle => s.(threads := s.threads[t := me.(next := None, pc := Exchange)])
    case Exchange =>
      Goto(s, t, if s.tail == None then Critical else SetLock(s.tail.value)).(tail := Some(t))
    case SetLock(p) => s.(threads := s.threads[t := me.(lock := true, pc := Link(p))])
    case Link(p) =>
      var s' := Goto(s, t, Spin);
      if p < |s.threads| then s'.(threads := s'.threads[p := s'.threads[p].(next := Some(t))]) else s'
    case Spin => if me.lock then s else Goto(s, t, Critical)
    case Critical => Goto(s, t, TestNext)
    case TestNext => Goto(s, t, if me.next == None then Cas else LoadNext)
    case Cas => if s.tail == Some(t) then Goto(s, t, Idle).(tail := None) else Goto(s, t, AwaitNext)
    case AwaitNext => if me.next == None then s else Goto(s, t, LoadNext)
    case LoadNext => Goto(s, t, if me.next == None then Crashed else HandOver(me.next.value))
    case HandOver(u) =>
      var s' := Goto(s, t, Idle);
      if u < |s.threads| then s'.(threads := s'.threads[u := s'.threads[u].(lock := false)]) else s'
    case Crashed => s
  }

  // ---------- Runs and what they are judged by ----------

  ghost predicate Schedule(n: nat, sched: seq<Tid>) {
    forall i :: 0 <= i < |sched| ==> sched[i] < n
  }

  ghost function Run(s: State, sched: seq<Tid>): (r: State)
    requires Schedule(|s.threads|, sched)
    ensures |r.threads| == |s.threads|
  {
    if sched == [] then s else Step(Run(s, sched[..|sched| - 1]), sched[|sched| - 1])
  }

  ghost function Came(s: State, t: Tid): seq<Tid>
    requires t < |s.threads|
  {
    if s.threads[t].pc == Exchange then [t] else []
  }

  ghost function Entered(s: State, t: Tid): seq<Tid>
    requires t < |s.threads|
  {
    if s.threads[t].pc != Critical && Step(s, t).threads[t].pc == Critical then [t] else []
  }

  /** The threads in the order of their atomic exchanges on the lock word. */
  ghost function Exchanges(s: State, sched: seq<Tid>): seq<Tid>
    requires Schedule(|s.threads|, sched)
  {
    if sched == [] then [] else
      var before, t := sched[..|sched| - 1], sched[|sched| - 1];
      Exchanges(s, before) + Came(Run(s, before), t)
  }

  /** The threads in the order in which they became owners. */
  ghost function Entries(s: State, sched: seq<Tid>): seq<Tid>
    requires Schedule(|s.threads|, sched)
  {
    if sched == [] then [] else
      var before, t := sched[..|sched| - 1], sched[|sched| - 1];
      Entries(s, before) + Entered(Run(s, before), t)
  }

  // ---------- The invariant ----------

  /** Owner or releasing: from entering the critical section up to the hand-over. */
  predicate Holding(pc: Pc) {
    pc in {Critical, TestNext, Cas, AwaitNext, LoadNext} || pc.HandOver?
  }

  /** The head of the queue owns the lock or has just been handed it. */
  ghost predicate HeadOk(s: State, q: seq<Tid>)
    requires q != [] && forall i :: 0 <= i < |q| ==> q[i] < |s.threads|
  {
    var h := s.threads[q[0]];
    && (Holding(h.pc) || (h.pc == Spin && !h.lock))
    && (h.pc == AwaitNext ==> 2 <= |q|)
    && (h.pc == LoadNext ==> h.next != None)
    && (h.pc.HandOver? ==> h.next == Some(h.pc.succ))
  }

  /** Everyone else is on its way to spinning behind its predecessor. */
  ghost predicate TailOk(s: State, q: seq<Tid>, i: nat)
    requires 1 <= i < |q| && forall i :: 0 <= i < |q| ==> q[i] < |s.threads|
  {
    var w := s.threads[q[i]];
    w.pc == SetLock(q[i - 1]) || (w.lock && (w.pc == Link(q[i - 1]) || w.pc == Spin))
  }

  /** `next` points to the successor exactly once the successor has linked itself. */
  ghost predicate NextOk(s: State, q: seq<Tid>, i: nat)
    requires i < |q| && forall i :: 0 <= i < |q| ==> q[i] < |s.threads|
  {
    s.threads[q[i]].next ==
    if i + 1 < |q| && s.threads[q[i + 1]].pc == Spin then Some(q[i + 1]) else None
  }

  /** `q` lists the threads that have exchanged and not yet released; the lock word is its end. */
  ghost predicate QueueOk(s: State, q: seq<Tid>) {
    && (forall i :: 0 <= i < |q| ==> q[i] < |s.threads|)
    && Distinct(q)
    && s.tail == (if q == [] then None else Some(q[|q| - 1]))
    && (forall t :: 0 <= t < |s.threads| ==>
          && (t in q <==> s.threads[t].pc !in {Idle, Exchange})
          && (s.threads[t].pc == Exchange ==> s.threads[t].next == None)
          && s.threads[t].pc != Crashed)
  }

  ghost predicate Inv(s: State, q: seq<Tid>) {
    && QueueOk(s, q)
    && (q != [] ==> HeadOk(s, q))
    && (forall i :: 1 <= i < |q| ==> TailOk(s, q, i))
    && (forall i :: 0 <= i < |q| ==> NextOk(s, q, i))
  }

  /** The queue after thread `t` steps. */
  ghost function NextQueue(s: State, q: seq<Tid>, t: Tid): seq<Tid>
    requires t < |s.threads|
  {
    match s.threads[t].pc
    case Exchange => q + [t]
    case Cas => if s.tail == Some(t) && q != [] then q[1..] else q
    case HandOver(_) => if q != [] then q[1..] else q
    case _ => q
  }

  /** Only the head of the queue holds the lock. */
  lemma HolderIsHead(s: State, q: seq<Tid>, t: Tid)
    requires Inv(s, q) && t < |s.threads| && Holding(s.threads[t].pc)
    ensures q != [] && q[0] == t && NextOk(s, q, 0) && (1 < |q| ==> TailOk(s, q, 1))
  {
    forall i | 1 <= i < |q|
      ensures q[i] != t
    {
      assert TailOk(s, q, i);
    }
    assert t in q;
  }

  lemma ExchangeKeepsInv(s: State, q: seq<Tid>, t: Tid)
    requires Inv(s, q) && t < |s.threads| && s.threads[t].pc == Exchange
    ensures Inv(Step(s, t), q + [t])
  {
    var s', q' := Step(s, t), q + [t];
    assert t !in q;
    forall i | 0 <= i < |q|
      ensures NextOk(s', q', i) && (1 <= i ==> TailOk(s', q', i))
    {
      assert NextOk(s, q, i) && (1 <= i ==> TailOk(s, q, i));
    }
  }

  /** Steps that only move `t` along: the queue stays as it is. */
  lemma LocalStepKeepsInv(s: State, q: seq<Tid>, t: Tid)
    requires Inv(s, q) && t < |s.threads|
    requires !s.threads[t].pc.Exchange? && !s.threads[t].pc.Link? && !s.threads[t].pc.HandOver?
    requires s.threads[t].pc == Cas ==> s.tail != Some(t)
    ensures Inv(Step(s, t), q)
  {
    var s' := Step(s, t);
    if Holding(s.threads[t].pc) { HolderIsHead(s, q, t); }
    forall i | 0 <= i < |q|
      ensures NextOk(s', q, i) && (1 <= i ==> TailOk(s', q, i))
    {
      assert NextOk(s, q, i) && (1 <= i ==> TailOk(s, q, i));
      if i + 1 < |q| { assert TailOk(s, q, i + 1); }
    }
  }

  lemma LinkKeepsInv(s: State, q: seq<Tid>, t: Tid)
    requires Inv(s, q) && t < |s.threads| && s.threads[t].pc.Link?
    ensures Inv(Step(s, t), q)
  {
    var k :| 0 <= k < |q| && q[k] == t;
    assert 1 <= k && TailOk(s, q, k) && NextOk(s, q, 0) && TailOk(s, q, 1);
    assert Step(s, t).threads[q[k - 1]].pc == s.threads[q[k - 1]].pc;
    forall i | 0 <= i < |q|
      ensures NextOk(Step(s, t), q, i) && (1 <= i ==> TailOk(Step(s, t), q, i))
    {
      LinkKeepsLinks(s, q, k, i);
    }
  }

  lemma LinkKeepsLinks(s: State, q: seq<Tid>, k: nat, i: nat)
    requires Inv(s, q) && 1 <= k < |q| && i < |q| && s.threads[q[k]].pc == Link(q[k - 1])
    ensures var s' := Step(s, q[k]); NextOk(s', q, i) && (1 <= i ==> TailOk(s', q, i))
  {
    assert NextOk(s, q, i) && (1 <= i ==> TailOk(s, q, i)) && TailOk(s, q, k);
    assert q[k - 1] != q[k];
    if i == k - 1 {
      assert Step(s, q[k]).threads[q[i]].next == Some(q[i + 1]);
    } else if i == k {
      assert i + 1 < |q| ==> q[i + 1] != q[k];
    } else {
      assert q[i] != q[k] && q[i] != q[k - 1];
      assert i + 1 < |q| ==> q[i + 1] != q[k];
    }
  }

  lemma ReleaseKeepsInv(s: State, q: seq<Tid>, t: Tid)
    requires Inv(s, q) && t < |s.threads|
    requires s.threads[t].pc.HandOver? || (s.threads[t].pc == Cas && s.tail == Some(t))
    ensures q != [] && q[0] == t && Inv(Step(s, t), q[1..])
  {
    var s' := Step(s, t);
    HolderIsHead(s, q, t);
    if s.threads[t].pc == Cas {
      assert q == [t];
    } else {
      var u := s.threads[t].pc.succ;
      assert 1 < |q| && q[1] == u;
      assert q == [t, u] + q[2..];
      ReleaseKeepsLinks(s, q);
      assert forall v :: v in q[1..] <==> v in q && v != t;
    }
  }

  lemma ReleaseKeepsLinks(s: State, q: seq<Tid>)
    requires Inv(s, q) && 2 <= |q| && s.threads[q[0]].pc == HandOver(q[1])
    ensures var s', q' := Step(s, q[0]), q[1..];
            && HeadOk(s', q')
            && (forall i :: 1 <= i < |q'| ==> TailOk(s', q', i))
            && (forall i :: 0 <= i < |q'| ==> NextOk(s', q', i))
  {
    var s', q' := Step(s, q[0]), q[1..];
    assert forall i :: 0 <= i < |q'| ==> q'[i] == q[i + 1] && q[i + 1] != q[0];
    forall i | 0 <= i < |q'|
      ensures NextOk(s', q', i) && (1 <= i ==> TailOk(s', q', i))
    {
      assert NextOk(s, q, i + 1) && TailOk(s, q, i + 1);
    }
    assert NextOk(s, q, 0) && TailOk(s, q, 1);
  }

  lemma StepKeepsInv(s: State, q: seq<Tid>, t: Tid)
    requires Inv(s, q) && t < |s.threads|
    ensures Inv(Step(s, t), NextQueue(s, q, t))
  {
    match s.threads[t].pc
    case Exchange => ExchangeKeepsInv(s, q, t);
    case Link(_) => LinkKeepsInv(s, q, t);
    case HandOver(_) => ReleaseKeepsInv(s, q, t);
    case Cas => if s.tail == Some(t) { ReleaseKeepsInv(s, q, t); } else { LocalStepKeepsInv(s, q, t); }
    case _ => LocalStepKeepsInv(s, q, t);
  }

  /** The queue after a whole run. */
  ghost function RunQueue(s: State, sched: seq<Tid>): seq<Tid>
    requires Schedule(|s.threads|, sched)
  {
    if sched == [] then [] else
      var before := sched[..|sched| - 1];
      NextQueue(Run(s, before), RunQueue(s, before), sched[|sched| - 1])
  }

  lemma {:induction false} RunKeepsInv(s: State, sched: seq<Tid>)
    requires Init(s) && Schedule(|s.threads|, sched)
    ensures Inv(Run(s, sched), RunQueue(s, sched))
  {
    if sched != [] {
      var before := sched[..|sched| - 1];
      RunKeepsInv(s, before);
      StepKeepsInv(Run(s, before), RunQueue(s, before), sched[|sched| - 1]);
    }
  }

  // ---------- Main results, for every run of any number of threads ----------

  /** At most one thread owns the lock, whether in its critical section or releasing. */
  lemma MutualExclusion(s: State, sched: seq<Tid>, t: Tid, u: Tid)
    requires Init(s) && Schedule(|s.threads|, sched)
    requires t < |s.threads| && u < |s.threads|
    requires Holding(Run(s, sched).threads[t].pc) && Holding(Run(s, sched).threads[u].pc)
    ensures t == u
  {
    RunKeepsInv(s, sched);
    HolderIsHead(Run(s, sched), RunQueue(s, sched), t);
    HolderIsHead(Run(s, sched), RunQueue(s, sched), u);
  }

  ghost function WaitingOf(s: State, q: seq<Tid>): seq<Tid>
    requires forall i :: 0 <= i < |q| ==> q[i] < |s.threads|
  {
    if q != [] && Holding(s.threads[q[0]].pc) then q[1..] else q
  }

  /** Threads become owners in exactly the order of their exchanges: at any moment the exchanges so
      far are the threads that have become owners, in that order, followed by those still waiting. */
  lemma {:induction false} OwnershipFollowsExchangeOrder(s: State, sched: seq<Tid>)
    requires Init(s) && Schedule(|s.threads|, sched)
    ensures Inv(Run(s, sched), RunQueue(s, sched))
    ensures Exchanges(s, sched) == Entries(s, sched) + WaitingOf(Run(s, sched), RunQueue(s, sched))
    ensures Entries(s, sched) <= Exchanges(s, sched)
  {
    RunKeepsInv(s, sched);
    if sched != [] {
      var before, t := sched[..|sched| - 1], sched[|sched| - 1];
      OwnershipFollowsExchangeOrder(s, before);
      var r, q := Run(s, before), RunQueue(s, before);
      StepAdmitsInOrder(r, q, t);
      AppendBothSides(Exchanges(s, before), Entries(s, before), WaitingOf(r, q),
                      Came(r, t), Entered(r, t), WaitingOf(Run(s, sched), RunQueue(s, sched)));
    }
  }

  /** What a step adds to the exchanges it adds to the owners and those waiting. */
  ghost predicate AdmitsInOrder(s: State, q: seq<Tid>, t: Tid)
    requires Inv(s, q) && t < |s.threads|
  {
    var s', q' := Step(s, t), NextQueue(s, q, t);
    Inv(s', q') && WaitingOf(s, q) + Came(s, t) == Entered(s, t) + WaitingOf(s', q')
  }

  lemma StepAdmitsInOrder(s: State, q: seq<Tid>, t: Tid)
    requires Inv(s, q) && t < |s.threads|
    ensures AdmitsInOrder(s, q, t)
  {
    match s.threads[t].pc
    case Exchange => ExchangeAdmitsInOrder(s, q, t);
    case HandOver(_) => ReleaseAdmitsNobody(s, q, t);
    case Cas => if s.tail == Some(t) { ReleaseAdmitsNobody(s, q, t); } else { HolderStepAdmitsNobody(s, q, t); }
    case Spin => SpinAdmitsHead(s, q, t);
    case Idle => ApproachAdmitsNobody(s, q, t);
    case SetLock(_) => ApproachAdmitsNobody(s, q, t);
    case Link(_) => ApproachAdmitsNobody(s, q, t);
    case _ => HolderStepAdmitsNobody(s, q, t);
  }

  lemma SpinAdmitsHead(s: State, q: seq<Tid>, t: Tid)
    requires Inv(s, q) && t < |s.threads| && s.threads[t].pc == Spin
    ensures AdmitsInOrder(s, q, t)
  {
    StepKeepsInv(s, q, t);
    if !s.threads[t].lock {
      HolderIsHead(Step(s, t), q, t);
      assert q == [t] + q[1..];
    }
  }

  lemma ExchangeAdmitsInOrder(s: State, q: seq<Tid>, t: Tid)
    requires Inv(s, q) && t < |s.threads| && s.threads[t].pc == Exchange
    ensures AdmitsInOrder(s, q, t)
  {
    ExchangeKeepsInv(s, q, t);
    if q != [] {
      assert q[0] in q && (q + [t])[0] == q[0];
      assert Step(s, t).threads[q[0]].pc == s.threads[q[0]].pc;
      assert (q + [t])[1..] == q[1..] + [t];
    }
  }

  lemma HolderStepAdmitsNobody(s: State, q: seq<Tid>, t: Tid)
    requires Inv(s, q) && t < |s.threads|
    requires Holding(s.threads[t].pc) && !s.threads[t].pc.HandOver?
    requires s.threads[t].pc == Cas ==> s.tail != Some(t)
    ensures AdmitsInOrder(s, q, t)
  {
    HolderIsHead(s, q, t);
    StepKeepsInv(s, q, t);
    assert Holding(Step(s, t).threads[t].pc);
  }

  lemma ApproachAdmitsNobody(s: State, q: seq<Tid>, t: Tid)
    requires Inv(s, q) && t < |s.threads|
    requires s.threads[t].pc.Idle? || s.threads[t].pc.SetLock? || s.threads[t].pc.Link?
    ensures AdmitsInOrder(s, q, t)
  {
    StepKeepsInv(s, q, t);
    if q != [] {
      assert q[0] in q && q[0] != t;
      assert Step(s, t).threads[q[0]].pc == s.threads[q[0]].pc;
    }
  }

  lemma ReleaseAdmitsNobody(s: State, q: seq<Tid>, t: Tid)
    requires Inv(s, q) && t < |s.threads|
    requires s.threads[t].pc.HandOver? || (s.threads[t].pc == Cas && s.tail == Some(t))
    ensures AdmitsInOrder(s, q, t)
  {
    HolderIsHead(s, q, t);
    ReleaseKeepsInv(s, q, t);
    if 1 < |q| { assert TailOk(s, q, 1) && q[1] != t; }
  }

  /** No run dereferences a null `next`, and a releasing thread that lost the race to clear the lock
      word always has a successor, which has exchanged and is on its way to linking itself or has. */
  lemma ReleaseNeverLosesSuccessor(s: State, sched: seq<Tid>, t: Tid)
    requires Init(s) && Schedule(|s.threads|, sched) && t < |s.threads|
    ensures Run(s, sched).threads[t].pc != Crashed
    ensures Run(s, sched).threads[t].pc == AwaitNext ==>
              exists u :: 0 <= u < |s.threads| && u != t &&
                (var r := Run(s, sched); var w := r.threads[u];
                 w.pc == SetLock(t) || w.pc == Link(t) || (w.pc == Spin && w.lock && r.threads[t].next == Some(u)))
  {
    RunKeepsInv(s, sched);
    var r, q := Run(s, sched), RunQueue(s, sched);
    if r.threads[t].pc == AwaitNext {
      HolderIsHead(r, q, t);
      assert 2 <= |q| && q[1] != q[0];
    }
  }

  /** Deadlock freedom: whenever some thread is past its exchange, one that is can take a step
      that changes the state. */
  lemma SomeThreadCanProceed(s: State, sched: seq<Tid>, t: Tid)
    requires Init(s) && Schedule(|s.threads|, sched) && t < |s.threads|
    requires Run(s, sched).threads[t].pc !in {Idle, Exchange}
    ensures exists u :: 0 <= u < |s.threads| && Run(s, sched).threads[u].pc !in {Idle, Exchange} &&
                        Step(Run(s, sched), u) != Run(s, sched)
  {
    RunKeepsInv(s, sched);
    var r, q := Run(s, sched), RunQueue(s, sched);
    assert t in q;
    var h := q[0];
    assert h in q;
    if r.threads[h].pc == AwaitNext && r.threads[h].next == None {
      assert NextOk(r, q, 0) && TailOk(r, q, 1) && q[1] in q;
      assert Step(r, q[1]).threads[q[1]].pc != r.threads[q[1]].pc;
    } else {
      assert Step(r, h).threads[h].pc != r.threads[h].pc;
    }
  }

  // ---------- Whoever wants the lock can get it, and leave it ----------

  lemma RunExtends(s: State, sched: seq<Tid>, t: Tid)
    requires Schedule(|s.threads|, sched) && t < |s.threads|
    ensures Schedule(|s.threads|, sched + [t]) && Run(s, sched + [t]) == Step(Run(s, sched), t)
    ensures RunQueue(s, sched + [t]) == NextQueue(Run(s, sched), RunQueue(s, sched), t)
  {
    assert (sched + [t])[..|sched|] == sched;
  }

  /** How many accesses the head is away from its release, and the next thread from having linked itself. */
  function HeadRank(pc: Pc): nat {
    match pc
    case Spin => 7
    case Critical => 6
    case TestNext => 5
    case Cas => 4
    case AwaitNext => 3
    case LoadNext => 2
    case _ => 1
  }

  function LinkRank(pc: Pc): nat {
    match pc
    case SetLock(_) => 2
    case Link(_) => 1
    case _ => 0
  }

  function Distance(s: State, q: seq<Tid>): nat {
    (if q != [] && q[0] < |s.threads| then HeadRank(s.threads[q[0]].pc) else 0) +
    (if 1 < |q| && q[1] < |s.threads| then LinkRank(s.threads[q[1]].pc) else 0)
  }

  /** The head, once the next thread has linked itself, gets one access further. */
  lemma HeadGetsFurther(s: State, q: seq<Tid>) returns (u: Tid)
    requires Inv(s, q) && q != []
    ensures u < |s.threads| && Inv(Step(s, u), NextQueue(s, q, u))
    ensures forall v :: 0 <= v < |s.threads| && v != u ==> Step(s, u).threads[v].pc == s.threads[v].pc
    ensures var s', q' := Step(s, u), NextQueue(s, q, u);
            || (q' == q && Distance(s', q) < Distance(s, q) &&
                ((u == q[0] && Holding(s'.threads[u].pc)) || (1 < |q| && u == q[1] && !Holding(s'.threads[u].pc))))
            || (q' == q[1..] && u == q[0] && Holding(s.threads[u].pc) && s'.threads[u].pc == Idle)
    ensures s.threads[q[0]].pc == Spin && u == q[0] ==> Step(s, u).threads[u].pc == Critical
  {
    assert q[0] in q && NextOk(s, q, 0);
    if 1 < |q| { assert TailOk(s, q, 1) && q[1] in q && q[0] != q[1]; }
    u := if 1 < |q| && s.threads[q[1]].pc != Spin then q[1] else q[0];
    StepKeepsInv(s, q, u);
  }

  /** A waiting thread becomes the owner by the next access, or moves up, or those ahead of it do. */
  lemma WaiterMovesUp(s: State, q: seq<Tid>, t: Tid, i: nat) returns (u: Tid, j: nat)
    requires Inv(s, q) && i < |q| && q[i] == t < |s.threads| && !Holding(s.threads[t].pc)
    ensures u < |s.threads|
    ensures var s', q' := Step(s, u), NextQueue(s, q, u);
            s'.threads[t].pc == Critical ||
            (j < |q'| && q'[j] == t && !Holding(s'.threads[t].pc) &&
             (j < i || (j == i && Distance(s', q') < Distance(s, q))))
  {
    u := HeadGetsFurther(s, q);
    j := if NextQueue(s, q, u) == q || i == 0 then i else i - 1;
    assert i > 0 ==> q[0] != q[i];
    assert i == 0 ==> s.threads[t].pc == Spin;
    assert i == 0 && 1 < |q| ==> q[1] != q[0];
    hide Inv, Step, NextQueue, Distance;
  }

  lemma {:induction false} WaiterGetsIn(s: State, sched: seq<Tid>, t: Tid, i: nat) returns (more: seq<Tid>)
    requires Init(s) && Schedule(|s.threads|, sched) && t < |s.threads|
    requires !Holding(Run(s, sched).threads[t].pc)
    requires i < |RunQueue(s, sched)| && RunQueue(s, sched)[i] == t
    ensures Schedule(|s.threads|, sched + more) && Run(s, sched + more).threads[t].pc == Critical
    decreases i, Distance(Run(s, sched), RunQueue(s, sched))
  {
    hide Inv, Step, NextQueue, Distance, Schedule, Holding, Init;
    RunKeepsInv(s, sched);
    var u, j := WaiterMovesUp(Run(s, sched), RunQueue(s, sched), t, i);
    RunExtends(s, sched, u);
    var rest := [];
    if Run(s, sched + [u]).threads[t].pc != Critical { rest := WaiterGetsIn(s, sched + [u], t, j); }
    more := [u] + rest;
    assert sched + more == sched + [u] + rest;
    assert sched + [u] + [] == sched + [u];
  }

  /** Up to the exchange nothing holds a thread up. */
  lemma Approach(s: State, sched: seq<Tid>, t: Tid) returns (first: seq<Tid>)
    requires Init(s) && Schedule(|s.threads|, sched) && t < |s.threads|
    requires !Holding(Run(s, sched).threads[t].pc)
    ensures Schedule(|s.threads|, sched + first)
    ensures var pc := Run(s, sched + first).threads[t].pc;
            pc == Critical || (pc !in {Idle, Exchange} && !Holding(pc))
  {
    RunKeepsInv(s, sched);
    RunExtends(s, sched, t);
    RunExtends(s, sched + [t], t);
    assert sched + [] == sched && sched + [t, t] == sched + [t] + [t];
    first := match Run(s, sched).threads[t].pc
      case Idle => [t, t]
      case Exchange => [t]
      case _ => [];
  }

  lemma PlaceInQueue(s: State, q: seq<Tid>, t: Tid) returns (i: nat)
    requires Inv(s, q) && t < |s.threads| && s.threads[t].pc !in {Idle, Exchange}
    ensures i < |q| && q[i] == t
  {
    i :| 0 <= i < |q| && q[i] == t;
  }

  lemma QueuedGetsIn(s: State, sched: seq<Tid>, t: Tid) returns (more: seq<Tid>)
    requires Init(s) && Schedule(|s.threads|, sched) && t < |s.threads|
    requires Run(s, sched).threads[t].pc !in {Idle, Exchange} && !Holding(Run(s, sched).threads[t].pc)
    ensures Schedule(|s.threads|, sched + more) && Run(s, sched + more).threads[t].pc == Critical
  {
    hide *;
    RunKeepsInv(s, sched);
    var i := PlaceInQueue(Run(s, sched), RunQueue(s, sched), t);
    more := WaiterGetsIn(s, sched, t, i);
  }

  /** Every thread that does not hold the lock can still get it, whatever has happened: some continuation of
      the run leads it into its critical section. */
  lemma EveryThreadCanGetIn(s: State, sched: seq<Tid>, t: Tid) returns (more: seq<Tid>)
    requires Init(s) && Schedule(|s.threads|, sched) && t < |s.threads|
    requires !Holding(Run(s, sched).threads[t].pc)
    ensures Schedule(|s.threads|, sched + more) && Run(s, sched + more).threads[t].pc == Critical
  {
    hide *;
    more := Approach(s, sched, t);
    if Run(s, sched + more).threads[t].pc != Critical {
      var rest := QueuedGetsIn(s, sched + more, t);
      assert sched + (more + rest) == sched + more + rest;
      more := more + rest;
    }
  }

  lemma HolderGetsOut(s: State, q: seq<Tid>, t: Tid) returns (u: Tid)
    requires Inv(s, q) && t < |s.threads| && Holding(s.threads[t].pc)
    ensures u < |s.threads|
    ensures Step(s, u).threads[t].pc == Idle ||
            (Holding(Step(s, u).threads[t].pc) && Distance(Step(s, u), NextQueue(s, q, u)) < Distance(s, q))
  {
    HolderIsHead(s, q, t);
    u := HeadGetsFurther(s, q);
    assert 1 < |q| ==> q[1] != q[0];
    hide Inv, Step, NextQueue, Distance;
  }

  /** Whoever holds the lock can still release it. */
  lemma {:induction false} EveryHolderCanLeave(s: State, sched: seq<Tid>, t: Tid) returns (more: seq<Tid>)
    requires Init(s) && Schedule(|s.threads|, sched) && t < |s.threads| && Holding(Run(s, sched).threads[t].pc)
    ensures Schedule(|s.threads|, sched + more) && Run(s, sched + more).threads[t].pc == Idle
    decreases Distance(Run(s, sched), RunQueue(s, sched))
  {
    hide Inv, Step, NextQueue, Distance, Schedule, Init, Holding;
    RunKeepsInv(s, sched);
    var u := HolderGetsOut(Run(s, sched), RunQueue(s, sched), t);
    RunExtends(s, sched, u);
    var rest := [];
    if Run(s, sched + [u]).threads[t].pc != Idle { rest := EveryHolderCanLeave(s, sched + [u], t); }
    more := [u] + rest;
    assert sched + more == sched + [u] + rest;
    assert sched + [u] + [] == sched + [u];
  }

  /** A free lock is taken by its first two accesses. */
  lemma FreeLockIsTaken(s: State, sched: seq<Tid>, t: Tid)
    requires Init(s) && Schedule(|s.threads|, sched) && t < |s.threads| && Run(s, sched).threads[t].pc == Idle
    requires forall u :: 0 <= u < |s.threads| ==> Run(s, sched).threads[u].pc in {Idle, Exchange}
    ensures Schedule(|s.threads|, sched + [t] + [t]) && Run(s, sched + [t] + [t]).threads[t].pc == Critical
  {
    RunKeepsInv(s, sched);
    RunExtends(s, sched, t);
    RunExtends(s, sched + [t], t);
    var q := RunQueue(s, sched);
    SomebodyIsPast(Run(s, sched), q);
  }

  lemma SomebodyIsPast(s: State, q: seq<Tid>)
    requires Inv(s, q)
    ensures q != [] ==> exists u :: 0 <= u < |s.threads| && s.threads[u].pc !in {Idle, Exchange}
  {
    if q != [] { assert q[0] in q; }
  }

  // ---------- The lock as a shared object updated in place ----------

  class Machine {
    var tail: Option<Tid>
    const threads: array<Entry>

    ghost function Abs(): State
      reads this, threads
    {
      State(tail, threads[..])
    }

    constructor (entries: array<Entry>)
      requires forall t :: 0 <= t < entries.Length ==> entries[t].pc == Idle
      ensures threads == entries && Init(Abs())
    {
      tail := None;
      threads := entries;
    }

    /** Thread `t` performs its next access to shared memory. */
    method Advance(t: Tid)
      requires t < threads.Length
      modifies this, threads
      ensures Abs() == Step(old(Abs()), t)
    {
      var me := threads[t];
      match me.pc {
        case Idle => threads[t] := me.(next := None, pc := Exchange);
        case Exchange =>
          var pred := tail;
          tail := Some(t);
          threads[t] := me.(pc := if pred == None then Critical else SetLock(pred.value));
        case SetLock(p) => threads[t] := me.(lock := true, pc := Link(p));
        case Link(p) =>
          threads[t] := me.(pc := Spin);
          if p < threads.Length { threads[p] := threads[p].(next := Some(t)); }
        case Spin => if !me.lock { threads[t] := me.(pc := Critical); }
        case Critical => threads[t] := me.(pc := TestNext);
        case TestNext => threads[t] := me.(pc := if me.next == None then Cas else LoadNext);
        case Cas =>
          if tail == Some(t) {
            tail := None;
            threads[t] := me.(pc := Idle);
          } else {
            threads[t] := me.(pc := AwaitNext);
          }
        case AwaitNext => if me.next != None { threads[t] := me.(pc := LoadNext); }
        case LoadNext => threads[t] := me.(pc := if me.next == None then Crashed else HandOver(me.next.value));
        case HandOver(u) =>
          threads[t] := me.(pc := Idle);
          if u < threads.Length { threads[u] := threads[u].(lock := false); }
        case Crashed =>
      }
    }
  }
}
