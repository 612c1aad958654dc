/** The reader/writer ticket lock (ulib/include/ulib/os_spinlock.h) with its 8-bit counters.

    The lock word is 32 bits wide: `write`, `read` and `user` occupy one byte each, the fourth
    byte is unnamed but takes part in every 32-bit access, so `user` and its neighbour are kept
    together as the 16-bit `upper` half.  One step is one access to the word; the word and the
    threads' local copies wrap as in the source.  A run is a sequence of moves, so
    quantifying over schedules quantifies over all interleavings. */
module RwTicketLock {
  import opened Common

  type Tid = nat
  type Byte = x: int | 0 <= x < 256
  type Half = x: int | 0 <= x < 65536

  datatype Word = Word(write: Byte, read: Byte, upper: Half) {
    /** The low byte of the upper half. */
    function User(): Byte { upper % 256 }

    /** Adding 1 << 16 to the 32-bit word. */
    function Take(): Word { this.(upper := (upper + 1) % 65536) }
  }

  function Inc(x: Byte): Byte { (x + 1) % 256 }

  /** What an idle thread sets out to do. */
  datatype Op = WriteLock | ReadLock | TryWriteLock | TryReadLock

  datatype Pc =
    | Idle
    | WriteSpin(my: Byte)                    // while (write != my) reload write
    | Writing
    | WriteStore(write: Byte, read: Byte)    // incremented snapshot, about to store both bytes
    | TryWriteCas(expected: Word)
    | ReadSpin(my: Byte)                     // while (read != my) reload read
    | ReadLoad                               // first half of ++read
    | ReadStore(read: Byte)                  // second half of ++read
    | Reading
    | TryReadCas(expected: Word)

  datatype State = State(word: Word, pcs: seq<Pc>)

  datatype Move = Move(t: Tid, op: Op)

  function Init(n: nat): State {
    State(Word(0, 0, 0), seq(n, _ => Idle))
  }

  function At(s: State, t: Tid, word: Word, pc: Pc): State
    requires t < |s.pcs|
  {
    State(word, s.pcs[t := pc])
  }

  /** One access by thread `m.t`; `m.op` matters only when the thread is idle. */
  function Step(s: State, m: Move): State
    requires m.t < |s.pcs|
  {
    var w, t := s.word, m.t;
    match s.pcs[t]
    case Idle =>
      (match m.op
       case WriteLock => At(s, t, w.Take(), if w.write == w.User() then Writing else WriteSpin(w.User()))
       case ReadLock => At(s, t, w.Take(), if w.read == w.User() then ReadLoad else ReadSpin(w.User()))
       case TryWriteLock => if w.write != w.User() then s else At(s, t, w, TryWriteCas(w))
       case TryReadLock => if w.read != w.User() then s else At(s, t, w, TryReadCas(w)))
    case WriteSpin(my) => if w.write == my then At(s, t, w, Writing) else s
    case Writing => At(s, t, w, WriteStore(Inc(w.write), Inc(w.read)))
    case WriteStore(x, y) => At(s, t, w.(write := x, read := y), Idle)
    case TryWriteCas(e) => if w == e then At(s, t, e.Take(), Writing) else At(s, t, w, Idle)
    case ReadSpin(my) => if w.read == my then At(s, t, w, ReadLoad) else s
    case ReadLoad => At(s, t, w, ReadStore(Inc(w.read)))
    case ReadStore(y) => At(s, t, w.(read := y), Reading)
    case Reading => At(s, t, w.(write := Inc(w.write)), Idle)
    case TryReadCas(e) => if w == e then At(s, t, e.Take().(read := Inc(e.read)), Reading) else At(s, t, w, Idle)
  }

  // ---------- Runs ----------

  ghost predicate Schedule(n: nat, sched: seq<Move>) {
    forall i :: 0 <= i < |sched| ==> sched[i].t < n
  }

  ghost function Run(n: nat, sched: seq<Move>): (r: State)
    requires Schedule(n, sched)
    ensures |r.pcs| == n
  {
    if sched == [] then Init(n) else Step(Run(n, sched[..|sched| - 1]), sched[|sched| - 1])
  }

  predicate Owns(pc: Pc) { pc.Writing? || pc.WriteStore? }

  /** At most one writer, and no reader beside it. */
  ghost predicate Safe(s: State) {
    forall t, u :: 0 <= t < |s.pcs| && 0 <= u < |s.pcs| && t != u && Owns(s.pcs[t]) ==>
      !Owns(s.pcs[u]) && !s.pcs[u].Reading?
  }

  // ---------- The invariant, over unbounded ticket numbers ----------

  /** History of a run: `done` tickets have been returned, those of `readers` are reading, and the
      threads of `q` hold the tickets after those, oldest first. */
  datatype History = History(done: nat, readers: set<Tid>, q: seq<Tid>) {
    function Admitted(): nat { done + |readers| }
    function Issued(): nat { done + |readers| + |q| }
  }

  ghost predicate WordOk(w: Word, h: History) {
    && w.write == h.done % 256
    && w.read == h.Admitted() % 256
    && w.upper == h.Issued() % 65536
  }

  /** A thread outside the lock. */
  predicate Outside(pc: Pc) { pc.Idle? || pc.TryWriteCas? || pc.TryReadCas? }

  ghost predicate ThreadsOk(s: State, h: History) {
    && Distinct(h.q)
    && (forall i :: 0 <= i < |h.q| ==> h.q[i] < |s.pcs|)
    && (forall t :: t in h.readers ==> t < |s.pcs|)
    && (forall t :: 0 <= t < |s.pcs| ==>
          && (t in h.readers <==> s.pcs[t].Reading?)
          && (t in h.q <==> !Outside(s.pcs[t]) && !s.pcs[t].Reading?)
          && (s.pcs[t].TryWriteCas? ==> s.pcs[t].expected.write == s.pcs[t].expected.User())
          && (s.pcs[t].TryReadCas? ==> s.pcs[t].expected.read == s.pcs[t].expected.User()))
  }

  /** The `i`th thread in the queue: only the first can have been let in. */
  ghost predicate QueuedOk(s: State, h: History, i: nat)
    requires i < |h.q| && h.q[i] < |s.pcs|
  {
    var ticket := h.Admitted() + i;
    match s.pcs[h.q[i]]
    case WriteSpin(my) => my == ticket % 256
    case ReadSpin(my) => my == ticket % 256
    case Writing => i == 0 && h.readers == {}
    case WriteStore(x, y) => i == 0 && h.readers == {} && x == Inc(s.word.write) && y == Inc(s.word.read)
    case ReadLoad => i == 0
    case ReadStore(y) => i == 0 && y == Inc(s.word.read)
    case _ => false
  }

  ghost predicate Inv(s: State, h: History) {
    && WordOk(s.word, h)
    && ThreadsOk(s, h)
    && forall i :: 0 <= i < |h.q| ==> QueuedOk(s, h, i)
  }

  ghost function NextHistory(s: State, h: History, m: Move): History
    requires m.t < |s.pcs|
  {
    var t := m.t;
    match s.pcs[t]
    case Idle => if m.op.WriteLock? || m.op.ReadLock? then h.(q := h.q + [t]) else h
    case WriteStore(_, _) => if h.q == [] then h else h.(done := h.done + 1, q := h.q[1..])
    case TryWriteCas(e) => if s.word == e then h.(q := h.q + [t]) else h
    case ReadStore(_) => if h.q == [] then h else h.(readers := h.readers + {t}, q := h.q[1..])
    case Reading => h.(done := h.done + 1, readers := h.readers - {t})
    case TryReadCas(e) => if s.word == e then h.(readers := h.readers + {t}) else h
    case _ => h
  }

  /** Two tickets less than 256 apart are told apart by their low bytes. */
  lemma LowByteDecides(a: nat, b: nat)
    requires a <= b < a + 256
    ensures a % 256 == b % 256 <==> a == b
  {
    assert b - a == 256 * (b / 256 - a / 256) + (b % 256 - a % 256);
    assert a % 256 == b % 256 ==> b / 256 - a / 256 == 0;
  }

  lemma LowByteOfHalf(x: nat)
    ensures (x % 65536) % 256 == x % 256
    ensures (x % 65536 + 1) % 65536 == (x + 1) % 65536
    ensures (x % 256 + 1) % 256 == (x + 1) % 256
  {
    assert x == 65536 * (x / 65536) + x % 65536;
  }

  ghost function Members(q: seq<Tid>): (r: set<Tid>)
    ensures forall t :: t in r <==> t in q
  {
    set t | t in q
  }

  lemma DistinctCount(q: seq<Tid>)
    requires Distinct(q)
    ensures |Members(q)| == |q|
  {
    if q != [] {
      var p, last := q[..|q| - 1], q[|q| - 1];
      DistinctCount(p);
      assert last !in p;
      assert Members(q) == Members(p) + {last};
    }
  }

  /** Every outstanding ticket belongs to a different thread. */
  lemma OutstandingBound(s: State, h: History, t: Tid)
    requires ThreadsOk(s, h) && t < |s.pcs|
    ensures |h.readers| + |h.q| <= |s.pcs|
    ensures Outside(s.pcs[t]) ==> |h.readers| + |h.q| < |s.pcs|
  {
    DistinctCount(h.q);
    var all := Members(h.q) + h.readers;
    assert Members(h.q) !! h.readers;
    Pigeonhole(all, |s.pcs|);
    if Outside(s.pcs[t]) {
      assert t !in all;
      Pigeonhole(all + {t}, |s.pcs|);
    }
  }

  /** With at most 256 threads, an outside thread that finds `user` equal to `write` (or `read`)
      has found the lock free (or no ticket waiting). */
  lemma OutsideComparesTrue(s: State, h: History, t: Tid)
    requires Inv(s, h) && t < |s.pcs| <= 256 && Outside(s.pcs[t])
    ensures s.word.write == s.word.User() <==> h.Issued() == h.done
    ensures s.word.read == s.word.User() <==> h.q == []
    ensures s.word.User() == h.Issued() % 256
  {
    OutstandingBound(s, h, t);
    LowByteOfHalf(h.Issued());
    LowByteDecides(h.done, h.Issued());
    LowByteDecides(h.Admitted(), h.Issued());
  }

  /** A waiting thread that finds its number in `write` (or `read`) is the oldest waiting. */
  lemma WaiterComparesTrue(s: State, h: History, i: nat)
    requires Inv(s, h) && i < |h.q| && |s.pcs| <= 256
    ensures s.word.write == (h.Admitted() + i) % 256 <==> i == 0 && h.readers == {}
    ensures s.word.read == (h.Admitted() + i) % 256 <==> i == 0
  {
    OutstandingBound(s, h, h.q[i]);
    LowByteDecides(h.done, h.Admitted() + i);
    LowByteDecides(h.Admitted(), h.Admitted() + i);
  }

  // ---------- Each kind of step keeps the invariant ----------

  /** A new ticket is queued last; whoever gets it is let in only if that is its turn. */
  lemma TakeKeepsInv(s: State, h: History, t: Tid, pc: Pc)
    requires Inv(s, h) && t < |s.pcs| <= 256 && Outside(s.pcs[t])
    requires pc == WriteSpin(s.word.User()) || pc == ReadSpin(s.word.User())
             || (pc == Writing && s.word.write == s.word.User())
             || (pc == ReadLoad && s.word.read == s.word.User())
    ensures Inv(At(s, t, s.word.Take(), pc), h.(q := h.q + [t]))
  {
    var s', h' := At(s, t, s.word.Take(), pc), h.(q := h.q + [t]);
    OutsideComparesTrue(s, h, t);
    LowByteOfHalf(h.Issued());
    assert t !in h.q;
    forall i | 0 <= i < |h'.q|
      ensures QueuedOk(s', h', i)
    {
      if i < |h.q| { assert QueuedOk(s, h, i); }
    }
  }

  /** Steps inside the queue that leave the word alone. */
  lemma AdvanceKeepsInv(s: State, h: History, i: nat, pc: Pc)
    requires Inv(s, h) && i < |h.q|
    requires !Outside(pc) && !pc.Reading? && QueuedOk(At(s, h.q[i], s.word, pc), h, i)
    ensures Inv(At(s, h.q[i], s.word, pc), h)
  {
    var s' := At(s, h.q[i], s.word, pc);
    forall j | 0 <= j < |h.q|
      ensures QueuedOk(s', h, j)
    {
      assert QueuedOk(s, h, j);
    }
  }

  /** The writer's two-byte store returns its ticket and admits itself as done. */
  lemma WriterReleaseKeepsInv(s: State, h: History, t: Tid)
    requires Inv(s, h) && t < |s.pcs| && s.pcs[t].WriteStore?
    ensures h.q != [] && h.q[0] == t
    ensures Inv(Step(s, Move(t, WriteLock)), NextHistory(s, h, Move(t, WriteLock)))
  {
    var i :| 0 <= i < |h.q| && h.q[i] == t;
    assert QueuedOk(s, h, i);
    var s', h' := Step(s, Move(t, WriteLock)), NextHistory(s, h, Move(t, WriteLock));
    LowByteOfHalf(h.done);
    assert h.q == [t] + h'.q;
    assert forall u :: u in h.q <==> u == t || u in h'.q;
    PopKeepsQueued(s, h, s', h');
  }

  /** The reader's store of `read` turns the head of the queue into a reader. */
  lemma ReaderEntryKeepsInv(s: State, h: History, t: Tid)
    requires Inv(s, h) && t < |s.pcs| && s.pcs[t].ReadStore?
    ensures h.q != [] && h.q[0] == t
    ensures Inv(Step(s, Move(t, ReadLock)), NextHistory(s, h, Move(t, ReadLock)))
  {
    var i :| 0 <= i < |h.q| && h.q[i] == t;
    assert QueuedOk(s, h, i);
    var s', h' := Step(s, Move(t, ReadLock)), NextHistory(s, h, Move(t, ReadLock));
    LowByteOfHalf(h.Admitted());
    assert t !in h.readers;
    assert h.q == [t] + h'.q;
    assert forall u :: u in h.q <==> u == t || u in h'.q;
    PopKeepsQueued(s, h, s', h');
  }

  lemma PopKeepsQueued(s: State, h: History, s': State, h': History)
    requires Inv(s, h) && h.q != [] && h'.q == h.q[1..] && h'.Admitted() == h.Admitted() + 1
    requires |s'.pcs| == |s.pcs| && forall i :: 1 <= i < |h.q| ==> s'.pcs[h.q[i]] == s.pcs[h.q[i]]
    ensures forall i :: 0 <= i < |h'.q| ==> QueuedOk(s', h', i)
  {
    forall i | 0 <= i < |h'.q|
      ensures QueuedOk(s', h', i)
    {
      assert h'.q[i] == h.q[i + 1] && QueuedOk(s, h, i + 1);
    }
  }

  lemma ReaderExitKeepsInv(s: State, h: History, t: Tid)
    requires Inv(s, h) && t < |s.pcs| && s.pcs[t].Reading?
    ensures Inv(Step(s, Move(t, ReadLock)), NextHistory(s, h, Move(t, ReadLock)))
  {
    var s', h' := Step(s, Move(t, ReadLock)), NextHistory(s, h, Move(t, ReadLock));
    LowByteOfHalf(h.done);
    assert t in h.readers && t !in h.q;
    assert h'.Admitted() == h.Admitted();
    forall i | 0 <= i < |h.q|
      ensures QueuedOk(s', h', i)
    {
      assert QueuedOk(s, h, i);
    }
  }

  /** Two outcomes of a trylock that leave the history alone. */
  lemma OutsideKeepsInv(s: State, h: History, t: Tid, pc: Pc)
    requires Inv(s, h) && t < |s.pcs| && Outside(s.pcs[t]) && Outside(pc)
    requires pc.TryWriteCas? ==> pc.expected.write == pc.expected.User()
    requires pc.TryReadCas? ==> pc.expected.read == pc.expected.User()
    ensures Inv(At(s, t, s.word, pc), h)
  {
    var s' := At(s, t, s.word, pc);
    assert t !in h.q;
    forall i | 0 <= i < |h.q|
      ensures QueuedOk(s', h, i)
    {
      assert QueuedOk(s, h, i);
    }
  }

  /** A successful tryrdlock: compare-and-swap saw an empty queue, so it may join the readers. */
  lemma TryReadKeepsInv(s: State, h: History, t: Tid)
    requires Inv(s, h) && t < |s.pcs| <= 256 && s.pcs[t] == TryReadCas(s.word)
    ensures Inv(Step(s, Move(t, ReadLock)), NextHistory(s, h, Move(t, ReadLock)))
  {
    OutsideComparesTrue(s, h, t);
    LowByteOfHalf(h.Admitted());
    LowByteOfHalf(h.Issued());
    assert t !in h.readers;
  }

  lemma StepKeepsInv(s: State, h: History, m: Move)
    requires Inv(s, h) && m.t < |s.pcs| <= 256
    ensures Inv(Step(s, m), NextHistory(s, h, m))
  {
    var t, w := m.t, s.word;
    if !Outside(s.pcs[t]) && !s.pcs[t].Reading? {
      var i :| 0 <= i < |h.q| && h.q[i] == t;
      assert QueuedOk(s, h, i);
      WaiterComparesTrue(s, h, i);
      match s.pcs[t]
      case WriteSpin(my) => if w.write == my { AdvanceKeepsInv(s, h, i, Writing); }
      case Writing => AdvanceKeepsInv(s, h, i, WriteStore(Inc(w.write), Inc(w.read)));
      case WriteStore(_, _) => WriterReleaseKeepsInv(s, h, t);
      case ReadSpin(my) => if w.read == my { AdvanceKeepsInv(s, h, i, ReadLoad); }
      case ReadLoad => AdvanceKeepsInv(s, h, i, ReadStore(Inc(w.read)));
      case ReadStore(_) => ReaderEntryKeepsInv(s, h, t);
    } else {
      match s.pcs[t]
      case Reading => ReaderExitKeepsInv(s, h, t);
      case TryWriteCas(e) =>
        if w == e { TakeKeepsInv(s, h, t, Writing); } else { OutsideKeepsInv(s, h, t, Idle); }
      case TryReadCas(e) =>
        if w == e { TryReadKeepsInv(s, h, t); } else { OutsideKeepsInv(s, h, t, Idle); }
      case Idle => IdleStepKeepsInv(s, h, m);
    }
  }

  lemma IdleStepKeepsInv(s: State, h: History, m: Move)
    requires Inv(s, h) && m.t < |s.pcs| <= 256 && s.pcs[m.t] == Idle
    ensures Inv(Step(s, m), NextHistory(s, h, m))
  {
    var t, w := m.t, s.word;
    match m.op
    case WriteLock => TakeKeepsInv(s, h, t, if w.write == w.User() then Writing else WriteSpin(w.User()));
    case ReadLock => TakeKeepsInv(s, h, t, if w.read == w.User() then ReadLoad else ReadSpin(w.User()));
    case TryWriteLock => if w.write == w.User() { OutsideKeepsInv(s, h, t, TryWriteCas(w)); }
    case TryReadLock => if w.read == w.User() { OutsideKeepsInv(s, h, t, TryReadCas(w)); }
  }

  // ---------- Main results ----------

  ghost function RunHistory(n: nat, sched: seq<Move>): History
    requires Schedule(n, sched)
  {
    if sched == [] then History(0, {}, []) else
      var before := sched[..|sched| - 1];
      NextHistory(Run(n, before), RunHistory(n, before), sched[|sched| - 1])
  }

  lemma {:induction false} RunKeepsInv(n: nat, sched: seq<Move>)
    requires n <= 256 && Schedule(n, sched)
    ensures Inv(Run(n, sched), RunHistory(n, sched))
  {
    if sched != [] {
      var before := sched[..|sched| - 1];
      RunKeepsInv(n, before);
      StepKeepsInv(Run(n, before), RunHistory(n, before), sched[|sched| - 1]);
    }
  }

  /** Threads that own the word's `write` and `read` bytes stand at the head of the queue. */
  lemma OwnerIsHead(s: State, h: History, t: Tid)
    requires Inv(s, h) && t < |s.pcs|
    requires Owns(s.pcs[t]) || s.pcs[t].ReadLoad? || s.pcs[t].ReadStore?
    ensures h.q != [] && h.q[0] == t && QueuedOk(s, h, 0)
  {
    var i :| 0 <= i < |h.q| && h.q[i] == t;
    assert QueuedOk(s, h, i);
  }

  lemma InvImpliesSafe(s: State, h: History)
    requires Inv(s, h)
    ensures Safe(s)
  {
    forall t, u | 0 <= t < |s.pcs| && 0 <= u < |s.pcs| && t != u && Owns(s.pcs[t])
      ensures !Owns(s.pcs[u]) && !s.pcs[u].Reading?
    {
      OwnerIsHead(s, h, t);
      if Owns(s.pcs[u]) { OwnerIsHead(s, h, u); }
    }
  }

  /** The non-atomic `++read` never races: at most one thread is inside it, no writer owns the lock
      meanwhile, and the value it stores is still one more than `read`. */
  lemma ReadIncrementHasOneExecutor(n: nat, sched: seq<Move>, t: Tid, u: Tid)
    requires n <= 256 && Schedule(n, sched) && t < n && u < n
    ensures var s := Run(n, sched);
            s.pcs[t].ReadLoad? || s.pcs[t].ReadStore? ==>
              && !Owns(s.pcs[u])
              && (s.pcs[u].ReadLoad? || s.pcs[u].ReadStore? ==> t == u)
              && (s.pcs[t].ReadStore? ==> s.pcs[t].read == Inc(s.word.read))
  {
    RunKeepsInv(n, sched);
    var s, h := Run(n, sched), RunHistory(n, sched);
    if s.pcs[t].ReadLoad? || s.pcs[t].ReadStore? {
      OwnerIsHead(s, h, t);
      if Owns(s.pcs[u]) || s.pcs[u].ReadLoad? || s.pcs[u].ReadStore? { OwnerIsHead(s, h, u); }
    }
  }

  /** The writer's snapshot-then-store release cannot undo anyone's change: what it stores is the
      current `write` and `read`, each incremented. */
  lemma ReleaseOverwritesNothing(n: nat, sched: seq<Move>, t: Tid)
    requires n <= 256 && Schedule(n, sched) && t < n
    ensures var s := Run(n, sched);
            s.pcs[t].WriteStore? ==>
              s.pcs[t] == WriteStore(Inc(s.word.write), Inc(s.word.read))
  {
    RunKeepsInv(n, sched);
    var s, h := Run(n, sched), RunHistory(n, sched);
    if s.pcs[t].WriteStore? { OwnerIsHead(s, h, t); }
  }

  /** Whenever some thread is waiting, owning or reading, one that is can take a step that changes
      the state: the lock never wedges. */
  lemma SomeThreadCanProceed(n: nat, sched: seq<Move>, t: Tid)
    requires n <= 256 && Schedule(n, sched) && t < n && !Outside(Run(n, sched).pcs[t])
    ensures exists u :: 0 <= u < n && !Outside(Run(n, sched).pcs[u]) &&
                        Step(Run(n, sched), Move(u, ReadLock)) != Run(n, sched)
  {
    RunKeepsInv(n, sched);
    var s, h := Run(n, sched), RunHistory(n, sched);
    var u := t;
    if h.readers != {} {
      u :| u in h.readers;
    } else {
      assert t in h.q;
      u := h.q[0];
      assert u in h.q && QueuedOk(s, h, 0);
      WaiterComparesTrue(s, h, 0);
    }
    assert Step(s, Move(u, ReadLock)).pcs[u] != s.pcs[u];
  }

  // ---------- Tickets are admitted in order ----------

  /** The ticket handed out by a move, if any. */
  ghost function Took(s: State, m: Move): seq<Tid>
    requires m.t < |s.pcs|
  {
    var takes := match s.pcs[m.t]
      case Idle => m.op.WriteLock? || m.op.ReadLock?
      case TryWriteCas(e) => s.word == e
      case TryReadCas(e) => s.word == e
      case _ => false;
    if takes then [m.t] else []
  }

  predicate Inside(pc: Pc) { Owns(pc) || pc.Reading? }

  /** The thread let into the lock by a move, if any. */
  ghost function Entered(s: State, m: Move): seq<Tid>
    requires m.t < |s.pcs|
  {
    if !Inside(s.pcs[m.t]) && Inside(Step(s, m).pcs[m.t]) then [m.t] else []
  }

  ghost function Tickets(n: nat, sched: seq<Move>): seq<Tid>
    requires Schedule(n, sched)
  {
    if sched == [] then [] else
      var before := sched[..|sched| - 1];
      Tickets(n, before) + Took(Run(n, before), sched[|sched| - 1])
  }

  ghost function Entries(n: nat, sched: seq<Move>): seq<Tid>
    requires Schedule(n, sched)
  {
    if sched == [] then [] else
      var before := sched[..|sched| - 1];
      Entries(n, before) + Entered(Run(n, before), sched[|sched| - 1])
  }

  /** Threads holding a ticket that have not been let in. */
  ghost function Waiting(s: State, h: History): seq<Tid>
    requires QueueWithin(s, h)
  {
    if h.q != [] && Owns(s.pcs[h.q[0]]) then h.q[1..] else h.q
  }

  ghost predicate AdmitsInOrder(s: State, h: History, m: Move)
    requires Inv(s, h) && m.t < |s.pcs|
  {
    var s', h' := Step(s, m), NextHistory(s, h, m);
    Inv(s', h') && Waiting(s, h) + Took(s, m) == Entered(s, m) + Waiting(s', h')
  }

  lemma StepAdmitsInOrder(s: State, h: History, m: Move)
    requires Inv(s, h) && m.t < |s.pcs| <= 256
    ensures AdmitsInOrder(s, h, m)
  {
    var t := m.t;
    if Outside(s.pcs[t]) {
      OutsiderAdmitsInOrder(s, h, m);
    } else if s.pcs[t].Reading? {
      ReaderAdmitsNobody(s, h, m);
    } else {
      QueuedAdmitsInOrder(s, h, m);
    }
  }

  ghost predicate QueueWithin(s: State, h: History) {
    forall i :: 0 <= i < |h.q| ==> h.q[i] < |s.pcs|
  }

  lemma QueueInBounds(s: State, h: History)
    requires Inv(s, h)
    ensures QueueWithin(s, h)
  {
  }

  lemma OutsiderAdmitsInOrder(s: State, h: History, m: Move)
    requires Inv(s, h) && m.t < |s.pcs| <= 256 && Outside(s.pcs[m.t])
    ensures AdmitsInOrder(s, h, m)
  {
    StepKeepsInv(s, h, m);
    OutsideComparesTrue(s, h, m.t);
    QueueInBounds(s, h);
    QueueInBounds(Step(s, m), NextHistory(s, h, m));
    if h.q != [] { assert h.q[0] in h.q && h.q[0] != m.t; }
    assert s.pcs[m.t].TryReadCas? && s.word == s.pcs[m.t].expected ==> h.q == [];
    hide Inv, ThreadsOk, WordOk, QueuedOk;
    if NextHistory(s, h, m).q == h.q { OutsiderStaysOut(s, h, m); } else { OutsiderJoins(s, h, m); }
  }

  /** A thread takes a ticket; it is let in at once only as a writer and at the head. */
  lemma OutsiderJoins(s: State, h: History, m: Move)
    requires QueueWithin(s, h) && m.t < |s.pcs| && Outside(s.pcs[m.t])
    requires h.q != [] ==> h.q[0] != m.t && s.word.write != s.word.User()
    requires s.pcs[m.t].TryWriteCas? ==> s.pcs[m.t].expected.write == s.pcs[m.t].expected.User()
    requires NextHistory(s, h, m).q != h.q && QueueWithin(Step(s, m), NextHistory(s, h, m))
    ensures Waiting(s, h) + Took(s, m) == Entered(s, m) + Waiting(Step(s, m), NextHistory(s, h, m))
  {
    var s', h' := Step(s, m), NextHistory(s, h, m);
    assert h'.q == h.q + [m.t] && Took(s, m) == [m.t];
    if h.q == [] {
      assert Waiting(s, h) == [];
    } else {
      assert !Inside(s'.pcs[m.t]) && Entered(s, m) == [];
      assert h'.q[0] == h.q[0] && s'.pcs[h.q[0]] == s.pcs[h.q[0]];
      assert h'.q[1..] == h.q[1..] + [m.t];
    }
  }

  /** A thread that joins no queue; it may become a reader if nobody waits. */
  lemma OutsiderStaysOut(s: State, h: History, m: Move)
    requires QueueWithin(s, h) && m.t < |s.pcs| && Outside(s.pcs[m.t])
    requires h.q != [] ==> h.q[0] != m.t
    requires s.pcs[m.t].TryReadCas? && s.word == s.pcs[m.t].expected ==> h.q == []
    requires NextHistory(s, h, m).q == h.q && QueueWithin(Step(s, m), NextHistory(s, h, m))
    ensures Waiting(s, h) + Took(s, m) == Entered(s, m) + Waiting(Step(s, m), NextHistory(s, h, m))
  {
    var s', h' := Step(s, m), NextHistory(s, h, m);
    assert h.q != [] ==> s'.pcs[h.q[0]] == s.pcs[h.q[0]];
    assert Waiting(s', h') == Waiting(s, h);
    assert Took(s, m) == Entered(s, m);
  }

  lemma ReaderAdmitsNobody(s: State, h: History, m: Move)
    requires Inv(s, h) && m.t < |s.pcs| <= 256 && s.pcs[m.t].Reading?
    ensures AdmitsInOrder(s, h, m)
  {
    StepKeepsInv(s, h, m);
    if h.q != [] { assert h.q[0] in h.q && h.q[0] != m.t; }
  }

  lemma QueuedAdmitsInOrder(s: State, h: History, m: Move)
    requires Inv(s, h) && m.t < |s.pcs| <= 256 && !Outside(s.pcs[m.t]) && !s.pcs[m.t].Reading?
    ensures AdmitsInOrder(s, h, m)
  {
    var i :| 0 <= i < |h.q| && h.q[i] == m.t;
    assert QueuedOk(s, h, i);
    if i == 0 {
      HeadAdmitsInOrder(s, h, m);
    } else {
      StepKeepsInv(s, h, m);
      WaiterComparesTrue(s, h, i);
      assert Step(s, m) == s;
    }
  }

  lemma HeadAdmitsInOrder(s: State, h: History, m: Move)
    requires Inv(s, h) && h.q != [] && h.q[0] == m.t && m.t < |s.pcs| <= 256
    requires !Outside(s.pcs[m.t]) && !s.pcs[m.t].Reading?
    ensures AdmitsInOrder(s, h, m)
  {
    StepKeepsInv(s, h, m);
    QueueInBounds(s, h);
    QueueInBounds(Step(s, m), NextHistory(s, h, m));
    if 1 < |h.q| { assert QueuedOk(s, h, 1) && h.q[1] != m.t; }
    hide Inv, ThreadsOk, WordOk, QueuedOk;
    if s.pcs[m.t].WriteStore? || s.pcs[m.t].ReadStore? {
      HeadLeaves(s, h, m);
    } else {
      HeadAdvances(s, h, m);
    }
  }

  /** The head returns its ticket, or becomes a reader. */
  lemma HeadLeaves(s: State, h: History, m: Move)
    requires QueueWithin(s, h) && h.q != [] && h.q[0] == m.t
    requires s.pcs[m.t].WriteStore? || s.pcs[m.t].ReadStore?
    requires 1 < |h.q| ==> !Owns(s.pcs[h.q[1]]) && h.q[1] != m.t
    requires QueueWithin(Step(s, m), NextHistory(s, h, m))
    ensures Waiting(s, h) + Took(s, m) == Entered(s, m) + Waiting(Step(s, m), NextHistory(s, h, m))
  {
    var s', h' := Step(s, m), NextHistory(s, h, m);
    assert h'.q == h.q[1..] && h.q == [m.t] + h.q[1..];
    assert 1 < |h.q| ==> s'.pcs[h.q[1]] == s.pcs[h.q[1]];
    assert Waiting(s', h') == h.q[1..];
    assert Took(s, m) == [];
  }

  /** The head stays at the head, and becomes the writer if it is let in. */
  lemma HeadAdvances(s: State, h: History, m: Move)
    requires QueueWithin(s, h) && h.q != [] && h.q[0] == m.t
    requires !Outside(s.pcs[m.t]) && !s.pcs[m.t].Reading?
    requires !s.pcs[m.t].WriteStore? && !s.pcs[m.t].ReadStore?
    requires QueueWithin(Step(s, m), NextHistory(s, h, m))
    ensures Waiting(s, h) + Took(s, m) == Entered(s, m) + Waiting(Step(s, m), NextHistory(s, h, m))
  {
    assert h.q == [m.t] + h.q[1..];
    assert NextHistory(s, h, m) == h && Took(s, m) == [];
  }

  /** Threads are let in, as readers or as writers, in the order of their tickets: the tickets so
      far are those let in so far, in that order, followed by those of the threads still waiting. */
  lemma {:induction false} TicketsAreAdmittedInOrder(n: nat, sched: seq<Move>)
    requires n <= 256 && Schedule(n, sched)
    ensures Inv(Run(n, sched), RunHistory(n, sched))
    ensures Tickets(n, sched) == Entries(n, sched) + Waiting(Run(n, sched), RunHistory(n, sched))
    ensures Entries(n, sched) <= Tickets(n, sched)
  {
    RunKeepsInv(n, sched);
    if sched != [] {
      var before, m := sched[..|sched| - 1], sched[|sched| - 1];
      TicketsAreAdmittedInOrder(n, before);
      var s, h := Run(n, before), RunHistory(n, before);
      StepAdmitsInOrder(s, h, m);
      AppendBothSides(Tickets(n, before), Entries(n, before), Waiting(s, h),
                      Took(s, m), Entered(s, m), Waiting(Run(n, sched), RunHistory(n, sched)));
    }
  }

  // ---------- Whoever wants the lock can get it ----------

  lemma RunExtends(n: nat, sched: seq<Move>, m: Move)
    requires Schedule(n, sched) && m.t < n
    ensures Schedule(n, sched + [m]) && Run(n, sched + [m]) == Step(Run(n, sched), m)
    ensures RunHistory(n, sched + [m]) == NextHistory(Run(n, sched), RunHistory(n, sched), m)
  {
    assert (sched + [m])[..|sched|] == sched;
  }

  /** Nobody holds a ticket exactly when all threads are outside, and no ticket waits exactly when all are
      outside or reading. */
  lemma WhoIsInside(s: State, h: History)
    requires Inv(s, h)
    ensures h.q == [] && h.readers == {} <==> forall u :: 0 <= u < |s.pcs| ==> Outside(s.pcs[u])
    ensures h.q == [] <==> forall u :: 0 <= u < |s.pcs| ==> Outside(s.pcs[u]) || s.pcs[u].Reading?
  {
    if h.q != [] {
      assert h.q[0] in h.q;
    }
    if h.readers != {} {
      var r :| r in h.readers;
      assert s.pcs[r].Reading?;
    }
  }

  /** Undisturbed, the write trylock succeeds exactly when nobody holds or waits for the lock; when it fails
      nothing changes. */
  lemma TryWriteSucceedsExactlyWhen(n: nat, sched: seq<Move>, t: Tid)
    requires n <= 256 && Schedule(n, sched) && t < n && Run(n, sched).pcs[t] == Idle
    ensures Schedule(n, sched + [Move(t, TryWriteLock)] + [Move(t, TryWriteLock)])
    ensures var s, s' := Run(n, sched), Run(n, sched + [Move(t, TryWriteLock)] + [Move(t, TryWriteLock)]);
            && (s'.pcs[t] == Writing <==> forall u :: 0 <= u < n ==> Outside(s.pcs[u]))
            && (s'.pcs[t] != Writing ==> s' == s)
  {
    var m := Move(t, TryWriteLock);
    RunKeepsInv(n, sched);
    RunExtends(n, sched, m);
    RunExtends(n, sched + [m], m);
    OutsideComparesTrue(Run(n, sched), RunHistory(n, sched), t);
    WhoIsInside(Run(n, sched), RunHistory(n, sched));
  }

  /** Undisturbed, the read trylock succeeds exactly when everybody else is outside or reading. */
  lemma TryReadSucceedsExactlyWhen(n: nat, sched: seq<Move>, t: Tid)
    requires n <= 256 && Schedule(n, sched) && t < n && Run(n, sched).pcs[t] == Idle
    ensures Schedule(n, sched + [Move(t, TryReadLock)] + [Move(t, TryReadLock)])
    ensures var s, s' := Run(n, sched), Run(n, sched + [Move(t, TryReadLock)] + [Move(t, TryReadLock)]);
            && (s'.pcs[t] == Reading <==> forall u :: 0 <= u < n ==> Outside(s.pcs[u]) || s.pcs[u].Reading?)
            && (s'.pcs[t] != Reading ==> s' == s)
  {
    var m := Move(t, TryReadLock);
    RunKeepsInv(n, sched);
    RunExtends(n, sched, m);
    RunExtends(n, sched + [m], m);
    OutsideComparesTrue(Run(n, sched), RunHistory(n, sched), t);
    WhoIsInside(Run(n, sched), RunHistory(n, sched));
  }

  /** However a trylock is disturbed, it leaves the word alone unless it lets its thread in. */
  lemma FailedTryLeavesWord(s: State, m: Move)
    requires m.t < |s.pcs| && Outside(s.pcs[m.t])
    requires s.pcs[m.t].Idle? ==> m.op.TryWriteLock? || m.op.TryReadLock?
    ensures Inside(Step(s, m).pcs[m.t]) || (Step(s, m).word == s.word && Outside(Step(s, m).pcs[m.t]))
  {
  }

  /** A thread that finds the lock free is a writer after its first access; one that finds nobody but readers
      is a reader after three. */
  lemma FreeLockIsTaken(n: nat, sched: seq<Move>, t: Tid)
    requires n <= 256 && Schedule(n, sched) && t < n && Run(n, sched).pcs[t] == Idle
    ensures Schedule(n, sched + [Move(t, WriteLock)])
    ensures Run(n, sched + [Move(t, WriteLock)]).pcs[t] == Writing <==>
            forall u :: 0 <= u < n ==> Outside(Run(n, sched).pcs[u])
    ensures var m := Move(t, ReadLock);
            && Schedule(n, sched + [m] + [m] + [m])
            && (Run(n, sched + [m] + [m] + [m]).pcs[t] == Reading <==>
                forall u :: 0 <= u < n ==> Outside(Run(n, sched).pcs[u]) || Run(n, sched).pcs[u].Reading?)
  {
    var m := Move(t, ReadLock);
    RunKeepsInv(n, sched);
    RunExtends(n, sched, Move(t, WriteLock));
    RunExtends(n, sched, m);
    RunExtends(n, sched + [m], m);
    RunExtends(n, sched + [m] + [m], m);
    OutsideComparesTrue(Run(n, sched), RunHistory(n, sched), t);
    WhoIsInside(Run(n, sched), RunHistory(n, sched));
  }

  /** How many accesses the thread is away from leaving the queue. */
  function Rank(pc: Pc): nat {
    match pc
    case WriteSpin(_) => 3
    case ReadSpin(_) => 3
    case Writing => 2
    case ReadLoad => 2
    case _ => 1
  }

  function RankOf(s: State, q: seq<Tid>): nat {
    if q != [] && q[0] < |s.pcs| then Rank(s.pcs[q[0]]) else 0
  }

  /** A reader, or without readers the oldest waiting thread, gets one access further. */
  lemma NextGetsFurther(s: State, h: History) returns (u: Tid)
    requires Inv(s, h) && |s.pcs| <= 256 && h.q != []
    ensures u < |s.pcs| && Inv(Step(s, Move(u, ReadLock)), NextHistory(s, h, Move(u, ReadLock)))
    ensures forall v :: 0 <= v < |s.pcs| && v != u ==> Step(s, Move(u, ReadLock)).pcs[v] == s.pcs[v]
    ensures var s', h' := Step(s, Move(u, ReadLock)), NextHistory(s, h, Move(u, ReadLock));
            || (h'.q == h.q && u !in h.q && |h'.readers| < |h.readers|)
            || (h'.q == h.q && u == h.q[0] && h'.readers == h.readers && RankOf(s', h'.q) < RankOf(s, h.q))
            || (h'.q == h.q[1..] && u == h.q[0] && !Inside(s'.pcs[u]) && s.pcs[u].WriteStore?)
            || (h'.q == h.q[1..] && u == h.q[0] && s'.pcs[u] == Reading)
  {
    if h.readers != {} {
      u :| u in h.readers;
      assert u !in h.q;
    } else {
      u := h.q[0];
      assert u in h.q && QueuedOk(s, h, 0);
      WaiterComparesTrue(s, h, 0);
    }
    StepKeepsInv(s, h, Move(u, ReadLock));
  }

  /** Every thread waiting for the lock can still get in, whatever has happened: some continuation of the
      run lets it in. */
  lemma {:induction false} EveryWaiterCanGetIn(n: nat, sched: seq<Move>, t: Tid) returns (more: seq<Move>)
    requires n <= 256 && Schedule(n, sched) && t < n && !Outside(Run(n, sched).pcs[t])
    ensures Schedule(n, sched + more) && Inside(Run(n, sched + more).pcs[t])
  {
    RunKeepsInv(n, sched);
    more := [];
    assert sched + more == sched;
    var s, h := Run(n, sched), RunHistory(n, sched);
    if !Inside(s.pcs[t]) {
      assert t in h.q;
      var i :| 0 <= i < |h.q| && h.q[i] == t;
      more := WaiterGetsIn(n, sched, t, i);
    }
  }

  /** A waiting thread is let in by the next access, or moves up, or those ahead of it do. */
  lemma WaiterMovesUp(s: State, h: History, t: Tid, i: nat) returns (u: Tid, j: nat)
    requires Inv(s, h) && |s.pcs| <= 256 && i < |h.q| && h.q[i] == t < |s.pcs| && !Inside(s.pcs[t])
    ensures u < |s.pcs|
    ensures var s', h' := Step(s, Move(u, ReadLock)), NextHistory(s, h, Move(u, ReadLock));
            Inside(s'.pcs[t]) ||
            (j < |h'.q| && h'.q[j] == t &&
             (j < i || (j == i && (|h'.readers| < |h.readers| ||
                                   (h'.readers == h.readers && RankOf(s', h'.q) < RankOf(s, h.q))))))
  {
    u := NextGetsFurther(s, h);
    var h' := NextHistory(s, h, Move(u, ReadLock));
    j := if h'.q == h.q || i == 0 then i else i - 1;
    assert i > 0 ==> h.q[0] != h.q[i];
    hide Inv, Step, NextHistory, RankOf;
  }

  lemma {:induction false} WaiterGetsIn(n: nat, sched: seq<Move>, t: Tid, i: nat) returns (more: seq<Move>)
    requires n <= 256 && Schedule(n, sched) && t < n && !Inside(Run(n, sched).pcs[t])
    requires i < |RunHistory(n, sched).q| && RunHistory(n, sched).q[i] == t
    ensures Schedule(n, sched + more) && Inside(Run(n, sched + more).pcs[t])
    decreases i, |RunHistory(n, sched).readers|, RankOf(Run(n, sched), RunHistory(n, sched).q)
  {
    hide Inv, Step, NextHistory, RankOf, Schedule, Inside;
    RunKeepsInv(n, sched);
    var u, j := WaiterMovesUp(Run(n, sched), RunHistory(n, sched), t, i);
    var m := Move(u, ReadLock);
    RunExtends(n, sched, m);
    var rest := [];
    if !Inside(Run(n, sched + [m]).pcs[t]) { rest := WaiterGetsIn(n, sched + [m], t, j); }
    more := [m] + rest;
    assert sched + more == sched + [m] + rest;
    assert sched + [m] + [] == sched + [m];
  }

  /** A writer is outside again after two accesses, a reader after one. */
  lemma HoldersCanLeave(n: nat, sched: seq<Move>, t: Tid)
    requires Schedule(n, sched) && t < n
    ensures var m, s := Move(t, WriteLock), Run(n, sched);
            && Schedule(n, sched + [m]) && Schedule(n, sched + [m] + [m])
            && (s.pcs[t] == Writing ==> Run(n, sched + [m] + [m]).pcs[t] == Idle)
            && (s.pcs[t] == Reading ==> Run(n, sched + [m]).pcs[t] == Idle)
  {
    RunExtends(n, sched, Move(t, WriteLock));
    RunExtends(n, sched + [Move(t, WriteLock)], Move(t, WriteLock));
  }

  // ---------- How many threads the 8-bit counters can serve ----------

  /** Threads 0, 1, .. k-1 ask for the write lock, one after the other. */
  ghost function Crowd(k: nat): (sched: seq<Move>)
    ensures |sched| == k && forall i :: 0 <= i < k ==> sched[i] == Move(i, WriteLock)
  {
    seq(k, i requires 0 <= i => Move(i, WriteLock))
  }

  ghost function CrowdPc(k: nat, t: nat): Pc
    requires t < k <= 256
  {
    if t == 0 then Writing else WriteSpin(t)
  }

  /** The first 256 of them find the word in order: one writes, the others wait. */
  lemma {:induction false} CrowdState(n: nat, k: nat)
    requires k <= 256 && k <= n
    ensures Crowded(Run(n, Crowd(k)), k)
  {
    if k > 0 {
      CrowdState(n, k - 1);
      CrowdStep(n, k - 1);
      NextOfCrowd(Run(n, Crowd(k - 1)), k - 1);
    } else {
      assert Crowd(0) == [];
    }
  }

  ghost predicate Crowded(s: State, k: nat)
    requires k <= 256 && k <= |s.pcs|
  {
    && s.word == Word(0, 0, k)
    && (forall t :: 0 <= t < k ==> s.pcs[t] == CrowdPc(k, t))
    && (forall t :: k <= t < |s.pcs| ==> s.pcs[t] == Idle)
  }

  lemma NextOfCrowd(s: State, k: nat)
    requires k < 256 && k < |s.pcs| && Crowded(s, k)
    ensures Crowded(Step(s, Move(k, WriteLock)), k + 1)
  {
    var pc := if k == 0 then Writing else WriteSpin(k);
    assert s.word.User() == k;
    assert Step(s, Move(k, WriteLock)) == At(s, k, Word(0, 0, k + 1), pc);
    hide Step;
  }

  lemma CrowdStep(n: nat, k: nat)
    requires k < n
    ensures Run(n, Crowd(k + 1)) == Step(Run(n, Crowd(k)), Move(k, WriteLock))
  {
    assert Crowd(k + 1)[..k] == Crowd(k);
  }

  lemma TooManyThreads(n: nat)
    requires n > 256
    ensures Schedule(n, Crowd(257)) && !Safe(Run(n, Crowd(257)))
  {
    CrowdState(n, 256);
    CrowdStep(n, 256);
    var s := Run(n, Crowd(257));
    assert Run(n, Crowd(256)).pcs[0] == CrowdPc(256, 0);
    assert s.pcs[0] == Writing && s.pcs[256] == Writing;
  }

  /** The lock keeps writers apart from each other and from readers in every run of `n` threads
      exactly when there are at most 256 of them. */
  lemma SafeExactlyUpTo256Threads(n: nat)
    ensures (forall sched | Schedule(n, sched) :: Safe(Run(n, sched))) <==> n <= 256
  {
    if n <= 256 {
      forall sched | Schedule(n, sched)
        ensures Safe(Run(n, sched))
      {
        RunKeepsInv(n, sched);
        InvImpliesSafe(Run(n, sched), RunHistory(n, sched));
      }
    } else {
      TooManyThreads(n);
    }
  }

  // ---------- The lock as a shared word updated in place ----------

  class Machine {
    var word: Word
    const pcs: array<Pc>

    ghost function Abs(): State
      reads this, pcs
    {
      State(word, pcs[..])
    }

    constructor (n: nat)
      ensures fresh(pcs) && Abs() == Init(n)
    {
      word := Word(0, 0, 0);
      pcs := new Pc[n](_ => Idle);
    }

    /** Thread `m.t` performs its next access to the shared word. */
    method Advance(m: Move)
      requires m.t < pcs.Length
      modifies this, pcs
      ensures Abs() == Step(old(Abs()), m)
    {
      var t := m.t;
      match pcs[t] {
        case Idle =>
          var snap := word;
          match m.op {
            case WriteLock =>
              word := snap.Take();
              pcs[t] := if snap.write == snap.User() then Writing else WriteSpin(snap.User());
            case ReadLock =>
              word := snap.Take();
              pcs[t] := if snap.read == snap.User() then ReadLoad else ReadSpin(snap.User());
            case TryWriteLock => if snap.write == snap.User() { pcs[t] := TryWriteCas(snap); }
            case TryReadLock => if snap.read == snap.User() { pcs[t] := TryReadCas(snap); }
          }
        case WriteSpin(my) => if word.write == my { pcs[t] := Writing; }
        case Writing => pcs[t] := WriteStore(Inc(word.write), Inc(word.read));
        case WriteStore(x, y) =>
          word := word.(write := x, read := y);
          pcs[t] := Idle;
        case TryWriteCas(e) =>
          if word == e {
            word := e.Take();
            pcs[t] := Writing;
          } else {
            pcs[t] := Idle;
          }
        case ReadSpin(my) => if word.read == my { pcs[t] := ReadLoad; }
        case ReadLoad => pcs[t] := ReadStore(Inc(word.read));
        case ReadStore(y) =>
          word := word.(read := y);
          pcs[t] := Reading;
        case Reading =>
          word := word.(write := Inc(word.write));
          pcs[t] := Idle;
        case TryReadCas(e) =>
          if word == e {
            word := e.Take().(read := Inc(e.read));
            pcs[t] := Reading;
          } else {
            pcs[t] := Idle;
          }
      }
    }
  }
}
