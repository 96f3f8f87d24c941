/**
 The ticket lock of arch_spinlock.h, instruction by instruction, and its refinement
 of a FIFO queue lock with unbounded tickets.
 */
module TicketLock {
  import opened Words
  import opened Counting
  import opened Exclusive

  /** 1 << TICKET_SHIFT, also the number of values a ticket half can hold. */
  const TICKETS: nat := 0x1_0000

  // ----- the machine

  /** Where a CPU is. `w` is the lock word it has loaded. */
  datatype Pc =
    | Idle                  // outside the lock functions
    | Locking               // arch_spin_lock, at label 1
    | Storing(w: nat)       // has loaded the word, about to stxr
    | Checking(w: nat)      // stxr succeeded, about to compare owner and next
    | Spinning(w: nat)      // at label 2
    | Trying                // arch_spin_trylock, at label 1
    | TryStoring(w: nat)    // found the lock free, about to stxr
    | Critical              // past the lock
    | Releasing(v: nat)     // arch_spin_unlock, has read owner, about to store `v`

  datatype Lock = Lock(cell: Cell, cpus: seq<Pc>)

  function Owner(w: nat): nat { w % TICKETS }

  function Next(w: nat): nat { w / TICKETS % TICKETS }

  /** `add w1, w0, 1 << TICKET_SHIFT`, in 32 bits. */
  function TakeTicket(w: nat): nat { (w + TICKETS) % TWO32 }

  /** `stlrh` to the owner half of the word. */
  function SetOwner(w: nat, v: nat): nat { w / TICKETS * TICKETS + v }

  datatype Action =
    | BeginLock(c: nat) | LoadLock(c: nat) | StoreLock(c: nat) | FailLock(c: nat) | Check(c: nat) | Spin(c: nat)
    | BeginTry(c: nat) | LoadTry(c: nat) | StoreTry(c: nat) | FailTry(c: nat)
    | LoadOwner(c: nat) | StoreOwner(c: nat)

  predicate Enabled(m: Lock, a: Action) {
    a.c < |m.cpus| &&
    var pc := m.cpus[a.c];
    match a
    case BeginLock(_) | BeginTry(_) => pc.Idle?
    case LoadLock(_) => pc.Locking?
    case StoreLock(c) => pc.Storing? && c in m.cell.reserved
    case FailLock(_) => pc.Storing?
    case Check(_) => pc.Checking?
    case Spin(_) => pc.Spinning?
    case LoadTry(_) => pc.Trying?
    case StoreTry(c) => pc.TryStoring? && c in m.cell.reserved
    case FailTry(_) => pc.TryStoring?
    case LoadOwner(_) => pc.Critical?
    case StoreOwner(_) => pc.Releasing?
  }

  function Step(m: Lock, a: Action): Lock
    requires Enabled(m, a)
  {
    var c, word, pc := a.c, m.cell.value, m.cpus[a.c];
    match a
    case BeginLock(_) => At(m, c, Locking)
    case LoadLock(_) => Lock(LoadEx(m.cell, c), m.cpus[c := Storing(word)])
    case StoreLock(_) => Lock(StoreEx(m.cell, c, TakeTicket(pc.w)), m.cpus[c := Checking(pc.w)])
    case FailLock(_) => Lock(FailEx(m.cell, c), m.cpus[c := Locking])
    case Check(_) => At(m, c, if Owner(pc.w) == Next(pc.w) then Critical else Spinning(pc.w))
    case Spin(_) =>
      Lock(LoadEx(m.cell, c), m.cpus[c := if Owner(word) == Next(pc.w) then Critical else pc])
    case BeginTry(_) => At(m, c, Trying)
    case LoadTry(_) =>
      Lock(LoadEx(m.cell, c), m.cpus[c := if Owner(word) == Next(word) then TryStoring(word) else Idle])
    case StoreTry(_) => Lock(StoreEx(m.cell, c, TakeTicket(pc.w)), m.cpus[c := Critical])
    case FailTry(_) => Lock(FailEx(m.cell, c), m.cpus[c := Trying])
    case LoadOwner(_) => At(m, c, Releasing((Owner(word) + 1) % TICKETS))
    case StoreOwner(_) => Lock(Store(m.cell, c, SetOwner(word, pc.v)), m.cpus[c := Idle])
  }

  function At(m: Lock, c: nat, pc: Pc): Lock
    requires c < |m.cpus|
  {
    m.(cpus := m.cpus[c := pc])
  }

  /** What a step does, seen from outside: a ticket taken, the lock entered, the lock given up. */
  datatype Event = Took(c: nat) | Entered(c: nat) | Released(c: nat)

  function Events(m: Lock, a: Action): seq<Event>
    requires Enabled(m, a)
  {
    match a
    case StoreLock(c) => [Took(c)]
    case StoreTry(c) => [Took(c), Entered(c)]
    case Check(c) => if Step(m, a).cpus[c].Critical? then [Entered(c)] else []
    case Spin(c) => if Step(m, a).cpus[c].Critical? then [Entered(c)] else []
    case StoreOwner(c) => [Released(c)]
    case _ => []
  }

  // ----- the specification: a queue lock with unbounded tickets

  /** All tickets ever taken, in order, and how many of their holders have entered and left. */
  datatype Queue = Queue(taken: seq<nat>, entered: nat, released: nat)

  predicate QueueOk(q: Queue) {
    q.released <= q.entered <= |q.taken| && q.entered <= q.released + 1
  }

  /** The holder, if any, and the waiters, in order. */
  function Line(q: Queue): seq<nat>
    requires QueueOk(q)
  {
    q.taken[q.released..]
  }

  predicate QueueEnabled(q: Queue, e: Event)
    requires QueueOk(q)
  {
    match e
    case Took(c) => c !in Line(q)
    case Entered(c) => q.entered == q.released && q.entered < |q.taken| && q.taken[q.entered] == c
    case Released(c) => q.entered > q.released && q.taken[q.released] == c
  }

  function QueueStep(q: Queue, e: Event): (r: Queue)
    requires QueueOk(q) && QueueEnabled(q, e)
    ensures QueueOk(r)
  {
    match e
    case Took(c) => q.(taken := q.taken + [c])
    case Entered(_) => q.(entered := q.entered + 1)
    case Released(_) => q.(released := q.released + 1)
  }

  /** `es` is a behaviour of the queue lock from `q`. */
  predicate QueueTrace(q: Queue, es: seq<Event>)
    requires QueueOk(q)
    decreases |es|
  {
    es == [] || (QueueEnabled(q, es[0]) && QueueTrace(QueueStep(q, es[0]), es[1..]))
  }

  function QueueRun(q: Queue, es: seq<Event>): (r: Queue)
    requires QueueOk(q) && QueueTrace(q, es)
    ensures QueueOk(r)
    decreases |es|
  {
    if es == [] then q else QueueRun(QueueStep(q, es[0]), es[1..])
  }

  // ----- the refinement relation

  predicate HasTicket(pc: Pc) {
    pc.Checking? || pc.Spinning? || pc.Critical? || pc.Releasing?
  }

  /** Past the lock: between entering and the release store. */
  predicate Holds(pc: Pc) {
    pc.Critical? || pc.Releasing?
  }

  /** The CPU whose ticket is `i` is where the queue says. */
  predicate TicketOk(pc: Pc, i: nat, q: Queue) {
    match pc
    case Checking(w) => i >= q.entered && Next(w) == i % TICKETS && (Owner(w) == Next(w) ==> i == q.released)
    case Spinning(w) => i >= q.entered && Next(w) == i % TICKETS
    case Critical => i < q.entered
    case Releasing(v) => i < q.entered && v == (i + 1) % TICKETS
    case _ => false
  }

  /** The word holds the low 16 bits of the two unbounded counters. */
  predicate WordOk(m: Lock, q: Queue) {
    m.cell.value == |q.taken| % TICKETS * TICKETS + q.released % TICKETS
  }

  ghost predicate LineOk(m: Lock, q: Queue)
    requires QueueOk(q)
  {
    && AllDistinct(Line(q))
    && (forall i :: q.released <= i < |q.taken| ==>
          q.taken[i] < |m.cpus| && TicketOk(m.cpus[q.taken[i]], i, q))
    && (forall c :: 0 <= c < |m.cpus| && HasTicket(m.cpus[c]) ==> c in Line(q))
  }

  /** A reservation that is still there vouches for the loaded word. */
  ghost predicate ReservedOk(m: Lock) {
    forall c :: 0 <= c < |m.cpus| ==>
      match m.cpus[c]
      case Storing(w) => c in m.cell.reserved ==> w == m.cell.value
      case TryStoring(w) => Owner(w) == Next(w) && (c in m.cell.reserved ==> w == m.cell.value)
      case _ => true
  }

  ghost predicate Refines(m: Lock, q: Queue) {
    QueueOk(q) && WordOk(m, q) && LineOk(m, q) && ReservedOk(m)
  }

  /** The line is never longer than the number of CPUs; shorter when one of them is not in it. */
  lemma LineLength(m: Lock, q: Queue)
    requires Refines(m, q)
    ensures |Line(q)| <= |m.cpus|
    ensures forall c :: 0 <= c < |m.cpus| && c !in Line(q) ==> |Line(q)| < |m.cpus|
  {
    AtMost(Line(q), |m.cpus|);
    forall c | 0 <= c < |m.cpus| && c !in Line(q) ensures |Line(q)| < |m.cpus| {
      AtMost(Line(q) + [c], |m.cpus|);
    }
  }

  // ----- simulation, one action at a time

  /** Tickets of CPUs in line differ by less than the range of a half-word. */
  lemma TicketsDiffer(i: nat, k: nat)
    requires i <= k < i + TICKETS && i % TICKETS == k % TICKETS
    ensures i == k
  {
  }

  /** The word of a queue, unpacked. */
  lemma Unpack(w: nat, n: nat, o: nat)
    requires n < TICKETS && o < TICKETS && w == n * TICKETS + o
    ensures Owner(w) == o && Next(w) == n
    ensures TakeTicket(w) == (n + 1) % TICKETS * TICKETS + o
    ensures forall v: nat :: v < TICKETS ==> SetOwner(w, v) == n * TICKETS + v
  {
  }

  /** The CPU is in line, at a place that its step changes at most. */
  lemma PlaceOf(m: Lock, q: Queue, c: nat) returns (i: nat)
    requires Refines(m, q) && c < |m.cpus| && HasTicket(m.cpus[c])
    ensures q.released <= i < |q.taken| && q.taken[i] == c && TicketOk(m.cpus[c], i, q)
    ensures forall k :: q.released <= k < |q.taken| && k != i ==> q.taken[k] != c
    ensures |q.taken| <= q.released + |m.cpus|
  {
    LineLength(m, q);
    var k :| 0 <= k < |Line(q)| && Line(q)[k] == c;
    i := q.released + k;
    forall x | q.released <= x < |q.taken| && x != i ensures q.taken[x] != c {
      assert Line(q)[x - q.released] == q.taken[x];
    }
  }

  /** A step of a CPU that is not in line, and does not join it, changes no ticket. */
  lemma StepAside(m: Lock, q: Queue, m': Lock, c: nat)
    requires Refines(m, q) && c < |m.cpus| && !HasTicket(m.cpus[c])
    requires |m'.cpus| == |m.cpus| && m'.cpus == m.cpus[c := m'.cpus[c]] && !HasTicket(m'.cpus[c])
    ensures LineOk(m', q)
  {
    forall i | q.released <= i < |q.taken| ensures q.taken[i] < |m'.cpus| && TicketOk(m'.cpus[q.taken[i]], i, q) {
      assert TicketOk(m.cpus[q.taken[i]], i, q);
    }
  }

  /** Steps that take no ticket and hold none: the queue does not move. */
  lemma SimulateAside(m: Lock, q: Queue, a: Action)
    requires Refines(m, q) && Enabled(m, a)
    requires a.BeginLock? || a.LoadLock? || a.FailLock? || a.BeginTry? || a.LoadTry? || a.FailTry?
    ensures Refines(Step(m, a), q)
  {
    StepAside(m, q, Step(m, a), a.c);
  }

  /** The queue after `c` has taken a ticket. */
  lemma TakeKeepsLine(m: Lock, q: Queue, m': Lock, c: nat)
    requires Refines(m, q) && |m.cpus| <= TICKETS && c < |m.cpus| && c !in Line(q)
    requires |m'.cpus| == |m.cpus| && m'.cpus == m.cpus[c := m'.cpus[c]]
    requires TicketOk(m'.cpus[c], |q.taken|, q.(taken := q.taken + [c]))
    ensures LineOk(m', q.(taken := q.taken + [c]))
  {
    var q' := q.(taken := q.taken + [c]);
    assert Line(q') == Line(q) + [c];
    forall i | q.released <= i < |q'.taken| ensures q'.taken[i] < |m'.cpus| && TicketOk(m'.cpus[q'.taken[i]], i, q') {
      if i < |q.taken| {
        assert Line(q)[i - q.released] == q.taken[i];
        assert TicketOk(m.cpus[q.taken[i]], i, q);
      }
    }
  }

  /** What taking a ticket writes: the next half goes up by one, the owner half stays. */
  lemma TakeKeepsWord(m: Lock, q: Queue, c: nat)
    requires QueueOk(q) && WordOk(m, q)
    ensures var w := m.cell.value;
            && TakeTicket(w) == (|q.taken| + 1) % TICKETS * TICKETS + q.released % TICKETS
            && Owner(w) == q.released % TICKETS && Next(w) == |q.taken| % TICKETS
  {
    Unpack(m.cell.value, |q.taken| % TICKETS, q.released % TICKETS);
    TicketAfter(|q.taken|);
  }

  lemma TicketAfter(t: nat)
    ensures (t % TICKETS + 1) % TICKETS == (t + 1) % TICKETS
  {
  }

  /** The lock looks free exactly when nobody is in line, as long as not all 2^16 tickets are out. */
  lemma FreeMeansEmpty(m: Lock, q: Queue)
    requires Refines(m, q) && |Line(q)| < TICKETS
    ensures Owner(m.cell.value) == Next(m.cell.value) <==> Line(q) == []
  {
    TakeKeepsWord(m, q, 0);
    if q.released % TICKETS == |q.taken| % TICKETS { TicketsDiffer(q.released, |q.taken|); }
  }

  lemma NotInLine(m: Lock, q: Queue, c: nat)
    requires Refines(m, q) && c < |m.cpus| && !HasTicket(m.cpus[c])
    ensures c !in Line(q)
  {
    forall k | 0 <= k < |Line(q)| ensures Line(q)[k] != c {
      assert TicketOk(m.cpus[q.taken[q.released + k]], q.released + k, q);
    }
  }

  lemma SimulateTake(m: Lock, q: Queue, c: nat)
    requires Refines(m, q) && |m.cpus| <= TICKETS && Enabled(m, StoreLock(c))
    ensures QueueEnabled(q, Took(c)) && Refines(Step(m, StoreLock(c)), QueueStep(q, Took(c)))
  {
    NotInLine(m, q, c);
    LineLength(m, q);
    TakeKeepsWord(m, q, c);
    FreeMeansEmpty(m, q);
    TakeKeepsLine(m, q, Step(m, StoreLock(c)), c);
  }

  lemma SimulateTry(m: Lock, q: Queue, c: nat)
    requires Refines(m, q) && |m.cpus| <= TICKETS && Enabled(m, StoreTry(c))
    ensures QueueEnabled(q, Took(c)) && QueueEnabled(QueueStep(q, Took(c)), Entered(c))
    ensures Refines(Step(m, StoreTry(c)), QueueStep(QueueStep(q, Took(c)), Entered(c)))
  {
    NotInLine(m, q, c);
    LineLength(m, q);
    TakeKeepsWord(m, q, c);
    FreeMeansEmpty(m, q);
    var m' := Step(m, StoreTry(c));
    var q' := QueueStep(QueueStep(q, Took(c)), Entered(c));
    assert Line(q') == [c];
    forall x | 0 <= x < |m'.cpus| && HasTicket(m'.cpus[x]) ensures x in Line(q') {
      if x != c { assert HasTicket(m.cpus[x]); }
    }
  }

  /** A step of the CPU at place `i` that keeps its ticket. */
  lemma KeepTicket(m: Lock, q: Queue, m': Lock, q': Queue, c: nat, i: nat)
    requires Refines(m, q) && QueueOk(q') && q'.taken == q.taken && q'.released == q.released
    requires q.released <= i < |q.taken| && q.taken[i] == c && c < |m.cpus|
    requires |m'.cpus| == |m.cpus| && m'.cpus == m.cpus[c := m'.cpus[c]] && TicketOk(m'.cpus[c], i, q')
    requires q' == q || (i == q.released && q.entered == q.released && q'.entered == q.entered + 1)
    ensures LineOk(m', q')
  {
    assert Line(q')[i - q.released] == c;
    forall k | q.released <= k < |q.taken| ensures q.taken[k] < |m'.cpus| && TicketOk(m'.cpus[q.taken[k]], k, q') {
      assert Line(q)[k - q.released] == q.taken[k];
      assert TicketOk(m.cpus[q.taken[k]], k, q);
      if k != i { assert Line(q)[k - q.released] != Line(q)[i - q.released]; }
    }
  }

  /** Both ways in: the ticket is the owner's, so its holder is first in line and enters. */
  lemma SimulateEnter(m: Lock, q: Queue, a: Action)
    requires Refines(m, q) && |m.cpus| <= TICKETS && Enabled(m, a) && (a.Check? || a.Spin?)
    ensures QueueTrace(q, Events(m, a)) && Refines(Step(m, a), QueueRun(q, Events(m, a)))
  {
    var c := a.c;
    var i := PlaceOf(m, q, c);
    var m' := Step(m, a);
    TakeKeepsWord(m, q, c);
    if m'.cpus[c].Critical? {
      if a.Spin? { TicketsDiffer(q.released, i); }
      assert QueueEnabled(q, Entered(c));
      var q' := QueueStep(q, Entered(c));
      assert QueueRun(q, [Entered(c)]) == q' by { assert [Entered(c)][1..] == []; }
      KeepTicket(m, q, m', q', c, i);
    } else {
      KeepTicket(m, q, m', q, c, i);
    }
  }

  lemma NextOwner(i: nat)
    ensures (i % TICKETS + 1) % TICKETS == (i + 1) % TICKETS
  {
  }

  lemma SimulateLoadOwner(m: Lock, q: Queue, c: nat)
    requires Refines(m, q) && Enabled(m, LoadOwner(c))
    ensures Refines(Step(m, LoadOwner(c)), q)
  {
    var i := PlaceOf(m, q, c);
    TakeKeepsWord(m, q, c);
    NextOwner(i);
    KeepTicket(m, q, Step(m, LoadOwner(c)), q, c, i);
  }

  /** The release store writes the low half only. */
  lemma ReleaseWord(m: Lock, q: Queue, v: nat)
    requires WordOk(m, q) && v == (q.released + 1) % TICKETS
    ensures SetOwner(m.cell.value, v) == |q.taken| % TICKETS * TICKETS + v
  {
    Unpack(m.cell.value, |q.taken| % TICKETS, q.released % TICKETS);
  }

  lemma SimulateRelease(m: Lock, q: Queue, c: nat)
    requires Refines(m, q) && Enabled(m, StoreOwner(c))
    ensures QueueEnabled(q, Released(c)) && Refines(Step(m, StoreOwner(c)), QueueStep(q, Released(c)))
  {
    var i := PlaceOf(m, q, c);
    ReleaseWord(m, q, m.cpus[c].v);
    ReleaseLine(m, q, Step(m, StoreOwner(c)), c);
  }

  lemma ReleaseLine(m: Lock, q: Queue, m': Lock, c: nat)
    requires Refines(m, q) && c < |m.cpus| && m'.cpus == m.cpus[c := Idle]
    requires q.released < q.entered && q.taken[q.released] == c
    ensures LineOk(m', q.(released := q.released + 1))
  {
    var q' := q.(released := q.released + 1);
    assert Line(q') == Line(q)[1..];
    forall k | q'.released <= k < |q.taken| ensures q.taken[k] < |m'.cpus| && TicketOk(m'.cpus[q.taken[k]], k, q') {
      assert Line(q)[k - q.released] == q.taken[k] && Line(q)[0] == c;
      assert TicketOk(m.cpus[q.taken[k]], k, q);
    }
    forall x | 0 <= x < |m'.cpus| && HasTicket(m'.cpus[x]) ensures x in Line(q') {
      assert x in Line(q) && x != Line(q)[0];
    }
  }

  // ----- one step, any run

  lemma OneEvent(q: Queue, e: Event)
    requires QueueOk(q) && QueueEnabled(q, e)
    ensures QueueTrace(q, [e]) && QueueRun(q, [e]) == QueueStep(q, e)
  {
    assert [e][1..] == [];
  }

  /** Every step of the machine is a behaviour of the queue lock. */
  lemma Simulate(m: Lock, q: Queue, a: Action)
    requires Refines(m, q) && |m.cpus| <= TICKETS && Enabled(m, a)
    ensures QueueTrace(q, Events(m, a)) && Refines(Step(m, a), QueueRun(q, Events(m, a)))
  {
    match a
    case StoreLock(c) => SimulateTake(m, q, c); OneEvent(q, Took(c));
    case StoreTry(c) =>
      SimulateTry(m, q, c);
      OneEvent(QueueStep(q, Took(c)), Entered(c));
      assert [Took(c), Entered(c)][1..] == [Entered(c)];
    case Check(_) => SimulateEnter(m, q, a);
    case Spin(_) => SimulateEnter(m, q, a);
    case LoadOwner(c) => SimulateLoadOwner(m, q, c);
    case StoreOwner(c) => SimulateRelease(m, q, c); OneEvent(q, Released(c));
    case _ => SimulateAside(m, q, a);
  }

  predicate Runs(m: Lock, acts: seq<Action>)
    decreases |acts|
  {
    acts == [] || (Enabled(m, acts[0]) && Runs(Step(m, acts[0]), acts[1..]))
  }

  function After(m: Lock, acts: seq<Action>): Lock
    requires Runs(m, acts)
    decreases |acts|
  {
    if acts == [] then m else After(Step(m, acts[0]), acts[1..])
  }

  function Trace(m: Lock, acts: seq<Action>): seq<Event>
    requires Runs(m, acts)
    decreases |acts|
  {
    if acts == [] then [] else Events(m, acts[0]) + Trace(Step(m, acts[0]), acts[1..])
  }

  /** __ARCH_SPIN_LOCK_UNLOCKED, with `n` CPUs. */
  function Init(n: nat): Lock {
    Lock(Cell(0, {}), seq(n, _ => Idle))
  }

  const EmptyQueue := Queue([], 0, 0)

  lemma {:induction false} TraceSplit(q: Queue, xs: seq<Event>, ys: seq<Event>)
    requires QueueOk(q) && QueueTrace(q, xs) && QueueTrace(QueueRun(q, xs), ys)
    ensures QueueTrace(q, xs + ys) && QueueRun(q, xs + ys) == QueueRun(QueueRun(q, xs), ys)
    decreases |xs|
  {
    if xs == [] {
      assert xs + ys == ys;
    } else {
      assert (xs + ys)[1..] == xs[1..] + ys;
      TraceSplit(QueueStep(q, xs[0]), xs[1..], ys);
    }
  }

  lemma {:induction false} SimulateRun(m: Lock, q: Queue, acts: seq<Action>)
    requires Refines(m, q) && |m.cpus| <= TICKETS && Runs(m, acts)
    ensures QueueTrace(q, Trace(m, acts)) && Refines(After(m, acts), QueueRun(q, Trace(m, acts)))
    ensures |After(m, acts).cpus| == |m.cpus|
    decreases |acts|
  {
    if acts != [] {
      Simulate(m, q, acts[0]);
      SimulateRun(Step(m, acts[0]), QueueRun(q, Events(m, acts[0])), acts[1..]);
      TraceSplit(q, Events(m, acts[0]), Trace(Step(m, acts[0]), acts[1..]));
    }
  }

  /** The queue that a run of the machine has built up. */
  function QueueOf(n: nat, acts: seq<Action>): Queue
    requires n <= TICKETS && Runs(Init(n), acts)
  {
    SimulateRun(Init(n), EmptyQueue, acts);
    QueueRun(EmptyQueue, Trace(Init(n), acts))
  }

  /** Refinement: the trace of every run of the machine is a trace of the queue lock. */
  lemma LockRefinesQueue(n: nat, acts: seq<Action>)
    requires n <= TICKETS && Runs(Init(n), acts)
    ensures QueueTrace(EmptyQueue, Trace(Init(n), acts))
    ensures Refines(After(Init(n), acts), QueueOf(n, acts)) && |After(Init(n), acts).cpus| == n
  {
    SimulateRun(Init(n), EmptyQueue, acts);
  }

  // ----- what the queue lock gives

  ghost predicate AtMostOne(m: Lock) {
    forall c, d :: 0 <= c < d < |m.cpus| ==> !(Holds(m.cpus[c]) && Holds(m.cpus[d]))
  }

  lemma RefinesMutex(m: Lock, q: Queue)
    requires Refines(m, q)
    ensures AtMostOne(m)
  {
    forall c, d | 0 <= c < d < |m.cpus| && Holds(m.cpus[c]) && Holds(m.cpus[d]) ensures false {
      var i := PlaceOf(m, q, c);
      var k := PlaceOf(m, q, d);
    }
  }

  /** The CPUs of the events of one kind. */
  function Tooks(es: seq<Event>): seq<nat> {
    if es == [] then [] else (if es[0].Took? then [es[0].c] else []) + Tooks(es[1..])
  }

  function Enters(es: seq<Event>): seq<nat> {
    if es == [] then [] else (if es[0].Entered? then [es[0].c] else []) + Enters(es[1..])
  }

  function Leaves(es: seq<Event>): seq<nat> {
    if es == [] then [] else (if es[0].Released? then [es[0].c] else []) + Leaves(es[1..])
  }

  /** What one event adds to the three histories. */
  lemma HistoryStep(q: Queue, e: Event)
    requires QueueOk(q) && QueueEnabled(q, e)
    ensures var r := QueueStep(q, e);
            && r.taken == q.taken + (if e.Took? then [e.c] else [])
            && r.taken[..r.entered] == q.taken[..q.entered] + (if e.Entered? then [e.c] else [])
            && r.taken[..r.released] == q.taken[..q.released] + (if e.Released? then [e.c] else [])
  {
  }

  lemma {:induction false} TookHistory(q: Queue, es: seq<Event>)
    requires QueueOk(q) && QueueTrace(q, es)
    ensures var r := QueueRun(q, es); r.taken == q.taken + Tooks(es)
    decreases |es|
  {
    if es != [] {
      var q' := QueueStep(q, es[0]);
      HistoryStep(q, es[0]);
      TookHistory(q', es[1..]);
      var more := if es[0].Took? then [es[0].c] else [];
      assert q'.taken + Tooks(es[1..]) == q.taken + (more + Tooks(es[1..]));
    }
  }

  lemma {:induction false} EnterHistory(q: Queue, es: seq<Event>)
    requires QueueOk(q) && QueueTrace(q, es)
    ensures var r := QueueRun(q, es); r.taken[..r.entered] == q.taken[..q.entered] + Enters(es)
    decreases |es|
  {
    if es != [] {
      var q' := QueueStep(q, es[0]);
      HistoryStep(q, es[0]);
      EnterHistory(q', es[1..]);
      var more := if es[0].Entered? then [es[0].c] else [];
      assert q'.taken[..q'.entered] + Enters(es[1..]) == q.taken[..q.entered] + (more + Enters(es[1..]));
    }
  }

  lemma {:induction false} LeaveHistory(q: Queue, es: seq<Event>)
    requires QueueOk(q) && QueueTrace(q, es)
    ensures var r := QueueRun(q, es); r.taken[..r.released] == q.taken[..q.released] + Leaves(es)
    decreases |es|
  {
    if es != [] {
      var q' := QueueStep(q, es[0]);
      HistoryStep(q, es[0]);
      LeaveHistory(q', es[1..]);
      var more := if es[0].Released? then [es[0].c] else [];
      assert q'.taken[..q'.released] + Leaves(es[1..]) == q.taken[..q.released] + (more + Leaves(es[1..]));
    }
  }

  /**
   First in, first out, over any run and any number of counter wraps: CPUs enter in
   the order of their ticket stores and leave in the order in which they entered,
   and at most one is inside.
   */
  lemma FirstInFirstOut(n: nat, acts: seq<Action>)
    requires n <= TICKETS && Runs(Init(n), acts)
    ensures var es := Trace(Init(n), acts);
            Leaves(es) <= Enters(es) <= Tooks(es) && |Enters(es)| <= |Leaves(es)| + 1
  {
    LockRefinesQueue(n, acts);
    TookHistory(EmptyQueue, Trace(Init(n), acts));
    EnterHistory(EmptyQueue, Trace(Init(n), acts));
    LeaveHistory(EmptyQueue, Trace(Init(n), acts));
    var es, r := Trace(Init(n), acts), QueueOf(n, acts);
    assert [] + Tooks(es) == Tooks(es) && [] + Enters(es) == Enters(es) && [] + Leaves(es) == Leaves(es);
    assert Leaves(es) == r.taken[..r.released] && Enters(es) == r.taken[..r.entered] && Tooks(es) == r.taken;
  }

  /** A trylock succeeds only when nobody holds the lock or waits for it. */
  lemma TrylockNeverOvertakes(n: nat, acts: seq<Action>, c: nat)
    requires n <= TICKETS && Runs(Init(n), acts) && Enabled(After(Init(n), acts), StoreTry(c))
    ensures forall d :: 0 <= d < |After(Init(n), acts).cpus| ==> !HasTicket(After(Init(n), acts).cpus[d])
  {
    LockRefinesQueue(n, acts);
    var m, q := After(Init(n), acts), QueueOf(n, acts);
    NotInLine(m, q, c);
    LineLength(m, q);
    FreeMeansEmpty(m, q);
  }

  lemma RunsThree(m: Lock, a: Action, b: Action, c: Action)
    requires Enabled(m, a) && Enabled(Step(m, a), b) && Enabled(Step(Step(m, a), b), c)
    ensures Runs(m, [a, b, c]) && After(m, [a, b, c]) == Step(Step(Step(m, a), b), c)
  {
    TwoSteps(Step(m, a), b, c);
    assert [a, b, c][1..] == [b, c];
  }

  /**
   A trylock that is not disturbed: it takes the lock exactly when nobody holds the lock or waits
   for it, and otherwise gives up at its load, with the word as it was.
   */
  lemma TrylockExactly(n: nat, acts: seq<Action>, c: nat)
    requires n <= TICKETS && Runs(Init(n), acts) && c < |After(Init(n), acts).cpus|
    requires After(Init(n), acts).cpus[c] == Idle
    ensures var m := After(Init(n), acts);
            && Runs(m, [BeginTry(c), LoadTry(c)])
            && if forall d :: 0 <= d < |m.cpus| ==> !HasTicket(m.cpus[d])
               then Runs(m, [BeginTry(c), LoadTry(c), StoreTry(c)])
                    && After(m, [BeginTry(c), LoadTry(c), StoreTry(c)]).cpus == m.cpus[c := Critical]
               else After(m, [BeginTry(c), LoadTry(c)]).cpus == m.cpus
                    && After(m, [BeginTry(c), LoadTry(c)]).cell.value == m.cell.value
  {
    LockRefinesQueue(n, acts);
    var m, q := After(Init(n), acts), QueueOf(n, acts);
    FreeExactly(m, q, c);
    TrySteps(m, c);
  }

  /** The word looks free exactly when no CPU holds a ticket, if one of them has none. */
  lemma FreeExactly(m: Lock, q: Queue, c: nat)
    requires Refines(m, q) && |m.cpus| <= TICKETS && c < |m.cpus| && !HasTicket(m.cpus[c])
    ensures Owner(m.cell.value) == Next(m.cell.value) <==> forall d :: 0 <= d < |m.cpus| ==> !HasTicket(m.cpus[d])
  {
    NotInLine(m, q, c);
    LineLength(m, q);
    FreeMeansEmpty(m, q);
    if Line(q) != [] {
      assert q.taken[q.released] == Line(q)[0];
      assert TicketOk(m.cpus[q.taken[q.released]], q.released, q);
    }
  }

  lemma TrySteps(m: Lock, c: nat)
    requires c < |m.cpus| && m.cpus[c] == Idle
    ensures Runs(m, [BeginTry(c), LoadTry(c)])
    ensures if Owner(m.cell.value) == Next(m.cell.value)
            then Runs(m, [BeginTry(c), LoadTry(c), StoreTry(c)])
                 && After(m, [BeginTry(c), LoadTry(c), StoreTry(c)]).cpus == m.cpus[c := Critical]
            else After(m, [BeginTry(c), LoadTry(c)]).cpus == m.cpus
                 && After(m, [BeginTry(c), LoadTry(c)]).cell.value == m.cell.value
  {
    TwoSteps(m, BeginTry(c), LoadTry(c));
    if Owner(m.cell.value) == Next(m.cell.value) {
      RunsThree(m, BeginTry(c), LoadTry(c), StoreTry(c));
    }
  }

  /**
   A lock that is not disturbed takes its ticket whatever the state, and is then inside exactly
   when nobody held the lock or waited for it, and spins otherwise.
   */
  lemma LockExactly(n: nat, acts: seq<Action>, c: nat)
    requires n <= TICKETS && Runs(Init(n), acts) && c < |After(Init(n), acts).cpus|
    requires After(Init(n), acts).cpus[c] == Idle
    ensures var m := After(Init(n), acts);
            && Runs(m, [BeginLock(c), LoadLock(c), StoreLock(c)] + [Check(c)])
            && var m' := After(m, [BeginLock(c), LoadLock(c), StoreLock(c)] + [Check(c)]);
               && |m'.cpus| == |m.cpus|
               && if forall d :: 0 <= d < |m.cpus| ==> !HasTicket(m.cpus[d])
                  then m'.cpus[c] == Critical else m'.cpus[c].Spinning?
  {
    LockRefinesQueue(n, acts);
    var m, q := After(Init(n), acts), QueueOf(n, acts);
    FreeExactly(m, q, c);
    RunsThree(m, BeginLock(c), LoadLock(c), StoreLock(c));
    var m' := After(m, [BeginLock(c), LoadLock(c), StoreLock(c)]);
    RunsOne(m', Check(c));
    RunsSplit(m, [BeginLock(c), LoadLock(c), StoreLock(c)], [Check(c)]);
  }

  lemma RunsOne(m: Lock, a: Action)
    requires Enabled(m, a)
    ensures Runs(m, [a]) && After(m, [a]) == Step(m, a)
  {
    assert [a][1..] == [];
  }

  /** arch_spin_lock returns only with the lock, however its stores fail and whatever the other CPUs do. */
  lemma LockReturnsHolding(m: Lock, a: Action, c: nat)
    requires Enabled(m, a) && c < |m.cpus|
    requires m.cpus[c].Locking? || m.cpus[c].Storing? || m.cpus[c].Checking? || m.cpus[c].Spinning?
    ensures var pc := Step(m, a).cpus[c];
            pc.Locking? || pc.Storing? || pc.Checking? || pc.Spinning? || pc.Critical?
  {
  }

  /** arch_spin_trylock gives up only when it has seen the lock held or waited for, not when its store fails. */
  lemma TrylockGivesUp(n: nat, acts: seq<Action>, a: Action, c: nat)
    requires n <= TICKETS && Runs(Init(n), acts) && Enabled(After(Init(n), acts), a)
    requires c < |After(Init(n), acts).cpus|
    requires After(Init(n), acts).cpus[c].Trying? || After(Init(n), acts).cpus[c].TryStoring?
    ensures var m := After(Init(n), acts);
            var pc := Step(m, a).cpus[c];
            && (pc.Trying? || pc.TryStoring? || pc.Critical? || pc.Idle?)
            && (pc.Critical? ==> a == StoreTry(c))
            && (pc.Idle? ==> a == LoadTry(c) && exists d :: 0 <= d < |m.cpus| && HasTicket(m.cpus[d]))
  {
    LockRefinesQueue(n, acts);
    FreeExactly(After(Init(n), acts), QueueOf(n, acts), c);
    TryStep(After(Init(n), acts), a, c);
  }

  lemma TryStep(m: Lock, a: Action, c: nat)
    requires Enabled(m, a) && c < |m.cpus| && (m.cpus[c].Trying? || m.cpus[c].TryStoring?)
    ensures var pc := Step(m, a).cpus[c];
            && (pc.Trying? || pc.TryStoring? || pc.Critical? || pc.Idle?)
            && (pc.Critical? ==> a == StoreTry(c))
            && (pc.Idle? ==> a == LoadTry(c) && Owner(m.cell.value) != Next(m.cell.value))
  {
  }

  /** Whoever is inside gets out, and the next spin of the CPU whose ticket comes next lets it in. */
  lemma UnlockHandsOver(n: nat, acts: seq<Action>, c: nat, d: nat)
    requires n <= TICKETS && Runs(Init(n), acts)
    requires c < |After(Init(n), acts).cpus| && d < |After(Init(n), acts).cpus|
    requires After(Init(n), acts).cpus[c] == Critical && After(Init(n), acts).cpus[d].Spinning?
    requires var q := QueueOf(n, acts); q.released + 1 < |q.taken| && q.taken[q.released + 1] == d
    ensures var m := After(Init(n), acts);
            && Runs(m, [LoadOwner(c), StoreOwner(c), Spin(d)])
            && After(m, [LoadOwner(c), StoreOwner(c), Spin(d)]).cpus == m.cpus[c := Idle][d := Critical]
  {
    LockRefinesQueue(n, acts);
    var m, q := After(Init(n), acts), QueueOf(n, acts);
    assert TicketOk(m.cpus[d], q.released + 1, q);
    HandOverWords(m, q);
    RunsThree(m, LoadOwner(c), StoreOwner(c), Spin(d));
  }

  /** What the release store leaves in the owner half. */
  lemma HandOverWords(m: Lock, q: Queue)
    requires WordOk(m, q)
    ensures var v := (q.released + 1) % TICKETS;
            (Owner(m.cell.value) + 1) % TICKETS == v && Owner(SetOwner(m.cell.value, v)) == v
  {
    Unpack(m.cell.value, |q.taken| % TICKETS, q.released % TICKETS);
    TicketAfter(q.released);
    var v := (q.released + 1) % TICKETS;
    Unpack(|q.taken| % TICKETS * TICKETS + v, |q.taken| % TICKETS, v);
  }

  lemma TicketStore(m: Lock, q: Queue, a: Action)
    requires Refines(m, q) && Enabled(m, a) && (a.StoreLock? || a.StoreTry?)
    ensures var w, w' := m.cell.value, Step(m, a).cell.value;
            Owner(w') == Owner(w) && Next(w') == (Next(w) + 1) % TICKETS
  {
    TakeKeepsWord(m, q, a.c);
    NextOwner(|q.taken|);
    Unpack(TakeTicket(m.cell.value), (|q.taken| + 1) % TICKETS, q.released % TICKETS);
  }

  /** No ticket store ever carries into the owner half, or undoes a release that happened since the load. */
  lemma TicketStoreKeepsOwner(n: nat, acts: seq<Action>, a: Action)
    requires n <= TICKETS && Runs(Init(n), acts)
    requires Enabled(After(Init(n), acts), a) && (a.StoreLock? || a.StoreTry?)
    ensures var m := After(Init(n), acts);
            var w, w' := m.cell.value, Step(m, a).cell.value;
            Owner(w') == Owner(w) && Next(w') == (Next(w) + 1) % TICKETS
  {
    LockRefinesQueue(n, acts);
    var m, q := After(Init(n), acts), QueueOf(n, acts);
    assert Refines(m, q);
    TicketStore(m, q, a);
  }

  // ----- arch_spin_is_locked, and how many CPUs the lock can serve

  /** arch_spin_value_unlocked */
  predicate LooksFree(w: nat) {
    Owner(w) == Next(w)
  }

  ghost predicate SomeoneInLine(m: Lock) {
    exists c :: 0 <= c < |m.cpus| && HasTicket(m.cpus[c])
  }

  lemma RefinesIsLocked(m: Lock, q: Queue)
    requires Refines(m, q) && |m.cpus| < TICKETS
    ensures !LooksFree(m.cell.value) <==> SomeoneInLine(m)
  {
    LineLength(m, q);
    FreeMeansEmpty(m, q);
    if Line(q) != [] {
      assert q.taken[q.released] == Line(q)[0];
      assert TicketOk(m.cpus[q.taken[q.released]], q.released, q);
    }
  }

  /** CPUs 0 to k - 1 take a ticket each and go no further. */
  function AllTake(k: nat): seq<Action> {
    if k == 0 then [] else AllTake(k - 1) + [BeginLock(k - 1), LoadLock(k - 1), StoreLock(k - 1)]
  }

  lemma {:induction false} RunsSplit(m: Lock, xs: seq<Action>, ys: seq<Action>)
    requires Runs(m, xs) && Runs(After(m, xs), ys)
    ensures Runs(m, xs + ys) && After(m, xs + ys) == After(After(m, xs), ys)
    decreases |xs|
  {
    if xs == [] {
      assert xs + ys == ys;
    } else {
      assert (xs + ys)[1..] == xs[1..] + ys;
      RunsSplit(Step(m, xs[0]), xs[1..], ys);
    }
  }

  lemma TwoSteps(m: Lock, a: Action, b: Action)
    requires Enabled(m, a) && Enabled(Step(m, a), b)
    ensures Runs(m, [a, b]) && After(m, [a, b]) == Step(Step(m, a), b)
  {
    assert [a, b][1..] == [b] && [b][1..] == [];
    assert Runs(Step(m, a), [b]) && After(Step(m, a), [b]) == Step(Step(m, a), b);
  }

  function Ticket(i: nat): nat { i % TICKETS * TICKETS }

  lemma TakeNext(i: nat)
    ensures TakeTicket(Ticket(i)) == Ticket(i + 1) && Owner(Ticket(i)) == 0 && Next(Ticket(i)) == i % TICKETS
  {
  }

  lemma {:induction false} AllTakeRuns(n: nat, k: nat)
    requires k <= n
    ensures Runs(Init(n), AllTake(k))
    ensures var m := After(Init(n), AllTake(k));
            && |m.cpus| == n && m.cell.value == Ticket(k)
            && forall i :: 0 <= i < n ==> m.cpus[i] == if i < k then Checking(Ticket(i)) else Idle
    decreases k
  {
    if k > 0 {
      AllTakeRuns(n, k - 1);
      var m := After(Init(n), AllTake(k - 1));
      var acts := [BeginLock(k - 1), LoadLock(k - 1), StoreLock(k - 1)];
      var m1 := Step(m, acts[0]);
      TwoSteps(m1, acts[1], acts[2]);
      assert acts[1..] == [acts[1], acts[2]];
      TakeNext(k - 1);
      RunsSplit(Init(n), AllTake(k - 1), acts);
    }
  }

  /** One CPU more than there are tickets: the last one finds the lock looking free. */
  lemma TooManyCpus(n: nat)
    requires n > TICKETS
    ensures exists acts :: Runs(Init(n), acts) && !AtMostOne(After(Init(n), acts))
  {
    var take := AllTake(TICKETS + 1);
    AllTakeRuns(n, TICKETS + 1);
    var m := After(Init(n), take);
    assert m.cpus[0] == Checking(0) && m.cpus[TICKETS] == Checking(0);
    var m1 := Step(m, Check(0));
    assert m1.cpus[TICKETS] == Checking(0);
    var m2 := Step(m1, Check(TICKETS));
    TwoSteps(m, Check(0), Check(TICKETS));
    RunsSplit(Init(n), take, [Check(0), Check(TICKETS)]);
    assert Holds(m2.cpus[0]) && Holds(m2.cpus[TICKETS]);
    assert !AtMostOne(After(Init(n), take + [Check(0), Check(TICKETS)]));
  }

  /** Mutual exclusion holds in every run exactly when there are no more CPUs than tickets. */
  lemma MutualExclusionExactly(n: nat)
    ensures (forall acts :: Runs(Init(n), acts) ==> AtMostOne(After(Init(n), acts))) <==> n <= TICKETS
  {
    if n <= TICKETS {
      forall acts | Runs(Init(n), acts) ensures AtMostOne(After(Init(n), acts)) {
        LockRefinesQueue(n, acts);
        RefinesMutex(After(Init(n), acts), QueueOf(n, acts));
      }
    } else {
      TooManyCpus(n);
    }
  }

  /** `arch_spin_is_locked` is right in every run exactly when there are fewer CPUs than tickets. */
  lemma IsLockedExactly(n: nat)
    ensures (forall acts :: Runs(Init(n), acts) ==>
               (!LooksFree(After(Init(n), acts).cell.value) <==> SomeoneInLine(After(Init(n), acts))))
            <==> n < TICKETS
  {
    if n < TICKETS {
      forall acts | Runs(Init(n), acts)
        ensures !LooksFree(After(Init(n), acts).cell.value) <==> SomeoneInLine(After(Init(n), acts))
      {
        LockRefinesQueue(n, acts);
        RefinesIsLocked(After(Init(n), acts), QueueOf(n, acts));
      }
    } else {
      AllTakeRuns(n, TICKETS);
      var m := After(Init(n), AllTake(TICKETS));
      TakeNext(TICKETS);
      assert HasTicket(m.cpus[0]);
    }
  }
}
