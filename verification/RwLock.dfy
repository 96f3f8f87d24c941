/**
 The reader-writer lock of arch_spinlock.h, instruction by instruction. A CPU may
 hold the lock for reading more than once.
 */
module RwLock {
  import opened Words
  import opened Exclusive

  /** Bit 31 of the lock word. */
  const WRITER: nat := 0x8000_0000

  /** Where a CPU is; `w` is the value it is about to store. */
  datatype Pc =
    | Idle
    | WriteLoad | WriteStore                   // arch_write_lock, labels 1 and 2
    | TryWriteLoad | TryWriteStore             // arch_write_trylock
    | WriteUnlock
    | ReadLoad | ReadStore(w: nat)             // arch_read_lock
    | TryReadLoad | TryReadStore(w: nat)       // arch_read_trylock
    | UnreadLoad | UnreadStore(w: nat)         // arch_read_unlock

  /** What a CPU holds: the lock for writing, or for reading `reading` times. */
  datatype Cpu = Cpu(pc: Pc, writing: bool, reading: nat)

  datatype Rw = Rw(cell: Cell, cpus: seq<Cpu>)

  datatype Action =
    | Begin(c: nat, pc: Pc)   // a call of one of the six functions
    | Load(c: nat)            // ldaxr / ldxr, the test, and the branch
    | StoreOk(c: nat)         // stxr succeeds
    | StoreFails(c: nat)      // stxr fails
    | Clear(c: nat)           // the plain store of arch_write_unlock

  /** The add and sub instructions work in 32 bits. */
  function Inc(w: nat): nat { (w + 1) % TWO32 }

  function Dec(w: nat): nat { (w + TWO32 - 1) % TWO32 }

  /** The test of bit 31 (`tbnz`). */
  predicate Bit31(w: nat) { w / WRITER % 2 == 1 }

  /** A CPU unlocks only what it holds. */
  predicate MayBegin(cpu: Cpu, pc: Pc) {
    cpu.pc.Idle? &&
    match pc
    case WriteLoad | TryWriteLoad | ReadLoad | TryReadLoad => true
    case WriteUnlock => cpu.writing
    case UnreadLoad => cpu.reading > 0
    case _ => false
  }

  predicate Loading(pc: Pc) {
    pc.WriteLoad? || pc.TryWriteLoad? || pc.ReadLoad? || pc.TryReadLoad? || pc.UnreadLoad?
  }

  predicate Storing(pc: Pc) {
    pc.WriteStore? || pc.TryWriteStore? || pc.ReadStore? || pc.TryReadStore? || pc.UnreadStore?
  }

  predicate Enabled(m: Rw, a: Action) {
    a.c < |m.cpus| &&
    var cpu := m.cpus[a.c];
    match a
    case Begin(_, pc) => MayBegin(cpu, pc)
    case Load(_) => Loading(cpu.pc)
    case StoreOk(c) => Storing(cpu.pc) && c in m.cell.reserved
    case StoreFails(_) => Storing(cpu.pc)
    case Clear(_) => cpu.pc.WriteUnlock?
  }

  /** Where a load of `w` leads: to the store, back to the load, or out of a trylock. */
  function AfterLoad(pc: Pc, w: nat): Pc {
    match pc
    case WriteLoad => if w == 0 then WriteStore else WriteLoad
    case TryWriteLoad => if w == 0 then TryWriteStore else Idle
    case ReadLoad => if Bit31(Inc(w)) then ReadLoad else ReadStore(Inc(w))
    case TryReadLoad => if Bit31(Inc(w)) then Idle else TryReadStore(Inc(w))
    case UnreadLoad => UnreadStore(Dec(w))
    case _ => pc
  }

  function StoreValue(pc: Pc): nat {
    match pc
    case ReadStore(w) => w
    case TryReadStore(w) => w
    case UnreadStore(w) => w
    case _ => WRITER
  }

  /** The CPU after its store has succeeded. */
  function AfterStore(cpu: Cpu): Cpu {
    match cpu.pc
    case WriteStore | TryWriteStore => Cpu(Idle, true, cpu.reading)
    case ReadStore(_) | TryReadStore(_) => Cpu(Idle, cpu.writing, cpu.reading + 1)
    case UnreadStore(_) => Cpu(Idle, cpu.writing, if cpu.reading > 0 then cpu.reading - 1 else 0)
    case _ => cpu
  }

  /** Where a failed store leads: a lock or unlock tries again, a trylock gives up. */
  function AfterFail(pc: Pc): Pc {
    match pc
    case WriteStore => WriteLoad
    case ReadStore(_) => ReadLoad
    case UnreadStore(_) => UnreadLoad
    case _ => Idle
  }

  function Step(m: Rw, a: Action): Rw
    requires Enabled(m, a)
  {
    var c, cpu := a.c, m.cpus[a.c];
    match a
    case Begin(_, pc) => m.(cpus := m.cpus[c := cpu.(pc := pc)])
    case Load(_) => Rw(LoadEx(m.cell, c), m.cpus[c := cpu.(pc := AfterLoad(cpu.pc, m.cell.value))])
    case StoreOk(_) => Rw(StoreEx(m.cell, c, StoreValue(cpu.pc)), m.cpus[c := AfterStore(cpu)])
    case StoreFails(_) => Rw(FailEx(m.cell, c), m.cpus[c := cpu.(pc := AfterFail(cpu.pc))])
    case Clear(_) => Rw(Store(m.cell, c, 0), m.cpus[c := Cpu(Idle, false, cpu.reading)])
  }

  // ----- who holds what

  function Readers(cpus: seq<Cpu>): nat {
    if cpus == [] then 0 else cpus[0].reading + Readers(cpus[1..])
  }

  function Writers(cpus: seq<Cpu>): nat {
    if cpus == [] then 0 else (if cpus[0].writing then 1 else 0) + Writers(cpus[1..])
  }

  lemma {:induction false} CountsUpdate(cpus: seq<Cpu>, c: nat, cpu: Cpu)
    requires c < |cpus|
    ensures Readers(cpus[c := cpu]) == Readers(cpus) - cpus[c].reading + cpu.reading
    ensures Writers(cpus[c := cpu])
         == Writers(cpus) - (if cpus[c].writing then 1 else 0) + (if cpu.writing then 1 else 0)
    ensures cpus[c].reading <= Readers(cpus)
    ensures cpus[c].writing ==> Writers(cpus) >= 1
  {
    if c == 0 {
      assert cpus[c := cpu][1..] == cpus[1..];
    } else {
      assert cpus[c := cpu][1..] == cpus[1..][c - 1 := cpu];
      CountsUpdate(cpus[1..], c - 1, cpu);
    }
  }

  /** The word says who holds the lock: one writer alone, or so many readers. */
  predicate WordOk(m: Rw) {
    var r, w := Readers(m.cpus), Writers(m.cpus);
    || (w == 0 && m.cell.value == r < WRITER)
    || (w == 1 && r == 0 && m.cell.value == WRITER)
  }

  /** A reservation that is still there vouches for what is about to be stored. */
  predicate ReservedOk(cpu: Cpu, value: nat, reserved: bool) {
    match cpu.pc
    case WriteStore | TryWriteStore => reserved ==> value == 0
    case ReadStore(w) => reserved ==> w == Inc(value) && !Bit31(w)
    case TryReadStore(w) => reserved ==> w == Inc(value) && !Bit31(w)
    case UnreadLoad => cpu.reading > 0
    case UnreadStore(w) => cpu.reading > 0 && (reserved ==> w == Dec(value))
    case WriteUnlock => cpu.writing
    case _ => true
  }

  ghost predicate Sound(m: Rw) {
    WordOk(m)
    && forall c :: 0 <= c < |m.cpus| ==> ReservedOk(m.cpus[c], m.cell.value, c in m.cell.reserved)
  }

  /** What the two tests of the loaded value mean. */
  lemma TestsMean(m: Rw)
    requires WordOk(m)
    ensures m.cell.value == 0 <==> Readers(m.cpus) == 0 && Writers(m.cpus) == 0
    ensures !Bit31(Inc(m.cell.value)) ==> Writers(m.cpus) == 0 && Inc(m.cell.value) == Readers(m.cpus) + 1 < WRITER
    ensures Readers(m.cpus) > 0 ==> Dec(m.cell.value) == Readers(m.cpus) - 1
  {
  }

  lemma StoreSound(m: Rw, c: nat)
    requires Sound(m) && Enabled(m, StoreOk(c))
    ensures Sound(Step(m, StoreOk(c)))
  {
    var cpu := m.cpus[c];
    CountsUpdate(m.cpus, c, AfterStore(cpu));
    TestsMean(m);
    assert ReservedOk(cpu, m.cell.value, true);
    var m' := Step(m, StoreOk(c));
    forall d | 0 <= d < |m'.cpus| ensures ReservedOk(m'.cpus[d], m'.cell.value, d in m'.cell.reserved) {
      assert ReservedOk(m.cpus[d], m.cell.value, d in m.cell.reserved);
    }
  }

  lemma ClearSound(m: Rw, c: nat)
    requires Sound(m) && Enabled(m, Clear(c))
    ensures Sound(Step(m, Clear(c)))
  {
    var cpu := m.cpus[c];
    assert ReservedOk(cpu, m.cell.value, c in m.cell.reserved);
    CountsUpdate(m.cpus, c, Cpu(Idle, false, cpu.reading));
    var m' := Step(m, Clear(c));
    forall d | 0 <= d < |m'.cpus| ensures ReservedOk(m'.cpus[d], m'.cell.value, d in m'.cell.reserved) {
      assert ReservedOk(m.cpus[d], m.cell.value, d in m.cell.reserved);
    }
  }

  lemma OtherSound(m: Rw, a: Action)
    requires Sound(m) && Enabled(m, a) && !a.StoreOk? && !a.Clear?
    ensures Sound(Step(m, a))
  {
    var c, cpu, m' := a.c, m.cpus[a.c], Step(m, a);
    CountsUpdate(m.cpus, c, m'.cpus[c]);
    assert ReservedOk(cpu, m.cell.value, c in m.cell.reserved);
    forall d | 0 <= d < |m'.cpus| ensures ReservedOk(m'.cpus[d], m'.cell.value, d in m'.cell.reserved) {
      assert ReservedOk(m.cpus[d], m.cell.value, d in m.cell.reserved);
    }
  }

  lemma StepSound(m: Rw, a: Action)
    requires Sound(m) && Enabled(m, a)
    ensures Sound(Step(m, a))
  {
    match a
    case StoreOk(c) => StoreSound(m, c);
    case Clear(c) => ClearSound(m, c);
    case _ => OtherSound(m, a);
  }

  // ----- runs

  predicate Runs(m: Rw, acts: seq<Action>)
    decreases |acts|
  {
    acts == [] || (Enabled(m, acts[0]) && Runs(Step(m, acts[0]), acts[1..]))
  }

  function After(m: Rw, acts: seq<Action>): Rw
    requires Runs(m, acts)
    decreases |acts|
  {
    if acts == [] then m else After(Step(m, acts[0]), acts[1..])
  }

  /** __ARCH_RW_LOCK_UNLOCKED, with `n` CPUs. */
  function Init(n: nat): Rw {
    Rw(Cell(0, {}), seq(n, _ => Cpu(Idle, false, 0)))
  }

  lemma {:induction false} InitCounts(cpus: seq<Cpu>)
    requires forall c :: 0 <= c < |cpus| ==> cpus[c] == Cpu(Idle, false, 0)
    ensures Readers(cpus) == 0 && Writers(cpus) == 0
  {
    if cpus != [] { InitCounts(cpus[1..]); }
  }

  lemma {:induction false} RunSound(m: Rw, acts: seq<Action>)
    requires Sound(m) && Runs(m, acts)
    ensures Sound(After(m, acts))
    decreases |acts|
  {
    if acts != [] {
      StepSound(m, acts[0]);
      RunSound(Step(m, acts[0]), acts[1..]);
    }
  }

  /**
   In every reachable state, whatever the number of CPUs: the word is 0x80000000
   exactly when one writer and no reader hold the lock, and otherwise it is the
   number of readers, which stays below 2^31.
   */
  lemma WordTellsHolders(n: nat, acts: seq<Action>)
    requires Runs(Init(n), acts)
    ensures var m := After(Init(n), acts);
            var r, w := Readers(m.cpus), Writers(m.cpus);
            && (m.cell.value == WRITER <==> w == 1)
            && (w == 1 ==> r == 0)
            && (w != 1 ==> w == 0 && m.cell.value == r && r < WRITER)
  {
    InitCounts(Init(n).cpus);
    RunSound(Init(n), acts);
  }

  /** A writer excludes every other writer and every reader. */
  lemma WriterIsAlone(n: nat, acts: seq<Action>, c: nat, d: nat)
    requires Runs(Init(n), acts)
    requires var m := After(Init(n), acts); c < |m.cpus| && d < |m.cpus| && m.cpus[c].writing
    ensures var m := After(Init(n), acts);
            m.cpus[c].reading == 0 && m.cpus[d].reading == 0 && (c != d ==> !m.cpus[d].writing)
  {
    WordTellsHolders(n, acts);
    var m := After(Init(n), acts);
    CountsUpdate(m.cpus, c, Cpu(Idle, false, 0));
    CountsUpdate(m.cpus, d, Cpu(Idle, false, 0));
    CountsUpdate(m.cpus[c := Cpu(Idle, false, 0)], d, Cpu(Idle, false, 0));
  }

  /** What the can-lock macros read: nobody holds the lock; nobody holds it for writing. */
  lemma CanLockMacros(n: nat, acts: seq<Action>)
    requires Runs(Init(n), acts)
    ensures var m := After(Init(n), acts);
            && (m.cell.value == 0 <==> Readers(m.cpus) == 0 && Writers(m.cpus) == 0)
            && (m.cell.value < WRITER <==> Writers(m.cpus) == 0)
  {
    WordTellsHolders(n, acts);
  }

  /** `arch_read_can_lock` agrees with the test that `arch_read_trylock` makes of the same word. */
  predicate CanLockIsRight(w: nat) {
    w < WRITER <==> AfterLoad(TryReadLoad, w).TryReadStore?
  }

  /** In every reachable state it does, but for the word 0x7FFF_FFFF, which is that of 2^31 - 1 readers. */
  lemma ReadCanLockExactly(n: nat, acts: seq<Action>)
    requires Runs(Init(n), acts)
    ensures var m := After(Init(n), acts);
            && (CanLockIsRight(m.cell.value) <==> m.cell.value != 0x7FFF_FFFF)
            && (m.cell.value == 0x7FFF_FFFF <==> Readers(m.cpus) == 0x7FFF_FFFF)
  {
    WordTellsHolders(n, acts);
  }

  /** CPU 0 takes the lock for reading `k` times. */
  function TakeReads(k: nat): seq<Action> {
    if k == 0 then [] else TakeReads(k - 1) + [Begin(0, ReadLoad), Load(0), StoreOk(0)]
  }

  lemma {:induction false} RunsSplit(m: Rw, xs: seq<Action>, ys: seq<Action>)
    requires Runs(m, xs) && Runs(After(m, xs), ys)
    ensures Runs(m, xs + ys) && After(m, xs + ys) == After(After(m, xs), ys)
    decreases |xs|
  {
    if xs == [] {
      assert xs + ys == ys;
    } else {
      assert (xs + ys)[1..] == xs[1..] + ys;
      RunsSplit(Step(m, xs[0]), xs[1..], ys);
    }
  }

  lemma RunsOne(m: Rw, a: Action, acts: seq<Action>)
    requires Enabled(m, a) && Runs(Step(m, a), acts)
    ensures Runs(m, [a] + acts) && After(m, [a] + acts) == After(Step(m, a), acts)
  {
    assert ([a] + acts)[0] == a && ([a] + acts)[1..] == acts;
  }

  /** One more read lock, with nobody in the way. */
  lemma TakeOneRead(m: Rw, k: nat)
    requires k + 1 < WRITER && m.cell.value == k && m.cpus != [] && m.cpus[0] == Cpu(Idle, false, k)
    ensures var acts := [Begin(0, ReadLoad), Load(0), StoreOk(0)];
            Runs(m, acts) && After(m, acts).cell.value == k + 1
            && After(m, acts).cpus == m.cpus[0 := Cpu(Idle, false, k + 1)]
  {
    var acts := [Begin(0, ReadLoad), Load(0), StoreOk(0)];
    var m1 := Step(m, acts[0]);
    var m2 := Step(m1, acts[1]);
    assert m2.cpus[0].pc == ReadStore(k + 1);
    var m3 := Step(m2, acts[2]);
    RunsOne(m2, acts[2], []);
    RunsOne(m1, acts[1], [acts[2]]);
    RunsOne(m, acts[0], [acts[1], acts[2]]);
    assert acts == [acts[0]] + ([acts[1]] + ([acts[2]] + []));
    assert m3.cpus == m.cpus[0 := Cpu(Idle, false, k + 1)];
  }

  lemma {:induction false} TakeReadsRuns(n: nat, k: nat)
    requires 0 < n && k < WRITER
    ensures Runs(Init(n), TakeReads(k))
    ensures var m := After(Init(n), TakeReads(k));
            |m.cpus| == n && m.cell.value == k && m.cpus[0] == Cpu(Idle, false, k)
    decreases k
  {
    if k > 0 {
      TakeReadsRuns(n, k - 1);
      TakeOneRead(After(Init(n), TakeReads(k - 1)), k - 1);
      RunsSplit(Init(n), TakeReads(k - 1), [Begin(0, ReadLoad), Load(0), StoreOk(0)]);
    }
  }

  /** That state is reachable: one CPU that takes the lock for reading again and again gets there. */
  lemma ReadCanLockGoesWrong(n: nat)
    requires 0 < n
    ensures exists acts :: Runs(Init(n), acts) && !CanLockIsRight(After(Init(n), acts).cell.value)
  {
    TakeReadsRuns(n, WRITER - 1);
    ReadCanLockExactly(n, TakeReads(WRITER - 1));
  }

  // ----- what each function does when nobody comes between

  lemma RunsTwo(m: Rw, a: Action, b: Action)
    requires Enabled(m, a) && Enabled(Step(m, a), b)
    ensures Runs(m, [a, b]) && After(m, [a, b]) == Step(Step(m, a), b)
  {
    RunsOne(Step(m, a), b, []);
    RunsOne(m, a, [b]);
    assert [a, b] == [a] + ([b] + []);
  }

  lemma RunsThree(m: Rw, a: Action, b: Action, c: Action)
    requires Enabled(m, a) && Enabled(Step(m, a), b) && Enabled(Step(Step(m, a), b), c)
    ensures Runs(m, [a, b, c]) && After(m, [a, b, c]) == Step(Step(Step(m, a), b), c)
  {
    RunsTwo(Step(m, a), b, c);
    RunsOne(m, a, [b, c]);
    assert [a, b, c] == [a] + [b, c];
  }

  /**
   A write lock or trylock takes the lock exactly when nobody holds it, for writing or reading;
   else a trylock gives up, a lock goes back to its load, and the word is as it was.
   */
  lemma WriteLockExactly(n: nat, acts: seq<Action>, c: nat, try: bool)
    requires Runs(Init(n), acts) && c < |After(Init(n), acts).cpus| && After(Init(n), acts).cpus[c].pc.Idle?
    ensures var m, begin := After(Init(n), acts), Begin(c, if try then TryWriteLoad else WriteLoad);
            && Runs(m, [begin, Load(c)])
            && var m' := After(m, [begin, Load(c)]);
               if Readers(m.cpus) == 0 && Writers(m.cpus) == 0
               then Runs(m, [begin, Load(c), StoreOk(c)])
                    && After(m, [begin, Load(c), StoreOk(c)]).cpus == m.cpus[c := m.cpus[c].(writing := true)]
                    && After(m, [begin, Load(c), StoreOk(c)]).cell.value == 0x8000_0000
               else m'.cpus == m.cpus[c := m.cpus[c].(pc := if try then Idle else WriteLoad)]
                    && m'.cell.value == m.cell.value
  {
    WordTellsHolders(n, acts);
    var m, pc := After(Init(n), acts), if try then TryWriteLoad else WriteLoad;
    LoadSteps(m, c, pc);
    if m.cell.value == 0 {
      StoreSteps(m, c, pc, if try then TryWriteStore else WriteStore);
    }
  }

  /** A read lock or trylock takes the lock exactly when no writer holds it and fewer than 2^31 - 1 readers do. */
  lemma ReadLockExactly(n: nat, acts: seq<Action>, c: nat, try: bool)
    requires Runs(Init(n), acts) && c < |After(Init(n), acts).cpus| && After(Init(n), acts).cpus[c].pc.Idle?
    ensures var m, begin := After(Init(n), acts), Begin(c, if try then TryReadLoad else ReadLoad);
            && Runs(m, [begin, Load(c)])
            && var m' := After(m, [begin, Load(c)]);
               if Writers(m.cpus) == 0 && Readers(m.cpus) < 0x7FFF_FFFF
               then Runs(m, [begin, Load(c), StoreOk(c)])
                    && After(m, [begin, Load(c), StoreOk(c)]).cpus ==
                       m.cpus[c := m.cpus[c].(reading := m.cpus[c].reading + 1)]
                    && After(m, [begin, Load(c), StoreOk(c)]).cell.value == m.cell.value + 1
               else m'.cpus == m.cpus[c := m.cpus[c].(pc := if try then Idle else ReadLoad)]
                    && m'.cell.value == m.cell.value
  {
    WordTellsHolders(n, acts);
    var m, pc := After(Init(n), acts), if try then TryReadLoad else ReadLoad;
    ReadTest(m.cell.value);
    LoadSteps(m, c, pc);
    if m.cell.value < 0x7FFF_FFFF {
      StoreSteps(m, c, pc, if try then TryReadStore(m.cell.value + 1) else ReadStore(m.cell.value + 1));
    }
  }

  lemma ReadTest(w: nat)
    requires w <= WRITER
    ensures Bit31(Inc(w)) <==> w >= 0x7FFF_FFFF
    ensures w < 0x7FFF_FFFF ==> Inc(w) == w + 1
  {
  }

  /** The steps of a lock or trylock up to its load. */
  lemma LoadSteps(m: Rw, c: nat, pc: Pc)
    requires c < |m.cpus| && MayBegin(m.cpus[c], pc) && Loading(pc)
    ensures var acts := [Begin(c, pc), Load(c)];
            && Runs(m, acts) && After(m, acts).cell == LoadEx(m.cell, c)
            && After(m, acts).cpus == m.cpus[c := m.cpus[c].(pc := AfterLoad(pc, m.cell.value))]
  {
    RunsTwo(m, Begin(c, pc), Load(c));
  }

  /** And its store, if it gets there. */
  lemma StoreSteps(m: Rw, c: nat, pc: Pc, to: Pc)
    requires c < |m.cpus| && MayBegin(m.cpus[c], pc) && Loading(pc) && AfterLoad(pc, m.cell.value) == to && Storing(to)
    ensures var acts := [Begin(c, pc), Load(c), StoreOk(c)];
            && Runs(m, acts) && After(m, acts).cell.value == StoreValue(to)
            && After(m, acts).cpus == m.cpus[c := AfterStore(m.cpus[c].(pc := to))]
  {
    RunsThree(m, Begin(c, pc), Load(c), StoreOk(c));
  }

  /** Whoever holds the lock can give it back: a reader counts itself off, a writer clears the word. */
  lemma UnlockExactly(n: nat, acts: seq<Action>, c: nat)
    requires Runs(Init(n), acts) && c < |After(Init(n), acts).cpus| && After(Init(n), acts).cpus[c].pc.Idle?
    ensures var m := After(Init(n), acts);
            m.cpus[c].reading > 0 ==>
              && Runs(m, [Begin(c, UnreadLoad), Load(c), StoreOk(c)])
              && var m' := After(m, [Begin(c, UnreadLoad), Load(c), StoreOk(c)]);
                 m'.cpus == m.cpus[c := m.cpus[c].(reading := m.cpus[c].reading - 1)]
                 && m'.cell.value + 1 == m.cell.value
    ensures var m := After(Init(n), acts);
            m.cpus[c].writing ==>
              && Runs(m, [Begin(c, WriteUnlock), Clear(c)])
              && var m' := After(m, [Begin(c, WriteUnlock), Clear(c)]);
                 m'.cpus == m.cpus[c := m.cpus[c].(writing := false)] && m'.cell.value == 0
  {
    WordTellsHolders(n, acts);
    var m := After(Init(n), acts);
    if m.cpus[c].reading > 0 {
      SomeReader(m.cpus, c);
      DecIs(m.cell.value);
      StoreSteps(m, c, UnreadLoad, UnreadStore(m.cell.value - 1));
    }
    if m.cpus[c].writing {
      RunsTwo(m, Begin(c, WriteUnlock), Clear(c));
    }
  }

  lemma DecIs(w: nat)
    requires 0 < w < TWO32
    ensures Dec(w) == w - 1
  {
  }

  lemma {:induction false} SomeReader(cpus: seq<Cpu>, c: nat)
    requires c < |cpus|
    ensures Readers(cpus) >= cpus[c].reading
  {
    if c > 0 {
      SomeReader(cpus[1..], c - 1);
    }
  }

  /**
   However its stores fail and whatever the other CPUs do, a lock function returns only with the
   lock and an unlock only without; a trylock returns with it or with what it had.
   */
  lemma CallsReturn(m: Rw, a: Action, c: nat)
    requires Enabled(m, a) && c < |m.cpus|
    ensures var cpu, cpu' := m.cpus[c], Step(m, a).cpus[c];
            match cpu.pc
            case WriteLoad | WriteStore =>
              cpu'.pc.WriteLoad? || cpu'.pc.WriteStore? || cpu' == Cpu(Idle, true, cpu.reading)
            case ReadLoad | ReadStore(_) =>
              cpu'.pc.ReadLoad? || cpu'.pc.ReadStore? || cpu' == Cpu(Idle, cpu.writing, cpu.reading + 1)
            case TryWriteLoad | TryWriteStore =>
              cpu'.pc.TryWriteLoad? || cpu'.pc.TryWriteStore? || cpu' == Cpu(Idle, true, cpu.reading)
              || cpu' == cpu.(pc := Idle)
            case TryReadLoad | TryReadStore(_) =>
              cpu'.pc.TryReadLoad? || cpu'.pc.TryReadStore? || cpu' == Cpu(Idle, cpu.writing, cpu.reading + 1)
              || cpu' == cpu.(pc := Idle)
            case UnreadLoad | UnreadStore(_) =>
              cpu'.pc.UnreadLoad? || cpu'.pc.UnreadStore?
              || cpu' == Cpu(Idle, cpu.writing, if cpu.reading > 0 then cpu.reading - 1 else 0)
            case WriteUnlock => cpu'.pc.WriteUnlock? || cpu' == Cpu(Idle, false, cpu.reading)
            case Idle => cpu'.writing == cpu.writing && cpu'.reading == cpu.reading
  {
  }
}
