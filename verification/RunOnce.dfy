/**
 `run_once` of utils.h: double-checked initialisation over the ticket lock. Each CPU
 may call it any number of times; the lock underneath is the machine of TicketLock.
 */
module RunOnce {
  import opened TicketLock

  /** Where a CPU is in `run_once`. */
  datatype Caller =
    | Outside
    | Check1             // about to read the flag without the lock
    | Acquiring          // in spin_lock
    | Check2             // holds the lock, about to read the flag again
    | Calling            // `func` is running
    | Setting            // `func` returned 0, about to set the flag
    | Unlocking(ret: int) // in spin_unlock, will return `ret`
    | Returning(ret: int)

  /** `zeros` counts the calls of `func` that have returned 0; the program cannot see it. */
  datatype Once = Once(lock: Lock, flag: int, callers: seq<Caller>, zeros: nat)

  datatype Move =
    | Call(c: nat) | Read1(c: nat) | LockStep(a: Action) | Read2(c: nat)
    | FuncReturns(c: nat, ret: int) | SetFlag(c: nat) | Return(c: nat)

  function Who(v: Move): nat {
    if v.LockStep? then v.a.c else v.c
  }

  /** The steps of spin_lock while acquiring, those of spin_unlock while unlocking. */
  predicate LockMove(pc: Caller, a: Action) {
    match a
    case BeginLock(_) | LoadLock(_) | StoreLock(_) | FailLock(_) | Check(_) | Spin(_) => pc.Acquiring?
    case LoadOwner(_) | StoreOwner(_) => pc.Unlocking?
    case _ => false
  }

  predicate CanMove(s: Once, v: Move) {
    Who(v) < |s.callers| && |s.callers| == |s.lock.cpus| &&
    var pc := s.callers[Who(v)];
    match v
    case Call(_) => pc.Outside?
    case Read1(_) => pc.Check1?
    case LockStep(a) => LockMove(pc, a) && Enabled(s.lock, a)
    case Read2(_) => pc.Check2?
    case FuncReturns(_, _) => pc.Calling?
    case SetFlag(_) => pc.Setting?
    case Return(_) => pc.Returning?
  }

  /** Where a lock step leaves the caller: past the lock, or past the unlock. */
  function AfterLock(pc: Caller, lockPc: Pc): Caller {
    if pc.Acquiring? && lockPc.Critical? then Check2
    else if pc.Unlocking? && lockPc.Idle? then Returning(pc.ret)
    else pc
  }

  function Moved(s: Once, v: Move): Once
    requires CanMove(s, v)
  {
    var c := Who(v);
    match v
    case Call(_) => s.(callers := s.callers[c := Check1])
    case Read1(_) => s.(callers := s.callers[c := if s.flag == 0 then Acquiring else Returning(0)])
    case LockStep(a) =>
      var l := Step(s.lock, a);
      s.(lock := l, callers := s.callers[c := AfterLock(s.callers[c], l.cpus[c])])
    case Read2(_) => s.(callers := s.callers[c := if s.flag == 0 then Calling else Unlocking(0)])
    case FuncReturns(_, ret) =>
      if ret == 0 then s.(callers := s.callers[c := Setting], zeros := s.zeros + 1)
      else s.(callers := s.callers[c := Unlocking(ret)])
    case SetFlag(_) => s.(flag := 1, callers := s.callers[c := Unlocking(0)])
    case Return(_) => s.(callers := s.callers[c := Outside])
  }

  /** ONCE_INITIALIZER, with `n` CPUs. */
  function InitOnce(n: nat): Once {
    Once(Init(n), 0, seq(n, _ => Outside), 0)
  }

  // ----- the invariant

  /** Inside the critical section of `run_once`. */
  predicate Inside(pc: Caller) {
    pc.Check2? || pc.Calling? || pc.Setting?
  }

  /** Which steps of the lock a caller can be at. */
  predicate LockPcOk(pc: Caller, l: Pc) {
    match pc
    case Acquiring => !Holds(l) && !l.Trying? && !l.TryStoring?
    case Check2 | Calling | Setting => l.Critical?
    case Unlocking(_) => Holds(l)
    case _ => l.Idle?
  }

  /** What a caller knows of the flag and of the calls made so far. */
  predicate KnowsOk(pc: Caller, flag: int, zeros: nat) {
    match pc
    case Calling => flag == 0 && zeros == 0
    case Setting => flag == 0 && zeros == 1
    case Unlocking(ret) => ret == 0 ==> flag == 1
    case Returning(ret) => ret == 0 ==> flag == 1
    case _ => true
  }

  ghost predicate SomeoneSetting(s: Once) {
    exists c :: 0 <= c < |s.callers| && s.callers[c].Setting?
  }

  ghost predicate Sound(s: Once) {
    && |s.callers| == |s.lock.cpus|
    && (forall c :: 0 <= c < |s.callers| ==>
          LockPcOk(s.callers[c], s.lock.cpus[c]) && KnowsOk(s.callers[c], s.flag, s.zeros))
    && (s.flag == 0 || s.flag == 1)
    && s.zeros <= 1 && (s.zeros == 1 <==> s.flag == 1 || SomeoneSetting(s))
  }

  /** The lock underneath, after the lock steps of some run. */
  ghost predicate LockReached(s: Once, acts: seq<Action>) {
    Runs(Init(|s.callers|), acts) && After(Init(|s.callers|), acts) == s.lock
  }

  lemma {:induction false} RunsOneMore(m: TicketLock.Lock, acts: seq<Action>, a: Action)
    requires Runs(m, acts) && Enabled(After(m, acts), a)
    ensures Runs(m, acts + [a]) && After(m, acts + [a]) == Step(After(m, acts), a)
  {
    RunsOnce(After(m, acts), a);
    RunsSplit(m, acts, [a]);
  }

  lemma RunsOnce(m: TicketLock.Lock, a: Action)
    requires Enabled(m, a)
    ensures Runs(m, [a]) && After(m, [a]) == Step(m, a)
  {
    assert [a][1..] == [];
  }

  /** Nobody else is in the critical section. */
  lemma OthersOutside(s: Once, c: nat, d: nat)
    requires Sound(s) && AtMostOne(s.lock) && c < |s.callers| && d < |s.callers| && c != d
    requires Holds(s.lock.cpus[c])
    ensures !Inside(s.callers[d]) && !s.callers[d].Unlocking?
  {
    assert LockPcOk(s.callers[d], s.lock.cpus[d]);
    if c < d { assert !Holds(s.lock.cpus[d]); } else { assert !Holds(s.lock.cpus[d]); }
  }

  lemma LockMoveSound(s: Once, a: Action)
    requires Sound(s) && CanMove(s, LockStep(a))
    ensures Sound(Moved(s, LockStep(a)))
  {
    var s' := Moved(s, LockStep(a));
    var c := a.c;
    assert LockPcOk(s.callers[c], s.lock.cpus[c]) && KnowsOk(s.callers[c], s.flag, s.zeros);
    if SomeoneSetting(s) {
      var d :| 0 <= d < |s.callers| && s.callers[d].Setting?;
      assert s'.callers[d].Setting?;
    }
  }

  lemma MoveSound(s: Once, v: Move)
    requires Sound(s) && AtMostOne(s.lock) && CanMove(s, v)
    ensures Sound(Moved(s, v))
  {
    var s' := Moved(s, v);
    var c := Who(v);
    if v.LockStep? {
      LockMoveSound(s, v.a);
    } else {
      assert LockPcOk(s.callers[c], s.lock.cpus[c]) && KnowsOk(s.callers[c], s.flag, s.zeros);
      forall d | 0 <= d < |s.callers| && d != c && Holds(s.lock.cpus[c])
        ensures !Inside(s.callers[d]) && !s.callers[d].Unlocking?
      {
        OthersOutside(s, c, d);
      }
      if SomeoneSetting(s) {
        var d :| 0 <= d < |s.callers| && s.callers[d].Setting?;
        assert d != c ==> s'.callers[d].Setting?;
      }
      if v.FuncReturns? && v.ret == 0 { assert s'.callers[c].Setting?; }
    }
  }

  // ----- runs

  predicate OnceRuns(s: Once, moves: seq<Move>)
    decreases |moves|
  {
    moves == [] || (CanMove(s, moves[0]) && OnceRuns(Moved(s, moves[0]), moves[1..]))
  }

  function OnceAfter(s: Once, moves: seq<Move>): Once
    requires OnceRuns(s, moves)
    decreases |moves|
  {
    if moves == [] then s else OnceAfter(Moved(s, moves[0]), moves[1..])
  }

  lemma {:induction false} RunSound(s: Once, moves: seq<Move>, acts: seq<Action>)
    requires Sound(s) && LockReached(s, acts) && |s.callers| <= TICKETS && OnceRuns(s, moves)
    ensures var r := OnceAfter(s, moves);
            Sound(r) && AtMostOne(r.lock) && |r.callers| == |s.callers| && r.zeros >= s.zeros
    decreases |moves|
  {
    ReachedIsMutex(s, acts);
    if moves != [] {
      MoveSound(s, moves[0]);
      var acts' := MoveReaches(s, moves[0], acts);
      RunSound(Moved(s, moves[0]), moves[1..], acts');
    }
  }

  lemma ReachedIsMutex(s: Once, acts: seq<Action>)
    requires LockReached(s, acts) && |s.callers| <= TICKETS
    ensures AtMostOne(s.lock)
  {
    LockRefinesQueue(|s.callers|, acts);
    RefinesMutex(s.lock, QueueOf(|s.callers|, acts));
  }

  /** The lock of a run of callers goes through a run of the lock. */
  lemma MoveReaches(s: Once, v: Move, acts: seq<Action>) returns (acts': seq<Action>)
    requires LockReached(s, acts) && CanMove(s, v)
    ensures LockReached(Moved(s, v), acts') && |Moved(s, v).callers| == |s.callers|
  {
    acts' := acts;
    if v.LockStep? {
      RunsOneMore(Init(|s.callers|), acts, v.a);
      acts' := acts + [v.a];
    }
  }

  /** In every state of every run: the invariant, and one CPU at most past the lock. */
  lemma ReachableSound(n: nat, moves: seq<Move>)
    requires n <= TICKETS && OnceRuns(InitOnce(n), moves)
    ensures var r := OnceAfter(InitOnce(n), moves); Sound(r) && AtMostOne(r.lock) && |r.callers| == n
  {
    RunSound(InitOnce(n), moves, []);
  }

  /** `func` never runs twice at once, and at most one call of it ever returns 0. */
  lemma FuncRunsAlone(n: nat, moves: seq<Move>, c: nat, d: nat)
    requires n <= TICKETS && OnceRuns(InitOnce(n), moves) && c < n && d < n && c != d
    ensures var r := OnceAfter(InitOnce(n), moves);
            && |r.callers| == n && r.zeros <= 1
            && !(r.callers[c].Calling? && r.callers[d].Calling?)
  {
    ReachableSound(n, moves);
    var r := OnceAfter(InitOnce(n), moves);
    if r.callers[c].Calling? {
      assert LockPcOk(r.callers[c], r.lock.cpus[c]);
      OthersOutside(r, c, d);
    }
  }

  lemma {:induction false} OnceRunsSplit(s: Once, xs: seq<Move>, ys: seq<Move>)
    requires OnceRuns(s, xs + ys)
    ensures OnceRuns(s, xs) && OnceRuns(OnceAfter(s, xs), ys)
    ensures OnceAfter(s, xs + ys) == OnceAfter(OnceAfter(s, xs), ys)
    decreases |xs|
  {
    if xs == [] {
      assert xs + ys == ys;
    } else {
      assert (xs + ys)[1..] == xs[1..] + ys;
      OnceRunsSplit(Moved(s, xs[0]), xs[1..], ys);
    }
  }

  lemma {:induction false} ZerosGrow(s: Once, moves: seq<Move>)
    requires OnceRuns(s, moves)
    ensures OnceAfter(s, moves).zeros >= s.zeros
    decreases |moves|
  {
    if moves != [] { ZerosGrow(Moved(s, moves[0]), moves[1..]); }
  }

  /** Once a call of `func` has returned 0, `func` never runs again. */
  lemma NoCallAfterSuccess(n: nat, before: seq<Move>, later: seq<Move>)
    requires n <= TICKETS && OnceRuns(InitOnce(n), before + later)
    ensures OnceRuns(InitOnce(n), before)
    ensures OnceAfter(InitOnce(n), before).zeros > 0 ==>
              forall c :: 0 <= c < |OnceAfter(InitOnce(n), before + later).callers| ==>
                !OnceAfter(InitOnce(n), before + later).callers[c].Calling?
  {
    OnceRunsSplit(InitOnce(n), before, later);
    ReachableSound(n, before + later);
    ZerosGrow(OnceAfter(InitOnce(n), before), later);
    var r := OnceAfter(InitOnce(n), before + later);
    forall c | 0 <= c < |r.callers| && r.zeros > 0 ensures !r.callers[c].Calling? {
      assert KnowsOk(r.callers[c], r.flag, r.zeros);
    }
  }

  /** A caller that is about to return 0 does so with the flag set: some call of `func` has returned 0. */
  lemma ZeroMeansDone(n: nat, moves: seq<Move>, c: nat)
    requires n <= TICKETS && OnceRuns(InitOnce(n), moves) && c < n
    ensures var r := OnceAfter(InitOnce(n), moves);
            && |r.callers| == n
            && (r.callers[c] == Returning(0) ==> r.flag == 1 && r.zeros == 1)
  {
    ReachableSound(n, moves);
    var r := OnceAfter(InitOnce(n), moves);
    assert KnowsOk(r.callers[c], r.flag, r.zeros);
  }

  /** While no call of `func` has returned 0, failed ones included, the next holder of the lock calls it again. */
  lemma FailureIsRetryable(n: nat, moves: seq<Move>, c: nat)
    requires n <= TICKETS && OnceRuns(InitOnce(n), moves) && c < n
    requires var r := OnceAfter(InitOnce(n), moves); r.zeros == 0 && c < |r.callers|
    ensures var r := OnceAfter(InitOnce(n), moves);
            && |r.lock.cpus| == |r.callers| == n
            && (r.callers[c].Check1? ==> Moved(r, Read1(c)).callers[c].Acquiring?)
            && (r.callers[c].Check2? ==> Moved(r, Read2(c)).callers[c].Calling?)
  {
    ReachableSound(n, moves);
  }
}
