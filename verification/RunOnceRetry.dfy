/**
 Failed calls of `run_once`: as long as no call of `func` has returned 0, some caller can
 still get to `func`, from every reachable state; and what a caller returns is 0 or what its
 own call of `func` has returned.
 */
module RunOnceRetry {
  import opened Exclusive
  import opened TicketLock
  import opened RunOnce

  // ----- a way to `func`

  ghost predicate SomeoneCalling(s: Once) {
    exists c :: 0 <= c < |s.callers| && s.callers[c].Calling?
  }

  /** Some continuation gets a caller into `func`. */
  ghost predicate CanCall(s: Once) {
    exists moves :: OnceRuns(s, moves) && SomeoneCalling(OnceAfter(s, moves))
  }

  lemma CallingCanCall(s: Once)
    requires SomeoneCalling(s)
    ensures CanCall(s)
  {
    assert OnceRuns(s, []) && OnceAfter(s, []) == s;
  }

  lemma CanCallBefore(s: Once, v: Move)
    requires CanMove(s, v) && CanCall(Moved(s, v))
    ensures CanCall(s)
  {
    var later :| OnceRuns(Moved(s, v), later) && SomeoneCalling(OnceAfter(Moved(s, v), later));
    var moves := [v] + later;
    assert moves[1..] == later;
    assert OnceRuns(s, moves) && OnceAfter(s, moves) == OnceAfter(Moved(s, v), later);
  }

  /** Reachable, and no call has returned 0 yet; the lock underneath is at queue `q`. */
  ghost predicate Untried(s: Once, q: Queue) {
    && Sound(s) && s.zeros == 0 && s.flag == 0
    && Refines(s.lock, q) && |s.callers| <= TICKETS
  }

  lemma Advance(s: Once, q: Queue, v: Move) returns (q': Queue)
    requires Untried(s, q) && CanMove(s, v) && (v.Call? || v.Read1? || v.Return?)
    ensures q' == q && Untried(Moved(s, v), q) && |Moved(s, v).callers| == |s.callers|
  {
    RefinesMutex(s.lock, q);
    MoveSound(s, v);
    q' := q;
  }

  lemma AdvanceLock(s: Once, q: Queue, a: Action) returns (q': Queue)
    requires Untried(s, q) && CanMove(s, LockStep(a))
    ensures QueueTrace(q, Events(s.lock, a)) && q' == QueueRun(q, Events(s.lock, a))
    ensures Untried(Moved(s, LockStep(a)), q') && |Moved(s, LockStep(a)).callers| == |s.callers|
  {
    RefinesMutex(s.lock, q);
    MoveSound(s, LockStep(a));
    Simulate(s.lock, q, a);
    q' := QueueRun(q, Events(s.lock, a));
  }

  /** A caller that holds the lock reads the flag again. */
  lemma FromCheck2(s: Once, q: Queue, c: nat)
    requires Untried(s, q) && c < |s.callers| && s.callers[c].Check2?
    ensures CanCall(s)
  {
    var s' := Moved(s, Read2(c));
    assert s'.callers[c].Calling?;
    CallingCanCall(s');
    CanCallBefore(s, Read2(c));
  }

  /** The caller at the head of the line, while nobody holds the lock. */
  ghost predicate AtHead(s: Once, q: Queue, c: nat)
    requires QueueOk(q)
  {
    q.entered == q.released < |q.taken| && c == q.taken[q.released] && c < |s.callers|
  }

  lemma HeadWaits(s: Once, q: Queue, c: nat)
    requires Untried(s, q) && AtHead(s, q, c)
    ensures s.callers[c].Acquiring? && (s.lock.cpus[c].Checking? || s.lock.cpus[c].Spinning?)
    ensures Next(s.lock.cpus[c].w) == Owner(s.lock.cell.value)
  {
    assert TicketOk(s.lock.cpus[c], q.released, q);
    assert LockPcOk(s.callers[c], s.lock.cpus[c]);
    Unpack(s.lock.cell.value, |q.taken| % TICKETS, q.released % TICKETS);
  }

  /** It spins until it sees its ticket, which is there. */
  lemma FromSpinning(s: Once, q: Queue, c: nat)
    requires Untried(s, q) && AtHead(s, q, c) && s.lock.cpus[c].Spinning?
    ensures CanCall(s)
  {
    HeadWaits(s, q, c);
    var q' := AdvanceLock(s, q, Spin(c));
    FromCheck2(Moved(s, LockStep(Spin(c))), q', c);
    CanCallBefore(s, LockStep(Spin(c)));
  }

  lemma FromHead(s: Once, q: Queue, c: nat)
    requires Untried(s, q) && AtHead(s, q, c)
    ensures CanCall(s)
  {
    HeadWaits(s, q, c);
    if s.lock.cpus[c].Spinning? {
      FromSpinning(s, q, c);
    } else {
      var q' := AdvanceLock(s, q, Check(c));
      var s' := Moved(s, LockStep(Check(c)));
      if s'.callers[c].Check2? {
        FromCheck2(s', q', c);
      } else {
        assert Events(s.lock, Check(c)) == [] && q' == q;
        FromSpinning(s', q, c);
      }
      CanCallBefore(s, LockStep(Check(c)));
    }
  }

  /** A caller while nobody is in line: how far it is from a ticket. */
  function Distance(s: Once, c: nat): nat
    requires c < |s.callers| == |s.lock.cpus|
  {
    match s.callers[c]
    case Returning(_) => 6
    case Outside => 5
    case Check1 => 4
    case _ =>
      match s.lock.cpus[c]
      case Idle => 3
      case Storing(_) => if c in s.lock.cell.reserved then 0 else 2
      case _ => 1
  }

  /** What it does next. */
  function NextMove(s: Once, c: nat): Move
    requires c < |s.callers| == |s.lock.cpus|
  {
    match s.callers[c]
    case Returning(_) => Return(c)
    case Outside => Call(c)
    case Check1 => Read1(c)
    case _ =>
      match s.lock.cpus[c]
      case Idle => LockStep(BeginLock(c))
      case Storing(_) => LockStep(if c in s.lock.cell.reserved then StoreLock(c) else FailLock(c))
      case _ => LockStep(LoadLock(c))
  }

  lemma FreeCaller(s: Once, q: Queue, c: nat)
    requires Untried(s, q) && Line(q) == [] && c < |s.callers|
    ensures !HasTicket(s.lock.cpus[c]) && CanMove(s, NextMove(s, c))
    ensures Distance(s, c) > 0 ==> Distance(Moved(s, NextMove(s, c)), c) < Distance(s, c)
    ensures Distance(s, c) == 0 ==> NextMove(s, c) == LockStep(StoreLock(c))
  {
    assert LockPcOk(s.callers[c], s.lock.cpus[c]);
    var line := Line(q);
    assert HasTicket(s.lock.cpus[c]) ==> c in line;
  }

  lemma {:induction false} FromFree(s: Once, q: Queue, c: nat)
    requires Untried(s, q) && Line(q) == [] && c < |s.callers|
    ensures CanCall(s)
    decreases Distance(s, c)
  {
    FreeCaller(s, q, c);
    var v := NextMove(s, c);
    if v.LockStep? {
      var q' := AdvanceLock(s, q, v.a);
      if v.a.StoreLock? {
        OneEvent(q, Took(c));
        assert q' == q.(taken := q.taken + [c]);
        FromHead(Moved(s, v), q', c);
      } else {
        assert Events(s.lock, v.a) == [] && q' == q;
        FromFree(Moved(s, v), q, c);
      }
    } else {
      var q' := Advance(s, q, v);
      FromFree(Moved(s, v), q, c);
    }
    CanCallBefore(s, v);
  }

  /** Nobody holds the lock. */
  lemma FromUnheld(s: Once, q: Queue, c: nat)
    requires Untried(s, q) && q.entered == q.released && c < |s.callers|
    ensures CanCall(s)
  {
    if Line(q) == [] {
      FromFree(s, q, c);
    } else {
      assert TicketOk(s.lock.cpus[q.taken[q.released]], q.released, q);
      FromHead(s, q, q.taken[q.released]);
    }
  }

  /** The holder is unlocking. */
  lemma FromReleasing(s: Once, q: Queue, c: nat)
    requires Untried(s, q) && c < |s.callers| && s.callers[c].Unlocking? && s.lock.cpus[c].Releasing?
    ensures CanCall(s)
  {
    var a := StoreOwner(c);
    var q' := AdvanceLock(s, q, a);
    assert QueueEnabled(q, Released(c));
    OneEvent(q, Released(c));
    FromUnheld(Moved(s, LockStep(a)), q', c);
    CanCallBefore(s, LockStep(a));
  }

  lemma FromUnlocking(s: Once, q: Queue, c: nat)
    requires Untried(s, q) && c < |s.callers| && s.callers[c].Unlocking?
    ensures CanCall(s)
  {
    assert LockPcOk(s.callers[c], s.lock.cpus[c]);
    if s.lock.cpus[c].Releasing? {
      FromReleasing(s, q, c);
    } else {
      var q' := AdvanceLock(s, q, LoadOwner(c));
      FromReleasing(Moved(s, LockStep(LoadOwner(c))), q', c);
      CanCallBefore(s, LockStep(LoadOwner(c)));
    }
  }

  lemma FromUntried(s: Once, q: Queue)
    requires Untried(s, q) && s.callers != []
    ensures CanCall(s)
  {
    if q.entered == q.released {
      FromUnheld(s, q, 0);
    } else {
      var c := q.taken[q.released];
      assert TicketOk(s.lock.cpus[c], q.released, q);
      assert LockPcOk(s.callers[c], s.lock.cpus[c]) && KnowsOk(s.callers[c], s.flag, s.zeros);
      if s.callers[c].Check2? {
        FromCheck2(s, q, c);
      } else if s.callers[c].Calling? {
        CallingCanCall(s);
      } else {
        FromUnlocking(s, q, c);
      }
    }
  }

  /** The lock underneath goes through a run of the lock. */
  lemma {:induction false} LockOfRun(s: Once, moves: seq<Move>, acts: seq<Action>) returns (acts': seq<Action>)
    requires LockReached(s, acts) && OnceRuns(s, moves)
    ensures LockReached(OnceAfter(s, moves), acts') && |OnceAfter(s, moves).callers| == |s.callers|
    decreases |moves|
  {
    acts' := acts;
    if moves != [] {
      acts' := MoveReaches(s, moves[0], acts);
      acts' := LockOfRun(Moved(s, moves[0]), moves[1..], acts');
    }
  }

  lemma ReachableUntried(n: nat, moves: seq<Move>) returns (q: Queue)
    requires n <= TICKETS && OnceRuns(InitOnce(n), moves) && OnceAfter(InitOnce(n), moves).zeros == 0
    ensures Untried(OnceAfter(InitOnce(n), moves), q) && |OnceAfter(InitOnce(n), moves).callers| == n
  {
    ReachableSound(n, moves);
    var acts := LockOfRun(InitOnce(n), moves, []);
    LockRefinesQueue(n, acts);
    q := QueueOf(n, acts);
  }

  /** From a reachable state some continuation gets a caller into `func` exactly when no call of it has returned 0. */
  lemma RetryExactly(n: nat, moves: seq<Move>)
    requires 0 < n <= TICKETS && OnceRuns(InitOnce(n), moves)
    ensures var s := OnceAfter(InitOnce(n), moves); CanCall(s) <==> s.zeros == 0
  {
    var s := OnceAfter(InitOnce(n), moves);
    if s.zeros == 0 {
      var q := ReachableUntried(n, moves);
      FromUntried(s, q);
    } else {
      forall later | OnceRuns(s, later) ensures !SomeoneCalling(OnceAfter(s, later)) {
        RunsOn(InitOnce(n), moves, later);
        NoCallAfterSuccess(n, moves, later);
      }
    }
  }

  lemma {:induction false} RunsOn(s: Once, xs: seq<Move>, ys: seq<Move>)
    requires OnceRuns(s, xs) && OnceRuns(OnceAfter(s, xs), ys)
    ensures OnceRuns(s, xs + ys) && OnceAfter(s, xs + ys) == OnceAfter(OnceAfter(s, xs), ys)
    decreases |xs|
  {
    if xs == [] {
      assert xs + ys == ys;
    } else {
      assert (xs + ys)[1..] == xs[1..] + ys;
      RunsOn(Moved(s, xs[0]), xs[1..], ys);
    }
  }

  // ----- what a caller returns

  /** What a caller's own call of `func` has returned since it last called `run_once`; 0 if it has made none. */
  function OwnResult(before: int, moves: seq<Move>, c: nat): int
    decreases |moves|
  {
    if moves == [] then before else OwnResult(OwnStep(before, moves[0], c), moves[1..], c)
  }

  function OwnStep(before: int, v: Move, c: nat): int {
    match v
    case Call(d) => if d == c then 0 else before
    case FuncReturns(d, ret) => if d == c then ret else before
    case _ => before
  }

  predicate ReturnsOwn(pc: Caller, own: int) {
    match pc
    case Unlocking(ret) => ret == own
    case Returning(ret) => ret == own
    case Setting => own == 0
    case Outside => true
    case _ => own == 0
  }

  lemma {:induction false} OwnResultKept(s: Once, moves: seq<Move>, c: nat, own: int)
    requires OnceRuns(s, moves) && c < |s.callers| && ReturnsOwn(s.callers[c], own)
    ensures var r := OnceAfter(s, moves);
            |r.callers| == |s.callers| && ReturnsOwn(r.callers[c], OwnResult(own, moves, c))
    decreases |moves|
  {
    if moves != [] {
      OwnResultKept(Moved(s, moves[0]), moves[1..], c, OwnStep(own, moves[0], c));
    }
  }

  /** A caller returns what its own call of `func` has returned, and 0 when it has made none. */
  lemma CallerReturnsOwnResult(n: nat, moves: seq<Move>, c: nat, ret: int)
    requires OnceRuns(InitOnce(n), moves) && c < n
    requires c < |OnceAfter(InitOnce(n), moves).callers| && OnceAfter(InitOnce(n), moves).callers[c] == Returning(ret)
    ensures ret == OwnResult(0, moves, c)
  {
    OwnResultKept(InitOnce(n), moves, c, 0);
  }
}
