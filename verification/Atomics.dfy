/**
 The read-modify-write loops of atomic.h, 32 and 64 bits wide, running at once on any
 number of CPUs. Every run is shown equivalent to a sequence of indivisible operations.
 */
module Atomics {
  import opened Words
  import opened Exclusive

  /** `Add(i)` is atomic_add_return; atomic_sub_return(i) is `Add(-i)`. */
  datatype Op = Add(i: int) | CmpXchg(was: nat, to: nat) | AddUnless(a: int, u: nat) | DecIfPositive

  /** The two widths of a counter, as the number of its values. */
  predicate Width(size: nat) { size == TWO32 || size == TWO64 }

  /** The operation as one indivisible step: the new value and what is returned. */
  function Apply(op: Op, w: nat, size: nat): (nat, nat)
    requires Width(size)
  {
    match op
    case Add(i) => ((w + i) % size, (w + i) % size)
    case CmpXchg(was, to) => (if w == was then to else w, w)
    case AddUnless(a, u) => (if w == u then w else (w + a) % size, w)
    case DecIfPositive =>
      var v := (w + size - 1) % size;
      (if Negative(v, size) then w else v, v)
  }

  /** The sign bit. */
  predicate Negative(w: nat, size: nat) { w >= size / 2 }

  // ----- the machine

  /** Where a CPU is in an operation. `c` is the value a compare expects, `r` what will be returned. */
  datatype Pc =
    | Idle
    | Reading(a: int, u: nat)           // the plain read that starts add_unless
    | Loading(op: Op, c: nat)           // about to ldxr
    | Storing(op: Op, v: nat, r: nat)   // about to stxr `v`
    | Done(op: Op, r: nat)

  datatype Machine = Machine(size: nat, cell: Cell, cpus: seq<Pc>)

  datatype Action =
    Begin(c: nat, op: Op) | Read(c: nat) | Load(c: nat) | StoreOk(c: nat) | StoreFails(c: nat) | Return(c: nat)

  predicate Enabled(m: Machine, a: Action) {
    a.c < |m.cpus| &&
    var pc := m.cpus[a.c];
    match a
    case Begin(_, op) => pc.Idle? && (op.CmpXchg? ==> op.to < m.size)
    case Read(_) => pc.Reading?
    case Load(_) => pc.Loading?
    case StoreOk(c) => pc.Storing? && c in m.cell.reserved
    case StoreFails(_) => pc.Storing?
    case Return(_) => pc.Done?
  }

  /** Where a load-exclusive of `w` leads. */
  function AfterLoad(op: Op, c: nat, w: nat, size: nat): Pc
    requires Width(size)
  {
    match op
    case Add(i) => Storing(op, (w + i) % size, (w + i) % size)
    case CmpXchg(was, to) => if w == was then Storing(op, to, w) else Done(op, w)
    case AddUnless(a, u) =>
      // a compare-and-swap from c to c + a; when it sees another value, the outer loop goes round
      if w == c then Storing(op, (c + a) % size, c) else if w == u then Done(op, w) else Loading(op, w)
    case DecIfPositive =>
      var v := (w + size - 1) % size;
      if Negative(v, size) then Done(op, v) else Storing(op, v, v)
  }

  function Step(m: Machine, a: Action): Machine
    requires Width(m.size) && Enabled(m, a)
  {
    var c, w, pc := a.c, m.cell.value, m.cpus[a.c];
    match a
    case Begin(_, op) => m.(cpus := m.cpus[c := if op.AddUnless? then Reading(op.a, op.u) else Loading(op, 0)])
    case Read(_) =>
      var op := AddUnless(pc.a, pc.u);
      m.(cpus := m.cpus[c := if w == pc.u then Done(op, w) else Loading(op, w)])
    case Load(_) => m.(cell := LoadEx(m.cell, c), cpus := m.cpus[c := AfterLoad(pc.op, pc.c, w, m.size)])
    case StoreOk(_) => m.(cell := StoreEx(m.cell, c, pc.v), cpus := m.cpus[c := Done(pc.op, pc.r)])
    case StoreFails(_) => m.(cell := FailEx(m.cell, c), cpus := m.cpus[c := Loading(pc.op, pc.r)])
    case Return(_) => m.(cpus := m.cpus[c := Idle])
  }

  /** An operation takes effect: on which CPU, and with what result. */
  datatype Effect = Effect(c: nat, op: Op, r: nat)

  /** The effect of a step, if any: the CPU has reached the end of its operation. */
  function Effects(m: Machine, a: Action): seq<Effect>
    requires Width(m.size) && Enabled(m, a)
  {
    var pc, pc' := m.cpus[a.c], Step(m, a).cpus[a.c];
    if pc'.Done? then [Effect(a.c, pc'.op, pc'.r)] else []
  }

  // ----- each effect is one indivisible operation

  /** A reservation that is still there vouches for what is about to be stored. */
  predicate PcOk(pc: Pc, w: nat, reserved: bool, size: nat)
    requires Width(size)
  {
    match pc
    case Loading(op, c) => op.AddUnless? ==> c != op.u
    case Storing(op, v, r) =>
      (op.AddUnless? ==> r != op.u) && v < size && (reserved ==> Apply(op, w, size) == (v, r))
    case _ => true
  }

  ghost predicate Sound(m: Machine) {
    && Width(m.size) && m.cell.value < m.size
    && forall c :: 0 <= c < |m.cpus| ==>
         PcOk(m.cpus[c], m.cell.value, c in m.cell.reserved, m.size)
         && (m.cpus[c].Loading? && m.cpus[c].op.CmpXchg? ==> m.cpus[c].op.to < m.size)
         && (m.cpus[c].Storing? && m.cpus[c].op.CmpXchg? ==> m.cpus[c].op.to < m.size)
  }

  /** A step without an effect leaves the value; a step with one applies that operation to it. */
  predicate StepIsAtomic(m: Machine, a: Action)
    requires Width(m.size) && Enabled(m, a)
  {
    var m', es := Step(m, a), Effects(m, a);
    if es == [] then m'.cell.value == m.cell.value
    else Apply(es[0].op, m.cell.value, m.size) == (m'.cell.value, es[0].r)
  }

  lemma StepSound(m: Machine, a: Action)
    requires Sound(m) && Enabled(m, a)
    ensures Sound(Step(m, a)) && StepIsAtomic(m, a) && Step(m, a).size == m.size
  {
    var m' := Step(m, a);
    assert PcOk(m.cpus[a.c], m.cell.value, a.c in m.cell.reserved, m.size);
    forall d | 0 <= d < |m'.cpus|
      ensures PcOk(m'.cpus[d], m'.cell.value, d in m'.cell.reserved, m'.size)
    {
      assert PcOk(m.cpus[d], m.cell.value, d in m.cell.reserved, m.size);
    }
  }

  // ----- runs

  predicate Runs(m: Machine, acts: seq<Action>)
    requires Width(m.size)
    decreases |acts|
  {
    acts == [] || (Enabled(m, acts[0]) && Runs(Step(m, acts[0]), acts[1..]))
  }

  function After(m: Machine, acts: seq<Action>): Machine
    requires Width(m.size) && Runs(m, acts)
    decreases |acts|
  {
    if acts == [] then m else After(Step(m, acts[0]), acts[1..])
  }

  /** The effects of a run, in the order in which they happen. */
  function Log(m: Machine, acts: seq<Action>): seq<Effect>
    requires Width(m.size) && Runs(m, acts)
    decreases |acts|
  {
    if acts == [] then [] else Effects(m, acts[0]) + Log(Step(m, acts[0]), acts[1..])
  }

  function Init(n: nat, w: nat, size: nat): Machine {
    Machine(size, Cell(w, {}), seq(n, _ => Idle))
  }

  /** The value after the logged operations, done one after the other. */
  function Replay(w: nat, log: seq<Effect>, size: nat): nat
    requires Width(size)
    decreases |log|
  {
    if log == [] then w else Replay(Apply(log[0].op, w, size).0, log[1..], size)
  }

  /** Done one after the other, the operations return what the log says. */
  predicate Sequential(w: nat, log: seq<Effect>, size: nat)
    requires Width(size)
    decreases |log|
  {
    log == [] ||
    (log[0].r == Apply(log[0].op, w, size).1 && Sequential(Apply(log[0].op, w, size).0, log[1..], size))
  }

  lemma {:induction false} RunIsSequential(m: Machine, acts: seq<Action>)
    requires Sound(m) && Runs(m, acts)
    ensures Sound(After(m, acts)) && After(m, acts).size == m.size
    ensures Sequential(m.cell.value, Log(m, acts), m.size)
    ensures After(m, acts).cell.value == Replay(m.cell.value, Log(m, acts), m.size)
    decreases |acts|
  {
    if acts != [] {
      StepSound(m, acts[0]);
      RunIsSequential(Step(m, acts[0]), acts[1..]);
      var es, rest := Effects(m, acts[0]), Log(Step(m, acts[0]), acts[1..]);
      if es == [] { assert es + rest == rest; } else { assert (es + rest)[1..] == rest; }
    }
  }

  /**
   Any interleaving on any number of CPUs is equivalent to doing the operations one
   after the other, in the order of their effects: same results, same final value.
   */
  lemma EveryRunIsSequential(n: nat, w: nat, size: nat, acts: seq<Action>)
    requires Width(size) && w < size && Runs(Init(n, w, size), acts)
    ensures var log := Log(Init(n, w, size), acts);
            && Sequential(w, log, size)
            && After(Init(n, w, size), acts).cell.value == Replay(w, log, size)
  {
    RunIsSequential(Init(n, w, size), acts);
  }

  // ----- one effect for each call

  /** What a CPU does in a run: the calls it begins, the effects, the results it returns. */
  function Calls(acts: seq<Action>, c: nat): seq<Op> {
    if acts == [] then []
    else (if acts[0].Begin? && acts[0].c == c then [acts[0].op] else []) + Calls(acts[1..], c)
  }

  function EffectsOf(log: seq<Effect>, c: nat): seq<(Op, nat)> {
    if log == [] then [] else (if log[0].c == c then [(log[0].op, log[0].r)] else []) + EffectsOf(log[1..], c)
  }

  function Returned(m: Machine, acts: seq<Action>, c: nat): seq<(Op, nat)>
    requires Width(m.size) && Runs(m, acts)
    decreases |acts|
  {
    if acts == [] then []
    else (if acts[0].Return? && acts[0].c == c then [(m.cpus[c].op, m.cpus[c].r)] else [])
         + Returned(Step(m, acts[0]), acts[1..], c)
  }

  /** The operation a CPU is in the middle of, before its effect. */
  function Pending(pc: Pc): seq<Op> {
    match pc
    case Reading(a, u) => [AddUnless(a, u)]
    case Loading(op, _) => [op]
    case Storing(op, _, _) => [op]
    case _ => []
  }

  /** The effect whose result a CPU has not returned yet. */
  function Unreturned(pc: Pc): seq<(Op, nat)> {
    if pc.Done? then [(pc.op, pc.r)] else []
  }

  function OpsOf(es: seq<(Op, nat)>): seq<Op> {
    if es == [] then [] else [es[0].0] + OpsOf(es[1..])
  }

  lemma {:induction false} EffectsOfSplit(xs: seq<Effect>, ys: seq<Effect>, c: nat)
    ensures EffectsOf(xs + ys, c) == EffectsOf(xs, c) + EffectsOf(ys, c)
  {
    if xs == [] {
      assert xs + ys == ys;
    } else {
      var first := if xs[0].c == c then [(xs[0].op, xs[0].r)] else [];
      var a, b := EffectsOf(xs[1..], c), EffectsOf(ys, c);
      assert (xs + ys)[1..] == xs[1..] + ys;
      EffectsOfSplit(xs[1..], ys, c);
      assert first + (a + b) == first + a + b;
    }
  }

  lemma {:induction false} OpsOfSplit(xs: seq<(Op, nat)>, ys: seq<(Op, nat)>)
    ensures OpsOf(xs + ys) == OpsOf(xs) + OpsOf(ys)
  {
    if xs == [] {
      assert xs + ys == ys;
    } else {
      assert (xs + ys)[1..] == xs[1..] + ys;
      OpsOfSplit(xs[1..], ys);
    }
  }

  /** A step moves at most one operation of CPU `c` from called to effective. */
  lemma StepMovesPending(m: Machine, a: Action, c: nat)
    requires Width(m.size) && Enabled(m, a) && c < |m.cpus|
    ensures Pending(m.cpus[c]) + (if a.Begin? && a.c == c then [a.op] else [])
         == OpsOf(EffectsOf(Effects(m, a), c)) + Pending(Step(m, a).cpus[c])
  {
  }

  /** And at most one from effective to returned. */
  lemma StepMovesUnreturned(m: Machine, a: Action, c: nat)
    requires Width(m.size) && Enabled(m, a) && c < |m.cpus|
    ensures Unreturned(m.cpus[c]) + EffectsOf(Effects(m, a), c)
         == (if a.Return? && a.c == c then [(m.cpus[c].op, m.cpus[c].r)] else []) + Unreturned(Step(m, a).cpus[c])
  {
  }

  /**
   Each call of a CPU has exactly one effect, in the order of its calls, and returns
   that effect's result: what has been called is what took effect plus what is
   pending, and what took effect is what was returned plus what is about to be.
   */
  lemma {:induction false} OneEffectEach(m: Machine, acts: seq<Action>, c: nat)
    requires Width(m.size) && Runs(m, acts) && c < |m.cpus|
    ensures var m', es := After(m, acts), EffectsOf(Log(m, acts), c);
            && |m'.cpus| == |m.cpus|
            && Pending(m.cpus[c]) + Calls(acts, c) == OpsOf(es) + Pending(m'.cpus[c])
            && Unreturned(m.cpus[c]) + es == Returned(m, acts, c) + Unreturned(m'.cpus[c])
    decreases |acts|
  {
    if acts != [] {
      var a, s := acts[0], Step(m, acts[0]);
      StepMovesPending(m, a, c);
      StepMovesUnreturned(m, a, c);
      OneEffectEach(s, acts[1..], c);
      EffectsOfSplit(Effects(m, a), Log(s, acts[1..]), c);
      OpsOfSplit(EffectsOf(Effects(m, a), c), EffectsOf(Log(s, acts[1..]), c));
      Shuffle(Pending(m.cpus[c]), if a.Begin? && a.c == c then [a.op] else [], Calls(acts[1..], c),
              OpsOf(EffectsOf(Effects(m, a), c)), Pending(s.cpus[c]),
              OpsOf(EffectsOf(Log(s, acts[1..]), c)), Pending(After(m, acts).cpus[c]));
      Shuffle(Unreturned(m.cpus[c]), EffectsOf(Effects(m, a), c), EffectsOf(Log(s, acts[1..]), c),
              if a.Return? && a.c == c then [(m.cpus[c].op, m.cpus[c].r)] else [], Unreturned(s.cpus[c]),
              Returned(s, acts[1..], c), Unreturned(After(m, acts).cpus[c]));
    }
  }

  lemma Shuffle<T>(p: seq<T>, b: seq<T>, rest: seq<T>, e: seq<T>, p': seq<T>, es: seq<T>, p'': seq<T>)
    requires p + b == e + p' && p' + rest == es + p''
    ensures p + (b + rest) == (e + es) + p''
  {
    assert p + (b + rest) == (p + b) + rest;
    assert (e + p') + rest == e + (p' + rest);
    assert (e + es) + p'' == e + (es + p'');
  }

  // ----- what the counters add up to

  /** What an effect has added. */
  function Added(e: Effect): int {
    match e.op
    case Add(i) => i
    case AddUnless(a, u) => if e.r == u then 0 else a
    case DecIfPositive => 0
    case CmpXchg(_, _) => 0
  }

  function AddedAll(log: seq<Effect>): int {
    if log == [] then 0 else Added(log[0]) + AddedAll(log[1..])
  }

  lemma ModAdd(w: int, i: int, j: int, size: nat)
    requires Width(size)
    ensures ((w + i) % size + j) % size == (w + i + j) % size
  {
    if size == TWO32 { ModAdd32(w + i, j); } else { ModAdd64(w + i, j); }
  }

  lemma ModAdd32(x: int, j: int)
    ensures (x % TWO32 + j) % TWO32 == (x + j) % TWO32
  {
  }

  lemma ModAdd64(x: int, j: int)
    ensures (x % TWO64 + j) % TWO64 == (x + j) % TWO64
  {
  }

  /** With adds and add-unlesses only, the value is the start plus the successful adds, modulo the word. */
  lemma {:induction false} ValueIsSum(w: nat, log: seq<Effect>, size: nat)
    requires Width(size) && w < size && Sequential(w, log, size)
    requires forall e :: e in log ==> e.op.Add? || e.op.AddUnless?
    ensures Replay(w, log, size) == (w + AddedAll(log)) % size
    decreases |log|
  {
    if log != [] {
      assert log[0] in log;
      var w' := Apply(log[0].op, w, size).0;
      assert w' == (w + Added(log[0])) % size;
      forall e | e in log[1..] ensures e.op.Add? || e.op.AddUnless? { assert e in log; }
      ValueIsSum(w', log[1..], size);
      ModAdd(w, Added(log[0]), AddedAll(log[1..]), size);
    }
  }

  /** How many decrements have gone through: those that return a non-negative value. */
  function Decrements(log: seq<Effect>, size: nat): nat {
    if log == [] then 0 else (if Negative(log[0].r, size) then 0 else 1) + Decrements(log[1..], size)
  }

  /** No interleaving of dec_if_positive takes a counter that is not negative below zero. */
  lemma {:induction false} DecNeverBelowZero(w: nat, log: seq<Effect>, size: nat)
    requires Width(size) && w < size && !Negative(w, size) && Sequential(w, log, size)
    requires forall e :: e in log ==> e.op.DecIfPositive?
    ensures !Negative(Replay(w, log, size), size)
    ensures Decrements(log, size) <= w && Replay(w, log, size) == w - Decrements(log, size)
    decreases |log|
  {
    if log != [] {
      assert log[0] in log;
      forall e | e in log[1..] ensures e.op.DecIfPositive? { assert e in log; }
      DecNeverBelowZero(Apply(log[0].op, w, size).0, log[1..], size);
    }
  }

  /** So a counter that only dec_if_positive touches stays between 0 and where it started. */
  lemma DecRunsNeverBelowZero(n: nat, w: nat, size: nat, acts: seq<Action>)
    requires Width(size) && w < size && !Negative(w, size) && Runs(Init(n, w, size), acts)
    requires forall e :: e in Log(Init(n, w, size), acts) ==> e.op.DecIfPositive?
    ensures var m := After(Init(n, w, size), acts); !Negative(m.cell.value, size) && m.cell.value <= w
  {
    EveryRunIsSequential(n, w, size, acts);
    DecNeverBelowZero(w, Log(Init(n, w, size), acts), size);
  }

  /** It decrements exactly the positive values, and the most negative one: the test looks at the sign bit only. */
  lemma DecIfPositiveExactly(w: nat, size: nat)
    requires Width(size) && w < size
    ensures Apply(DecIfPositive, w, size).0 != w <==> (0 < w && !Negative(w, size)) || w == size / 2
  {
  }

  // ----- a call that nobody disturbs

  /** CPU `c` alone goes through `acts`, to the end of `op`: the value is then `v`, and `r` is returned. */
  ghost predicate Does(m: Machine, acts: seq<Action>, c: nat, op: Op, v: nat, r: nat)
    requires Width(m.size) && c < |m.cpus|
  {
    Runs(m, acts) && After(m, acts).cell.value == v && After(m, acts).cpus == m.cpus[c := Done(op, r)]
  }

  lemma RunsFirst(m: Machine, a: Action, acts: seq<Action>)
    requires Width(m.size) && Enabled(m, a) && Runs(Step(m, a), acts)
    ensures Runs(m, [a] + acts) && After(m, [a] + acts) == After(Step(m, a), acts)
  {
    assert ([a] + acts)[0] == a && ([a] + acts)[1..] == acts;
  }

  /** The end of an operation that has nothing to store: its load is its effect. */
  lemma LoadEnds(m: Machine, c: nat, op: Op, u: nat, r: nat)
    requires Width(m.size) && c < |m.cpus| && m.cpus[c] == Loading(op, u)
    requires AfterLoad(op, u, m.cell.value, m.size) == Done(op, r)
    ensures Does(m, [Load(c)], c, op, m.cell.value, r)
  {
    RunsFirst(m, Load(c), []);
    assert [Load(c)] + [] == [Load(c)];
  }

  /** The end of one that stores. */
  lemma StoreEnds(m: Machine, c: nat, op: Op, u: nat, v: nat, r: nat)
    requires Width(m.size) && c < |m.cpus| && m.cpus[c] == Loading(op, u)
    requires AfterLoad(op, u, m.cell.value, m.size) == Storing(op, v, r)
    ensures Does(m, [Load(c), StoreOk(c)], c, op, v, r)
  {
    RunsFirst(Step(m, Load(c)), StoreOk(c), []);
    RunsFirst(m, Load(c), [StoreOk(c)]);
    assert [StoreOk(c)] + [] == [StoreOk(c)] && [Load(c)] + [StoreOk(c)] == [Load(c), StoreOk(c)];
  }

  /** The beginning of one that is no add_unless. */
  lemma BeginThen(m: Machine, c: nat, op: Op, acts: seq<Action>, v: nat, r: nat)
    requires Width(m.size) && c < |m.cpus| && m.cpus[c].Idle? && Enabled(m, Begin(c, op)) && !op.AddUnless?
    requires Does(m.(cpus := m.cpus[c := Loading(op, 0)]), acts, c, op, v, r)
    ensures Does(m, [Begin(c, op)] + acts, c, op, v, r)
  {
    RunsFirst(m, Begin(c, op), acts);
  }

  /** atomic_add_return and atomic_sub_return: the value wraps in its width, and is returned. */
  lemma AddAlone(m: Machine, c: nat, i: int)
    requires Width(m.size) && m.cell.value < m.size && c < |m.cpus| && m.cpus[c].Idle?
    ensures var v := (m.cell.value + i) % m.size;
            Does(m, [Begin(c, Add(i))] + [Load(c), StoreOk(c)], c, Add(i), v, v)
  {
    var v := (m.cell.value + i) % m.size;
    StoreEnds(m.(cpus := m.cpus[c := Loading(Add(i), 0)]), c, Add(i), 0, v, v);
    BeginThen(m, c, Add(i), [Load(c), StoreOk(c)], v, v);
  }

  /** atomic_cmpxchg: the old value is returned, and replaced exactly if it is the one expected. */
  lemma CmpXchgAlone(m: Machine, c: nat, was: nat, to: nat)
    requires Width(m.size) && m.cell.value < m.size && c < |m.cpus| && m.cpus[c].Idle? && to < m.size
    ensures var w, op := m.cell.value, CmpXchg(was, to);
            if w == was then Does(m, [Begin(c, op)] + [Load(c), StoreOk(c)], c, op, to, w)
            else Does(m, [Begin(c, op)] + [Load(c)], c, op, w, w)
  {
    var w, op := m.cell.value, CmpXchg(was, to);
    var m' := m.(cpus := m.cpus[c := Loading(op, 0)]);
    if w == was {
      StoreEnds(m', c, op, 0, to, w);
      BeginThen(m, c, op, [Load(c), StoreOk(c)], to, w);
    } else {
      LoadEnds(m', c, op, 0, w);
      BeginThen(m, c, op, [Load(c)], w, w);
    }
  }

  /** atomic_add_unless: the old value is returned, and added to exactly if it is not `u`. */
  lemma AddUnlessAlone(m: Machine, c: nat, a: int, u: nat)
    requires Width(m.size) && m.cell.value < m.size && c < |m.cpus| && m.cpus[c].Idle?
    ensures var w, op := m.cell.value, AddUnless(a, u);
            if w == u then Does(m, [Begin(c, op)] + [Read(c)], c, op, w, w)
            else Does(m, [Begin(c, op)] + ([Read(c)] + [Load(c), StoreOk(c)]), c, op, (w + a) % m.size, w)
  {
    var w, op := m.cell.value, AddUnless(a, u);
    var m1 := Step(m, Begin(c, op));
    if w == u {
      RunsFirst(m1, Read(c), []);
      assert [Read(c)] + [] == [Read(c)];
      RunsFirst(m, Begin(c, op), [Read(c)]);
    } else {
      StoreEnds(Step(m1, Read(c)), c, op, w, (w + a) % m.size, w);
      RunsFirst(m1, Read(c), [Load(c), StoreOk(c)]);
      RunsFirst(m, Begin(c, op), [Read(c)] + [Load(c), StoreOk(c)]);
    }
  }

  /**
   atomic_dec_if_positive: one less is stored and returned where the value, as a signed number, is
   positive, or the most negative one; else one less is returned and nothing stored.
   */
  lemma DecIfPositiveAlone(m: Machine, c: nat)
    requires Width(m.size) && m.cell.value < m.size && c < |m.cpus| && m.cpus[c].Idle?
    ensures var w := m.cell.value;
            if 0 < w <= m.size / 2
            then Does(m, [Begin(c, DecIfPositive)] + [Load(c), StoreOk(c)], c, DecIfPositive, w - 1, w - 1)
            else Does(m, [Begin(c, DecIfPositive)] + [Load(c)], c, DecIfPositive, w,
                      if w == 0 then m.size - 1 else w - 1)
  {
    var w, op := m.cell.value, DecIfPositive;
    var m' := m.(cpus := m.cpus[c := Loading(op, 0)]);
    DecWraps(w, m.size);
    var v := if w == 0 then m.size - 1 else w - 1;
    if 0 < w <= m.size / 2 {
      StoreEnds(m', c, op, 0, v, v);
      BeginThen(m, c, op, [Load(c), StoreOk(c)], v, v);
    } else {
      LoadEnds(m', c, op, 0, v);
      BeginThen(m, c, op, [Load(c)], w, v);
    }
  }

  lemma DecWraps(w: nat, size: nat)
    requires Width(size) && w < size
    ensures (w + size - 1) % size == if w == 0 then size - 1 else w - 1
  {
  }
}
