/**
 The per-CPU timer list of timer.c: starting timers, and the walk of the timer
 interrupt, during which callbacks may start further timers.
 */
module Timer {
  import opened Words
  import opened Counting
  import opened IntrusiveList
  import opened TimerFates

  const EINVAL: int := 22

  ghost function InfosOf(ts: seq<Node>): (r: seq<Info>)
    reads ts
    ensures |r| == |ts|
    ensures forall i :: 0 <= i < |ts| ==> r[i] == InfoOf(ts[i])
  {
    seq(|ts|, i requires 0 <= i < |ts| reads ts => InfoOf(ts[i]))
  }

  function InfoOf(t: Node): Info
    reads t
  {
    Info(t.isPeriodic, t.isActive, t.hasCallback)
  }

  /** The fields of `ts` are `infos`, save for those of the first `k` that have expired. */
  ghost predicate Kept(ts: seq<Node>, infos: seq<Info>, k: nat)
    requires |ts| == |infos|
    reads ts
  {
    forall i :: 0 <= i < |ts| && (k <= i || Has(infos[i], Staying)) ==> InfoOf(ts[i]) == infos[i]
  }

  /** The fields of `ts` are `infos`, save for those freed. */
  ghost predicate Survived(ts: seq<Node>, infos: seq<Info>, freed: seq<Node>)
    requires |ts| == |infos|
    reads ts
  {
    forall i :: 0 <= i < |ts| && ts[i] !in freed ==> InfoOf(ts[i]) == infos[i]
  }

  /** `ts` are the timers of `cfgs`, started in that order, so the last one comes first. */
  ghost predicate Started(ts: seq<Node>, cfgs: seq<Config>)
    reads ts
  {
    && |ts| == |cfgs|
    && forall i :: 0 <= i < |ts| ==>
         InfoOf(ts[i]) == Info(cfgs[|ts| - 1 - i].periodic, true, cfgs[|ts| - 1 - i].callback)
  }

  /** What the first `k` callbacks start, in order. */
  function AllConfigs(starts: nat -> seq<Config>, k: nat): seq<Config> {
    if k == 0 then [] else AllConfigs(starts, k - 1) + starts(k - 1)
  }

  lemma KeptAtEntry(ts: seq<Node>)
    ensures Kept(ts, InfosOf(ts), 0) && Started([], [])
  {
  }

  /** What is left behind the head of `r` when the timer at `i` has been visited. */
  ghost function Visited(r: seq<Node>, i: nat, expired: bool): seq<Node>
    requires 0 < i < |r|
  {
    r[1..i] + (if expired then [] else [r[i]]) + r[i + 1..]
  }

  /** Dropping a timer behind those that have just been started. */
  lemma DroppedIs(h: Node, mine: seq<Node>, r: seq<Node>, i: nat)
    requires 0 < i < |r|
    ensures var s, k := [h] + mine + r[1..], |mine| + i;
            k < |s| && s[..k] + s[k + 1..] == [h] + mine + Visited(r, i, true)
  {
    var s, k := [h] + mine + r[1..], |mine| + i;
    assert s[..k] == [h] + mine + r[1..i];
    assert s[k + 1..] == r[i + 1..];
  }

  /** The list of the manager when `k` of `ts` have been visited. */
  ghost function Listed(h: Node, started: seq<Node>, ts: seq<Node>, infos: seq<Info>, k: nat): seq<Node>
    requires k <= |ts| == |infos|
  {
    [h] + (started + Pick(ts, infos, Staying, k) + ts[k..])
  }

  lemma ListedAtEntry(r: seq<Node>, ts: seq<Node>, infos: seq<Info>)
    requires r != [] && AllDistinct(r) && ts == r[1..] && |infos| == |ts|
    ensures r == Listed(r[0], [], ts, infos, 0) && AllDistinct(ts)
    ensures r[Succ(0, |r|)] == if 0 < |ts| then ts[0] else r[0]
  {
  }

  /** Where `ts[k]` stands in that list, and what comes after it. */
  lemma NextListed(r: seq<Node>, h: Node, started: seq<Node>, ts: seq<Node>, infos: seq<Info>, k: nat) returns (i: nat)
    requires k < |ts| == |infos| && r == Listed(h, started, ts, infos, k)
    ensures i == 1 + |started| + |Pick(ts, infos, Staying, k)| < |r| && r[i] == ts[k] && r[0] == h
    ensures r[Succ(i, |r|)] == if k + 1 < |ts| then ts[k + 1] else h
  {
    i := 1 + |started| + |Pick(ts, infos, Staying, k)|;
  }

  /** One more visit, as seen in the list: `ts[k]` leaves its place if it has expired, and `mine` come first. */
  lemma VisitMovesOn(r: seq<Node>, i: nat, h: Node, mine: seq<Node>, started: seq<Node>,
                     ts: seq<Node>, infos: seq<Info>, k: nat, expired: bool)
    requires k < |ts| == |infos| && r == Listed(h, started, ts, infos, k)
    requires i == 1 + |started| + |Pick(ts, infos, Staying, k)| && expired == Expires(infos[k])
    ensures i < |r| && [h] + mine + Visited(r, i, expired) == Listed(h, mine + started, ts, infos, k + 1)
    ensures forall x :: x in Listed(h, mine + started, ts, infos, k + 1) ==> x in r || x in mine
  {
    var p := Pick(ts, infos, Staying, k);
    assert r[1..i] == started + p;
    assert r[i + 1..] == ts[k + 1..];
  }

  /** The timers still listed when `k` of `ts` have been visited. */
  lemma Remaining(r: seq<Node>, h: Node, started: seq<Node>, ts: seq<Node>, infos: seq<Info>, k: nat)
    requires k < |ts| == |infos| && AllDistinct(ts) && r == Listed(h, started, ts, infos, k) && AllDistinct(r)
    ensures forall i :: 0 <= i < |ts| && (k <= i || Has(infos[i], Staying)) ==> ts[i] in r
    ensures forall i :: 0 <= i < |started| ==> started[i] in r && started[i] != ts[k]
  {
    PickIs(ts, infos, Staying, k);
    var tail := ts[k..];
    assert forall i :: k <= i < |ts| ==> ts[i] == tail[i - k];
    var at := NextListed(r, h, started, ts, infos, k);
    assert forall i :: 0 <= i < |started| ==> started[i] == r[1 + i];
  }

  /** Timers started later stand before those started earlier. */
  lemma StartedBoth(mine: seq<Node>, cfgs: seq<Config>, started: seq<Node>, all: seq<Config>)
    requires Started(mine, cfgs) && Started(started, all)
    ensures Started(mine + started, all + cfgs)
  {
  }

  /** A 32-bit counter incremented `k` times. */
  function Counted(n: u32, k: nat): u32 {
    if k == 0 then n else (Counted(n, k - 1) + 1) % TWO32
  }

  lemma {:induction false} CountedBoth(n: u32, i: nat, k: nat)
    ensures Counted(Counted(n, i), k) == Counted(n, i + k)
  {
    if k > 0 {
      CountedBoth(n, i, k - 1);
    }
  }

  lemma WrapsOnce(x: nat)
    ensures (x % TWO32 + 1) % TWO32 == (x + 1) % TWO32
  {
  }

  lemma CountedAhead<T>(n: u32, started: seq<T>, mine: seq<T>)
    ensures Counted(Counted(n, |started|), |mine|) == Counted(n, |mine + started|)
  {
    CountedBoth(n, |started|, |mine|);
  }

  /** `nr_timers` counts modulo 2^32. */
  lemma {:induction false} CountedIs(n: u32, k: nat)
    ensures Counted(n, k) == (n + k) % TWO32
  {
    if k > 0 {
      CountedIs(n, k - 1);
      WrapsOnce(n + k - 1);
    }
  }

  /** The fates of the timers of `ts`, by the fields that they had. */
  lemma FatesAre(ts: seq<Node>, infos: seq<Info>, called: seq<Node>, freed: seq<Node>)
    requires AllDistinct(ts) && |ts| == |infos|
    requires called == Pick(ts, infos, Firing, |ts|) && freed == Pick(ts, infos, Expiring, |ts|)
    ensures forall i :: 0 <= i < |ts| ==>
              && (ts[i] in called <==> infos[i].active && infos[i].callback)
              && (ts[i] in freed <==> infos[i].active && !infos[i].periodic)
              && (ts[i] in Pick(ts, infos, Staying, |ts|) <==> ts[i] !in freed)
    ensures forall t :: t in called || t in freed ==> t in ts
  {
    PickIs(ts, infos, Firing, |ts|);
    PickIs(ts, infos, Expiring, |ts|);
    PickIs(ts, infos, Staying, |ts|);
  }

  // ----- timers

  /** create_timer_periodic and create_timer_oneshot; NULL when malloc has no memory. */
  method CreateTimer(periodic: bool, callback: bool, outOfMemory: bool) returns (t: Node?)
    ensures t == null <==> outOfMemory
    ensures t != null ==>
              fresh(t) && t.isPeriodic == periodic && !t.isActive && t.hasCallback == callback && Ring([t])
  {
    if outOfMemory {
      return null;
    }
    t := new Node(periodic, callback);
  }

  /** `free` of a timer: nothing is known of its fields afterwards. */
  method FreeTimer(t: Node)
    modifies t
  {
    t.prev, t.next := null, null;
    t.isPeriodic, t.isActive, t.hasCallback := true, true, true;
  }

  twostate lemma FreshBoth(new mine: seq<Node>, new started: seq<Node>)
    requires fresh(mine) && fresh(started)
    ensures fresh(mine + started)
  {
  }

  twostate lemma FreshGrows(a: set<Node>, new b: set<Node>, new c: set<Node>)
    requires fresh(b - a) && fresh(c - b)
    ensures fresh(c - a)
  {
  }

  ghost predicate Within(r: seq<Node>, s: set<Node>) {
    forall i :: 0 <= i < |r| ==> r[i] in s
  }

  /** A timer that a callback creates and starts. */
  datatype Config = Config(periodic: bool, callback: bool)

  /**
   What a walk finds at entry: the timers, their fields, the count of timers started, and what
   each callback will start.
   */
  datatype Entry = Entry(ts: seq<Node>, infos: seq<Info>, count: u32, starts: nat -> seq<Config>)

  class Manager {
    var head: Node
    var nrTimers: u32
    /** The head and the timers linked behind it. */
    ghost var ring: seq<Node>
    /** What the methods may change. */
    ghost var repr: set<Node>

    ghost predicate Valid()
      reads this, ring
    {
      ring != [] && ring[0] == head && Ring(ring) && Within(ring, repr)
    }

    ghost function Timers(): seq<Node>
      reads this
      requires ring != []
    {
      ring[1..]
    }

    /** percpu_timer_manager_init */
    constructor ()
      ensures Valid() && Timers() == [] && nrTimers == 0 && fresh(repr)
    {
      head := new Node(false, false);
      nrTimers := 0;
      new;
      ring := [head];
      repr := {head};
      ListInit(head);
    }

    /** start_timer on this manager. The timer is on no list: the caller has just created it, or it has expired. */
    method StartTimer(t: Node?) returns (ret: int)
      requires Valid() && (t != null ==> t !in ring)
      modifies this`nrTimers, this`ring, this`repr, repr
      modifies if t == null then {} else {t}
      ensures Valid() && head == old(head) && repr == old(repr) + (if t == null then {} else {t})
      ensures t == null ==> ret == -EINVAL && ring == old(ring) && nrTimers == old(nrTimers)
      ensures t != null ==>
                ret == 0 && ring == [head, t] + old(Timers()) && nrTimers == Counted(old(nrTimers), 1)
                && t.isActive && t.isPeriodic == old(t.isPeriodic) && t.hasCallback == old(t.hasCallback)
      ensures forall x :: x in old(ring) ==> InfoOf(x) == old(InfoOf(x))
    {
      if t == null {
        return -EINVAL;
      }
      t.isActive := true;
      nrTimers := (nrTimers + 1) % TWO32;
      assert ring[0].next == ring[Succ(0, |ring|)];
      ListAdd(t, head, ring);
      ring := [head, t] + ring[1..];
      repr := repr + {t};
      return 0;
    }

    /** A timer created and started: what callbacks do, and platform_init. */
    method StartFresh(cfg: Config) returns (t: Node)
      requires Valid()
      modifies this`nrTimers, this`ring, this`repr, repr
      ensures Valid() && head == old(head) && fresh(repr - old(repr)) && nrTimers == Counted(old(nrTimers), 1)
      ensures fresh(t) && ring == [head, t] + old(Timers()) && InfoOf(t) == Info(cfg.periodic, true, cfg.callback)
      ensures forall x :: x in old(ring) ==> InfoOf(x) == old(InfoOf(x))
    {
      var created := CreateTimer(cfg.periodic, cfg.callback, false);
      t := created;
      var ret := StartTimer(t);
    }

    /** One more timer that a callback starts, in front of those it has started before. */
    method StartAhead(cfg: Config, ghost mine: seq<Node>, ghost done: seq<Config>, ghost tail: seq<Node>)
      returns (t: Node)
      requires Valid() && ring == [head] + mine + tail && Started(mine, done)
      modifies this`nrTimers, this`ring, this`repr, repr
      ensures Valid() && head == old(head) && fresh(repr - old(repr)) && fresh(t)
      ensures nrTimers == Counted(old(nrTimers), 1)
      ensures ring == [head] + ([t] + mine) + tail && Started([t] + mine, done + [cfg])
      ensures forall x :: x in old(ring) ==> InfoOf(x) == old(InfoOf(x))
    {
      t := StartFresh(cfg);
      assert old(ring)[1..] == mine + tail;
      assert Started(mine, done) by {
        assert forall k :: 0 <= k < |mine| ==> mine[k] == old(ring)[1 + k];
      }
      StartedBoth([t], [cfg], mine, done);
    }

    /** A callback that creates and starts the timers of `cfgs`, one after the other. */
    method Callback(cfgs: seq<Config>) returns (ghost mine: seq<Node>)
      requires Valid()
      modifies this`nrTimers, this`ring, this`repr, repr
      ensures Valid() && head == old(head) && fresh(repr - old(repr)) && nrTimers == Counted(old(nrTimers), |cfgs|)
      ensures ring == [head] + mine + old(Timers()) && fresh(mine) && Started(mine, cfgs)
      ensures forall x :: x in old(ring) ==> InfoOf(x) == old(InfoOf(x))
    {
      ghost var tail, count, repr0 := Timers(), nrTimers, repr;
      var i := 0;
      mine := [];
      while i < |cfgs|
        invariant i <= |cfgs| && Valid() && head == old(head) && fresh(repr - repr0) && fresh(mine)
        invariant ring == [head] + mine + tail && Started(mine, cfgs[..i]) && nrTimers == Counted(count, i)
        invariant forall x :: x in old(ring) ==> InfoOf(x) == old(InfoOf(x))
      {
        ghost var repr1 := repr;
        var t := StartAhead(cfgs[i], mine, cfgs[..i], tail);
        CountedBoth(count, i, 1);
        FreshGrows(repr0, repr1, repr);
        assert cfgs[..i + 1] == cfgs[..i] + [cfgs[i]];
        mine := [t] + mine;
        i := i + 1;
      }
      assert cfgs[..i] == cfgs;
    }

    /** list_del of the timer at place `i`. */
    method Unlink(timer: Node, ghost i: nat)
      requires Valid() && 0 < i < |ring| && ring[i] == timer
      modifies this`ring, repr
      ensures Valid() && ring == old(ring)[..i] + old(ring)[i + 1..]
      ensures forall x :: x in old(ring) ==> InfoOf(x) == old(InfoOf(x))
    {
      ghost var r := ring;
      assert r[i - 1].next == r[Succ(i - 1, |r|)] == timer;
      assert timer.prev == r[i - 1] && timer.next == r[Succ(i, |r|)];
      ListDel(timer, r, i);
      ring := r[..i] + r[i + 1..];
    }

    /** An expired timer, at place `i`, is switched off, unlinked and freed. */
    method Expire(timer: Node, ghost i: nat)
      requires Valid() && 0 < i < |ring| && ring[i] == timer
      modifies this`ring, repr
      ensures Valid() && ring == old(ring)[..i] + old(ring)[i + 1..]
      ensures forall x :: x in old(ring) && x != timer ==> InfoOf(x) == old(InfoOf(x))
    {
      ghost var r := ring;
      timer.isActive := false;
      Unlink(timer, i);
      assert timer !in ring;
      FreeTimer(timer);
    }

    /** What the walk does first with a timer: it calls it back if it is active and has a callback. */
    method Fire(timer: Node, cfgs: seq<Config>) returns (fired: bool, ghost mine: seq<Node>)
      requires Valid() && timer in Timers()
      modifies this`nrTimers, this`ring, this`repr, repr
      ensures Valid() && head == old(head) && fresh(repr - old(repr))
      ensures fired == old(timer.isActive && timer.hasCallback)
      ensures fresh(mine) && Started(mine, if fired then cfgs else [])
      ensures ring == [head] + mine + old(Timers())
      ensures nrTimers == Counted(old(nrTimers), |mine|)
      ensures forall x :: x in old(ring) ==> InfoOf(x) == old(InfoOf(x))
    {
      fired, mine := timer.isActive && timer.hasCallback, [];
      if fired {
        mine := Callback(cfgs);
      }
    }

    /**
     One round of the walk, on the timer at place `i`: call it back if it is active and has a
     callback, then drop and free it if it is active and one-shot. `mine` are the timers that
     the callback starts.
     */
    method Visit(timer: Node, cfgs: seq<Config>, ghost i: nat)
      returns (fired: bool, expired: bool, ghost mine: seq<Node>)
      requires Valid() && 0 < i < |ring| && ring[i] == timer
      modifies this`nrTimers, this`ring, this`repr, repr
      ensures Valid() && head == old(head) && fresh(repr - old(repr))
      ensures fired == old(timer.isActive && timer.hasCallback) && expired == old(timer.isActive && !timer.isPeriodic)
      ensures fresh(mine) && Started(mine, if fired then cfgs else [])
      ensures ring == [head] + mine + Visited(old(ring), i, expired)
      ensures nrTimers == Counted(old(nrTimers), |mine|)
      ensures forall x :: x in old(ring) && (x != timer || !expired) ==> InfoOf(x) == old(InfoOf(x))
    {
      ghost var r := ring;
      assert r[1..][i - 1] == timer;
      fired, mine := Fire(timer, cfgs);
      assert InfoOf(timer) == old(InfoOf(timer));
      expired := timer.isActive && !timer.isPeriodic;
      if expired {
        assert ring[|mine| + i] == timer;
        Expire(timer, |mine| + i);
      }
      if !expired {
        assert r[1..] == Visited(r, i, expired);
      } else {
        DroppedIs(head, mine, r, i);
      }
    }

    /**
     timer_irq_handler. The `k`-th callback of the walk starts the timers of `starts(k)`. Returned
     are the timers called back and those freed, both in order: of those linked at entry, the
     active ones with a callback, and the active one-shot ones. All but the latter stay linked.
     */
    method TimerIrq(starts: nat -> seq<Config>) returns (called: seq<Node>, freed: seq<Node>, ghost started: seq<Node>)
      requires Valid()
      modifies this`nrTimers, this`ring, this`repr, repr
      ensures Valid() && head == old(head) && fresh(repr - old(repr))
      ensures forall t :: t in old(Timers()) ==>
                && (t in called <==> old(t.isActive && t.hasCallback))
                && (t in freed <==> old(t.isActive && !t.isPeriodic))
                && (t in Timers() <==> !old(t.isActive && !t.isPeriodic))
      ensures forall t :: t in called || t in freed ==> t in old(Timers())
      ensures called == Pick(old(Timers()), old(InfosOf(Timers())), Firing, old(|Timers()|))
      ensures freed == Pick(old(Timers()), old(InfosOf(Timers())), Expiring, old(|Timers()|))
      ensures Timers() == started + Pick(old(Timers()), old(InfosOf(Timers())), Staying, old(|Timers()|))
      ensures fresh(started) && Started(started, AllConfigs(starts, |called|))
      ensures Survived(old(Timers()), old(InfosOf(Timers())), freed)
      ensures nrTimers == Counted(old(nrTimers), |started|)
    {
      ghost var ts, infos := Timers(), InfosOf(Timers());
      assert AllDistinct(ts) && forall i :: 0 <= i < |ts| ==> infos[i] == InfoOf(ts[i]);
      called, freed, started := Walk(starts);
      FatesAre(ts, infos, called, freed);
      assert forall t :: t in ts ==> t !in started;
    }

    /** list_for_each_safe over the timers of the list. */
    method Walk(starts: nat -> seq<Config>) returns (called: seq<Node>, freed: seq<Node>, ghost started: seq<Node>)
      requires Valid()
      modifies this`nrTimers, this`ring, this`repr, repr
      ensures Valid() && head == old(head) && fresh(repr - old(repr))
      ensures called == Pick(old(Timers()), old(InfosOf(Timers())), Firing, old(|Timers()|))
      ensures freed == Pick(old(Timers()), old(InfosOf(Timers())), Expiring, old(|Timers()|))
      ensures Timers() == started + Pick(old(Timers()), old(InfosOf(Timers())), Staying, old(|Timers()|))
      ensures fresh(started) && Started(started, AllConfigs(starts, |called|))
      ensures Survived(old(Timers()), old(InfosOf(Timers())), freed)
      ensures nrTimers == Counted(old(nrTimers), |started|)
    {
      ghost var e := Entry(Timers(), InfosOf(Timers()), nrTimers, starts);
      ghost var k, repr0 := 0, repr;
      called, freed, started := [], [], [];
      var pos := First(e);
      while pos != head
        invariant Walking(e, k, started, called, freed, pos)
        invariant head == old(head) && fresh(started) && fresh(repr - repr0)
        decreases |e.ts| - k
      {
        ghost var mine;
        ghost var repr1 := repr;
        pos, called, freed, mine := Step(pos, starts, called, freed, e, k, started);
        FreshBoth(mine, started);
        FreshGrows(repr0, repr1, repr);
        k, started := k + 1, mine + started;
      }
      WalkEnd(e, k, started, called, freed);
    }

    /** The walk has visited `k` timers, called and freed these, and started others; `pos` is next. */
    ghost predicate Walking(e: Entry, k: nat, started: seq<Node>, called: seq<Node>, freed: seq<Node>, pos: Node)
      reads this, ring, e.ts, started
    {
      && Underway(e, k, started, pos)
      && Started(started, AllConfigs(e.starts, |called|))
      && called == Pick(e.ts, e.infos, Firing, k) && freed == Pick(e.ts, e.infos, Expiring, k)
      && nrTimers == Counted(e.count, |started|)
    }

    ghost predicate Underway(e: Entry, k: nat, started: seq<Node>, pos: Node)
      reads this, ring, e.ts
    {
      && |e.ts| == |e.infos| && k <= |e.ts| && AllDistinct(e.ts) && Valid()
      && ring == Listed(head, started, e.ts, e.infos, k)
      && pos == (if k < |e.ts| then e.ts[k] else head)
      && Kept(e.ts, e.infos, k)
    }

    lemma UnderwayAtStart(e: Entry)
      requires Valid() && e.ts == Timers() && e.infos == InfosOf(e.ts)
      ensures head.next != null && Underway(e, 0, [], head.next)
    {
      assert head.next == ring[Succ(0, |ring|)];
      ListedAtEntry(ring, e.ts, e.infos);
      assert Kept(e.ts, e.infos, 0) by {
        KeptAtEntry(e.ts);
      }
    }

    /** The walk starts at the first timer, or ends at once. */
    lemma WalkStart(e: Entry)
      requires Valid() && e.ts == Timers() && e.infos == InfosOf(e.ts) && e.count == nrTimers
      ensures head.next != null && Walking(e, 0, [], [], [], head.next)
    {
      UnderwayAtStart(e);
    }

    /** Where list_for_each_safe starts. */
    method First(ghost e: Entry) returns (pos: Node)
      requires Valid() && e.ts == Timers() && e.infos == InfosOf(e.ts) && e.count == nrTimers
      ensures Walking(e, 0, [], [], [], pos)
    {
      WalkStart(e);
      pos := head.next;
    }

    /** The walk ends when it comes back to the head: all timers have been visited. */
    lemma WalkEnd(e: Entry, k: nat, started: seq<Node>, called: seq<Node>, freed: seq<Node>)
      requires Walking(e, k, started, called, freed, head)
      ensures k == |e.ts| == |e.infos| && Valid() && Timers() == started + Pick(e.ts, e.infos, Staying, k)
      ensures called == Pick(e.ts, e.infos, Firing, k) && freed == Pick(e.ts, e.infos, Expiring, k)
      ensures Started(started, AllConfigs(e.starts, |called|)) && nrTimers == Counted(e.count, |started|)
      ensures Survived(e.ts, e.infos, freed)
    {
      ghost var tail := e.ts[k..];
      assert head !in ring[1..];
      assert tail == [];
      SurvivorsKept(e.ts, e.infos, freed);
    }

    /** The timers that are not freed keep their fields. */
    lemma SurvivorsKept(ts: seq<Node>, infos: seq<Info>, freed: seq<Node>)
      requires |ts| == |infos| && AllDistinct(ts) && Kept(ts, infos, |ts|) && freed == Pick(ts, infos, Expiring, |ts|)
      ensures Survived(ts, infos, freed)
    {
      PickIs(ts, infos, Expiring, |ts|);
    }

    /** The body of the loop of the walk, and the advance of list_for_each_safe to what it has read before. */
    method Step(pos: Node, starts: nat -> seq<Config>, called: seq<Node>, freed: seq<Node>,
                ghost e: Entry, ghost k: nat, ghost started: seq<Node>)
      returns (n: Node, called': seq<Node>, freed': seq<Node>, ghost mine: seq<Node>)
      requires Walking(e, k, started, called, freed, pos) && pos != head && starts == e.starts
      modifies this`nrTimers, this`ring, this`repr, repr
      ensures head == old(head) && Walking(e, k + 1, mine + started, called', freed', n)
      ensures fresh(mine) && fresh(repr - old(repr))
    {
      var fired, expired;
      ghost var all := AllConfigs(starts, |called|);
      n, fired, expired, mine := Round(pos, starts(|called|), e, k, started, all);
      ghost var all' := all + (if fired then starts(|called|) else []);
      called' := if fired then called + [pos] else called;
      freed' := if expired then freed + [pos] else freed;
      CalledNext(e, k, called, freed, called', freed');
      assert AllConfigs(e.starts, |called'|) == all';
      CountedAhead(e.count, started, mine);
    }

    static lemma CalledNext(e: Entry, k: nat, called: seq<Node>, freed: seq<Node>,
                            called': seq<Node>, freed': seq<Node>)
      requires k < |e.ts| == |e.infos|
      requires called == Pick(e.ts, e.infos, Firing, k) && freed == Pick(e.ts, e.infos, Expiring, k)
      requires called' == if Fires(e.infos[k]) then called + [e.ts[k]] else called
      requires freed' == if Expires(e.infos[k]) then freed + [e.ts[k]] else freed
      ensures called' == Pick(e.ts, e.infos, Firing, k + 1) && freed' == Pick(e.ts, e.infos, Expiring, k + 1)
      ensures AllConfigs(e.starts, |called'|) ==
              AllConfigs(e.starts, |called|) + (if Fires(e.infos[k]) then e.starts(|called|) else [])
    {
      PickNext(e.ts, e.infos, Firing, k);
      PickNext(e.ts, e.infos, Expiring, k);
    }

    /** One round of the walk: the visit of the next timer; `n` comes after it. */
    method Round(pos: Node, cfgs: seq<Config>,
                 ghost e: Entry, ghost k: nat, ghost started: seq<Node>, ghost all: seq<Config>)
      returns (n: Node, fired: bool, expired: bool, ghost mine: seq<Node>)
      requires Underway(e, k, started, pos) && Started(started, all) && k < |e.ts|
      modifies this`nrTimers, this`ring, this`repr, repr
      ensures head == old(head) && fresh(mine) && fresh(repr - old(repr))
      ensures fired == Fires(e.infos[k]) && expired == Expires(e.infos[k])
      ensures Underway(e, k + 1, mine + started, n) && Started(mine + started, all + (if fired then cfgs else []))
      ensures nrTimers == Counted(old(nrTimers), |mine|)
    {
      ghost var r := ring;
      ghost var i := NextListed(r, head, started, e.ts, e.infos, k);
      assert r[i].next == r[Succ(i, |r|)];
      n := pos.next;
      fired, expired, mine := Visit(pos, cfgs, i);
      VisitMovesOn(r, i, head, mine, started, e.ts, e.infos, k, expired);
      assert Kept(e.ts, e.infos, k + 1) by {
        Remaining(r, head, started, e.ts, e.infos, k);
      }
      assert Started(started, all) by {
        Remaining(r, head, started, e.ts, e.infos, k);
      }
      StartedBoth(mine, if fired then cfgs else [], started, all);
    }
  }
}
