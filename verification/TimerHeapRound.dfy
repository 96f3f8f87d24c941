/**
 timer.c on timers in the heap: creating and starting them, callbacks, and one round of the
 walk of the timer interrupt.
 */
module TimerHeapRound {
  import opened Words
  import opened Counting
  import opened Bits
  import opened HeapModel
  import opened HeapTiling
  import opened HeapRuns
  import opened HeapFrames
  import opened HeapTheorems
  import opened TimerFates
  import opened TimerHeap

  // ----- what is live

  lemma MallocLive(h: Heap, n: u64)
    requires Valid(h) && Servable(n) && Allocate(h, n).1 != 0
    ensures var (h', p) := Allocate(h, n); Valid(h') && forall q :: Live(h', q) <==> Live(h, q) || q == p
  {
    var (h', p) := Allocate(h, n);
    var j := ServedFrom(h, n);
    MallocUsed(h, n, j);
    forall q ensures Live(h', q) <==> Live(h, q) || q == p {
      LiveIn(h, q);
      LiveIn(h', q);
    }
  }

  lemma FreeLive(h: Heap, p: nat)
    requires Valid(h) && Live(h, p)
    ensures Valid(Release(h, p)) && forall q :: Live(Release(h, p), q) <==> Live(h, q) && q != p
  {
    ExecKeeps(h, Free(p));
    FreedUsed(h, p);
    forall q ensures Live(Release(h, p), q) <==> Live(h, q) && q != p {
      LiveIn(h, q);
      LiveIn(Release(h, p), q);
    }
  }

  // ----- creating a timer

  /** What a caller of create_timer_periodic or create_timer_oneshot asks for. */
  datatype Request = Request(periodic: bool, interval: u32, callback: u64, arg: u64)

  /** The blocks are the same, and so are all timers but the one at `p`. */
  ghost predicate OnlyTimer(h: Heap, h': Heap, p: nat)
    requires Valid(h)
  {
    && Valid(h') && h'.blocks == h.blocks && h'.base == h.base && h'.size == h.size
    && forall q :: IsTimer(h, q) && q != p ==> SameTimer(h, h', q)
  }

  lemma OneField(h: Heap, p: nat, k: nat, v: u32)
    requires Valid(h) && IsTimer(h, p) && k < TIMER_WORDS
    ensures Legal(h, Store(p, k, v))
    ensures var h' := StoreAt(h, p, k, v);
            && OnlyTimer(h, h', p)
            && forall j: nat :: j < TIMER_WORDS ==> WordAt(h', p, j) == if j == k then v else WordAt(h, p, j)
  {
    StoreField(h, p, k, v);
    forall q | IsTimer(h, q) && q != p ensures SameTimer(h, StoreAt(h, p, k, v), q) {
      OtherTimer(h, Store(p, k, v), q);
    }
  }

  /** `timer` fresh from malloc, its fields not yet set. */
  ghost predicate Allocated(h: Heap, h': Heap, p: nat)
    requires Valid(h)
  {
    && Valid(h') && h'.base == h.base && h'.size == h.size && IsTimer(h', p) && !Live(h, p)
    && (forall q :: Live(h', q) <==> Live(h, q) || q == p)
    && (forall q :: IsTimer(h, q) ==> IsTimer(h', q) && SameTimer(h, h', q))
  }

  lemma MallocTimer(h: Heap)
    requires Valid(h)
    ensures Servable(TIMER_BYTES)
    ensures var (h', p) := Allocate(h, TIMER_BYTES);
            && (p == 0 <==> forall b :: b in h.blocks && !b.used ==> b.size < Needed(TIMER_BYTES))
            && (p == 0 ==> h' == h) && (p != 0 ==> Allocated(h, h', p))
  {
    TotalIsNeeded(TIMER_BYTES);
    MallocFailsExactly(h, TIMER_BYTES);
    var (h', p) := Allocate(h, TIMER_BYTES);
    if p != 0 {
      NewTimer(h);
    }
  }

  lemma NewTimer(h: Heap)
    requires Valid(h) && Servable(TIMER_BYTES) && Allocate(h, TIMER_BYTES).1 != 0
    ensures var (h', p) := Allocate(h, TIMER_BYTES); Allocated(h, h', p)
  {
    var op := Malloc(TIMER_BYTES);
    var (h', p) := Allocate(h, TIMER_BYTES);
    assert IsTimer(h', p) && !Live(h, p) by {
      TotalIsNeeded(TIMER_BYTES);
      MallocServes(h, TIMER_BYTES);
    }
    MallocLive(h, TIMER_BYTES);
    ExecKeeps(h, op);
    forall q | IsTimer(h, q) ensures IsTimer(h', q) && SameTimer(h, h', q) {
      OtherTimer(h, op, q);
    }
  }

  /** The fields of the timer at `p`, other than whether it is active and its links. */
  ghost predicate HasFields(h: Heap, p: nat, req: Request)
    requires Valid(h) && IsTimer(h, p)
  {
    && WordAt(h, p, INTERVAL) == req.interval && Bit(WordAt(h, p, FLAGS), 0) == req.periodic
    && PtrAt(h, p, CALLBACK) == req.callback && PtrAt(h, p, ARG) == req.arg && PtrAt(h, p, PRIVATE) == 0
  }

  /** create_timer_periodic and create_timer_oneshot: NULL exactly when no free block is big enough. */
  method CreateTimer(h: Heap, req: Request) returns (h': Heap, p: nat)
    requires Valid(h)
    ensures p == 0 <==> forall b :: b in h.blocks && !b.used ==> b.size < Needed(TIMER_BYTES)
    ensures p == 0 ==> h' == h
    ensures p != 0 ==> Allocated(h, h', p)
    ensures p != 0 ==>
              && WordAt(h', p, INTERVAL) == req.interval
              && Bit(WordAt(h', p, FLAGS), 0) == req.periodic && !Bit(WordAt(h', p, FLAGS), 1)
              && PtrAt(h', p, CALLBACK) == req.callback && PtrAt(h', p, ARG) == req.arg && PtrAt(h', p, PRIVATE) == 0
              && PtrAt(h', p, NEXT) == p + LIST && PtrAt(h', p, PREV) == p + LIST
  {
    MallocTimer(h);
    var (h1, q) := Allocate(h, TIMER_BYTES);
    p := q;
    if p == 0 {
      return h, 0;
    }
    h' := FillIn(h1, p, req);
    OnlyTimerAllocated(h, h1, h', p);
  }

  lemma OnlyTimerAllocated(h: Heap, h1: Heap, h': Heap, p: nat)
    requires Valid(h) && Allocated(h, h1, p) && OnlyTimer(h1, h', p)
    ensures Allocated(h, h', p)
  {
  }

  lemma OnlyTimerTwice(h: Heap, h1: Heap, h2: Heap, p: nat)
    requires Valid(h) && OnlyTimer(h, h1, p) && OnlyTimer(h1, h2, p)
    ensures OnlyTimer(h, h2, p)
  {
    forall q | IsTimer(h, q) && q != p ensures SameTimer(h, h2, q) {
      assert IsTimer(h1, q) && SameTimer(h, h1, q) && SameTimer(h1, h2, q);
    }
  }

  /** The fields in the order in which they are set; other bits of the flags are what malloc left there. */
  method FillIn(h: Heap, p: nat, req: Request) returns (h': Heap)
    requires Valid(h) && IsTimer(h, p)
    ensures OnlyTimer(h, h', p) && IsTimer(h', p) && HasFields(h', p, req) && !Bit(WordAt(h', p, FLAGS), 1)
    ensures PtrAt(h', p, NEXT) == p + LIST && PtrAt(h', p, PREV) == p + LIST
  {
    var h1 := SetFlags(h, p, req);
    var h2 := SetPointers(h1, p, req);
    OnlyTimerTwice(h, h1, h2, p);
    h' := InitLinks(h2, p);
    OnlyTimerTwice(h, h2, h', p);
  }

  /** The interval and the two flags. */
  method SetFlags(h: Heap, p: nat, req: Request) returns (h': Heap)
    requires Valid(h) && IsTimer(h, p)
    ensures OnlyTimer(h, h', p) && IsTimer(h', p) && WordAt(h', p, INTERVAL) == req.interval
    ensures Bit(WordAt(h', p, FLAGS), 0) == req.periodic && !Bit(WordAt(h', p, FLAGS), 1)
  {
    var h1 := SetField(h, p, INTERVAL, req.interval);
    var periodic := BitPut(WordAt(h1, p, FLAGS), 0, req.periodic);
    var flags := BitPut(periodic, 1, false);
    BitPutIs(WordAt(h1, p, FLAGS), 0, req.periodic, 0);
    BitPutIs(periodic, 1, false, 0);
    BitPutIs(periodic, 1, false, 1);
    h' := SetField(h1, p, FLAGS, flags);
    OnlyTimerTwice(h, h1, h', p);
  }

  /** The callback, its argument, and the private pointer. */
  method SetPointers(h: Heap, p: nat, req: Request) returns (h': Heap)
    requires Valid(h) && IsTimer(h, p)
    ensures OnlyTimer(h, h', p) && IsTimer(h', p)
    ensures forall k: nat :: k < CALLBACK || PREV <= k < TIMER_WORDS ==> WordAt(h', p, k) == WordAt(h, p, k)
    ensures PtrAt(h', p, CALLBACK) == req.callback && PtrAt(h', p, ARG) == req.arg && PtrAt(h', p, PRIVATE) == 0
  {
    var h1 := SetPointer(h, p, CALLBACK, req.callback);
    var h2 := SetPointer(h1, p, ARG, req.arg);
    OnlyTimerTwice(h, h1, h2, p);
    h' := SetPointer(h2, p, PRIVATE, 0);
    OnlyTimerTwice(h, h2, h', p);
  }

  /** list_init */
  method InitLinks(h: Heap, p: nat) returns (h': Heap)
    requires Valid(h) && IsTimer(h, p)
    ensures OnlyTimer(h, h', p) && IsTimer(h', p) && SameFields(h, h', p)
    ensures PtrAt(h', p, NEXT) == p + LIST && PtrAt(h', p, PREV) == p + LIST
  {
    ListField(h, p);
    var list := p + LIST;
    var h1 := SetPointer(h, p, NEXT, list);
    h' := SetPointer(h1, p, PREV, list);
    OnlyTimerTwice(h, h1, h', p);
  }

  method SetField(h: Heap, p: nat, k: nat, v: u32) returns (h': Heap)
    requires Valid(h) && IsTimer(h, p) && k < TIMER_WORDS
    ensures OnlyTimer(h, h', p)
    ensures forall j: nat :: j < TIMER_WORDS ==> WordAt(h', p, j) == if j == k then v else WordAt(h, p, j)
  {
    OneField(h, p, k, v);
    h' := StoreAt(h, p, k, v);
  }

  method SetPointer(h: Heap, p: nat, k: nat, v: u64) returns (h': Heap)
    requires Valid(h) && IsTimer(h, p) && k + 1 < TIMER_WORDS
    ensures OnlyTimer(h, h', p) && PtrAt(h', p, k) == v
    ensures forall j: nat :: j < TIMER_WORDS && j != k && j != k + 1 ==> WordAt(h', p, j) == WordAt(h, p, j)
  {
    StorePointer(h, p, k, v);
    h' := StoreAll(h, p, Halves(k, v));
  }

  // ----- memory that is used again

  /** The block that a free makes, when no free block lies below: it starts at the block freed. */
  lemma FreedInPlace(h: Heap, p: nat)
    requires Valid(h) && Live(h, p) && forall b :: b in h.blocks && !b.used ==> p < b.addr
    ensures var bs := Release(h, p).blocks;
            && (exists b :: b in bs && !b.used && b.addr == p - GRANULE && b.size >= BlockOf(h, p).size)
            && forall b :: b in bs && !b.used ==> p - GRANULE <= b.addr
  {
    var j := IndexOf(h.blocks, p - GRANULE);
    IndexOfIs(h.blocks, p - GRANULE);
    MergedInPlace(h.blocks, h.base, h.base + h.size, j);
  }

  lemma MergedInPlace(bs: seq<Block>, a: nat, e: nat, j: nat)
    requires Tiles(bs, a, e) && j < |bs| && forall b :: b in bs && !b.used ==> bs[j].addr < b.addr
    ensures var made := Merged(bs, j);
            && made in FreeBlocks(bs, j) && !made.used && made.addr == bs[j].addr && made.size >= bs[j].size
            && forall b :: b in FreeBlocks(bs, j) && !b.used ==> bs[j].addr <= b.addr
  {
    if j > 0 && !bs[j - 1].used {
      TilesOrder(bs, a, e, j - 1, j);
    }
    forall b | b in FreeBlocks(bs, j) ensures b in bs || b == Merged(bs, j) {
    }
  }

  /** A timer freed below every free block gives its memory to the next one that is created. */
  lemma FreedIsReused(h: Heap, p: nat)
    requires Valid(h) && IsTimer(h, p) && forall b :: b in h.blocks && !b.used ==> p < b.addr
    ensures Valid(Release(h, p)) && Servable(TIMER_BYTES) && Allocate(Release(h, p), TIMER_BYTES).1 == p
  {
    var h' := Release(h, p);
    FreeLive(h, p);
    FreedInPlace(h, p);
    TotalIsNeeded(TIMER_BYTES);
    LiveIn(h, p);
    MallocFailsExactly(h', TIMER_BYTES);
    MallocFirstFit(h', TIMER_BYTES);
  }

  // ----- starting timers

  /** `mine`, asked for by `granted`, have been created and started in front of `list`; nothing else has changed. */
  ghost predicate Begun(w: World, list: seq<nat>, w': World, mine: seq<nat>, granted: seq<Request>)
    requires Linked(w, list) && |mine| == |granted|
  {
    && Linked(w', mine + list) && w'.head == w.head && w'.h.base == w.h.base && w'.h.size == w.h.size
    && FieldsKept(w, w', list)
    && AskedFor(w', mine, granted) && Gained(w, w', mine)
  }

  /** The timer at `p` has the fields asked for, and is active. */
  ghost predicate IsStarted(h: Heap, p: nat, req: Request)
    requires Valid(h) && IsTimer(h, p)
  {
    HasFields(h, p, req) && Bit(WordAt(h, p, FLAGS), 1)
  }

  ghost predicate AskedFor(w: World, mine: seq<nat>, granted: seq<Request>)
    requires Valid(w.h) && |mine| == |granted|
  {
    forall i :: 0 <= i < |mine| ==> IsTimer(w.h, mine[i]) && IsStarted(w.h, mine[i], granted[i])
  }

  /** The live pointers are those there were and `mine`. */
  ghost predicate Gained(w: World, w': World, mine: seq<nat>) {
    && (forall q :: Live(w'.h, q) <==> Live(w.h, q) || q in mine)
    && (forall i :: 0 <= i < |mine| ==> !Live(w.h, mine[i]))
  }

  /** The fields of the timers of `list`, all but their links, are untouched. */
  ghost predicate FieldsKept(w: World, w': World, list: seq<nat>)
    requires Valid(w.h) && Valid(w'.h) && forall i :: 0 <= i < |list| ==> IsTimer(w.h, list[i])
  {
    forall i :: 0 <= i < |list| ==> IsTimer(w'.h, list[i]) && SameFields(w.h, w'.h, list[i])
  }

  lemma BegunTwice(w: World, list: seq<nat>, w1: World, mine1: seq<nat>, g1: seq<Request>,
                   w2: World, mine2: seq<nat>, g2: seq<Request>)
    requires |mine1| == |g1| && |mine2| == |g2|
    requires Linked(w, list) && Begun(w, list, w1, mine1, g1) && Begun(w1, mine1 + list, w2, mine2, g2)
    ensures Begun(w, list, w2, mine2 + mine1, g2 + g1)
  {
    Joins(mine2, mine1, list);
    KeptSince(w.h, list, w1, w2, mine1, list);
    AskedForBoth(w1, w2, mine1, g1, list, mine2, g2);
    GainedTwice(w, w1, w2, mine1, mine2);
  }

  /** Timers started before, their fields kept, and those started now. */
  lemma AskedForBoth(w: World, w': World, started: seq<nat>, granted: seq<Request>, rest: seq<nat>,
                     mine: seq<nat>, more: seq<Request>)
    requires Valid(w.h) && Valid(w'.h) && |started| == |granted| && |mine| == |more|
    requires AskedFor(w, started, granted) && AskedFor(w', mine, more)
    requires forall i :: 0 <= i < |started + rest| ==> IsTimer(w.h, (started + rest)[i])
    requires FieldsKept(w, w', started + rest)
    ensures AskedFor(w', mine + started, more + granted)
  {
    var left, all, asked := started + rest, mine + started, more + granted;
    forall j | 0 <= j < |all| ensures IsTimer(w'.h, all[j]) && IsStarted(w'.h, all[j], asked[j]) {
      if j < |mine| {
        assert all[j] == mine[j] && asked[j] == more[j];
      } else {
        var s := j - |mine|;
        assert all[j] == started[s] == left[s] && asked[j] == granted[s];
        assert IsStarted(w.h, started[s], granted[s]);
        SameStarted(w.h, w'.h, left[s], granted[s]);
      }
    }
  }

  lemma SameStarted(h: Heap, h': Heap, p: nat, req: Request)
    requires Valid(h) && Valid(h') && IsTimer(h, p) && IsTimer(h', p) && SameFields(h, h', p) && IsStarted(h, p, req)
    ensures IsStarted(h', p, req)
  {
  }

  lemma GainedTwice(w: World, w1: World, w2: World, mine1: seq<nat>, mine2: seq<nat>)
    requires Gained(w, w1, mine1) && Gained(w1, w2, mine2)
    ensures Gained(w, w2, mine2 + mine1)
  {
  }

  /** The fields of `rest`, which are some of `before`, kept from `h0` on. */
  lemma KeptSince(h0: Heap, before: seq<nat>, w: World, w': World, front: seq<nat>, rest: seq<nat>)
    requires Valid(h0) && Valid(w.h) && Valid(w'.h)
    requires forall i :: 0 <= i < |before| ==>
               IsTimer(h0, before[i]) && IsTimer(w.h, before[i]) && SameFields(h0, w.h, before[i])
    requires forall i :: 0 <= i < |front + rest| ==> IsTimer(w.h, (front + rest)[i])
    requires FieldsKept(w, w', front + rest) && forall i :: 0 <= i < |rest| ==> rest[i] in before
    ensures forall i :: 0 <= i < |rest| ==>
              IsTimer(h0, rest[i]) && IsTimer(w'.h, rest[i]) && SameFields(h0, w'.h, rest[i])
  {
    var left := front + rest;
    forall i | 0 <= i < |rest| ensures IsTimer(h0, rest[i]) && IsTimer(w'.h, rest[i]) && SameFields(h0, w'.h, rest[i]) {
      assert left[|front| + i] == rest[i];
      var b :| 0 <= b < |before| && before[b] == rest[i];
      assert SameFields(h0, w.h, before[b]) && SameFields(w.h, w'.h, left[|front| + i]);
    }
  }

  /** A change to a timer that is not listed leaves the list linked. */
  lemma UnlistedChange(w: World, list: seq<nat>, h1: Heap, h': Heap, p: nat)
    requires Linked(w, list) && Allocated(w.h, h1, p) && OnlyTimer(h1, h', p)
    ensures p !in list && Linked(w.(h := h'), list) && FieldsKept(w, w.(h := h'), list)
  {
    OnlyTimerAllocated(w.h, h1, h', p);
    StillLinked(w, h', list);
  }

  /** A new timer, started: what callbacks do. `start_timer` refuses the NULL of a malloc that has no memory. */
  method StartNew(w: World, ghost list: seq<nat>, req: Request) returns (w': World, p: nat)
    requires Linked(w, list)
    ensures p == 0 ==> w' == w
    ensures p != 0 ==> Begun(w, list, w', [p], [req])
  {
    var h1;
    h1, p := CreateTimer(w.h, req);
    if p == 0 {
      return w, 0;
    }
    var h2 := Activate(h1, p, true);
    UnlistedChange(w, list, h1, h2, p);
    var w1 := w.(h := h2);
    AddLinked(w1, list, p);
    w' := Added(w1, p);
    StartedLive(w, list, h1, w1, w', p, req);
  }

  lemma StartedLive(w: World, list: seq<nat>, h1: Heap, w1: World, w': World, p: nat, req: Request)
    requires Linked(w, list) && Allocated(w.h, h1, p) && OnlyTimer(h1, w1.h, p) && w1 == w.(h := w1.h)
    requires IsStarted(w1.h, p, req) && FieldsKept(w, w1, list)
    requires Linked(w', [p] + list) && OnlyLinks(w1, w')
    ensures Begun(w, list, w', [p], [req])
  {
    forall i | 0 <= i < |list| ensures IsTimer(w'.h, list[i]) && SameFields(w.h, w'.h, list[i]) {
      assert IsTimer(w1.h, list[i]) && SameFields(w.h, w1.h, list[i]);
    }
  }

  /** `timer->is_active = on` */
  method Activate(h: Heap, p: nat, on: bool) returns (h': Heap)
    requires Valid(h) && IsTimer(h, p)
    ensures OnlyTimer(h, h', p) && IsTimer(h', p) && SameLinks(h, h', p)
    ensures Bit(WordAt(h', p, FLAGS), 0) == Bit(WordAt(h, p, FLAGS), 0) && Bit(WordAt(h', p, FLAGS), 1) == on
    ensures forall k: nat :: k < TIMER_WORDS && k != FLAGS ==> WordAt(h', p, k) == WordAt(h, p, k)
  {
    var flags := WordAt(h, p, FLAGS);
    BitPutIs(flags, 1, on, 0);
    BitPutIs(flags, 1, on, 1);
    h' := SetField(h, p, FLAGS, BitPut(flags, 1, on));
  }

  /** The requests that got memory, the last one first. */
  function Granted(reqs: seq<Request>, got: seq<bool>): seq<Request>
    requires |reqs| == |got|
  {
    if reqs == [] then []
    else (if got[|got| - 1] then [reqs[|reqs| - 1]] else []) + Granted(reqs[..|reqs| - 1], got[..|got| - 1])
  }

  /** A callback that creates and starts timers, one after the other, as far as there is memory for them. */
  method Callback(w: World, ghost list: seq<nat>, reqs: seq<Request>)
    returns (w': World, ghost mine: seq<nat>, ghost got: seq<bool>)
    requires Linked(w, list)
    ensures |got| == |reqs| && |mine| == |Granted(reqs, got)| && Begun(w, list, w', mine, Granted(reqs, got))
  {
    w', mine, got := w, [], [];
    assert [] + list == list;
    var i := 0;
    while i < |reqs|
      invariant i <= |reqs| && |got| == i && |mine| == |Granted(reqs[..i], got)|
      invariant Begun(w, list, w', mine, Granted(reqs[..i], got))
    {
      ghost var w1 := w';
      var p;
      w', p := StartNew(w', mine + list, reqs[i]);
      GrantedNext(reqs, got, p != 0);
      BegunNext(w, list, w1, mine, Granted(reqs[..i], got), w', p, reqs[i]);
      mine, got := (if p != 0 then [p] else []) + mine, got + [p != 0];
      i := i + 1;
    }
    assert reqs[..i] == reqs;
  }

  lemma GrantedNext(reqs: seq<Request>, got: seq<bool>, more: bool)
    requires |got| < |reqs|
    ensures var i := |got|;
            Granted(reqs[..i + 1], got + [more]) == (if more then [reqs[i]] else []) + Granted(reqs[..i], got)
  {
    assert reqs[..|got| + 1][..|got|] == reqs[..|got|] && (got + [more])[..|got|] == got;
  }

  /** One more timer started, unless there is no memory for it. */
  lemma BegunNext(w: World, list: seq<nat>, w1: World, mine: seq<nat>, g: seq<Request>, w2: World, p: nat, req: Request)
    requires Linked(w, list) && |mine| == |g| && Begun(w, list, w1, mine, g)
    requires if p != 0 then Begun(w1, mine + list, w2, [p], [req]) else w2 == w1
    ensures Begun(w, list, w2, (if p != 0 then [p] else []) + mine, (if p != 0 then [req] else []) + g)
  {
    if p != 0 {
      BegunTwice(w, list, w1, mine, g, w2, [p], [req]);
    } else {
      assert [] + mine == mine && [] + g == g;
    }
  }

  // ----- one round of the walk

  /** `list` without its element at `i`, if that has expired. */
  function Left(list: seq<nat>, i: nat, expired: bool): seq<nat>
    requires i < |list|
  {
    list[..i] + (if expired then [] else [list[i]]) + list[i + 1..]
  }

  /** The timer at place `i` is gone: unlinked, and its memory given back. */
  ghost predicate Dropped(w: World, list: seq<nat>, w': World, i: nat)
    requires Linked(w, list) && i < |list|
  {
    && Linked(w', Left(list, i, true)) && w'.head == w.head && w'.h.base == w.h.base && w'.h.size == w.h.size
    && FieldsKept(w, w', Left(list, i, true))
    && (forall q :: Live(w'.h, q) <==> Live(w.h, q) && q != list[i])
  }

  /** An expired timer is switched off, unlinked and freed. */
  method Expire(w: World, ghost list: seq<nat>, ghost i: nat, pos: nat) returns (w': World)
    requires Linked(w, list) && i < |list| && pos == list[i]
    ensures Dropped(w, list, w', i)
  {
    var w1 := SwitchOff(w, list, i, pos);
    var w2 := Unlink(w1, list, i, pos);
    w' := w2.(h := Release(w2.h, pos));
    ReleaseLinked(w2, Left(list, i, true), pos);
    KeptAll(w, w1, w2, w', list, i);
  }

  method SwitchOff(w: World, ghost list: seq<nat>, ghost i: nat, pos: nat) returns (w1: World)
    requires Linked(w, list) && i < |list| && pos == list[i]
    ensures Linked(w1, list) && w1 == w.(h := w1.h) && w1.h.base == w.h.base && w1.h.size == w.h.size
    ensures w1.h.blocks == w.h.blocks && FieldsKept(w, w1, Left(list, i, true))
  {
    var h1 := Activate(w.h, pos, false);
    w1 := w.(h := h1);
    StillLinked(w, h1, list);
    Apart(w, list, i);
  }

  /** list_del */
  method Unlink(w: World, ghost list: seq<nat>, ghost i: nat, pos: nat) returns (w': World)
    requires Linked(w, list) && i < |list| && pos == list[i]
    ensures Linked(w', Left(list, i, true)) && OnlyLinks(w, w') && IsTimer(w'.h, pos) && pos !in Left(list, i, true)
  {
    DeleteLinked(w, list, i);
    w' := Deleted(w, pos);
    Apart(w, list, i);
    assert Left(list, i, true) == list[..i] + list[i + 1..];
  }

  /** What is left of distinct elements does not hold the one that has gone. */
  lemma Apart(w: World, list: seq<nat>, i: nat)
    requires Linked(w, list) && i < |list|
    ensures list[i] !in Left(list, i, true)
    ensures forall k :: 0 <= k < |Left(list, i, true)| ==> Left(list, i, true)[k] in list
  {
    ListedApart(w, list);
  }

  lemma ListedApart(w: World, list: seq<nat>)
    requires Linked(w, list)
    ensures AllDistinct(list) && w.head !in list
  {
    var r := [w.head] + list;
    forall i | 0 <= i < |list| ensures r[i + 1] == list[i] && list[i] != r[0] {
    }
  }

  /** free of a timer that is not listed. */
  lemma ReleaseLinked(w: World, list: seq<nat>, p: nat)
    requires Linked(w, list) && IsTimer(w.h, p) && p !in list
    ensures var w' := w.(h := Release(w.h, p));
            && Linked(w', list) && FieldsKept(w, w', list)
            && forall q :: Live(w'.h, q) <==> Live(w.h, q) && q != p
  {
    FreeLive(w.h, p);
    ExecKeeps(w.h, Free(p));
    forall i | 0 <= i < |list|
      ensures IsTimer(Release(w.h, p), list[i]) && SameTimer(w.h, Release(w.h, p), list[i])
    {
      OtherTimer(w.h, Free(p), list[i]);
    }
    StillLinked(w, Release(w.h, p), list);
  }

  lemma KeptAll(w: World, w1: World, w2: World, w': World, list: seq<nat>, i: nat)
    requires Linked(w, list) && i < |list| && Linked(w1, list) && Linked(w2, Left(list, i, true)) && Valid(w'.h)
    requires FieldsKept(w, w1, Left(list, i, true)) && OnlyLinks(w1, w2) && FieldsKept(w2, w', Left(list, i, true))
    ensures FieldsKept(w, w', Left(list, i, true))
  {
    var left := Left(list, i, true);
    forall k | 0 <= k < |left| ensures IsTimer(w'.h, left[k]) && SameFields(w.h, w'.h, left[k]) {
      assert SameFields(w.h, w1.h, left[k]) && SameFields(w2.h, w'.h, left[k]);
    }
  }

  /** One round of the walk, on the timer at place `i`: `mine` have been started, and it is gone if expired. */
  ghost predicate Round(w: World, list: seq<nat>, i: nat,
                        w': World, mine: seq<nat>, granted: seq<Request>, expired: bool)
    requires Linked(w, list) && i < |list| && |mine| == |granted|
  {
    var left := Left(list, i, expired);
    && Linked(w', mine + left) && w'.head == w.head && w'.h.base == w.h.base && w'.h.size == w.h.size
    && (forall k :: 0 <= k < |left| ==> IsTimer(w.h, left[k])) && FieldsKept(w, w', left)
    && AskedFor(w', mine, granted)
    && (forall q :: Live(w'.h, q) <==> (Live(w.h, q) || q in mine) && !(expired && q == list[i]))
    && (forall k :: 0 <= k < |mine| ==> !Live(w.h, mine[k]))
  }

  method Visit(w: World, ghost list: seq<nat>, ghost i: nat, pos: nat, reqs: seq<Request>)
    returns (w': World, fired: bool, expired: bool, ghost mine: seq<nat>, ghost got: seq<bool>)
    requires Linked(w, list) && i < |list| && list[i] == pos
    ensures fired <==> Bit(WordAt(w.h, pos, FLAGS), 1) && PtrAt(w.h, pos, CALLBACK) != 0
    ensures expired <==> Bit(WordAt(w.h, pos, FLAGS), 1) && !Bit(WordAt(w.h, pos, FLAGS), 0)
    ensures |got| == |reqs| && |mine| == |if fired then Granted(reqs, got) else []|
    ensures Round(w, list, i, w', mine, if fired then Granted(reqs, got) else [], expired)
  {
    ghost var granted;
    w', fired, mine, got, granted := Fire(w, list, i, pos, reqs);
    expired := Expires(InfoAt(w'.h, pos));
    if expired {
      ghost var w1 := w';
      w' := ExpireBehind(w', mine, list, i, pos);
      RoundExpired(w, list, i, w1, mine, granted, w');
    } else {
      RoundStays(w, list, i, w', mine, granted);
    }
  }

  /** An expired timer is dropped that stands behind those a callback has just started. */
  method ExpireBehind(w: World, ghost mine: seq<nat>, ghost list: seq<nat>, ghost i: nat, pos: nat)
    returns (w': World)
    requires Linked(w, mine + list) && i < |list| && list[i] == pos
    ensures Dropped(w, mine + list, w', |mine| + i)
  {
    ghost var all := mine + list;
    assert all[|mine| + i] == pos;
    w' := Expire(w, all, |mine| + i, pos);
  }

  lemma RoundStays(w: World, list: seq<nat>, i: nat, w': World, mine: seq<nat>, granted: seq<Request>)
    requires Linked(w, list) && i < |list| && |mine| == |granted| && Begun(w, list, w', mine, granted)
    ensures Round(w, list, i, w', mine, granted, false)
  {
    assert Left(list, i, false) == list;
  }

  /** What the walk does first with a timer: it calls it back if it is active and has a callback. */
  method Fire(w: World, ghost list: seq<nat>, ghost i: nat, pos: nat, reqs: seq<Request>)
    returns (w': World, fired: bool, ghost mine: seq<nat>, ghost got: seq<bool>, ghost granted: seq<Request>)
    requires Linked(w, list) && i < |list| && list[i] == pos
    ensures fired <==> Bit(WordAt(w.h, pos, FLAGS), 1) && PtrAt(w.h, pos, CALLBACK) != 0
    ensures |got| == |reqs| && granted == (if fired then Granted(reqs, got) else []) && |mine| == |granted|
    ensures Begun(w, list, w', mine, granted) && IsTimer(w'.h, pos) && InfoAt(w'.h, pos) == InfoAt(w.h, pos)
  {
    w', mine, got, granted := w, [], seq(|reqs|, _ => false), [];
    assert [] + list == list;
    fired := Fires(InfoAt(w.h, pos));
    if fired {
      w', mine, got := Callback(w, list, reqs);
      granted := Granted(reqs, got);
    }
    SameInfo(w.h, w'.h, list[i]);
  }

  lemma Joins<T>(a: seq<T>, b: seq<T>, c: seq<T>)
    ensures a + b + c == a + (b + c)
  {
  }

  /** `list` with others in front of it. */
  lemma LeftBehind(front: seq<nat>, list: seq<nat>, i: nat, expired: bool)
    requires i < |list|
    ensures Left(front + list, |front| + i, expired) == front + Left(list, i, expired)
    ensures (front + list)[|front| + i] == list[i]
    ensures forall k :: 0 <= k < |Left(list, i, expired)| ==> Left(list, i, expired)[k] in list
  {
    var left := Left(list, i, expired);
    forall k | 0 <= k < |left| ensures left[k] in list {
      assert left[k] == list[if k < i || !expired then k else k + 1];
    }
  }

  lemma RoundExpired(w: World, list: seq<nat>, i: nat, w1: World, mine: seq<nat>, granted: seq<Request>, w': World)
    requires Linked(w, list) && i < |list| && |mine| == |granted| && Begun(w, list, w1, mine, granted)
    requires Dropped(w1, mine + list, w', |mine| + i)
    ensures Round(w, list, i, w', mine, granted, true)
  {
    var left := Left(list, i, true);
    LeftBehind(mine, list, i, true);
    StillTimers(w1, mine + list, |mine| + i);
    KeptSince(w.h, list, w1, w', mine, left);
    AskedForBoth(w1, w', mine, granted, left, [], []);
    assert [] + mine == mine && [] + granted == granted;
  }

  lemma StillTimers(w: World, list: seq<nat>, i: nat)
    requires Linked(w, list) && i < |list|
    ensures forall k :: 0 <= k < |Left(list, i, true)| ==> IsTimer(w.h, Left(list, i, true)[k])
  {
    LeftBehind([], list, i, true);
  }
}
