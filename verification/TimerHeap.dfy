/**
 Timers in the heap: `malloc` gives them their memory, their fields are words of that memory,
 and the walk of the timer interrupt gives it back, so that a timer started by a callback may
 stand where one freed earlier in the same walk stood.
 */
module TimerHeap {
  import opened Words
  import opened Counting
  import opened Bits
  import opened HeapModel
  import opened HeapKeeps
  import opened HeapRuns
  import opened HeapFrames
  import opened HeapTheorems
  import opened IntrusiveList
  import opened TimerFates

  /** `sizeof(zhyper_timer_t)`: 14 words of 4 bytes. */
  const TIMER_BYTES: u64 := 56
  const TIMER_WORDS: nat := 14

  /** The words of a timer that are looked at here: the interval, the two flags, pointers in two words each. */
  const INTERVAL: nat := 2
  const FLAGS: nat := 3
  const CALLBACK: nat := 4
  const ARG: nat := 6
  const PRIVATE: nat := 8
  const PREV: nat := 10
  const NEXT: nat := 12

  /** The offset of the list field in a timer, in bytes. */
  const LIST: nat := 40

  /** `p` is a live pointer to the block that `malloc` makes for a timer. */
  predicate IsTimer(h: Heap, p: nat) {
    Live(h, p) && BlockOf(h, p).size == Needed(TIMER_BYTES)
  }

  /** Word `k` of the timer at `p`, as an index into the memory. */
  function WordIndex(h: Heap, p: nat, k: nat): (w: nat)
    requires Valid(h) && IsTimer(h, p) && k < TIMER_WORDS
    ensures w < |h.mem| && WordOf(h.base, BlockOf(h, p), w) && w == (p - h.base) / 4 + k
  {
    StoreIndex(h, p, k);
    (p - h.base) / 4 + k
  }

  function WordAt(h: Heap, p: nat, k: nat): u32
    requires Valid(h) && IsTimer(h, p) && k < TIMER_WORDS
  {
    h.mem[WordIndex(h, p, k)]
  }

  /** The fields that the walk looks at: bits 0 and 1 of the flags, and whether there is a callback. */
  function InfoAt(h: Heap, p: nat): Info
    requires Valid(h) && IsTimer(h, p)
  {
    Info(Bit(WordAt(h, p, FLAGS), 0), Bit(WordAt(h, p, FLAGS), 1), PtrAt(h, p, CALLBACK) != 0)
  }

  /** The timer at `p` is untouched. */
  ghost predicate SameTimer(h: Heap, h': Heap, p: nat)
    requires Valid(h) && Valid(h') && IsTimer(h, p) && IsTimer(h', p)
  {
    forall k: nat :: k < TIMER_WORDS ==> WordAt(h', p, k) == WordAt(h, p, k)
  }

  /** A timer outlives, untouched, every operation of the heap that is not about it. */
  lemma OtherTimer(h: Heap, op: Op, q: nat)
    requires Valid(h) && Legal(h, op) && IsTimer(h, q) && (op.Malloc? || op.p != q)
    ensures Valid(Exec(h, op)) && IsTimer(Exec(h, op), q) && SameTimer(h, Exec(h, op), q)
  {
    TimerStays(h, op, q);
    forall k: nat | k < TIMER_WORDS ensures WordAt(Exec(h, op), q, k) == WordAt(h, q, k) {
      OtherWord(h, op, q, WordIndex(h, q, k));
    }
  }

  lemma OtherWord(h: Heap, op: Op, q: nat, w: nat)
    requires Valid(h) && Legal(h, op) && IsTimer(h, q) && (op.Malloc? || op.p != q)
    requires w < |h.mem| && WordOf(h.base, BlockOf(h, q), w)
    ensures w < |Exec(h, op).mem| && Exec(h, op).mem[w] == h.mem[w]
  {
    StoreElsewhere(h, op, q, w);
    LiveIn(h, q);
    ExecFrame(h, op, BlockOf(h, q), w);
  }

  lemma TimerStays(h: Heap, op: Op, q: nat)
    requires Valid(h) && Legal(h, op) && IsTimer(h, q) && op != Free(q)
    ensures Valid(Exec(h, op)) && Exec(h, op).base == h.base && Exec(h, op).size == h.size && IsTimer(Exec(h, op), q)
  {
    ExecKeeps(h, op);
    LiveIn(h, q);
    UsedStays(h, op, BlockOf(h, q));
    TimerOf(Exec(h, op), BlockOf(h, q), q);
  }

  lemma TimerOf(h: Heap, b: Block, q: nat)
    requires Valid(h) && b in h.blocks && b.used && q == b.addr + GRANULE && b.size == Needed(TIMER_BYTES)
    ensures IsTimer(h, q)
  {
    BlockOfIs(h, b);
  }

  lemma StoreElsewhere(h: Heap, op: Op, q: nat, w: nat)
    requires Valid(h) && Legal(h, op) && Live(h, q) && WordOf(h.base, BlockOf(h, q), w)
    requires op.Store? ==> op.p != q
    ensures !Writes(h.base, op, w)
  {
    if op.Store? {
      StoreWrites(h, op.p, op.k, op.v);
      LiveIn(h, q);
      LiveIn(h, op.p);
      LiveBlocksApart(h, BlockOf(h, q), BlockOf(h, op.p));
    }
  }

  /** A store into a field changes that word, and no block. */
  lemma StoreField(h: Heap, p: nat, k: nat, v: u32)
    requires Valid(h) && IsTimer(h, p) && k < TIMER_WORDS
    ensures Legal(h, Store(p, k, v))
    ensures var h' := StoreAt(h, p, k, v);
            && Valid(h') && h'.blocks == h.blocks && h'.base == h.base && h'.size == h.size && IsTimer(h', p)
            && forall j: nat :: j < TIMER_WORDS ==> WordAt(h', p, j) == if j == k then v else WordAt(h, p, j)
  {
    StoreKeeps(h, p, k, v);
    StoreWrites(h, p, k, v);
  }

  // ----- several stores

  /** One field after the other. */
  function StoreAll(h: Heap, p: nat, fields: seq<(nat, u32)>): Heap
    requires Valid(h) && IsTimer(h, p) && forall i :: 0 <= i < |fields| ==> fields[i].0 < TIMER_WORDS
    decreases |fields|
  {
    if fields == [] then h else
    StoreField(h, p, fields[0].0, fields[0].1);
    StoreAll(StoreAt(h, p, fields[0].0, fields[0].1), p, fields[1..])
  }

  /** The last value that the stores give word `k`. */
  function LastOf(fields: seq<(nat, u32)>, k: nat, before: u32): u32
    decreases |fields|
  {
    if fields == [] then before else LastOf(fields[1..], k, if fields[0].0 == k then fields[0].1 else before)
  }

  lemma {:induction false} StoreAllKeeps(h: Heap, p: nat, fields: seq<(nat, u32)>)
    requires Valid(h) && IsTimer(h, p) && forall i :: 0 <= i < |fields| ==> fields[i].0 < TIMER_WORDS
    ensures var h' := StoreAll(h, p, fields);
            && Valid(h') && h'.blocks == h.blocks && h'.base == h.base && h'.size == h.size && IsTimer(h', p)
            && (forall k: nat :: k < TIMER_WORDS ==> WordAt(h', p, k) == LastOf(fields, k, WordAt(h, p, k)))
            && (forall q :: IsTimer(h, q) && q != p ==> IsTimer(h', q) && SameTimer(h, h', q))
    decreases |fields|
  {
    if fields != [] {
      var op := Store(p, fields[0].0, fields[0].1);
      StoreField(h, p, op.k, op.v);
      var h1 := StoreAt(h, p, op.k, op.v);
      forall q | IsTimer(h, q) && q != p ensures IsTimer(h1, q) && SameTimer(h, h1, q) {
        OtherTimer(h, op, q);
      }
      StoreAllKeeps(h1, p, fields[1..]);
    }
  }

  // ----- the list: links in the memory of the timers, and those of the head

  /** The heap, and `timer_list` of the manager, which lies outside it. */
  datatype World = World(h: Heap, head: nat, headPrev: nat, headNext: nat)

  /** A pointer in two words. */
  function PtrAt(h: Heap, p: nat, k: nat): nat
    requires Valid(h) && IsTimer(h, p) && k + 1 < TIMER_WORDS
  {
    WordAt(h, p, k) + WordAt(h, p, k + 1) * TWO32
  }

  /** The head is not part of a timer, and not NULL. */
  predicate HeadOutside(w: World) {
    0 < w.head < TWO64 && !(w.h.base <= w.head < w.h.base + w.h.size)
  }

  /** The head, or a timer. */
  predicate IsNode(w: World, a: nat) {
    a == w.head || IsTimer(w.h, a)
  }

  /** What a link may lead to. */
  predicate Linkable(w: World, a: nat) {
    a == 0 || IsNode(w, a)
  }

  /** The link that leads to `a`: the address of the list field of a timer, that of the head, or NULL. */
  function LinkTo(w: World, a: nat): (x: u64)
    requires Valid(w.h) && HeadOutside(w) && Linkable(w, a)
    ensures Entry(w, x) == a
  {
    if a == w.head || a == 0 then a
    else
      ListField(w.h, a);
      a + LIST
  }

  /** list_entry: the timer that has its list field at `x`. */
  function Entry(w: World, x: nat): nat {
    if x == w.head || x == 0 then x else if x < LIST then 0 else x - LIST
  }

  /** A timer and its list field have addresses of their own in the heap. */
  lemma ListField(h: Heap, p: nat)
    requires Valid(h) && IsTimer(h, p)
    ensures 0 < h.base <= p < p + LIST < h.base + h.size < TWO64
  {
    LiveBlock(h, p);
  }

  function NextOf(w: World, a: nat): nat
    requires Valid(w.h)
  {
    if a == w.head then Entry(w, w.headNext) else if IsTimer(w.h, a) then Entry(w, PtrAt(w.h, a, NEXT)) else 0
  }

  function PrevOf(w: World, a: nat): nat
    requires Valid(w.h)
  {
    if a == w.head then Entry(w, w.headPrev) else if IsTimer(w.h, a) then Entry(w, PtrAt(w.h, a, PREV)) else 0
  }

  function Halves(k: nat, v: u64): seq<(nat, u32)> {
    [(k, v % TWO32), (k + 1, v / TWO32)]
  }

  function SetNext(w: World, a: nat, v: nat): World
    requires Valid(w.h) && HeadOutside(w) && IsNode(w, a) && Linkable(w, v)
  {
    if a == w.head then w.(headNext := LinkTo(w, v)) else w.(h := StoreAll(w.h, a, Halves(NEXT, LinkTo(w, v))))
  }

  function SetPrev(w: World, a: nat, v: nat): World
    requires Valid(w.h) && HeadOutside(w) && IsNode(w, a) && Linkable(w, v)
  {
    if a == w.head then w.(headPrev := LinkTo(w, v)) else w.(h := StoreAll(w.h, a, Halves(PREV, LinkTo(w, v))))
  }

  /** The blocks are the same, and so is every timer up to its links. */
  ghost predicate OnlyLinks(w: World, w': World)
    requires Valid(w.h) && Valid(w'.h)
  {
    && w'.h.blocks == w.h.blocks && w'.h.base == w.h.base && w'.h.size == w.h.size && w'.head == w.head
    && forall q, k: nat :: IsTimer(w.h, q) && k < PREV ==> WordAt(w'.h, q, k) == WordAt(w.h, q, k)
  }

  lemma StorePointer(h: Heap, p: nat, k: nat, v: u64)
    requires Valid(h) && IsTimer(h, p) && k + 1 < TIMER_WORDS
    ensures var h' := StoreAll(h, p, Halves(k, v));
            && Valid(h') && h'.blocks == h.blocks && h'.base == h.base && h'.size == h.size
            && (forall q :: IsTimer(h, q) ==> IsTimer(h', q))
            && (forall q, j: nat :: IsTimer(h, q) && j < TIMER_WORDS && (q != p || (j != k && j != k + 1)) ==>
                  WordAt(h', q, j) == WordAt(h, q, j))
            && PtrAt(h', p, k) == v
  {
    StoreAllKeeps(h, p, Halves(k, v));
    forall j: nat | j < TIMER_WORDS
      ensures LastOf(Halves(k, v), j, WordAt(h, p, j)) ==
              if j == k + 1 then v / TWO32 else if j == k then v % TWO32 else WordAt(h, p, j)
    {
      LastOfHalves(k, v, j, WordAt(h, p, j));
    }
  }

  lemma LastOfHalves(k: nat, v: u64, j: nat, before: u32)
    ensures LastOf(Halves(k, v), j, before) == if j == k + 1 then v / TWO32 else if j == k then v % TWO32 else before
  {
    var fields := Halves(k, v);
    var rest, x := fields[1..], if k == j then v % TWO32 else before;
    assert rest == [(k + 1, v / TWO32)] && |rest[1..]| == 0;
    assert LastOf(rest, j, x) == if j == k + 1 then v / TWO32 else x;
  }

  lemma NextSet(w: World, a: nat, v: nat)
    requires Valid(w.h) && HeadOutside(w) && IsNode(w, a) && Linkable(w, v)
    ensures var w' := SetNext(w, a, v);
            && Valid(w'.h) && OnlyLinks(w, w')
            && (forall b :: NextOf(w', b) == if b == a then v else NextOf(w, b))
            && (forall b :: PrevOf(w', b) == PrevOf(w, b))
  {
    if a != w.head {
      StorePointer(w.h, a, NEXT, LinkTo(w, v));
    }
  }

  lemma PrevSet(w: World, a: nat, v: nat)
    requires Valid(w.h) && HeadOutside(w) && IsNode(w, a) && Linkable(w, v)
    ensures var w' := SetPrev(w, a, v);
            && Valid(w'.h) && OnlyLinks(w, w')
            && (forall b :: PrevOf(w', b) == if b == a then v else PrevOf(w, b))
            && (forall b :: NextOf(w', b) == NextOf(w, b))
  {
    if a != w.head {
      StorePointer(w.h, a, PREV, LinkTo(w, v));
    }
  }

  /** The links make a ring of the nodes of `r`, the head first. */
  ghost predicate Ring(w: World, r: seq<nat>)
    requires Valid(w.h)
  {
    r != [] && r[0] == w.head && AllDistinct(r) && Circle((a: nat) => NextOf(w, a), (a: nat) => PrevOf(w, a), r)
  }

  /** Each node of `r` has the one after it as its next, and that has it as its previous. */
  ghost predicate Circle(next: nat -> nat, prev: nat -> nat, r: seq<nat>) {
    forall i {:trigger Succ(i, |r|)} :: 0 <= i < |r| ==> next(r[i]) == r[Succ(i, |r|)] && prev(r[Succ(i, |r|)]) == r[i]
  }

  /** A valid heap with the timers of `list` in it, linked in this order behind the head. */
  ghost predicate Linked(w: World, list: seq<nat>) {
    && Valid(w.h) && HeadOutside(w)
    && (forall i :: 0 <= i < |list| ==> IsTimer(w.h, list[i]))
    && Ring(w, [w.head] + list)
  }

  // ----- list_add and list_del

  /** list_add: behind the head. */
  function Added(w: World, node: nat): World
    requires Valid(w.h) && HeadOutside(w) && IsTimer(w.h, node) && IsNode(w, NextOf(w, w.head))
  {
    var next := NextOf(w, w.head);
    PrevSet(w, next, node);
    var w1 := SetPrev(w, next, node);
    NextSet(w1, node, next);
    var w2 := SetNext(w1, node, next);
    PrevSet(w2, node, w.head);
    var w3 := SetPrev(w2, node, w.head);
    SetNext(w3, w.head, node)
  }

  /** What the writes of list_add make of the links. */
  lemma AddedLinks(w: World, node: nat)
    requires Valid(w.h) && HeadOutside(w) && IsTimer(w.h, node) && IsNode(w, NextOf(w, w.head)) && node != w.head
    ensures var w', next := Added(w, node), NextOf(w, w.head);
            && Valid(w'.h) && OnlyLinks(w, w')
            && (forall b :: NextOf(w', b) == if b == w.head then node else if b == node then next else NextOf(w, b))
            && (forall b :: PrevOf(w', b) == if b == node then w.head else if b == next then node else PrevOf(w, b))
  {
    var next := NextOf(w, w.head);
    PrevSet(w, next, node);
    var w1 := SetPrev(w, next, node);
    NextSet(w1, node, next);
    var w2 := SetNext(w1, node, next);
    PrevSet(w2, node, w.head);
    var w3 := SetPrev(w2, node, w.head);
    NextSet(w3, w.head, node);
  }

  lemma CircleWith(next: nat -> nat, prev: nat -> nat, next': nat -> nat, prev': nat -> nat, r: seq<nat>, node: nat)
    requires r != [] && AllDistinct(r) && Circle(next, prev, r) && node !in r
    requires forall b :: next'(b) == if b == r[0] then node else if b == node then next(r[0]) else next(b)
    requires forall b :: prev'(b) == if b == node then r[0] else if b == next(r[0]) then node else prev(b)
    ensures Circle(next', prev', [r[0], node] + r[1..])
  {
    var s := [r[0], node] + r[1..];
    assert next(r[0]) == r[Succ(0, |r|)];
    forall i | 0 <= i < |s| ensures next'(s[i]) == s[Succ(i, |s|)] && prev'(s[Succ(i, |s|)]) == s[i] {
      var j := if i <= 1 then 0 else i - 1;
      assert next(r[j]) == r[Succ(j, |r|)];
    }
  }

  /** __list_del: the two neighbours are linked to each other. */
  function Bypassed(w: World, prev: nat, next: nat): World
    requires Valid(w.h) && HeadOutside(w) && IsNode(w, next) && IsNode(w, prev)
  {
    PrevSet(w, next, prev);
    SetNext(SetPrev(w, next, prev), prev, next)
  }

  lemma BypassedLinks(w: World, prev: nat, next: nat)
    requires Valid(w.h) && HeadOutside(w) && IsNode(w, next) && IsNode(w, prev)
    ensures var w' := Bypassed(w, prev, next);
            && Valid(w'.h) && OnlyLinks(w, w')
            && (forall b :: NextOf(w', b) == if b == prev then next else NextOf(w, b))
            && (forall b :: PrevOf(w', b) == if b == next then prev else PrevOf(w, b))
  {
    PrevSet(w, next, prev);
    NextSet(SetPrev(w, next, prev), prev, next);
  }

  /** The NULLs of list_del. */
  function Nulled(w: World, node: nat): World
    requires Valid(w.h) && HeadOutside(w) && IsTimer(w.h, node)
  {
    NextSet(w, node, 0);
    SetPrev(SetNext(w, node, 0), node, 0)
  }

  lemma NulledLinks(w: World, node: nat)
    requires Valid(w.h) && HeadOutside(w) && IsTimer(w.h, node)
    ensures var w' := Nulled(w, node);
            && Valid(w'.h) && OnlyLinks(w, w')
            && (forall b :: NextOf(w', b) == if b == node then 0 else NextOf(w, b))
            && (forall b :: PrevOf(w', b) == if b == node then 0 else PrevOf(w, b))
  {
    NextSet(w, node, 0);
    PrevSet(SetNext(w, node, 0), node, 0);
  }

  function Deleted(w: World, node: nat): World
    requires Valid(w.h) && HeadOutside(w) && IsTimer(w.h, node)
    requires IsNode(w, NextOf(w, node)) && IsNode(w, PrevOf(w, node))
  {
    BypassedLinks(w, PrevOf(w, node), NextOf(w, node));
    Nulled(Bypassed(w, PrevOf(w, node), NextOf(w, node)), node)
  }

  lemma DeletedLinks(w: World, node: nat)
    requires Valid(w.h) && HeadOutside(w) && IsTimer(w.h, node)
    requires IsNode(w, NextOf(w, node)) && IsNode(w, PrevOf(w, node))
    ensures var w', prev, next := Deleted(w, node), PrevOf(w, node), NextOf(w, node);
            && Valid(w'.h) && OnlyLinks(w, w')
            && (forall b :: NextOf(w', b) == if b == node then 0 else if b == prev then next else NextOf(w, b))
            && (forall b :: PrevOf(w', b) == if b == node then 0 else if b == next then prev else PrevOf(w, b))
  {
    BypassedLinks(w, PrevOf(w, node), NextOf(w, node));
    NulledLinks(Bypassed(w, PrevOf(w, node), NextOf(w, node)), node);
  }

  lemma CircleWithout(next: nat -> nat, prev: nat -> nat, next': nat -> nat, prev': nat -> nat, r: seq<nat>, i: nat)
    requires AllDistinct(r) && Circle(next, prev, r) && 0 < i < |r|
    requires forall b :: next'(b) == if b == r[i] then 0 else if b == prev(r[i]) then next(r[i]) else next(b)
    requires forall b :: prev'(b) == if b == r[i] then 0 else if b == next(r[i]) then prev(r[i]) else prev(b)
    ensures Circle(next', prev', r[..i] + r[i + 1..])
  {
    var s := r[..i] + r[i + 1..];
    assert next(r[i - 1]) == r[Succ(i - 1, |r|)] == r[i];
    assert next(r[i]) == r[Succ(i, |r|)];
    forall k | 0 <= k < |s| ensures next'(s[k]) == s[Succ(k, |s|)] && prev'(s[Succ(k, |s|)]) == s[k] {
      var j := if k < i then k else k + 1;
      assert s[k] == r[j] && next(r[j]) == r[Succ(j, |r|)];
      assert k != i - 1 ==> s[Succ(k, |s|)] == r[Succ(j, |r|)];
    }
  }

  lemma CircleSame(next: nat -> nat, prev: nat -> nat, next': nat -> nat, prev': nat -> nat, r: seq<nat>)
    requires Circle(next, prev, r)
    requires forall i :: 0 <= i < |r| ==> next'(r[i]) == next(r[i]) && prev'(r[i]) == prev(r[i])
    ensures Circle(next', prev', r)
  {
    forall i | 0 <= i < |r| ensures next'(r[i]) == r[Succ(i, |r|)] && prev'(r[Succ(i, |r|)]) == r[i] {
      assert next(r[i]) == r[Succ(i, |r|)];
    }
  }

  // ----- what each part of the walk keeps

  /** The links of a timer are untouched; its other fields are. */
  ghost predicate SameLinks(h: Heap, h': Heap, p: nat)
    requires Valid(h) && Valid(h') && IsTimer(h, p) && IsTimer(h', p)
  {
    forall k: nat :: PREV <= k < TIMER_WORDS ==> WordAt(h', p, k) == WordAt(h, p, k)
  }

  ghost predicate SameFields(h: Heap, h': Heap, p: nat)
    requires Valid(h) && Valid(h') && IsTimer(h, p) && IsTimer(h', p)
  {
    forall k: nat :: k < PREV ==> WordAt(h', p, k) == WordAt(h, p, k)
  }

  lemma SameInfo(h: Heap, h': Heap, p: nat)
    requires Valid(h) && Valid(h') && IsTimer(h, p) && IsTimer(h', p) && SameFields(h, h', p)
    ensures InfoAt(h', p) == InfoAt(h, p)
  {
  }

  /** A change of the heap that leaves the links of the listed timers alone leaves the list linked. */
  lemma StillLinked(w: World, h': Heap, list: seq<nat>)
    requires Linked(w, list) && Valid(h') && h'.base == w.h.base && h'.size == w.h.size
    requires forall i :: 0 <= i < |list| ==> IsTimer(h', list[i]) && SameLinks(w.h, h', list[i])
    ensures Linked(w.(h := h'), list)
  {
    var w', r := w.(h := h'), [w.head] + list;
    forall i | 0 <= i < |r| ensures NextOf(w', r[i]) == NextOf(w, r[i]) && PrevOf(w', r[i]) == PrevOf(w, r[i]) {
      assert i > 0 ==> r[i] == list[i - 1];
    }
    CircleSame((a: nat) => NextOf(w, a), (a: nat) => PrevOf(w, a),
               (a: nat) => NextOf(w', a), (a: nat) => PrevOf(w', a), r);
  }

  /** The nodes next to a listed one. */
  lemma Neighbours(w: World, list: seq<nat>, i: nat)
    requires Linked(w, list) && i <= |list|
    ensures var r := [w.head] + list;
            && NextOf(w, r[i]) == (if i < |list| then list[i] else w.head)
            && IsNode(w, NextOf(w, r[i]))
            && PrevOf(w, r[i]) == (if i == 0 then r[|list|] else r[i - 1])
            && IsNode(w, PrevOf(w, r[i]))
  {
    var r := [w.head] + list;
    var next, prev := (a: nat) => NextOf(w, a), (a: nat) => PrevOf(w, a);
    var k := if i == 0 then |list| else i - 1;
    assert Circle(next, prev, r) && Succ(k, |r|) == i;
    assert next(r[i]) == r[Succ(i, |r|)] && prev(r[Succ(k, |r|)]) == r[k];
  }

  lemma AddLinked(w: World, list: seq<nat>, node: nat)
    requires Linked(w, list) && IsTimer(w.h, node) && node !in list
    ensures IsNode(w, NextOf(w, w.head))
    ensures var w' := Added(w, node); Linked(w', [node] + list) && OnlyLinks(w, w')
  {
    Neighbours(w, list, 0);
    ListField(w.h, node);
    AddedLinks(w, node);
    AddedRing(w, Added(w, node), list, node);
  }

  lemma AddedRing(w: World, w': World, list: seq<nat>, node: nat)
    requires Linked(w, list) && IsTimer(w.h, node) && node !in list && node != w.head
    requires Valid(w'.h) && OnlyLinks(w, w')
    requires var next := NextOf(w, w.head);
             && (forall b :: NextOf(w', b) == if b == w.head then node else if b == node then next else NextOf(w, b))
             && (forall b :: PrevOf(w', b) == if b == node then w.head else if b == next then node else PrevOf(w, b))
    ensures Linked(w', [node] + list)
  {
    var r, more := [w.head] + list, [node] + list;
    CircleWith((a: nat) => NextOf(w, a), (a: nat) => PrevOf(w, a),
               (a: nat) => NextOf(w', a), (a: nat) => PrevOf(w', a), r, node);
    assert [r[0], node] + r[1..] == [w.head] + more;
    forall k | 0 <= k < |more| ensures IsTimer(w'.h, more[k]) {
      assert k > 0 ==> more[k] == list[k - 1];
    }
  }

  lemma Deletable(w: World, list: seq<nat>, i: nat)
    requires Linked(w, list) && i < |list|
    ensures IsTimer(w.h, list[i]) && IsNode(w, NextOf(w, list[i])) && IsNode(w, PrevOf(w, list[i]))
  {
    assert ([w.head] + list)[i + 1] == list[i];
    Neighbours(w, list, i + 1);
  }

  lemma DeleteLinked(w: World, list: seq<nat>, i: nat)
    requires Linked(w, list) && i < |list|
    ensures IsTimer(w.h, list[i]) && IsNode(w, NextOf(w, list[i])) && IsNode(w, PrevOf(w, list[i]))
    ensures var w' := Deleted(w, list[i]); Linked(w', list[..i] + list[i + 1..]) && OnlyLinks(w, w')
  {
    Deletable(w, list, i);
    DeletedLinks(w, list[i]);
    DeletedRing(w, Deleted(w, list[i]), list, i);
  }

  lemma DeletedRing(w: World, w': World, list: seq<nat>, i: nat)
    requires Linked(w, list) && i < |list| && Valid(w'.h) && OnlyLinks(w, w')
    requires var node, prev, next := list[i], PrevOf(w, list[i]), NextOf(w, list[i]);
             && (forall b :: NextOf(w', b) == if b == node then 0 else if b == prev then next else NextOf(w, b))
             && (forall b :: PrevOf(w', b) == if b == node then 0 else if b == next then prev else PrevOf(w, b))
    ensures Linked(w', list[..i] + list[i + 1..])
  {
    var r, left := [w.head] + list, list[..i] + list[i + 1..];
    CircleWithout((a: nat) => NextOf(w, a), (a: nat) => PrevOf(w, a),
                  (a: nat) => NextOf(w', a), (a: nat) => PrevOf(w', a), r, i + 1);
    assert r[..i + 1] + r[i + 2..] == [w.head] + left;
    DistinctWithout(r, i + 1);
    forall k | 0 <= k < |left| ensures IsTimer(w'.h, left[k]) {
      assert left[k] == list[if k < i then k else k + 1];
    }
  }

  lemma DistinctWithout<T>(s: seq<T>, i: nat)
    requires AllDistinct(s) && i < |s|
    ensures AllDistinct(s[..i] + s[i + 1..])
  {
  }
}
