/**
 The walk of the timer interrupt over timers in the heap. It reads its links from memory that
 it gives back as it goes, and that callbacks may get again.
 */
module TimerHeapIrq {
  import opened Words
  import opened Counting
  import opened Bits
  import opened IntrusiveList
  import opened HeapModel
  import opened HeapRuns
  import opened TimerFates
  import opened TimerHeap
  import opened TimerHeapRound

  ghost function InfosAt(w: World, list: seq<nat>): seq<Info>
    requires Linked(w, list)
  {
    seq(|list|, i requires 0 <= i < |list| => InfoAt(w.h, list[i]))
  }

  /** `gots[j]` says which requests of the `j`-th callback get memory. */
  ghost predicate Answers(starts: nat -> seq<Request>, gots: seq<seq<bool>>) {
    forall j :: 0 <= j < |gots| ==> |gots[j]| == |starts(j)|
  }

  /** What the callbacks have started, the last one first. */
  ghost function AllGranted(starts: nat -> seq<Request>, gots: seq<seq<bool>>): seq<Request>
    requires Answers(starts, gots)
  {
    if gots == [] then []
    else var n := |gots| - 1; Granted(starts(n), gots[n]) + AllGranted(starts, gots[..n])
  }

  /** The timers of `list` that are still linked when `k` of them have been visited. */
  ghost function Remaining(list: seq<nat>, infos: seq<Info>, k: nat): seq<nat>
    requires k <= |list| == |infos|
  {
    Pick(list, infos, Staying, k) + list[k..]
  }

  /**
   The walk since `w0`: of the timers linked then `rest` are still linked, their fields as they
   were, `freed` have been given back, and `started`, asked for by `granted`, are linked in front.
   The live pointers are those that there were without `freed`, and `started`.
   */
  ghost predicate Walked(w0: World, rest: seq<nat>, w: World, started: seq<nat>, granted: seq<Request>, freed: seq<nat>)
    requires Valid(w0.h) && |started| == |granted|
  {
    && Linked(w, started + rest) && w.head == w0.head && w.h.base == w0.h.base && w.h.size == w0.h.size
    && (forall i :: 0 <= i < |rest| ==> IsTimer(w0.h, rest[i])) && FieldsKept(w0, w, rest)
    && AskedFor(w, started, granted)
    && (forall q :: Live(w.h, q) <==> (Live(w0.h, q) && q !in freed) || q in started)
  }

  /** One more round, as seen in the list. */
  lemma ListedNext(list: seq<nat>, infos: seq<Info>, k: nat, started: seq<nat>, mine: seq<nat>) returns (i: nat)
    requires k < |list| == |infos|
    ensures i == |started| + |Pick(list, infos, Staying, k)|
    ensures var all := started + Remaining(list, infos, k);
            && i < |all| && all[i] == list[k]
            && (i + 1 < |all| <==> k + 1 < |list|) && (k + 1 < |list| ==> all[i + 1] == list[k + 1])
            && mine + Left(all, i, Expires(infos[k])) == mine + started + Remaining(list, infos, k + 1)
  {
    var p := Pick(list, infos, Staying, k);
    i := |started| + |p|;
    var all := started + Remaining(list, infos, k);
    PickNext(list, infos, Staying, k);
    assert all[..i] == started + p;
    assert all[i + 1..] == list[k + 1..];
  }

  lemma RestNext(list: seq<nat>, infos: seq<Info>, k: nat, i: nat)
    requires k < |list| == |infos| && i < |Remaining(list, infos, k + 1)|
    ensures Remaining(list, infos, k + 1)[i] in Remaining(list, infos, k)
  {
    var rest, next := Remaining(list, infos, k), Remaining(list, infos, k + 1);
    var p := |Pick(list, infos, Staying, k)|;
    PickNext(list, infos, Staying, k);
    assert next[i] == if i < p then rest[i] else if Expires(infos[k]) then rest[i + 1] else rest[i];
  }

  /** The live pointers that a round gives and takes, since entry. */
  lemma LiveSince(w0: World, w: World, w': World, started: seq<nat>, freed: seq<nat>, mine: seq<nat>,
                  expired: bool, pos: nat)
    requires forall q :: Live(w.h, q) <==> (Live(w0.h, q) && q !in freed) || q in started
    requires forall q :: Live(w'.h, q) <==> (Live(w.h, q) || q in mine) && !(expired && q == pos)
    requires pos !in started && pos !in mine
    ensures forall q :: Live(w'.h, q) <==>
              (Live(w0.h, q) && q !in freed + (if expired then [pos] else [])) || q in mine + started
  {
  }

  /** A round moves the walk on by one timer. */
  lemma RoundMovesOn(w0: World, list: seq<nat>, infos: seq<Info>, k: nat,
                     w: World, started: seq<nat>, granted: seq<Request>, freed: seq<nat>,
                     i: nat, w': World, mine: seq<nat>, more: seq<Request>)
    requires Valid(w0.h) && k < |list| == |infos| && |started| == |granted| && |mine| == |more|
    requires Walked(w0, Remaining(list, infos, k), w, started, granted, freed)
    requires i == |started| + |Pick(list, infos, Staying, k)| < |started + Remaining(list, infos, k)|
    requires Round(w, started + Remaining(list, infos, k), i, w', mine, more, Expires(infos[k]))
    ensures Walked(w0, Remaining(list, infos, k + 1), w', mine + started, more + granted,
                   freed + (if Expires(infos[k]) then [list[k]] else []))
  {
    LeftNext(list, infos, k, started, i);
    RestMovesOn(w0, Remaining(list, infos, k), Remaining(list, infos, k + 1), w, started, granted, freed,
                i, w', mine, more, Expires(infos[k]));
  }

  lemma LeftNext(list: seq<nat>, infos: seq<Info>, k: nat, started: seq<nat>, i: nat)
    requires k < |list| == |infos| && i == |started| + |Pick(list, infos, Staying, k)|
    ensures var all, rest := started + Remaining(list, infos, k), Remaining(list, infos, k + 1);
            && i < |all| && all[i] == list[k] && Left(all, i, Expires(infos[k])) == started + rest
            && forall j :: 0 <= j < |rest| ==> rest[j] in Remaining(list, infos, k)
  {
    var i' := ListedNext(list, infos, k, started, []);
    assert [] + started == started;
    var rest := Remaining(list, infos, k + 1);
    forall j | 0 <= j < |rest| ensures rest[j] in Remaining(list, infos, k) {
      RestNext(list, infos, k, j);
    }
  }

  lemma RestMovesOn(w0: World, before: seq<nat>, rest: seq<nat>,
                    w: World, started: seq<nat>, granted: seq<Request>, freed: seq<nat>,
                    i: nat, w': World, mine: seq<nat>, more: seq<Request>, expired: bool)
    requires Valid(w0.h) && |started| == |granted| && |mine| == |more| && |started| <= i < |started + before|
    requires Left(started + before, i, expired) == started + rest
    requires forall j :: 0 <= j < |rest| ==> rest[j] in before
    requires Walked(w0, before, w, started, granted, freed)
    requires Round(w, started + before, i, w', mine, more, expired)
    ensures Walked(w0, rest, w', mine + started, more + granted,
                   freed + (if expired then [(started + before)[i]] else []))
  {
    var all, left := started + before, started + rest;
    Joins(mine, started, rest);
    forall j | 0 <= j < |before| ensures before[j] == all[|started| + j] {
    }
    KeptSince(w0.h, before, w, w', started, rest);
    AskedForBoth(w, w', started, granted, rest, mine, more);
    NotStarted(w, started, before, i, all[i]);
    LiveSince(w0, w, w', started, freed, mine, expired, all[i]);
  }

  /** The next timer of the walk is not one that a callback has started. */
  lemma NotStarted(w: World, started: seq<nat>, rest: seq<nat>, i: nat, pos: nat)
    requires Linked(w, started + rest) && |started| <= i < |started + rest| && (started + rest)[i] == pos
    ensures pos !in started && Live(w.h, pos)
  {
    var all := started + rest;
    ListedApart(w, all);
    forall j | 0 <= j < |started| ensures started[j] == all[j] != all[i] {
    }
  }

  lemma WalkedAtEntry(w: World, list: seq<nat>, infos: seq<Info>)
    requires Linked(w, list) && |infos| == |list|
    ensures Walked(w, Remaining(list, infos, 0), w, [], [], [])
    ensures NextOf(w, w.head) == if list == [] then w.head else list[0]
  {
    assert Remaining(list, infos, 0) == list && [] + list == list;
    Neighbours(w, list, 0);
  }

  lemma AllGrantedNext(starts: nat -> seq<Request>, gots: seq<seq<bool>>, got: seq<bool>)
    requires Answers(starts, gots) && |got| == |starts(|gots|)|
    ensures Answers(starts, gots + [got])
    ensures AllGranted(starts, gots + [got]) == Granted(starts(|gots|), got) + AllGranted(starts, gots)
  {
    assert (gots + [got])[..|gots|] == gots;
  }

  /** The body of the loop of the walk; `n` is what list_for_each_safe has read before it. */
  method Step(w: World, pos: nat, reqs: seq<Request>, ghost w0: World, ghost list: seq<nat>, ghost k: nat,
              ghost started: seq<nat>, ghost granted: seq<Request>, ghost freed: seq<nat>)
    returns (w': World, n: nat, fired: bool, expired: bool, ghost mine: seq<nat>, ghost got: seq<bool>)
    requires Linked(w0, list) && k < |list| && pos == list[k] && |started| == |granted|
    requires Walked(w0, Remaining(list, InfosAt(w0, list), k), w, started, granted, freed)
    ensures n == if k + 1 < |list| then list[k + 1] else w0.head
    ensures fired == Fires(InfoAt(w0.h, pos)) && expired == Expires(InfoAt(w0.h, pos))
    ensures |got| == |reqs| && |mine| == |if fired then Granted(reqs, got) else []|
    ensures Walked(w0, Remaining(list, InfosAt(w0, list), k + 1), w', mine + started,
                   (if fired then Granted(reqs, got) else []) + granted, freed + (if expired then [pos] else []))
  {
    ghost var infos := InfosAt(w0, list);
    ghost var rest := Remaining(list, infos, k);
    ghost var all := started + rest;
    ghost var i := ListedNext(list, infos, k, started, []);
    Neighbours(w, all, i + 1);
    n := NextOf(w, pos);
    assert InfoAt(w.h, pos) == infos[k] by {
      assert rest[|Pick(list, infos, Staying, k)|] == pos && SameFields(w0.h, w.h, pos);
    }
    w', fired, expired, mine, got := Visit(w, all, i, pos, reqs);
    RoundMovesOn(w0, list, infos, k, w, started, granted, freed, i, w', mine, if fired then Granted(reqs, got) else []);
  }

  /** `k` timers have been visited, and these called and freed; `pos` is next. */
  ghost predicate Underway(w0: World, list: seq<nat>, starts: nat -> seq<Request>, k: nat, w: World, pos: nat,
                           called: seq<nat>, freed: seq<nat>, started: seq<nat>, gots: seq<seq<bool>>)
    requires Linked(w0, list)
  {
    var infos := InfosAt(w0, list);
    && k <= |list| && pos == (if k < |list| then list[k] else w0.head)
    && called == Pick(list, infos, Firing, k) && freed == Pick(list, infos, Expiring, k)
    && |gots| == |called| && Answers(starts, gots) && |started| == |AllGranted(starts, gots)|
    && Walked(w0, Remaining(list, infos, k), w, started, AllGranted(starts, gots), freed)
  }

  /** A round adds to each of the results of the walk what it should. */
  lemma UnderwayNext(w0: World, list: seq<nat>, starts: nat -> seq<Request>, k: nat, w: World, pos: nat,
                     called: seq<nat>, freed: seq<nat>, started: seq<nat>, gots: seq<seq<bool>>,
                     w': World, n: nat, fired: bool, expired: bool, started': seq<nat>, got: seq<bool>,
                     granted: seq<Request>)
    requires Linked(w0, list) && k < |list| && Underway(w0, list, starts, k, w, pos, called, freed, started, gots)
    requires n == if k + 1 < |list| then list[k + 1] else w0.head
    requires var info := InfosAt(w0, list)[k]; fired == Fires(info) && expired == Expires(info)
    requires |got| == |starts(|called|)|
    requires granted == (if fired then Granted(starts(|called|), got) else []) + AllGranted(starts, gots)
    requires |started'| == |granted|
    requires Walked(w0, Remaining(list, InfosAt(w0, list), k + 1), w', started', granted,
                    freed + (if expired then [pos] else []))
    ensures Underway(w0, list, starts, k + 1, w', n, called + (if fired then [pos] else []),
                     freed + (if expired then [pos] else []), started', gots + (if fired then [got] else []))
  {
    var infos := InfosAt(w0, list);
    PickNext(list, infos, Firing, k);
    PickNext(list, infos, Expiring, k);
    AllGrantedNext(starts, gots, got);
    if !fired {
      assert gots + [] == gots && granted == AllGranted(starts, gots);
    }
  }

  /** One round of the loop, as part of the whole. */
  method StepOn(w: World, pos: nat, starts: nat -> seq<Request>, called: seq<nat>, freed: seq<nat>,
                ghost w0: World, ghost list: seq<nat>, ghost k: nat, ghost started: seq<nat>,
                ghost gots: seq<seq<bool>>)
    returns (w': World, n: nat, called': seq<nat>, freed': seq<nat>,
             ghost started': seq<nat>, ghost gots': seq<seq<bool>>)
    requires Linked(w0, list) && k < |list| && Underway(w0, list, starts, k, w, pos, called, freed, started, gots)
    ensures Underway(w0, list, starts, k + 1, w', n, called', freed', started', gots')
  {
    var fired, expired;
    ghost var mine, got;
    w', n, fired, expired, mine, got :=
      Step(w, pos, starts(|called|), w0, list, k, started, AllGranted(starts, gots), freed);
    ghost var granted := (if fired then Granted(starts(|called|), got) else []) + AllGranted(starts, gots);
    started' := mine + started;
    UnderwayNext(w0, list, starts, k, w, pos, called, freed, started, gots,
                 w', n, fired, expired, started', got, granted);
    called', gots' := called + (if fired then [pos] else []), gots + (if fired then [got] else []);
    freed' := freed + (if expired then [pos] else []);
  }

  /** The walk has come back to the head: all timers have been visited. */
  lemma WalkEnd(w0: World, list: seq<nat>, starts: nat -> seq<Request>, k: nat, w: World,
                called: seq<nat>, freed: seq<nat>, started: seq<nat>, gots: seq<seq<bool>>)
    requires Linked(w0, list) && Underway(w0, list, starts, k, w, w0.head, called, freed, started, gots)
    ensures k == |list|
    ensures Walked(w0, Pick(list, InfosAt(w0, list), Staying, |list|), w, started, AllGranted(starts, gots), freed)
  {
    ListedApart(w0, list);
    assert Remaining(list, InfosAt(w0, list), |list|) == Pick(list, InfosAt(w0, list), Staying, |list|);
  }

  /** The fates of the timers of `list`, by their words at entry. */
  lemma FatesAre(w: World, list: seq<nat>, called: seq<nat>, freed: seq<nat>, kept: seq<nat>)
    requires Linked(w, list)
    requires called == Pick(list, InfosAt(w, list), Firing, |list|)
    requires freed == Pick(list, InfosAt(w, list), Expiring, |list|)
    requires kept == Pick(list, InfosAt(w, list), Staying, |list|)
    ensures forall i :: 0 <= i < |list| ==>
              && (list[i] in called <==> Bit(WordAt(w.h, list[i], FLAGS), 1) && PtrAt(w.h, list[i], CALLBACK) != 0)
              && (list[i] in freed <==> Bit(WordAt(w.h, list[i], FLAGS), 1) && !Bit(WordAt(w.h, list[i], FLAGS), 0))
              && (list[i] in kept <==> list[i] !in freed)
    ensures forall p :: p in called || p in freed || p in kept ==> p in list
  {
    ListedApart(w, list);
    PickIs(list, InfosAt(w, list), Firing, |list|);
    PickIs(list, InfosAt(w, list), Expiring, |list|);
    PickIs(list, InfosAt(w, list), Staying, |list|);
  }

  /**
   timer_irq_handler. `list` are the timers linked at entry. The `j`-th callback of the walk asks
   for the timers of `starts(j)`, and gets memory for those that `gots[j]` says. Returned are the
   timers called back and those freed, in order: the active ones with a callback, and the active
   one-shot ones. All but the latter are `kept`; `started` may stand where some of `freed` stood.
   */
  method TimerIrq(w: World, ghost list: seq<nat>, starts: nat -> seq<Request>)
    returns (w': World, called: seq<nat>, freed: seq<nat>,
             ghost kept: seq<nat>, ghost started: seq<nat>, ghost gots: seq<seq<bool>>)
    requires Linked(w, list)
    ensures forall i :: 0 <= i < |list| ==>
              && (list[i] in called <==> Bit(WordAt(w.h, list[i], FLAGS), 1) && PtrAt(w.h, list[i], CALLBACK) != 0)
              && (list[i] in freed <==> Bit(WordAt(w.h, list[i], FLAGS), 1) && !Bit(WordAt(w.h, list[i], FLAGS), 0))
              && (list[i] in kept <==> list[i] !in freed)
    ensures forall p :: p in called || p in freed || p in kept ==> p in list
    ensures called == Pick(list, InfosAt(w, list), Firing, |list|)
    ensures freed == Pick(list, InfosAt(w, list), Expiring, |list|)
    ensures kept == Pick(list, InfosAt(w, list), Staying, |list|)
    ensures |gots| == |called| && Answers(starts, gots) && |started| == |AllGranted(starts, gots)|
    ensures Walked(w, kept, w', started, AllGranted(starts, gots), freed)
  {
    w', called, freed, started, gots := Walk(w, list, starts);
    kept := Pick(list, InfosAt(w, list), Staying, |list|);
    FatesAre(w, list, called, freed, kept);
  }

  /** list_for_each_safe over the timers of the list. */
  method Walk(w: World, ghost list: seq<nat>, starts: nat -> seq<Request>)
    returns (w': World, called: seq<nat>, freed: seq<nat>, ghost started: seq<nat>, ghost gots: seq<seq<bool>>)
    requires Linked(w, list)
    ensures called == Pick(list, InfosAt(w, list), Firing, |list|)
    ensures freed == Pick(list, InfosAt(w, list), Expiring, |list|)
    ensures |gots| == |called| && Answers(starts, gots) && |started| == |AllGranted(starts, gots)|
    ensures Walked(w, Pick(list, InfosAt(w, list), Staying, |list|), w', started, AllGranted(starts, gots), freed)
  {
    ghost var k := 0;
    w', called, freed, started, gots := w, [], [], [], [];
    WalkedAtEntry(w, list, InfosAt(w, list));
    var pos := NextOf(w, w.head);
    while pos != w.head
      invariant Underway(w, list, starts, k, w', pos, called, freed, started, gots)
      decreases |list| - k
    {
      w', pos, called, freed, started, gots := StepOn(w', pos, starts, called, freed, w, list, k, started, gots);
      k := k + 1;
    }
    WalkEnd(w, list, starts, k, w', called, freed, started, gots);
  }
}
