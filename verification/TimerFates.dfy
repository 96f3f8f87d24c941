/**
 What the walk of the timer interrupt should do with each of the timers linked at entry.
 A timer is whatever stands for it: an object, or an address.
 */
module TimerFates {
  import opened Counting

  /** The fields of a timer that the walk looks at. */
  datatype Info = Info(periodic: bool, active: bool, callback: bool)

  predicate Fires(t: Info) { t.active && t.callback }

  predicate Expires(t: Info) { t.active && !t.periodic }

  datatype Fate = Firing | Expiring | Staying

  predicate Has(t: Info, fate: Fate) {
    match fate
    case Firing => Fires(t)
    case Expiring => Expires(t)
    case Staying => !Expires(t)
  }

  /** Those of the first `k` of `ts` that have this fate, in order. */
  function Pick<T>(ts: seq<T>, infos: seq<Info>, fate: Fate, k: nat): seq<T>
    requires k <= |ts| == |infos|
  {
    if k == 0 then [] else Pick(ts, infos, fate, k - 1) + (if Has(infos[k - 1], fate) then [ts[k - 1]] else [])
  }

  lemma PickNext<T>(ts: seq<T>, infos: seq<Info>, fate: Fate, k: nat)
    requires k < |ts| == |infos|
    ensures Pick(ts, infos, fate, k + 1) == Pick(ts, infos, fate, k) + (if Has(infos[k], fate) then [ts[k]] else [])
  {
  }

  /**
   What `Pick` picks, in the order of `ts` and each once: to fire, the active timers with a
   callback; to expire, the active one-shot ones; to stay, all but these.
   */
  lemma {:induction false} PickIs<T>(ts: seq<T>, infos: seq<Info>, fate: Fate, k: nat)
    requires k <= |ts| == |infos| && AllDistinct(ts)
    ensures forall i :: 0 <= i < k ==>
              (ts[i] in Pick(ts, infos, fate, k) <==>
               match fate
               case Firing => infos[i].active && infos[i].callback
               case Expiring => infos[i].active && !infos[i].periodic
               case Staying => !infos[i].active || infos[i].periodic)
    ensures forall x :: x in Pick(ts, infos, fate, k) ==> x in ts[..k]
    ensures AllDistinct(Pick(ts, infos, fate, k))
  {
    if k > 0 {
      PickIs(ts, infos, fate, k - 1);
      assert ts[..k] == ts[..k - 1] + [ts[k - 1]];
      assert ts[k - 1] !in ts[..k - 1];
    }
  }

  /** Every timer expires or stays. */
  lemma {:induction false} ExpireOrStay<T>(ts: seq<T>, infos: seq<Info>, k: nat)
    requires k <= |ts| == |infos|
    ensures |Pick(ts, infos, Expiring, k)| + |Pick(ts, infos, Staying, k)| == k
  {
    if k > 0 {
      ExpireOrStay(ts, infos, k - 1);
    }
  }
}
