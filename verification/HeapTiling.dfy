/** Facts about tilings: splitting, ordering, first and last free block, free and used sums. */
module HeapTiling {
  import opened Words
  import opened HeapModel

  lemma {:induction false} TilesBound(bs: seq<Block>, a: nat, e: nat)
    requires Tiles(bs, a, e)
    ensures a <= e && (e - a) % 16 == 0
    ensures bs != [] ==> a < e
  {
    if bs != [] {
      TilesBound(bs[1..], bs[0].End(), e);
    }
  }

  /** End of the last block of a tiling that starts at `a`. */
  function EndOf(bs: seq<Block>, a: nat): nat {
    if bs == [] then a else bs[|bs| - 1].End()
  }

  lemma {:induction false} TilesSplit(xs: seq<Block>, ys: seq<Block>, a: nat, e: nat)
    requires Tiles(xs + ys, a, e)
    ensures Tiles(xs, a, EndOf(xs, a)) && Tiles(ys, EndOf(xs, a), e)
    ensures a <= EndOf(xs, a) <= e
    ensures ys != [] ==> ys[0].addr == EndOf(xs, a)
  {
    TilesBound(xs + ys, a, e);
    if xs == [] {
      assert xs + ys == ys;
    } else {
      assert (xs + ys)[1..] == xs[1..] + ys;
      TilesSplit(xs[1..], ys, xs[0].End(), e);
    }
  }

  lemma {:induction false} TilesJoin(xs: seq<Block>, ys: seq<Block>, a: nat, m: nat, e: nat)
    requires Tiles(xs, a, m) && Tiles(ys, m, e)
    ensures Tiles(xs + ys, a, e)
  {
    if xs == [] {
      assert xs + ys == ys;
    } else {
      assert (xs + ys)[1..] == xs[1..] + ys;
      TilesJoin(xs[1..], ys, xs[0].End(), m, e);
    }
  }

  /** Where block `i` of a tiling lies. */
  lemma {:induction false} TilesRange(bs: seq<Block>, a: nat, e: nat, i: nat)
    requires Tiles(bs, a, e) && i < |bs|
    ensures a <= bs[i].addr < bs[i].End() <= e
    ensures bs[i].addr == EndOf(bs[..i], a)
  {
    assert bs == bs[..i] + bs[i..];
    TilesSplit(bs[..i], bs[i..], a, e);
    TilesBound(bs[i + 1..], bs[i].End(), e);
    assert bs[i..][1..] == bs[i + 1..];
  }

  lemma {:induction false} TilesSize(bs: seq<Block>, a: nat, e: nat, i: nat)
    requires Tiles(bs, a, e) && i < |bs|
    ensures bs[i].size % 16 == 0 && bs[i].size >= 16
    ensures bs[i].used ==> bs[i].size >= 32
  {
    if i > 0 { TilesSize(bs[1..], bs[0].End(), e, i - 1); }
  }

  lemma {:induction false} TilesAligned(bs: seq<Block>, a: nat, e: nat, i: nat)
    requires Tiles(bs, a, e) && i < |bs|
    ensures bs[i].addr >= a && (bs[i].addr - a) % 16 == 0
  {
    if i > 0 { TilesAligned(bs[1..], bs[0].End(), e, i - 1); }
  }

  /** Blocks lie in increasing, disjoint ranges. */
  lemma {:induction false} TilesOrder(bs: seq<Block>, a: nat, e: nat, i: nat, k: nat)
    requires Tiles(bs, a, e) && i < k < |bs|
    ensures bs[i].End() <= bs[k].addr
    ensures k == i + 1 ==> bs[i].End() == bs[k].addr
    ensures k > i + 1 ==> bs[i].End() < bs[k].addr
  {
    assert bs == bs[..i + 1] + bs[i + 1..];
    TilesSplit(bs[..i + 1], bs[i + 1..], a, e);
    TilesRange(bs[i + 1..], bs[i].End(), e, k - i - 1);
    TilesRange(bs[i + 1..], bs[i].End(), e, 0);
    if k > i + 1 {
      assert bs[i + 1..] == bs[i + 1..k] + bs[k..];
      TilesSplit(bs[i + 1..k], bs[k..], bs[i].End(), e);
      TilesBound(bs[i + 1..k], bs[i].End(), EndOf(bs[i + 1..k], bs[i].End()));
    }
  }

  // ----- first and last free block

  lemma {:induction false} FirstFreeSplit(xs: seq<Block>, ys: seq<Block>, a: nat, e: nat)
    requires a > 0 && Tiles(xs, a, e)
    ensures FirstFree(xs + ys) == if FirstFree(xs) != 0 then FirstFree(xs) else FirstFree(ys)
  {
    if xs == [] {
      assert xs + ys == ys;
    } else {
      assert (xs + ys)[1..] == xs[1..] + ys;
      if xs[0].used {
        FirstFreeSplit(xs[1..], ys, xs[0].End(), e);
      }
    }
  }

  /** A non-NULL first free block stands at some index with only used blocks before it. */
  lemma {:induction false} FirstFreeIndex(bs: seq<Block>, a: nat, e: nat) returns (i: nat)
    requires a > 0 && Tiles(bs, a, e) && FirstFree(bs) != 0
    ensures i < |bs| && !bs[i].used && bs[i].addr == FirstFree(bs)
    ensures forall k :: 0 <= k < i ==> bs[k].used
  {
    if !bs[0].used {
      i := 0;
    } else {
      var k := FirstFreeIndex(bs[1..], bs[0].End(), e);
      i := k + 1;
    }
  }

  lemma {:induction false} FirstFreeNone(bs: seq<Block>, a: nat, e: nat)
    requires a > 0 && Tiles(bs, a, e)
    ensures FirstFree(bs) == 0 <==> forall k :: 0 <= k < |bs| ==> bs[k].used
  {
    if FirstFree(bs) != 0 {
      var i := FirstFreeIndex(bs, a, e);
    } else if bs != [] {
      FirstFreeNone(bs[1..], bs[0].End(), e);
      forall k | 0 <= k < |bs| ensures bs[k].used {
        if k > 0 { assert bs[k] == bs[1..][k - 1]; }
      }
    }
  }

  lemma {:induction false} LastFreeIndex(bs: seq<Block>, a: nat, e: nat) returns (i: nat)
    requires a > 0 && Tiles(bs, a, e) && LastFree(bs) != 0
    ensures i < |bs| && !bs[i].used && bs[i].addr == LastFree(bs)
    ensures forall k :: i < k < |bs| ==> bs[k].used
    decreases |bs|
  {
    var n := |bs| - 1;
    if !bs[n].used {
      i := n;
    } else {
      assert bs == bs[..n] + bs[n..];
      TilesSplit(bs[..n], bs[n..], a, e);
      i := LastFreeIndex(bs[..n], a, EndOf(bs[..n], a));
    }
  }

  lemma {:induction false} LastFreeNone(bs: seq<Block>, a: nat, e: nat)
    requires a > 0 && Tiles(bs, a, e) && LastFree(bs) == 0
    ensures forall k :: 0 <= k < |bs| ==> bs[k].used
    decreases |bs|
  {
    if bs != [] {
      var n := |bs| - 1;
      assert bs == bs[..n] + bs[n..];
      TilesSplit(bs[..n], bs[n..], a, e);
      TilesRange(bs, a, e, n);
      LastFreeNone(bs[..n], a, EndOf(bs[..n], a));
    }
  }

  /** Whether the last free block reaches the end of the tiling decides whether it is the last block. */
  lemma LastFreeTouches(bs: seq<Block>, a: nat, e: nat, p: nat)
    requires a > 0 && Tiles(bs, a, e) && LastFree(bs) != 0
    requires p < |bs| && !bs[p].used && bs[p].addr == LastFree(bs)
    ensures bs[p].End() == e <==> !bs[|bs| - 1].used
    ensures !bs[|bs| - 1].used ==> p == |bs| - 1
  {
    var i := LastFreeIndex(bs, a, e);
    if p < i { TilesOrder(bs, a, e, p, i); TilesRange(bs, a, e, p); }
    var n := |bs| - 1;
    assert bs == bs[..n + 1] + [];
    TilesSplit(bs[..n + 1], [], a, e);
    assert bs[..n + 1] == bs;
    if p < n {
      TilesOrder(bs, a, e, p, n);
      TilesRange(bs, a, e, n);
    }
  }

  /** Within `xs`, only the last free block has no free block after it. */
  lemma OnlyLastFreeEnds(xs: seq<Block>, a: nat, e: nat, i: nat)
    requires a > 0 && Tiles(xs, a, e) && i < |xs| && !xs[i].used
    ensures FirstFree(xs[i + 1..]) == 0 <==> xs[i].addr == LastFree(xs)
    ensures LastFree(xs) != 0
  {
    if LastFree(xs) == 0 { LastFreeNone(xs, a, e); }
    var p := LastFreeIndex(xs, a, e);
    assert xs == xs[..i + 1] + xs[i + 1..];
    TilesSplit(xs[..i + 1], xs[i + 1..], a, e);
    TilesRange(xs, a, e, i);
    FirstFreeNone(xs[i + 1..], xs[i].End(), e);
    if p < i {
      assert false;
    } else if i < p {
      TilesOrder(xs, a, e, i, p);
      assert xs[i + 1..][p - i - 1] == xs[p];
    } else {
      var rest := xs[i + 1..];
      forall k | 0 <= k < |rest| ensures rest[k].used {
        assert rest[k] == xs[i + 1 + k];
      }
    }
  }

  // ----- sums

  lemma {:induction false} SumsSplit(xs: seq<Block>, ys: seq<Block>)
    ensures FreeSum(xs + ys) == FreeSum(xs) + FreeSum(ys)
    ensures UsedSum(xs + ys) == UsedSum(xs) + UsedSum(ys)
  {
    if xs == [] {
      assert xs + ys == ys;
    } else {
      assert (xs + ys)[1..] == xs[1..] + ys;
      SumsSplit(xs[1..], ys);
    }
  }

  lemma {:induction false} SumsFill(bs: seq<Block>, a: nat, e: nat)
    requires Tiles(bs, a, e)
    ensures FreeSum(bs) + UsedSum(bs) == e - a
  {
    if bs != [] {
      SumsFill(bs[1..], bs[0].End(), e);
    }
  }

  /** A coalesced tiling that is all free is one block. */
  lemma AllFreeIsOne(bs: seq<Block>, a: nat, e: nat)
    requires Tiles(bs, a, e) && Coalesced(bs) && a < e && FreeSum(bs) == e - a
    ensures bs == [Block(a, e - a, false)]
  {
    assert |bs| > 1 ==> bs[0].used || bs[1].used;
    SumsFill(bs, a, e);
    forall i | 0 <= i < |bs| ensures !bs[i].used {
      TilesSize(bs, a, e, i);
      SumAt(bs, i);
    }
    assert Tiles(bs[1..], bs[0].End(), e);
  }

  lemma SumAt(bs: seq<Block>, i: nat)
    requires i < |bs|
    ensures !bs[i].used ==> bs[i].size <= FreeSum(bs)
    ensures bs[i].used ==> bs[i].size <= UsedSum(bs)
  {
    assert bs == bs[..i] + bs[i..];
    SumsSplit(bs[..i], bs[i..]);
  }

  // ----- searching

  lemma {:induction false} FirstFitIs(bs: seq<Block>, t: nat)
    ensures var j := FirstFit(bs, t);
            && (j < |bs| ==> !bs[j].used && bs[j].size >= t)
            && forall k :: 0 <= k < j ==> bs[k].used || bs[k].size < t
  {
    if bs != [] && !(!bs[0].used && bs[0].size >= t) {
      FirstFitIs(bs[1..], t);
    }
  }

  lemma {:induction false} IndexOfIs(bs: seq<Block>, a: nat)
    ensures var j := IndexOf(bs, a);
            && (j < |bs| ==> bs[j].addr == a)
            && forall k :: 0 <= k < j ==> bs[k].addr != a
  {
    if bs != [] && bs[0].addr != a {
      IndexOfIs(bs[1..], a);
    }
  }

  /** Addresses identify blocks. */
  lemma IndexOfBlock(bs: seq<Block>, a: nat, e: nat, i: nat)
    requires Tiles(bs, a, e) && i < |bs|
    ensures IndexOf(bs, bs[i].addr) == i
  {
    IndexOfIs(bs, bs[i].addr);
    var j := IndexOf(bs, bs[i].addr);
    if j < i { TilesOrder(bs, a, e, j, i); TilesRange(bs, a, e, j); }
  }

  /** A block at the address of the last free block is free. */
  lemma LastFreeIsFree(bs: seq<Block>, a: nat, e: nat, i: nat)
    requires a > 0 && Tiles(bs, a, e) && i < |bs| && bs[i].addr == LastFree(bs)
    ensures !bs[i].used
  {
    TilesRange(bs, a, e, i);
    var p := LastFreeIndex(bs, a, e);
    IndexOfBlock(bs, a, e, i);
    IndexOfBlock(bs, a, e, p);
  }
}
