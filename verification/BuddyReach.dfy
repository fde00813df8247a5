/** The heaps that `init_pmm` and any run of `pmm_malloc` and `pmm_free` can reach. */
module BuddyReach {
  import opened BuddyBlocks
  import opened BuddyHeap
  import opened BuddyInvariant
  import opened BuddyTheorems
  import opened BuddyDefrag
  import opened BuddyInit
  import opened BuddyBoot

  /** The state right after `init_pmm`. */
  function Booted(hs: nat, n: nat, regions: seq<Region>): State
    requires forall r :: r in regions ==> hs <= r.start
  {
    State(Boot(hs, n, regions), map[])
  }

  lemma BootedIsTileable(hs: nat, n: nat, regions: seq<Region>)
    requires Below(hs, n, regions) && Gapped(regions) && Aligned(hs, MAX_ORDER - 1)
    ensures Tileable(hs, n, regions)
  {
    forall r | r in regions
      ensures TilesFitHeap(hs, r.start, r.end)
    {
      AlignedFitsHeap(hs, r.start, r.end);
    }
  }

  /**
   In every run from boot whose frees name live blocks the four views agree, and once nothing is live any
   more bitmap, order map and counter are those from boot.
   */
  lemma ReachableCoherent(hs: nat, n: nat, regions: seq<Region>, ops: seq<Op>)
    requires Tileable(hs, n, regions) && Bytes(n) < 0x1_0000_0000
    requires AllHarmless(Booted(hs, n, regions), ops)
    ensures var s := Run(Booted(hs, n, regions), ops); Coherent(s, Pages(hs, regions)) && |s.heap.bits| == n
    ensures var s, b := Run(Booted(hs, n, regions), ops), Boot(hs, n, regions);
            s.live == map[] ==> s.heap.bits == b.bits && s.heap.orders == b.orders && s.heap.used == b.used
  {
    var s := Booted(hs, n, regions);
    BootIsCoherent(hs, n, regions);
    assert |s.heap.bits| == n by { BootSize(hs, n, regions); }
    hide Boot, Inv, Coalesced, Run, AllHarmless, Pages, Tileable;
    RunKeeps(s, ops, Pages(hs, regions));
    RunKeepsSize(s, ops);
    if Run(s, ops).live == map[] {
      SameLiveSameMaps(Run(s, ops), s, Pages(hs, regions));
    }
  }

  /** Every such run stays coherent exactly when HEAP_START is a multiple of the size of every tile. */
  lemma RunsCoherentIff(hs: nat, n: nat, regions: seq<Region>)
    requires Below(hs, n, regions) && Disjoint(regions) && Bytes(n) < 0x1_0000_0000
    ensures RunsCoherent(Booted(hs, n, regions), Pages(hs, regions)) <==> Tileable(hs, n, regions)
  {
    BootIsCoherentIff(hs, n, regions);
    hide Boot, Inv, RunsCoherent, Pages, TilesFitHeap;
    RunsCoherentIsStart(Booted(hs, n, regions), Pages(hs, regions));
  }

  /**
   With HEAP_START a multiple of the largest block and gaps between the regions no two buddies below the
   top order are both listed, and once nothing is live any more the free sets are those from boot as well.
   */
  lemma ReachableHeap(hs: nat, n: nat, regions: seq<Region>, ops: seq<Op>)
    requires Below(hs, n, regions) && Gapped(regions) && Aligned(hs, MAX_ORDER - 1) && Bytes(n) < 0x1_0000_0000
    requires AllHarmless(Booted(hs, n, regions), ops)
    ensures var s := Run(Booted(hs, n, regions), ops);
            && Coherent(s, Pages(hs, regions)) && Coalesced(s.heap.free) && |s.heap.bits| == n
    ensures var s, b := Run(Booted(hs, n, regions), ops), Boot(hs, n, regions);
            s.live == map[] ==>
              && s.heap.bits == b.bits && s.heap.orders == b.orders && s.heap.used == b.used
              && forall o :: 0 <= o < MAX_ORDER ==> multiset(s.heap.free[o]) == multiset(b.free[o])
  {
    var s := Booted(hs, n, regions);
    BootedIsTileable(hs, n, regions);
    BootIsCoherent(hs, n, regions);
    BootIsCoalesced(hs, n, regions);
    hide Boot, Inv, Coalesced, Run, AllHarmless, Pages, Tileable;
    ReachableCoherent(hs, n, regions, ops);
    RunKeeps(s, ops, Pages(hs, regions));
    if Run(s, ops).live == map[] {
      RunReturnsToStart(s, ops, Pages(hs, regions));
    }
  }

  lemma BootSize(hs: nat, n: nat, regions: seq<Region>)
    requires forall r :: r in regions ==> hs <= r.start
    ensures |Boot(hs, n, regions).bits| == n
  {
  }

  /** On every heap reached from one region that starts at HEAP_START `pmm_defragment` changes nothing. */
  lemma WholeHeapNeverDefragments(hs: nat, n: nat, ops: seq<Op>)
    requires n > 0 && Aligned(hs, MAX_ORDER - 1) && Bytes(n) < 0x1_0000_0000
    requires AllHarmless(Booted(hs, n, [Region(hs, hs + n)]), ops)
    ensures var h := Run(Booted(hs, n, [Region(hs, hs + n)]), ops).heap; Defragment(h) == h
  {
    var regions := [Region(hs, hs + n)];
    ReachableHeap(hs, n, regions, ops);
    var s := Run(Booted(hs, n, regions), ops);
    forall p: nat | p < n
      ensures p in Pages(hs, regions)
    {
      PagesMember(hs, regions, p);
    }
    hide Booted, Run, AllHarmless, Pages, Inv, Coalesced;
    DefragmentIdleOnWholeHeap(s.heap, s.live, Pages(hs, regions));
  }
}
