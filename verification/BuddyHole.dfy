/** A heap with a reserved page in it, as `init_pmm` builds it, and what `pmm_defragment` makes of it. */
module BuddyHole {
  import opened Powers
  import opened BuddyBlocks
  import opened BuddyHeap
  import opened BuddyInvariant
  import opened BuddyDefrag
  import opened BuddyInit
  import opened Options
  import opened Ranges

  /** Two usable regions of one page each, with one page between them. */
  function OneApart(hs: nat): (r: seq<Region>) {
    [Region(hs, hs + 1), Region(hs + 2, hs + 3)]
  }

  /** The heap of three pages after boot: pages 0 and 2 are free, page 1 is in no region. */
  function HoleyHeap(hs: nat): Heap {
    Boot(hs, 3, OneApart(hs))
  }

  lemma OnePageTile(free: FreeLists, hs: nat, a: nat)
    requires hs <= a
    ensures Tile(free, hs, a, a + 1) == Push(free, 0, a - hs) && TilesFitHeap(hs, a, a + 1)
  {
    TileOrderIsGreedy(a, 1);
    Pow2Order(TileOrder(a, 1), 1);
    hide TileOrder;
    assert TileOrder(a, 1) == 0 && Pow2(0) == 1;
  }

  lemma HoleyLists(hs: nat)
    ensures HoleyHeap(hs).free == Push(Push(NoLists(), 0, 0), 0, 2)
    ensures HoleyHeap(hs).bits == [false, false, false] && Pages(hs, OneApart(hs)) == {0, 2}
    ensures Tileable(hs, 3, OneApart(hs))
  {
    OnePageTile(NoLists(), hs, hs);
    OnePageTile(Push(NoLists(), 0, 0), hs, hs + 2);
    hide Tile, TilesFitHeap;
    var rs := OneApart(hs);
    var f1 := Push(NoLists(), 0, 0);
    assert rs[1..] == [Region(hs + 2, hs + 3)] && rs[1..][1..] == [];
    assert TileAll(NoLists(), hs, rs) == TileAll(f1, hs, rs[1..]);
    assert TileAll(f1, hs, rs[1..]) == TileAll(Push(f1, 0, 2), hs, []);
    assert Pages(hs, rs[1..]) == Range(2, 3) + Pages(hs, []);
  }

  lemma HoleyListed(o: nat, b: nat)
    ensures Listed(Push(Push(NoLists(), 0, 0), 0, 2), o, b) <==> o == 0 && (b == 0 || b == 2)
  {
  }

  lemma HoleyIsCoherent(hs: nat)
    ensures Inv(HoleyHeap(hs), map[], {0, 2}) && Coalesced(HoleyHeap(hs).free)
  {
    HoleyLists(hs);
    hide Tileable, Inv;
    BootIsCoherent(hs, 3, OneApart(hs));
    hide Boot;
    forall o: nat, b: nat | Listed(HoleyHeap(hs).free, o, b)
      ensures !Listed(HoleyHeap(hs).free, o, Buddy(b, o))
    {
      HoleyListed(o, b);
      HoleyListed(o, Buddy(b, o));
      assert Buddy(0, 0) == 1 && Buddy(2, 0) == 3;
    }
  }

  lemma AfterFirstRound(f: FreeLists, bits: seq<bool>)
    requires f == Push(Push(NoLists(), 0, 2), 1, 0) && bits == [false, false, false]
    ensures NoCandidate(f, bits)
  {
    forall o: nat, b: nat | Listed(f, o, b)
      ensures !Candidate(f, bits, o, b)
    {
      assert (o == 0 && b == 2) || (o == 1 && b == 0);
      assert Pow2(1) == 2 && Buddy(2, 0) == 3 && Buddy(0, 1) == 2;
    }
  }

  /** The first round joins page 0 with page 1, and no later one finds a candidate. */
  lemma HoleyDefragmented(hs: nat)
    ensures Defragment(HoleyHeap(hs)).free == Push(Push(NoLists(), 0, 2), 1, 0)
  {
    HoleyLists(hs);
    var f, bits := HoleyHeap(hs).free, [false, false, false];
    hide Boot, Inv, Tileable;
    assert f[0] == [2, 0] && f[0][1..] == [0];
    assert Pow2(0) == 1 && Buddy(0, 0) == 1 && Buddy(2, 0) == 3;
    hide Pow2, Buddy;
    assert FirstCandidate(f[0], 0, bits) == FirstCandidate([0], 0, bits) == Some(0);
    var g := Push(Remove(Remove(f, 0, 0), 0, 1), 1, 0);
    var two: seq<nat> := [2];
    assert two[1..] == [] && [0][1..] == [];
    assert RemoveFirst([0], 0) == [] && RemoveFirst(f[0], 0) == two && RemoveFirst(two, 1) == two;
    assert g == Push(Push(NoLists(), 0, 2), 1, 0);
    assert DefragOrder(f, 0, bits) == DefragOrder(g, 0, bits) == g;
    AfterFirstRound(g, bits);
    IdleWithoutCandidate(g, 1, bits);
  }

  /**
   Boot leaves this heap coherent and coalesced, yet `pmm_defragment` lists a block with the page that
   is in no region, and a request for two pages gets it.
   */
  lemma DefragmentListsHole(hs: nat)
    ensures var regions := [Region(hs, hs + 1), Region(hs + 2, hs + 3)];
            var h := Boot(hs, 3, regions);
            && Inv(h, map[], {0, 2}) && Coalesced(h.free) && Pages(hs, regions) == {0, 2}
            && Listed(Defragment(h).free, 1, 0) && Covers(0, 1, 1)
            && Malloc(Defragment(h), 8192).1 == Some(0)
  {
    HoleyIsCoherent(hs);
    HoleyLists(hs);
    HoleyDefragmented(hs);
    hide Boot, Inv, Coalesced, Defragment, Tileable;
    var h := HoleyHeap(hs);
    var d := Defragment(h);
    assert d.bits == h.bits by { DefragmentKeepsBits(h); }
    assert GetOrder(8192) == 1 && Pow2(1) == 2;
    hide GetOrder, Pow2;
    assert d.free[1] == [0] && FirstNonEmpty(d.free, 1) == 1;
  }

  lemma DefragmentKeepsBits(h: Heap)
    ensures Defragment(h).bits == h.bits
  {
  }
}
