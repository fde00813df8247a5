/**
 How `init_pmm` fills the free lists: each usable region is cut greedily into the largest blocks
 that fit and are aligned.  Page numbers here are absolute; `hs` is the first page of the heap,
 and lists hold page numbers relative to it.
 */
module BuddyInit {
  import opened Powers
  import opened BuddyBlocks
  import opened BuddyHeap
  import opened BuddyInvariant
  import opened BuddySteps
  import opened BuddyRuns
  import opened Ranges

  // ---------------------------------------------------------------- one tile

  function LargestFitting(o: nat, size: nat): (r: nat)
    ensures r <= o
  {
    if o > 0 && Pow2(o) > size then LargestFitting(o - 1, size) else o
  }

  function LargestAligned(o: nat, a: nat): (r: nat)
    ensures r <= o
  {
    if o > 0 && !Aligned(a, o) then LargestAligned(o - 1, a) else o
  }

  /** The order of the block cut off at page `a` when `size` pages of the region are left. */
  function TileOrder(a: nat, size: nat): (o: nat)
    ensures o < MAX_ORDER
  {
    LargestAligned(LargestFitting(MAX_ORDER - 1, size), a)
  }

  lemma {:induction false} LargestFittingIs(o: nat, size: nat)
    requires size > 0
    ensures var r := LargestFitting(o, size);
            Pow2(r) <= size && forall i: nat :: r < i <= o ==> Pow2(i) > size
    decreases o
  {
    if o > 0 && Pow2(o) > size {
      LargestFittingIs(o - 1, size);
    }
  }

  lemma {:induction false} LargestAlignedIs(o: nat, a: nat)
    ensures var r := LargestAligned(o, a);
            Aligned(a, r) && forall i: nat :: r < i <= o ==> !Aligned(a, i)
    decreases o
  {
    if o > 0 && !Aligned(a, o) {
      LargestAlignedIs(o - 1, a);
    }
  }

  /** The tile is aligned and fits, and no larger order would. */
  lemma TileOrderIsGreedy(a: nat, size: nat)
    requires size > 0
    ensures var o := TileOrder(a, size);
            && Aligned(a, o) && Pow2(o) <= size
            && forall i: nat :: o < i < MAX_ORDER ==> !Aligned(a, i) || Pow2(i) > size
  {
    var fit := LargestFitting(MAX_ORDER - 1, size);
    LargestFittingIs(MAX_ORDER - 1, size);
    LargestAlignedIs(fit, a);
    Pow2Monotone(LargestAligned(fit, a), fit);
  }

  // ---------------------------------------------------------------- one region

  /** The tiling loop over the pages from `a` up to `e`. */
  function Tile(free: FreeLists, hs: nat, a: nat, e: nat): FreeLists
    requires hs <= a
    decreases e - a
  {
    if a >= e then free
    else
      var o := TileOrder(a, e - a);
      if Pow2(o) > e - a then free else Tile(Push(free, o, a - hs), hs, a + Pow2(o), e)
  }

  /** HEAP_START is a multiple of the size of every tile of the region. */
  predicate TilesFitHeap(hs: nat, a: nat, e: nat)
    decreases e - a
  {
    a < e ==>
      var o := TileOrder(a, e - a);
      Aligned(hs, o) && (Pow2(o) <= e - a ==> TilesFitHeap(hs, a + Pow2(o), e))
  }

  /** Relative to HEAP_START an aligned page stays aligned exactly when HEAP_START is aligned too. */
  lemma IndexAlignedIff(a: nat, hs: nat, o: nat)
    requires hs <= a && Aligned(a, o)
    ensures Aligned(a - hs, o) <==> Aligned(hs, o)
  {
    var m := Pow2(o);
    DivisionForm(a, m);
    if Aligned(hs, o) {
      DivisionForm(hs, m);
      MulDistributes(a / m, hs / m, m);
      QuotientMonotone(a, hs, m);
      QuotientWitness(a - hs, m, a / m - hs / m);
    }
    if Aligned(a - hs, o) {
      DivisionForm(a - hs, m);
      MulDistributes(a / m, (a - hs) / m, m);
      QuotientMonotone(a, a - hs, m);
      QuotientWitness(hs, m, a / m - (a - hs) / m);
    }
  }

  lemma QuotientMonotone(a: nat, b: nat, m: nat)
    requires m > 0 && b <= a && a % m == 0 && b % m == 0
    ensures b / m <= a / m
  {
  }

  /** A block of new, clear pages can be listed, and its pages become usable. */
  lemma ListNew(free: FreeLists, o: nat, b: nat, bits: seq<bool>, usable: set<nat>)
    requires o < MAX_ORDER && Aligned(b, o) && AllClear(bits, b, Pow2(o)) && FreeInv(free, bits, usable)
    requires forall p: nat :: Covers(b, o, p) ==> p !in usable
    ensures FreeInv(Push(free, o, b), bits, usable + Range(b, b + Pow2(o)))
  {
    var usable' := usable + Range(b, b + Pow2(o));
    forall o': nat, x: nat | Listed(free, o', x)
      ensures Apart(b, o, x, o') && FreeBlockOk(x, o', bits, usable')
    {
      assert FreeBlockOk(x, o', bits, usable);
      if !Apart(b, o, x, o') {
        var p := CommonPage(b, o, x, o');
      }
    }
    ListAlone(free, o, b, bits, usable');
  }

  lemma TileUnfolds(free: FreeLists, hs: nat, a: nat, e: nat)
    requires hs <= a < e
    ensures var o := TileOrder(a, e - a);
            && Aligned(a, o) && a + Pow2(o) <= e
            && Tile(free, hs, a, e) == Tile(Push(free, o, a - hs), hs, a + Pow2(o), e)
            && (TilesFitHeap(hs, a, e) <==> Aligned(hs, o) && TilesFitHeap(hs, a + Pow2(o), e))
  {
    hide TileOrder, Aligned;
    TileOrderIsGreedy(a, e - a);
  }

  lemma RangeJoin(usable: set<nat>, b: nat, m: nat, e: nat)
    requires b <= m <= e
    ensures usable + Range(b, m) + Range(m, e) == usable + Range(b, e)
  {
  }

  /** The tiling covers exactly the region: its blocks are aligned, apart and leave no page out. */
  lemma {:induction false} TileKeepsInv(free: FreeLists, hs: nat, a: nat, e: nat, bits: seq<bool>, usable: set<nat>)
    requires hs <= a <= e && TilesFitHeap(hs, a, e) && FreeInv(free, bits, usable)
    requires e - hs <= |bits| && forall p: nat :: a - hs <= p < e - hs ==> p !in usable && !bits[p]
    ensures FreeInv(Tile(free, hs, a, e), bits, usable + Range(a - hs, e - hs))
    ensures ListedPages(Tile(free, hs, a, e), MAX_ORDER) == ListedPages(free, MAX_ORDER) + (e - a)
    decreases e - a
  {
    hide FreeInv, Aligned, TileOrder, ListedPages, Range, Pow2, TilesFitHeap;
    if a < e {
      hide Tile;
      var o := TileOrder(a, e - a);
      var b := a - hs;
      TileUnfolds(free, hs, a, e);
      IndexAlignedIff(a, hs, o);
      ListNew(free, o, b, bits, usable);
      PushPages(free, o, b);
      TileKeepsInv(Push(free, o, b), hs, a + Pow2(o), e, bits, usable + Range(b, b + Pow2(o)));
      RangeJoin(usable, b, b + Pow2(o), e - hs);
    } else {
      assert usable + Range(a - hs, e - hs) == usable;
    }
  }

  /**
   A listed left half whose right half starts in the part of the region still to be tiled:
   the greedy choice took the half only because the whole would not fit.
   */
  ghost predicate HalvesDoNotFit(free: FreeLists, b: nat, e: nat) {
    forall o: nat, x: nat ::
      Listed(free, o, x) && o < MAX_ORDER - 1 && Aligned(x, o + 1) && b <= x + Pow2(o) < e ==> x + Pow2(o + 1) > e
  }

  lemma ListedUsable(free: FreeLists, o: nat, x: nat, bits: seq<bool>, usable: set<nat>)
    requires FreeInv(free, bits, usable) && Listed(free, o, x)
    ensures x in usable
  {
  }

  lemma TileNotBuddied(free: FreeLists, o: nat, b: nat, e: nat, bits: seq<bool>, usable: set<nat>)
    requires o < MAX_ORDER - 1 && Aligned(b, o) && b + Pow2(o) <= e
    requires FreeInv(free, bits, usable) && HalvesDoNotFit(free, b, e)
    requires forall p: nat :: b <= p <= e ==> p !in usable
    ensures Buddy(b, o) !in free[o]
  {
    AlignedBuddy(b, o);
    hide Aligned, Buddy, FreeInv;
    var c := Buddy(b, o);
    Pow2Doubles(o);
    if Listed(free, o, c) {
      ListedUsable(free, o, c, bits, usable);
    }
  }

  /** Greedy tiling never leaves two buddies side by side, when HEAP_START is aligned to the top order. */
  lemma {:induction false} TileKeepsCoalesced(free: FreeLists, hs: nat, a: nat, e: nat, bits: seq<bool>,
                                              usable: set<nat>)
    requires hs <= a <= e && Aligned(hs, MAX_ORDER - 1) && FreeInv(free, bits, usable) && Coalesced(free)
    requires e - hs <= |bits| && forall p: nat :: a - hs <= p < e - hs ==> !bits[p]
    requires forall p: nat :: a - hs <= p <= e - hs ==> p !in usable
    requires HalvesDoNotFit(free, a - hs, e - hs)
    ensures Coalesced(Tile(free, hs, a, e))
    decreases e - a
  {
    hide Aligned, TileOrder, Buddy, FreeInv, Coalesced, Range, HalvesDoNotFit, Pow2, Tile, TilesFitHeap, Push;
    if a < e {
      var o, b := TileOrder(a, e - a), a - hs;
      TileUnfolds(free, hs, a, e);
      NextTile(free, hs, a, e, bits, usable);
      TileKeepsCoalesced(Push(free, o, b), hs, a + Pow2(o), e, bits, usable + Range(b, b + Pow2(o)));
    } else {
      NoTile(free, hs, e);
    }
  }

  lemma NoTile(free: FreeLists, hs: nat, e: nat)
    requires hs <= e
    ensures Tile(free, hs, e, e) == free
  {
  }

  /** One tile more. */
  lemma NextTile(free: FreeLists, hs: nat, a: nat, e: nat, bits: seq<bool>, usable: set<nat>)
    requires hs <= a < e && Aligned(hs, MAX_ORDER - 1) && FreeInv(free, bits, usable) && Coalesced(free)
    requires e - hs <= |bits| && forall p: nat :: a - hs <= p < e - hs ==> !bits[p]
    requires forall p: nat :: a - hs <= p <= e - hs ==> p !in usable
    requires HalvesDoNotFit(free, a - hs, e - hs)
    ensures var o, b := TileOrder(a, e - a), a - hs; var usable' := usable + Range(b, b + Pow2(o));
            && FreeInv(Push(free, o, b), bits, usable') && Coalesced(Push(free, o, b))
            && HalvesDoNotFit(Push(free, o, b), b + Pow2(o), e - hs)
            && forall p: nat :: b + Pow2(o) <= p <= e - hs ==> p !in usable'
  {
    hide Aligned, TileOrder, Buddy, FreeInv, Coalesced, Range, HalvesDoNotFit, Pow2, Tile, TilesFitHeap;
    var o, b := TileOrder(a, e - a), a - hs;
    TileUnfolds(free, hs, a, e);
    TileGreedyInHeap(hs, a, e);
    if o < MAX_ORDER - 1 {
      TileNotBuddied(free, o, b, e - hs, bits, usable);
    }
    ListNew(free, o, b, bits, usable);
    ListUnbuddied(free, o, b, bits, usable + Range(b, b + Pow2(o)));
    TileFrontier(free, o, b, e - hs);
  }

  /** Seen from HEAP_START the tile is still aligned, and still not half of a larger tile that fits. */
  lemma TileGreedyInHeap(hs: nat, a: nat, e: nat)
    requires hs <= a < e && Aligned(hs, MAX_ORDER - 1)
    ensures var o := TileOrder(a, e - a);
            && Aligned(a - hs, o)
            && (o < MAX_ORDER - 1 && Aligned(a - hs, o + 1) ==> a - hs + Pow2(o + 1) > e - hs)
  {
    var o := TileOrder(a, e - a);
    TileOrderIsGreedy(a, e - a);
    AlignedDown(hs, MAX_ORDER - 1, o);
    IndexAlignedIff(a, hs, o);
    if o < MAX_ORDER - 1 {
      AlignedDown(hs, MAX_ORDER - 1, o + 1);
      if Aligned(a - hs, o + 1) {
        IndexAlignedBack(a, hs, o + 1);
      }
    }
  }

  lemma IndexAlignedBack(a: nat, hs: nat, o: nat)
    requires hs <= a && Aligned(hs, o) && Aligned(a - hs, o)
    ensures Aligned(a, o)
  {
    var m := Pow2(o);
    DivisionForm(hs, m);
    DivisionForm(a - hs, m);
    MulAdds((a - hs) / m, hs / m, m);
    QuotientWitness(a, m, (a - hs) / m + hs / m);
  }

  lemma MulAdds(a: int, b: int, m: int)
    ensures (a + b) * m == a * m + b * m
  {
  }

  lemma TileFrontier(free: FreeLists, o: nat, b: nat, e: nat)
    requires o < MAX_ORDER && HalvesDoNotFit(free, b, e)
    requires o < MAX_ORDER - 1 && Aligned(b, o + 1) ==> b + Pow2(o + 1) > e
    ensures HalvesDoNotFit(Push(free, o, b), b + Pow2(o), e)
  {
    hide Aligned;
    PushListed(free, o, b);
  }

  // ---------------------------------------------------------------- all regions

  /** A usable region after clipping, in absolute pages. */
  datatype Region = Region(start: nat, end: nat)

  function TileAll(free: FreeLists, hs: nat, regions: seq<Region>): FreeLists
    requires forall r :: r in regions ==> hs <= r.start
    decreases |regions|
  {
    if regions == [] then free
    else TileAll(Tile(free, hs, regions[0].start, regions[0].end), hs, regions[1..])
  }

  function Pages(hs: nat, regions: seq<Region>): set<nat>
    requires forall r :: r in regions ==> hs <= r.start <= r.end
  {
    if regions == [] then {}
    else Range(regions[0].start - hs, regions[0].end - hs) + Pages(hs, regions[1..])
  }

  function Size(regions: seq<Region>): int {
    if regions == [] then 0 else regions[0].end - regions[0].start + Size(regions[1..])
  }

  predicate Below(hs: nat, n: nat, regions: seq<Region>) {
    forall r :: r in regions ==> hs <= r.start < r.end <= hs + n
  }

  predicate Disjoint(regions: seq<Region>) {
    forall i, j :: 0 <= i < j < |regions| ==>
      regions[i].end <= regions[j].start || regions[j].end <= regions[i].start
  }

  /** No region ends where another begins. */
  predicate Gapped(regions: seq<Region>) {
    forall i, j :: 0 <= i < j < |regions| ==>
      regions[i].end < regions[j].start || regions[j].end < regions[i].start
  }

  lemma {:induction false} PagesMember(hs: nat, regions: seq<Region>, p: nat)
    requires forall r :: r in regions ==> hs <= r.start <= r.end
    ensures p in Pages(hs, regions)
            <==> exists i :: 0 <= i < |regions| && regions[i].start - hs <= p < regions[i].end - hs
  {
    if regions != [] {
      PagesMember(hs, regions[1..], p);
      assert forall i :: 1 <= i < |regions| ==> regions[i] == regions[1..][i - 1];
      if p in Pages(hs, regions[1..]) {
        var i :| 0 <= i < |regions[1..]| && regions[1..][i].start - hs <= p < regions[1..][i].end - hs;
        assert regions[i + 1] == regions[1..][i];
      }
    }
  }

  lemma FirstPages(hs: nat, regions: seq<Region>, usable: set<nat>)
    requires regions != [] && forall r :: r in regions ==> hs <= r.start <= r.end
    ensures usable + Range(regions[0].start - hs, regions[0].end - hs) + Pages(hs, regions[1..])
         == usable + Pages(hs, regions)
  {
  }

  /** The regions lie in a heap of `n` pages, do not overlap, and cut into blocks aligned in the heap. */
  predicate Tileable(hs: nat, n: nat, regions: seq<Region>) {
    && Below(hs, n, regions) && Disjoint(regions)
    && forall r :: r in regions ==> TilesFitHeap(hs, r.start, r.end)
  }

  predicate InRegion(hs: nat, r: Region, p: nat) {
    r.start - hs <= p < r.end - hs
  }

  /** No page of a region is usable yet. */
  ghost predicate Fresh(hs: nat, regions: seq<Region>, usable: set<nat>) {
    forall r, p: nat :: r in regions && InRegion(hs, r, p) ==> p !in usable
  }

  lemma FreshRest(hs: nat, n: nat, regions: seq<Region>, usable: set<nat>)
    requires regions != [] && Below(hs, n, regions) && Disjoint(regions) && Fresh(hs, regions, usable)
    ensures Below(hs, n, regions[1..]) && Disjoint(regions[1..])
    ensures Fresh(hs, regions[1..], usable + Range(regions[0].start - hs, regions[0].end - hs))
  {
  }

  lemma {:induction false} TileAllKeepsInv(free: FreeLists, hs: nat, regions: seq<Region>, bits: seq<bool>,
                                           usable: set<nat>)
    requires Below(hs, |bits|, regions) && Disjoint(regions)
    requires forall r :: r in regions ==> TilesFitHeap(hs, r.start, r.end)
    requires forall p: nat :: p < |bits| ==> !bits[p]
    requires Fresh(hs, regions, usable) && FreeInv(free, bits, usable)
    ensures FreeInv(TileAll(free, hs, regions), bits, usable + Pages(hs, regions))
    ensures ListedPages(TileAll(free, hs, regions), MAX_ORDER) == ListedPages(free, MAX_ORDER) + Size(regions)
    decreases |regions|
  {
    hide FreeInv, ListedPages, TilesFitHeap, Range;
    if regions == [] {
      assert usable + Pages(hs, regions) == usable;
    } else {
      var r := regions[0];
      TileKeepsInv(free, hs, r.start, r.end, bits, usable);
      FreshRest(hs, |bits|, regions, usable);
      FirstPages(hs, regions, usable);
      hide Disjoint, Fresh, Below, Pages;
      TileAllKeepsInv(Tile(free, hs, r.start, r.end), hs, regions[1..], bits, usable + Range(r.start - hs, r.end - hs));
    }
  }

  lemma FrontierStart(free: FreeLists, b: nat, e: nat, bits: seq<bool>, usable: set<nat>)
    requires FreeInv(free, bits, usable) && b <= e
    requires forall p: nat :: b <= p + 1 && p < e ==> p !in usable
    ensures HalvesDoNotFit(free, b, e)
  {
    forall o: nat, x: nat | Listed(free, o, x)
      ensures !(b <= x + Pow2(o) < e)
    {
      assert FreeBlockOk(x, o, bits, usable) && Covers(x, o, x + Pow2(o) - 1);
    }
  }

  /** Cutting regions with gaps between them leaves no two buddies listed. */
  lemma {:induction false} TileAllKeepsCoalesced(free: FreeLists, hs: nat, regions: seq<Region>, bits: seq<bool>,
                                                 usable: set<nat>)
    requires Below(hs, |bits|, regions) && Gapped(regions) && Aligned(hs, MAX_ORDER - 1)
    requires forall p: nat :: p < |bits| ==> !bits[p]
    requires forall r, p: nat :: r in regions && r.start - hs <= p + 1 && p <= r.end - hs ==> p !in usable
    requires FreeInv(free, bits, usable) && Coalesced(free)
    ensures Coalesced(TileAll(free, hs, regions))
    decreases |regions|
  {
    if regions != [] {
      var r := regions[0];
      AlignedFitsHeap(hs, r.start, r.end);
      hide Coalesced, Aligned, TilesFitHeap, Range;
      FrontierStart(free, r.start - hs, r.end - hs, bits, usable);
      hide FreeInv, HalvesDoNotFit;
      TileKeepsInv(free, hs, r.start, r.end, bits, usable);
      TileKeepsCoalesced(free, hs, r.start, r.end, bits, usable);
      var usable' := usable + Range(r.start - hs, r.end - hs);
      TileAllKeepsCoalesced(Tile(free, hs, r.start, r.end), hs, regions[1..], bits, usable');
    }
  }

  lemma {:induction false} AlignedFitsHeap(hs: nat, a: nat, e: nat)
    requires Aligned(hs, MAX_ORDER - 1)
    ensures TilesFitHeap(hs, a, e)
    decreases e - a
  {
    if a < e {
      var o := TileOrder(a, e - a);
      AlignedDown(hs, MAX_ORDER - 1, o);
      if Pow2(o) <= e - a {
        AlignedFitsHeap(hs, a + Pow2(o), e);
      }
    }
  }

  // ---------------------------------------------------------------- the whole of init_pmm

  function NoLists(): FreeLists {
    seq(MAX_ORDER, _ => [])
  }

  /** The heap of `n` pages that `init_pmm` leaves behind. */
  function Boot(hs: nat, n: nat, regions: seq<Region>): (h: Heap)
    requires forall r :: r in regions ==> hs <= r.start
    ensures h.WellFormed()
  {
    Heap(TileAll(NoLists(), hs, regions), seq(n, _ => false), seq(n, _ => 0), 0)
  }

  lemma {:induction false} NoListsPages(o: nat)
    requires o <= MAX_ORDER
    ensures ListedPages(NoLists(), o) == 0
  {
    if o > 0 {
      NoListsPages(o - 1);
    }
  }

  lemma {:induction false} PagesBelow(hs: nat, n: nat, regions: seq<Region>)
    requires Below(hs, n, regions)
    ensures forall p: nat :: p in Pages(hs, regions) ==> p < n
    decreases |regions|
  {
    hide Range;
    if regions != [] {
      PagesBelow(hs, n, regions[1..]);
    }
  }

  lemma {:induction false} PagesSize(hs: nat, n: nat, regions: seq<Region>)
    requires Below(hs, n, regions) && Disjoint(regions)
    ensures |Pages(hs, regions)| == Size(regions)
    decreases |regions|
  {
    hide Range;
    if regions != [] {
      var r, rest := regions[0], regions[1..];
      FirstIsDisjoint(hs, n, regions);
      PagesSize(hs, n, rest);
      hide Disjoint, Below;
      SizeOfFirst(hs, regions);
    }
  }

  lemma SizeOfFirst(hs: nat, regions: seq<Region>)
    requires regions != [] && (forall r :: r in regions ==> hs <= r.start <= r.end)
    requires Range(regions[0].start - hs, regions[0].end - hs) !! Pages(hs, regions[1..])
    requires |Pages(hs, regions[1..])| == Size(regions[1..])
    ensures |Pages(hs, regions)| == Size(regions)
  {
    hide Range;
    RangeSize(regions[0].start - hs, regions[0].end - hs);
    DisjointSum(Range(regions[0].start - hs, regions[0].end - hs), Pages(hs, regions[1..]));
  }

  lemma FirstIsDisjoint(hs: nat, n: nat, regions: seq<Region>)
    requires regions != [] && Below(hs, n, regions) && Disjoint(regions)
    ensures Range(regions[0].start - hs, regions[0].end - hs) !! Pages(hs, regions[1..])
  {
    hide Range, Pages;
    var r, rest := regions[0], regions[1..];
    forall p: nat | p in Pages(hs, rest)
      ensures p !in Range(r.start - hs, r.end - hs)
    {
      PagesMember(hs, rest, p);
      var i :| 0 <= i < |rest| && rest[i].start - hs <= p < rest[i].end - hs;
      assert rest[i] == regions[i + 1];
    }
  }

  /** After `init_pmm` the heap is coherent: every usable page is listed, none is live. */
  lemma BootIsCoherent(hs: nat, n: nat, regions: seq<Region>)
    requires Tileable(hs, n, regions) && Bytes(n) < 0x1_0000_0000
    ensures Inv(Boot(hs, n, regions), map[], Pages(hs, regions))
  {
    var h := Boot(hs, n, regions);
    NoListsPages(MAX_ORDER);
    assert FreeInv(NoLists(), h.bits, {});
    TileAllKeepsInv(NoLists(), hs, regions, h.bits, {});
    assert {} + Pages(hs, regions) == Pages(hs, regions);
    PagesSize(hs, n, regions);
    PagesBelow(hs, n, regions);
    CountUniform(h.bits, false);
    assert Pages(hs, regions) <= Range(0, n);
    RangeSize(0, n);
    SubsetSize(Pages(hs, regions), Range(0, n));
  }

  /** With HEAP_START aligned to the largest block and gaps between regions, it is coalesced too. */
  lemma BootIsCoalesced(hs: nat, n: nat, regions: seq<Region>)
    requires Below(hs, n, regions) && Gapped(regions) && Aligned(hs, MAX_ORDER - 1)
    ensures Coalesced(Boot(hs, n, regions).free)
  {
    var h := Boot(hs, n, regions);
    assert FreeInv(NoLists(), h.bits, {});
    TileAllKeepsCoalesced(NoLists(), hs, regions, h.bits, {});
  }
}
