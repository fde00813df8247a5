/** The E820 map, the heap `init_pmm` builds from it, and what the shipped HEAP_START does to it. */
module BuddyBoot {
  import opened Powers
  import opened BuddyBlocks
  import opened BuddyHeap
  import opened BuddyInvariant
  import opened BuddyInit
  import opened Options

  // ---------------------------------------------------------------- clipping the memory map

  /** One E820 entry: a byte range and a type, of which 1 means usable. */
  datatype Entry = Entry(base: nat, length: nat, kind: nat)

  const USABLE: nat := 1

  function MaxOf(a: nat, b: nat): nat {
    if a < b then b else a
  }

  /** The end of the highest usable range. */
  function HighestEnd(entries: seq<Entry>): nat {
    if entries == [] then 0
    else
      var rest := HighestEnd(entries[1..]);
      if entries[0].kind == USABLE then MaxOf(entries[0].base + entries[0].length, rest) else rest
  }

  /** `detected_total`, capped at 4 GB. */
  function DetectedTotal(entries: seq<Entry>): nat {
    if HighestEnd(entries) > 0x1_0000_0000 then 0x1_0000_0000 else HighestEnd(entries)
  }

  /** The bytes of an entry that the heap takes, as 32-bit addresses, or nothing. */
  function Clip(e: Entry, hs: nat, top: nat): Option<(nat, nat)> {
    if e.kind != USABLE || e.base + e.length <= Bytes(hs) then None
    else
      var base := if e.base < Bytes(hs) then Bytes(hs) else e.base;
      var end64 := e.base + e.length;
      if base >= top then None
      else
        var end := Wrap(if end64 > top then top else end64);
        if end <= Wrap(base) then None else Some((Wrap(base), end))
  }

  /** The whole pages inside a clipped byte range. */
  function ToPages(r: (nat, nat)): Option<Region> {
    var first := Wrap(r.0 + 4095) / 4096;
    var end := r.1 / 4096;
    if end <= first then None else Some(Region(first, end))
  }

  function Regions(entries: seq<Entry>, hs: nat, top: nat): seq<Region> {
    if entries == [] then []
    else
      var rest := Regions(entries[1..], hs, top);
      match Clip(entries[0], hs, top)
      case None => rest
      case Some(r) => match ToPages(r) case None => rest case Some(pages) => [pages] + rest
  }

  /** `max_end`: the heap reaches up to the end of the last clipped range. */
  function MaxEnd(entries: seq<Entry>, hs: nat, top: nat): nat {
    if entries == [] then Bytes(hs)
    else
      var rest := MaxEnd(entries[1..], hs, top);
      match Clip(entries[0], hs, top) case None => rest case Some(r) => MaxOf(r.1, rest)
  }

  /** `max_blocks`. */
  function HeapPages(entries: seq<Entry>, hs: nat): nat {
    var end := MaxEnd(entries, hs, DetectedTotal(entries));
    if end > Bytes(hs) then (end - Bytes(hs) + 4095) / 4096 else 0
  }

  lemma ClipIsWithin(e: Entry, hs: nat, top: nat)
    requires top <= 0x1_0000_0000 && Clip(e, hs, top).Some?
    ensures var r := Clip(e, hs, top).value;
            && Bytes(hs) <= r.0 < r.1 < 0x1_0000_0000
            && e.base <= r.0 && r.1 <= e.base + e.length && r.1 <= top
  {
  }

  lemma ToPagesIsWithin(r: (nat, nat))
    requires r.0 < r.1 < 0x1_0000_0000 && ToPages(r).Some?
    ensures var p := ToPages(r).value; p.start < p.end && Bytes(p.end) <= r.1
    ensures r.0 <= 0xFFFF_F000 ==> r.0 <= Bytes(ToPages(r).value.start)
    ensures r.0 > 0xFFFF_F000 ==> ToPages(r).value.start == 0
  {
  }

  /** The pages are those that lie in the byte range from end to end. */
  lemma ToPagesIs(r: (nat, nat), p: nat)
    requires r.0 < r.1 < 0x1_0000_0000 && r.0 <= 0xFFFF_F000
    ensures ToPages(r).Some? && ToPages(r).value.start <= p < ToPages(r).value.end
            <==> r.0 <= 4096 * p && 4096 * (p + 1) <= r.1
  {
  }

  // ---------------------------------------------------------------- what the memory map offers

  /** The entry is usable, not empty, and ends behind HEAP_START and below 4 GB. */
  predicate Reaches(e: Entry, hs: nat) {
    e.kind == 1 && e.length > 0 && 4096 * hs < e.base + e.length < 0x1_0000_0000
  }

  /** The entry is usable, ends below 4 GB, and holds every byte of page `p`. */
  predicate Offers(e: Entry, p: nat) {
    && e.kind == 1 && e.base + e.length < 0x1_0000_0000
    && e.base <= 4096 * p && 4096 * (p + 1) <= e.base + e.length
  }

  /** No such entry starts in the last page of the address space, where rounding up wraps around. */
  predicate StartsLow(entries: seq<Entry>, hs: nat) {
    forall i :: 0 <= i < |entries| && Reaches(entries[i], hs) ==> entries[i].base <= 0xFFFF_F000
  }

  /** Usable memory ends at `top`, or `top` is 4 GB. */
  predicate Capped(entries: seq<Entry>, top: nat) {
    && top <= 0x1_0000_0000
    && forall i :: 0 <= i < |entries| && entries[i].kind == 1 ==>
      entries[i].base + entries[i].length <= top || top == 0x1_0000_0000
  }

  lemma {:induction false} HighestEndIs(entries: seq<Entry>)
    ensures forall i :: 0 <= i < |entries| && entries[i].kind == 1 ==>
              entries[i].base + entries[i].length <= HighestEnd(entries)
  {
    if entries != [] {
      HighestEndIs(entries[1..]);
      assert forall i :: 1 <= i < |entries| ==> entries[i] == entries[1..][i - 1];
    }
  }

  lemma DetectedIsCapped(entries: seq<Entry>)
    ensures Capped(entries, DetectedTotal(entries))
  {
    HighestEndIs(entries);
  }

  lemma RestOf(entries: seq<Entry>, hs: nat, top: nat)
    requires entries != [] && Capped(entries, top)
    ensures Capped(entries[1..], top) && Capped([entries[0]], top)
    ensures StartsLow(entries, hs) <==> StartsLow(entries[1..], hs) && StartsLow([entries[0]], hs)
  {
    assert [entries[0]][0] == entries[0];
    assert forall i :: 1 <= i < |entries| ==> entries[i] == entries[1..][i - 1];
    assert forall i :: 0 <= i < |entries[1..]| ==> entries[1..][i] == entries[i + 1];
  }

  /** An entry is kept exactly when it reaches behind HEAP_START and not to 4 GB, from HEAP_START on. */
  lemma ClipIs(e: Entry, hs: nat, top: nat)
    requires Capped([e], top)
    ensures Clip(e, hs, top)
         == if Reaches(e, hs) then Some((if e.base < 4096 * hs then 4096 * hs else e.base, e.base + e.length)) else None
  {
    assert [e][0] == e;
  }

  /** The pages that `Regions` takes from one entry. */
  predicate Takes(e: Entry, hs: nat, top: nat, p: nat) {
    && Clip(e, hs, top).Some? && ToPages(Clip(e, hs, top).value).Some?
    && ToPages(Clip(e, hs, top).value).value.start <= p < ToPages(Clip(e, hs, top).value).value.end
  }

  lemma TakesIffOffers(e: Entry, hs: nat, top: nat, p: nat)
    requires Capped([e], top) && StartsLow([e], hs) && hs <= p
    ensures Takes(e, hs, top, p) <==> Offers(e, p)
  {
    ClipIs(e, hs, top);
    assert [e][0] == e;
    if Reaches(e, hs) {
      if 4096 * hs <= 0xFFFF_F000 {
        hide ToPages;
        ToPagesIs(Clip(e, hs, top).value, p);
      }
    }
  }

  predicate InSome(regions: seq<Region>, p: nat) {
    exists k :: 0 <= k < |regions| && regions[k].start <= p < regions[k].end
  }

  /** Behind HEAP_START a page lies in a region exactly when some entry offers it. */
  lemma {:induction false} RegionsCover(entries: seq<Entry>, hs: nat, top: nat, p: nat)
    requires Capped(entries, top) && StartsLow(entries, hs) && hs <= p
    ensures InSome(Regions(entries, hs, top), p) <==> exists i :: 0 <= i < |entries| && Offers(entries[i], p)
  {
    hide Capped, StartsLow, Clip, ToPages, Offers, Reaches;
    if entries != [] {
      RestOf(entries, hs, top);
      TakesIffOffers(entries[0], hs, top, p);
      RegionsCover(entries[1..], hs, top, p);
      var regions, rest := Regions(entries, hs, top), Regions(entries[1..], hs, top);
      assert InSome(regions, p) <==> Takes(entries[0], hs, top, p) || InSome(rest, p) by {
        if regions != rest {
          assert regions[0] == ToPages(Clip(entries[0], hs, top).value).value;
          assert forall k :: 0 <= k < |rest| ==> rest[k] == regions[k + 1];
        }
      }
      if exists i :: 0 <= i < |entries[1..]| && Offers(entries[1..][i], p) {
        var i :| 0 <= i < |entries[1..]| && Offers(entries[1..][i], p);
        assert entries[i + 1] == entries[1..][i];
      }
      assert forall i :: 1 <= i < |entries| ==> entries[i] == entries[1..][i - 1];
    }
  }

  /** The pages of the heap that boot makes usable are exactly those offered by an entry of the memory map. */
  lemma UsableIffOffered(entries: seq<Entry>, hs: nat, q: nat)
    requires StartsLow(entries, hs)
    requires forall r :: r in Regions(entries, hs, DetectedTotal(entries)) ==> hs <= r.start <= r.end
    ensures q in Pages(hs, Regions(entries, hs, DetectedTotal(entries)))
            <==> exists i :: 0 <= i < |entries| && Offers(entries[i], hs + q)
  {
    DetectedIsCapped(entries);
    hide Regions, DetectedTotal, Capped, StartsLow, Offers, Pages;
    RegionsCover(entries, hs, DetectedTotal(entries), hs + q);
    PagesMember(hs, Regions(entries, hs, DetectedTotal(entries)), q);
  }

  /** A heap of `bytes` bytes reaches up to the highest end of an entry that lies behind HEAP_START and below 4 GB. */
  ghost predicate ReachesTo(entries: seq<Entry>, hs: nat, bytes: nat) {
    && (forall i :: 0 <= i < |entries| && Reaches(entries[i], hs) ==>
      entries[i].base + entries[i].length <= 4096 * hs + bytes)
    && (bytes > 0 ==> exists i :: 0 <= i < |entries| && Reaches(entries[i], hs) &&
                             entries[i].base + entries[i].length == 4096 * hs + bytes)
  }

  lemma {:induction false} MaxEndReaches(entries: seq<Entry>, hs: nat, top: nat)
    requires Capped(entries, top)
    ensures MaxEnd(entries, hs, top) >= 4096 * hs && ReachesTo(entries, hs, MaxEnd(entries, hs, top) - 4096 * hs)
  {
    if entries != [] {
      RestOf(entries, hs, top);
      ClipIs(entries[0], hs, top);
      MaxEndReaches(entries[1..], hs, top);
      hide Capped, Clip;
      var end := MaxEnd(entries[1..], hs, top);
      if end > 4096 * hs {
        var i :| 0 <= i < |entries[1..]| && Reaches(entries[1..][i], hs)
                 && entries[1..][i].base + entries[1..][i].length == end;
        assert entries[i + 1] == entries[1..][i];
      }
      assert forall i :: 1 <= i < |entries| ==> entries[i] == entries[1..][i - 1];
    }
  }

  /** The pages of the heap are the bytes up to there, rounded up. */
  lemma HeapPagesIs(entries: seq<Entry>, hs: nat) returns (bytes: nat)
    ensures ReachesTo(entries, hs, bytes) && bytes <= 4096 * HeapPages(entries, hs) < bytes + 4096
    ensures MaxEnd(entries, hs, DetectedTotal(entries)) == 4096 * hs + bytes
    ensures HeapPages(entries, hs) == PagesFor(bytes)
  {
    DetectedIsCapped(entries);
    MaxEndReaches(entries, hs, DetectedTotal(entries));
    bytes := MaxEnd(entries, hs, DetectedTotal(entries)) - 4096 * hs;
  }

  /** An entry that starts too high would give a region that starts at address 0. */
  lemma HighEntryWraps(e: Entry, hs: nat, top: nat)
    requires Capped([e], top) && !StartsLow([e], hs)
    ensures Clip(e, hs, top).Some? && ToPages(Clip(e, hs, top).value).Some?
    ensures ToPages(Clip(e, hs, top).value).value.start == 0
  {
    ClipIs(e, hs, top);
    assert [e][0] == e;
  }

  /** Where the regions lie in the heap no entry starts too high. */
  lemma {:induction false} TileableStartsLow(entries: seq<Entry>, hs: nat, top: nat)
    requires hs > 0 && Capped(entries, top) && forall r :: r in Regions(entries, hs, top) ==> hs <= r.start
    ensures StartsLow(entries, hs)
  {
    if entries != [] {
      RestOf(entries, hs, top);
      assert forall r :: r in Regions(entries[1..], hs, top) ==> r in Regions(entries, hs, top);
      TileableStartsLow(entries[1..], hs, top);
      if !StartsLow([entries[0]], hs) {
        HighEntryWraps(entries[0], hs, top);
      }
    }
  }

  /** The pages of a region lie in the byte range of the entry. */
  predicate RegionOf(r: Region, e: Entry) {
    e.kind == USABLE && e.base <= Bytes(r.start) && Bytes(r.end) <= e.base + e.length
  }

  lemma FromEntry(e: Entry, hs: nat, top: nat)
    requires Capped([e], top) && StartsLow([e], hs)
    requires Clip(e, hs, top).Some? && ToPages(Clip(e, hs, top).value).Some?
    ensures var c := Clip(e, hs, top).value; var r := ToPages(c).value;
            hs <= r.start < r.end && Bytes(r.end) <= c.1 && RegionOf(r, e)
  {
    ClipIs(e, hs, top);
    assert [e][0] == e;
    hide Clip;
    ToPagesIsWithin(Clip(e, hs, top).value);
  }

  /** Every region lies in the heap, between HEAP_START and `max_blocks`. */
  lemma {:induction false} RegionsInHeap(entries: seq<Entry>, hs: nat, top: nat, n: nat)
    requires Capped(entries, top) && StartsLow(entries, hs)
    requires Bytes(hs) + Bytes(n) >= MaxEnd(entries, hs, top)
    ensures Below(hs, n, Regions(entries, hs, top))
  {
    if entries != [] {
      RestOf(entries, hs, top);
      RegionsInHeap(entries[1..], hs, top, n);
      var c := Clip(entries[0], hs, top);
      if c.Some? {
        if ToPages(c.value).Some? {
          FromEntry(entries[0], hs, top);
        }
      }
    }
  }

  /** Usable entries of the memory map do not overlap. */
  predicate EntriesApart(entries: seq<Entry>) {
    forall i, j :: 0 <= i < j < |entries| && entries[i].kind == USABLE && entries[j].kind == USABLE ==>
      entries[i].base + entries[i].length <= entries[j].base || entries[j].base + entries[j].length <= entries[i].base
  }

  lemma {:induction false} RegionHasEntry(entries: seq<Entry>, hs: nat, top: nat, r: Region) returns (i: nat)
    requires Capped(entries, top) && StartsLow(entries, hs) && r in Regions(entries, hs, top)
    ensures i < |entries| && RegionOf(r, entries[i])
  {
    RestOf(entries, hs, top);
    var c := Clip(entries[0], hs, top);
    if c.Some? && ToPages(c.value).Some? {
      FromEntry(entries[0], hs, top);
    }
    if r in Regions(entries[1..], hs, top) {
      assert forall k :: 0 <= k < |entries[1..]| ==> entries[1..][k] == entries[k + 1];
      var k := RegionHasEntry(entries[1..], hs, top, r);
      i := k + 1;
    } else {
      i := 0;
    }
  }

  /** From entries that do not overlap come regions that do not overlap. */
  lemma {:induction false} RegionsDisjoint(entries: seq<Entry>, hs: nat, top: nat)
    requires Capped(entries, top) && StartsLow(entries, hs) && EntriesApart(entries)
    ensures Disjoint(Regions(entries, hs, top))
  {
    if entries != [] {
      assert forall k :: 0 <= k < |entries[1..]| ==> entries[1..][k] == entries[k + 1];
      var rest := Regions(entries[1..], hs, top);
      RestOf(entries, hs, top);
      RegionsDisjoint(entries[1..], hs, top);
      if Regions(entries, hs, top) != rest {
        var c := Clip(entries[0], hs, top);
        FromEntry(entries[0], hs, top);
        var first := ToPages(c.value).value;
        assert Regions(entries, hs, top) == [first] + rest && RegionOf(first, entries[0]);
        hide Clip, ToPages, Regions;
        forall k | 0 <= k < |rest|
          ensures first.end <= rest[k].start || rest[k].end <= first.start
        {
          var i := RegionHasEntry(entries[1..], hs, top, rest[k]);
          assert RegionOf(rest[k], entries[i + 1]);
        }
      }
    }
  }

  // ---------------------------------------------------------------- HEAP_START and block alignment

  lemma {:induction false} SplitDescends(free: FreeLists, b: nat, k: nat, j: nat, n: nat)
    requires k < MAX_ORDER
    ensures Split(free, b, k, j, n).block <= b
    decreases k
  {
    if k > j && Buddy(b, k - 1) < n {
      SplitDescends(Push(free, k - 1, Buddy(b, k - 1)), Min(b, Buddy(b, k - 1)), k - 1, j, n);
    }
  }

  /** The split loop hands out the block it was given exactly when that block is aligned in the heap. */
  lemma {:induction false} SplitStaysIff(free: FreeLists, b: nat, k: nat, j: nat, n: nat)
    requires j <= k < MAX_ORDER && Aligned(b, j) && b + Pow2(k) <= n
    ensures Split(free, b, k, j, n).ok && Split(free, b, k, j, n).block == b <==> Aligned(b, k)
    decreases k
  {
    if j < k {
      var buddy := Buddy(b, k - 1);
      Pow2Doubles(k - 1);
      if buddy < b {
        if Aligned(b, k) { AlignedHalves(b, k - 1); }
        SplitDescends(Push(free, k - 1, buddy), buddy, k - 1, j, n);
      } else {
        SplitStaysIff(Push(free, k - 1, buddy), b, k - 1, j, n);
        if Aligned(b, k) { AlignedDown(b, k, k - 1); }
        if Aligned(b, k - 1) { AlignedBuddy(b, k - 1); }
      }
    }
  }

  /** The lists hold only aligned blocks exactly when HEAP_START is a multiple of every tile's size. */
  ghost predicate ListsAligned(free: FreeLists) {
    forall o: nat, b: nat :: Listed(free, o, b) ==> Aligned(b, o)
  }

  lemma {:induction false} TilesAlignedIff(free: FreeLists, hs: nat, a: nat, e: nat)
    requires hs <= a
    ensures ListsAligned(Tile(free, hs, a, e)) <==> ListsAligned(free) && TilesFitHeap(hs, a, e)
    decreases e - a
  {
    if a < e {
      var o := TileOrder(a, e - a);
      TileUnfolds(free, hs, a, e);
      IndexAlignedIff(a, hs, o);
      hide Aligned, TileOrder, Tile, TilesFitHeap, Pow2;
      PushListed(free, o, a - hs);
      TilesAlignedIff(Push(free, o, a - hs), hs, a + Pow2(o), e);
      assert Listed(Push(free, o, a - hs), o, a - hs);
      assert forall o': nat, b: nat :: Listed(free, o', b) ==> Listed(Push(free, o, a - hs), o', b);
    }
  }

  lemma {:induction false} AllTilesAlignedIff(free: FreeLists, hs: nat, regions: seq<Region>)
    requires forall r :: r in regions ==> hs <= r.start
    ensures ListsAligned(TileAll(free, hs, regions))
            <==> ListsAligned(free) && forall r :: r in regions ==> TilesFitHeap(hs, r.start, r.end)
    decreases |regions|
  {
    hide ListsAligned, Tile, TilesFitHeap;
    if regions != [] {
      var r, rest := regions[0], regions[1..];
      TilesAlignedIff(free, hs, r.start, r.end);
      AllTilesAlignedIff(Tile(free, hs, r.start, r.end), hs, rest);
      assert forall x :: x in regions <==> x == r || x in rest;
    }
  }

  /**
   The heap that `init_pmm` leaves behind is coherent exactly when HEAP_START is a multiple of the size
   of every tile of every region.
   */
  lemma BootIsCoherentIff(hs: nat, n: nat, regions: seq<Region>)
    requires Below(hs, n, regions) && Disjoint(regions) && Bytes(n) < 0x1_0000_0000
    ensures Inv(Boot(hs, n, regions), map[], Pages(hs, regions))
            <==> forall r :: r in regions ==> TilesFitHeap(hs, r.start, r.end)
  {
    if forall r :: r in regions ==> TilesFitHeap(hs, r.start, r.end) {
      BootIsCoherent(hs, n, regions);
    }
    AllTilesAlignedIff(NoLists(), hs, regions);
    hide TilesFitHeap, TileAll, Pages;
    var h := Boot(hs, n, regions);
    if Inv(h, map[], Pages(hs, regions)) {
      forall o: nat, b: nat | Listed(h.free, o, b)
        ensures Aligned(b, o)
      {
        assert FreeBlockOk(b, o, h.bits, Pages(hs, regions));
      }
    }
  }

  /** For every memory map whose usable entries do not overlap the heap after boot is coherent exactly then. */
  lemma MapBootsIff(entries: seq<Entry>, hs: nat)
    requires hs > 0 && EntriesApart(entries) && StartsLow(entries, hs)
    ensures var n, regions := HeapPages(entries, hs), Regions(entries, hs, DetectedTotal(entries));
            && Below(hs, n, regions) && Disjoint(regions)
            && (Inv(Boot(hs, n, regions), map[], Pages(hs, regions)) <==> Tileable(hs, n, regions))
  {
    var n, top := HeapPages(entries, hs), DetectedTotal(entries);
    MaxEndBelow(entries, hs, top);
    DetectedIsCapped(entries);
    hide Regions, MaxEnd, DetectedTotal, Boot, Inv, Disjoint, TilesFitHeap, Pages;
    RegionsInHeap(entries, hs, top, n);
    RegionsDisjoint(entries, hs, top);
    BootIsCoherentIff(hs, n, Regions(entries, hs, top));
  }

  lemma {:induction false} MaxEndBelow(entries: seq<Entry>, hs: nat, top: nat)
    requires top <= 0x1_0000_0000
    ensures MaxEnd(entries, hs, top) < 0x1_0000_0000 || MaxEnd(entries, hs, top) == Bytes(hs)
    ensures MaxEnd(entries, hs, top) >= Bytes(hs)
  {
    if entries != [] {
      MaxEndBelow(entries[1..], hs, top);
    }
  }

  // ---------------------------------------------------------------- the shipped HEAP_START

  lemma SmallPowers()
    ensures Pow2(7) == 128 && Pow2(8) == 256 && Pow2(9) == 512 && Pow2(10) == 1024
  {
  }

  lemma MegabyteOrder()
    ensures GetOrder(0x10_0000) == 8
  {
  }

  lemma ShippedTiles()
    ensures TileOrder(256, 768) == 8 && TileOrder(512, 512) == 9
  {
    SmallPowers();
    TileOrderIsGreedy(256, 768);
    TileOrderIsGreedy(512, 512);
    Pow2Order(TileOrder(256, 768), 10);
    Pow2Order(TileOrder(512, 512), 10);
  }

  /** One region of 3 MB that starts at the shipped HEAP_START of 1 MB. */
  function ShippedHeap(): Heap {
    Boot(256, 768, [Region(256, 1024)])
  }

  lemma ShippedLists()
    ensures ShippedHeap().free == Push(Push(NoLists(), 8, 0), 9, 256)
    ensures |ShippedHeap().bits| == 768
  {
    SmallPowers();
    ShippedTiles();
    hide Pow2, TileOrder;
    assert Tile(NoLists(), 256, 256, 1024) == Tile(Push(NoLists(), 8, 0), 256, 512, 1024);
    assert Tile(Push(NoLists(), 8, 0), 256, 512, 1024) == Tile(Push(Push(NoLists(), 8, 0), 9, 256), 256, 1024, 1024);
    assert [Region(256, 1024)][1..] == [];
    assert TileAll(NoLists(), 256, [Region(256, 1024)]) == TileAll(Tile(NoLists(), 256, 256, 1024), 256, []);
  }

  /** At the shipped HEAP_START two requests for a megabyte are both given page 0. */
  lemma ShippedStartGrantsTwice()
    ensures var (h1, r1) := Malloc(ShippedHeap(), 0x10_0000);
            var (h2, r2) := Malloc(h1, 0x10_0000);
            r1 == Some(0) && r2 == Some(0)
    ensures !ListsAligned(ShippedHeap().free)
  {
    SmallPowers();
    MegabyteOrder();
    ShippedLists();
    hide Pow2, GetOrder, Boot;
    var h := ShippedHeap();
    assert h.free[8] == [0] && h.free[9] == [256];
    assert FirstNonEmpty(h.free, 8) == 8;
    var rest := Pop(h.free, 8);
    assert Split(rest, 0, 8, 8, 768) == SplitResult(rest, 0, true);
    var (h1, r1) := Malloc(h, 0x10_0000);
    assert r1 == Some(0) && h1.free == rest;
    assert FirstNonEmpty(rest, 8) == 9;
    var rest1 := Pop(rest, 9);
    assert Buddy(256, 8) == 0;
    assert Split(rest1, 256, 9, 8, 768) == Split(Push(rest1, 8, 0), 0, 8, 8, 768)
        == SplitResult(Push(rest1, 8, 0), 0, true);
    assert Listed(h.free, 9, 256) && !Aligned(256, 9);
  }
}
