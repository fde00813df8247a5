/** src/drivers/memory/pmm.c as it updates its globals in place. */
module PageAllocator {
  import opened Powers
  import opened BuddyBlocks
  import opened BuddyHeap
  import opened BuddyInvariant
  import opened BuddySteps
  import opened BuddyRuns
  import opened BuddyTheorems
  import opened BuddyInit
  import opened BuddyBoot
  import opened BuddyDefrag
  import opened IntrusiveLists
  import opened Ranges
  import opened Options

  class Pmm {
    const hs: nat                 // the page number of HEAP_START
    const heads: array<nat>       // free_lists: address of the first block of each order, or 0
    const link: array<nat>        // the first word of every page
    const bitmap: array<bool>     // one element a page
    const orderMap: array<nat>
    var usedMemory: nat
    var heapSize: nat             // actual_heap_size, in bytes
    var maxBlocks: nat
    ghost var lists: FreeLists
    ghost var live: map<nat, nat>
    ghost var usable: set<nat>

    /** The arrays are large enough and the memory holds the lists. */
    ghost predicate Layout()
      reads this`lists, this`maxBlocks, heads, link
    {
      && heads != link && heads != orderMap && link != orderMap
      && hs > 0 && heads.Length == MAX_ORDER
      && maxBlocks <= link.Length && maxBlocks <= bitmap.Length && maxBlocks <= orderMap.Length
      && Linked(hs, heads[..], link[..], lists)
    }

    ghost function Model(): (h: Heap)
      requires maxBlocks <= bitmap.Length && maxBlocks <= orderMap.Length
      reads this`lists, this`maxBlocks, this`usedMemory, bitmap, orderMap
      ensures h.WellFormed()
    {
      Heap(lists, bitmap[..maxBlocks], orderMap[..maxBlocks], usedMemory)
    }

    ghost predicate Valid()
      reads this, heads, link, bitmap, orderMap
    {
      && Layout() && maxBlocks == PagesFor(heapSize) && Inv(Model(), live, usable)
    }

    // -------------------------------------------------------------- list helpers

    method AddBlockToList(order: nat, addr: nat, ghost b: nat)
      requires Layout() && Unlisted(lists, b) && b < link.Length && addr == Addr(hs, b)
      modifies this`lists, heads, link
      ensures Layout()
      ensures lists == if order < MAX_ORDER then Push(old(lists), order, b) else old(lists)
    {
      if order >= MAX_ORDER || addr == 0 { return; }
      PushLinked(hs, heads[..], link[..], lists, order, b);
      var block := (addr - Bytes(hs)) / 4096;
      assert block == b;
      ghost var heads0: seq<nat>, link0: seq<nat> := heads[..], link[..];
      link[block] := heads[order];
      heads[order] := addr;
      lists := Push(lists, order, b);
      assert heads[..] == heads0[order := addr];
      assert link[..] == link0[b := heads0[order]];
    }

    method RemoveBlockFromList(order: nat) returns (addr: nat)
      requires Layout()
      modifies this`lists, heads
      ensures Layout()
      ensures order < MAX_ORDER && old(lists)[order] != [] ==>
                addr == Addr(hs, old(lists)[order][0]) && lists == Pop(old(lists), order)
      ensures order >= MAX_ORDER || old(lists)[order] == [] ==> addr == 0 && lists == old(lists)
    {
      if order >= MAX_ORDER { return 0; }
      addr := heads[order];
      if addr != 0 {
        PopLinked(hs, heads[..], link[..], lists, order);
        var block := (addr - Bytes(hs)) / 4096;
        assert block == lists[order][0];
        ghost var heads0: seq<nat> := heads[..];
        heads[order] := link[block];
        lists := Pop(lists, order);
        assert heads[..] == heads0[order := link[block]];
      }
    }

    method RemoveSpecificBlock(order: nat, target: nat, ghost b: nat) returns (found: bool)
      requires Layout() && Distinct(lists) && order < MAX_ORDER && target == Addr(hs, b)
      modifies this`lists, heads, link
      ensures Layout()
      ensures found == (b in old(lists)[order])
      ensures lists == if found then Remove(old(lists), order, b) else old(lists)
    {
      ghost var s := lists[order];
      var prev := 0;
      var cur := heads[order];
      ghost var i := 0;
      found := false;
      while cur != 0
        invariant Layout() && lists == old(lists)
        invariant i <= |s| && cur == AddrAt(hs, s, i)
        invariant prev == if i == 0 then 0 else Addr(hs, s[i - 1])
        invariant b !in s[..i]
        decreases |s| - i
      {
        assert s[i] < link.Length;
        var block := (cur - Bytes(hs)) / 4096;
        assert block == s[i];
        if cur == target {
          assert b == s[i];
          RemoveAt(s, i);
          ghost var heads0: seq<nat>, link0: seq<nat> := heads[..], link[..];
          if prev != 0 {
            UnlinkLinked(hs, heads[..], link[..], lists, order, i);
            var before := (prev - Bytes(hs)) / 4096;
            assert before == s[i - 1];
            link[before] := link[block];
            lists := Remove(lists, order, b);
            assert link[..] == link0[before := link0[block]];
          } else {
            PopLinked(hs, heads[..], link[..], lists, order);
            heads[order] := link[block];
            lists := Remove(lists, order, b);
            assert heads[..] == heads0[order := link0[block]];
          }
          return true;
        }
        prev := cur;
        cur := link[block];
        i := i + 1;
      }
      assert s[..i] == s;
    }

    // -------------------------------------------------------------- bits

    method IsBuddyFree(buddy: nat, order: nat) returns (free: bool)
      requires maxBlocks <= bitmap.Length
      ensures free == AllClear(bitmap[..maxBlocks], buddy, Pow2(order))
    {
      var n := Pow2(order);
      if buddy >= maxBlocks || buddy + n > maxBlocks { return false; }
      var i := 0;
      while i < n
        invariant i <= n
        invariant forall p :: buddy <= p < buddy + i ==> !bitmap[p]
      {
        if bitmap[buddy + i] {
          assert bitmap[..maxBlocks][buddy + i];
          return false;
        }
        i := i + 1;
      }
      return true;
    }

    method MarkPages(block: nat, count: nat, v: bool)
      requires block + count <= maxBlocks <= bitmap.Length
      modifies bitmap
      ensures bitmap[..maxBlocks] == SetRange(old(bitmap[..maxBlocks]), block, count, v)
    {
      var i := 0;
      while i < count
        invariant i <= count
        invariant forall p :: 0 <= p < maxBlocks ==> bitmap[p] == if block <= p < block + i then v else old(bitmap[p])
      {
        bitmap[block + i] := v;
        i := i + 1;
      }
    }

    /** `fast_memset(block, 0, ...)`, seen through the first word of each page. */
    method ClearPages(block: nat, count: nat)
      requires Layout() && block + count <= link.Length
      requires forall p: nat :: block <= p < block + count ==> Unlisted(lists, p)
      modifies link
      ensures Layout()
      ensures forall p :: block <= p < block + count ==> link[p] == 0
    {
      var i := 0;
      while i < count
        invariant i <= count && Layout()
        invariant forall p :: block <= p < block + i ==> link[p] == 0
      {
        WriteUnlisted(hs, heads[..], link[..], lists, block + i, 0);
        ghost var link0: seq<nat> := link[..];
        link[block + i] := 0;
        assert link[..] == link0[block + i := 0];
        i := i + 1;
      }
    }

    // -------------------------------------------------------------- allocation

    static method GetOrderOf(size: nat) returns (order: nat)
      ensures order == GetOrder(size)
    {
      if size <= 4096 { return 0; }
      order := 0;
      var blockSize: nat := 4096;
      while blockSize < size && order < MAX_ORDER - 1
        invariant order < MAX_ORDER && OrderLoop(size, blockSize, order) == OrderLoop(size, Bytes(1), 0)
        decreases MAX_ORDER - order
      {
        blockSize := 2 * blockSize;
        order := order + 1;
      }
    }

    method FindNonEmpty(order: nat) returns (k: nat)
      requires Layout() && order <= MAX_ORDER
      ensures k == FirstNonEmpty(lists, order)
    {
      k := order;
      while k < MAX_ORDER && heads[k] == 0
        invariant order <= k <= MAX_ORDER && FirstNonEmpty(lists, k) == FirstNonEmpty(lists, order)
      {
        assert lists[k] == [];
        k := k + 1;
      }
    }

    /** The split loop: halve the block down to the order asked for, listing the other halves. */
    method SplitBlock(first: nat, k: nat, order: nat) returns (block: nat)
      requires Layout() && maxBlocks <= bitmap.Length && order <= k < MAX_ORDER
      requires FreeInv(Push(lists, k, first), bitmap[..maxBlocks], usable)
      modifies this`lists, heads, link
      ensures Layout()
      ensures var s := Split(old(lists), first, k, order, maxBlocks); lists == s.free && block == s.block
    {
      hide FreeInv, Pow2, Linked, AllClear;
      ghost var bits := bitmap[..maxBlocks];
      var current := k;
      block := first;
      while current > order
        invariant order <= current <= k && Layout()
        invariant bits == bitmap[..maxBlocks]
        invariant FreeInv(Push(lists, current, block), bits, usable)
        invariant Split(lists, block, current, order, maxBlocks) == Split(old(lists), first, k, order, maxBlocks)
      {
        SplitStep(lists, current, block, bits, usable);
        FloatingHalf(lists, current, block, bits, usable);
        current := current - 1;
        var buddy := Buddy(block, current);
        AddBlockToList(current, Addr(hs, buddy), buddy);
        block := Min(block, buddy);
      }
    }

    /** The part of `pmm_malloc` that serves a request of a given order from list `k`. */
    method Grant(k: nat, order: nat) returns (addr: nat)
      requires Layout() && maxBlocks <= bitmap.Length && maxBlocks <= orderMap.Length
      requires FreeInv(lists, bitmap[..maxBlocks], usable)
      requires order <= k < MAX_ORDER && lists[k] != [] && forall i :: order <= i < k ==> lists[i] == []
      modifies this`lists, this`live, this`usedMemory, heads, link, bitmap, orderMap
      ensures Layout() && Granted(old(Model()), Model(), k, order)
      ensures live == old(live)[old(lists)[k][0] := order]
      ensures addr == Addr(hs, old(lists)[k][0])
      ensures forall p :: old(lists)[k][0] <= p < old(lists)[k][0] + Pow2(order) ==> link[p] == 0
    {
      hide FreeInv, Split, Pow2, Linked, Wrap, Taken, ListedPages, AllClear, SetRange;
      ghost var h := Model();
      ghost var b := lists[k][0];
      TakeBlock(lists, k, order, h.bits, usable);
      PopPush(lists, k);
      var first := RemoveBlockFromList(k);
      var block := SplitBlock((first - Bytes(hs)) / 4096, k, order);
      assert block == b;
      UnlistedPages(lists, order, block, h.bits, usable);
      MarkPages(block, Pow2(order), true);
      orderMap[block] := order;
      assert orderMap[..maxBlocks] == h.orders[b := order];
      usedMemory := Wrap(usedMemory + Bytes(Pow2(order)));
      ClearPages(block, Pow2(order));
      live := live[block := order];
      addr := Addr(hs, block);
    }

    /** `pmm_malloc`. */
    method Malloc(size: nat) returns (addr: nat)
      requires Valid() && size < 0x1_0000_0000
      modifies this`lists, this`live, this`usedMemory, heads, link, bitmap, orderMap
      ensures Valid() && Model() == BuddyHeap.Malloc(old(Model()), size).0
      ensures match BuddyHeap.Malloc(old(Model()), size).1
              case None => addr == 0 && live == old(live)
              case Some(b) =>
                && addr == Addr(hs, b) && live == old(live)[b := GetOrder(size)]
                && forall p :: b <= p < b + Pow2(GetOrder(size)) ==> link[p] == 0
    {
      ghost var h := Model();
      assert FreeInv(lists, bitmap[..maxBlocks], usable);
      hide Inv, Split, Pow2, Linked, GetOrder, BuddyHeap.Malloc, FirstNonEmpty, FreeInv, Granted, PagesFor;
      OrderInRange(size);
      RefusedIff(h, live, usable, size);
      if size == 0 { return 0; }
      var order := GetOrderOf(size);
      var k := FindNonEmpty(order);
      if k >= MAX_ORDER { return 0; }
      addr := Grant(k, order);
      Served(h, Model(), old(live), usable, size);
    }

    // -------------------------------------------------------------- release

    /** The merge loop: join the block with its buddy while the buddy is free and listed. */
    method MergeBlock(first: nat, o: nat) returns (block: nat, order: nat)
      requires Layout() && maxBlocks <= bitmap.Length && o < MAX_ORDER
      requires FreeInv(Push(lists, o, first), bitmap[..maxBlocks], usable)
      modifies this`lists, heads, link
      ensures Layout()
      ensures MergeResult(lists, block, order) == Merge(old(lists), bitmap[..maxBlocks], first, o)
    {
      hide FreeInv, Pow2, Linked, AllClear, Distinct, Buddy;
      ghost var bits := bitmap[..maxBlocks];
      block, order := first, o;
      while order < MAX_ORDER - 1
        invariant order < MAX_ORDER && Layout()
        invariant bits == bitmap[..maxBlocks]
        invariant FreeInv(Push(lists, order, block), bits, usable)
        invariant Merge(lists, bits, block, order) == Merge(old(lists), bits, first, o)
        decreases MAX_ORDER - order
      {
        var buddy := Buddy(block, order);
        if buddy >= maxBlocks { break; }
        var free := IsBuddyFree(buddy, order);
        if !free { break; }
        FloatingRest(lists, order, block, bits, usable);
        ghost var lists0 := lists;
        var found := RemoveSpecificBlock(order, Addr(hs, buddy), buddy);
        if !found { break; }
        MergeStep(lists0, order, block, bits, usable);
        block := Min(block, buddy);
        order := order + 1;
      }
    }

    /** The part of `pmm_free` that releases the block of order `order` at page `block`. */
    method Release(block: nat, order: nat)
      requires Layout() && maxBlocks <= bitmap.Length && maxBlocks <= orderMap.Length
      requires FreeInv(lists, bitmap[..maxBlocks], usable)
      requires order < MAX_ORDER && Aligned(block, order) && block + Pow2(order) <= maxBlocks
      requires forall p: nat :: Covers(block, order, p) ==> bitmap[p] && p in usable
      modifies this`lists, this`live, this`usedMemory, heads, link, bitmap, orderMap
      ensures Layout() && Released(old(Model()), Model(), block, order)
      ensures live == old(live) - {block}
    {
      hide FreeInv, Pow2, Linked, Wrap, SetRange, Merge, AllClear, Aligned;
      ghost var h := Model();
      ReleaseFree(lists, order, block, h.bits, usable);
      ghost var bits := SetRange(h.bits, block, Pow2(order), false);
      MergeKeeps(lists, bits, block, order, usable);
      MarkPages(block, Pow2(order), false);
      orderMap[block] := 0;
      assert orderMap[..maxBlocks] == h.orders[block := 0];
      usedMemory := Wrap(usedMemory - Bytes(Pow2(order)));
      var b, o := MergeBlock(block, order);
      FloatingRest(lists, o, b, bits, usable);
      AddBlockToList(o, Addr(hs, b), b);
      live := live - {block};
    }

    method FreeLive(block: nat)
      requires Valid() && block in live
      modifies this`lists, this`live, this`usedMemory, heads, link, bitmap, orderMap
      ensures Valid() && Model() == FreeBlock(old(Model()), block)
      ensures live == old(live) - {block}
    {
      ghost var h := Model();
      hide Linked, Inv, FreeInv, Released, FreeBlock, PagesFor, Aligned, Pow2;
      LiveBlock(h, live, usable, block);
      Release(block, orderMap[block]);
      Freed(h, Model(), old(live), usable, block);
    }

    /** `pmm_free` once the pointer is known to be page `block` of the heap. */
    method FreePage(block: nat)
      requires Valid() && block < maxBlocks && (bitmap[block] ==> block in live)
      modifies this`lists, this`live, this`usedMemory, heads, link, bitmap, orderMap
      ensures Valid() && Model() == FreeBlock(old(Model()), block)
      ensures live == old(live) - {block}
    {
      if bitmap[block] {
        FreeLive(block);
      } else {
        NotLive(Model(), live, usable, block);
      }
    }

    /**
     `pmm_free`, on anything but an address inside a live block: the address of a live block frees exactly
     that block, and every other address changes nothing.
     */
    method Free(ptr: nat)
      requires Valid()
      requires forall b: nat :: b < maxBlocks && bitmap[b] && ptr == 4096 * (hs + b) ==> b in live
      modifies this`lists, this`live, this`usedMemory, heads, link, bitmap, orderMap
      ensures Valid() && Model() == FreeAddress(old(Model()), hs, heapSize, ptr)
      ensures forall b: nat :: b in old(live) && ptr == 4096 * (hs + b) ==>
                live == old(live) - {b} && Released(old(Model()), Model(), b, old(live)[b])
      ensures (forall b: nat :: b in old(live) ==> ptr != 4096 * (hs + b)) ==>
                live == old(live) && Model() == old(Model())
    {
      ghost var h := Model();
      if ptr == 0 { return; }
      InHeapIff(hs, heapSize, ptr);
      if !InHeap(hs, heapSize, ptr) {
        LiveInHeap(h, live, usable, heapSize);
        return;
      }
      PageInHeap(hs, heapSize, ptr);
      var block := PageOf(hs, ptr);
      assert ptr == 4096 * (hs + block);
      if block in live {
        FreeOutcome(h, live, usable, block);
      }
      hide Inv, Linked, FreeBlock, Released;
      FreePage(block);
      if block !in old(live) {
        NotLive(h, old(live), usable, block) by { assert !h.bits[block]; }
      }
    }

    // -------------------------------------------------------------- a block returned

    /** A request and the free of what it was given: lists, bitmap, order map, counter and history are as before. */
    method TakeAndReturn(size: nat) returns (p: nat)
      requires Valid() && Coalesced(lists) && size < 0x1_0000_0000
      modifies this`lists, this`live, this`usedMemory, heads, link, bitmap, orderMap
      ensures Valid() && Model() == old(Model()) && live == old(live)
      ensures p == 0 <==> BuddyHeap.Malloc(old(Model()), size).1 == None
    {
      hide Inv, Linked, BuddyHeap.Malloc, GetOrder, Released, Coalesced, FreeAddress, FreeBlock, PagesFor;
      ghost var h, r := Model(), BuddyHeap.Malloc(Model(), size);
      TakenComesBack(h, live, usable, size);
      p := Malloc(size);
      if p != 0 {
        ghost var b := r.1.value;
        assert p == 4096 * (hs + b) && b in live;
        FreeAddressIs(r.0, hs, heapSize, b) by { LiveInHeap(r.0, live, usable, heapSize); }
        Free(p);
        assert live == old(live);
      }
    }

    // -------------------------------------------------------------- init_pmm

    constructor (hs: nat, capacity: nat)
      requires hs > 0
      ensures Layout() && this.hs == hs && lists == NoLists() && maxBlocks == 0
      ensures link.Length == bitmap.Length == orderMap.Length == capacity
      ensures fresh(heads) && fresh(link) && fresh(bitmap) && fresh(orderMap)
    {
      this.hs := hs;
      heads := new nat[MAX_ORDER](_ => 0);
      link := new nat[capacity];
      bitmap := new bool[capacity];
      orderMap := new nat[capacity];
      usedMemory, heapSize, maxBlocks := 0, 0, 0;
      lists, live, usable := NoLists(), map[], {};
    }

    static method TileOrderAt(a: nat, size: nat) returns (order: nat)
      ensures order == TileOrder(a, size)
    {
      order := MAX_ORDER - 1;
      while order > 0 && Pow2(order) > size
        invariant LargestFitting(order, size) == LargestFitting(MAX_ORDER - 1, size)
      {
        order := order - 1;
      }
      while order > 0 && a % Pow2(order) != 0
        invariant LargestAligned(order, a) == TileOrder(a, size)
      {
        order := order - 1;
      }
    }

    /** The tiling loop of `init_pmm` over one region, in absolute pages. */
    method AddRegion(start: nat, end: nat, ghost bits: seq<bool>, ghost seen: set<nat>)
      requires Layout() && hs <= start <= end && end - hs <= |bits| <= link.Length
      requires FreeInv(lists, bits, seen) && TilesFitHeap(hs, start, end)
      requires forall p: nat :: start - hs <= p < end - hs ==> p !in seen && !bits[p]
      modifies this`lists, heads, link
      ensures Layout() && lists == Tile(old(lists), hs, start, end)
      ensures FreeInv(lists, bits, seen + Range(start - hs, end - hs))
    {
      hide FreeInv, Linked, Pow2, Tile, TilesFitHeap, Range, Aligned;
      TileKeepsInv(lists, hs, start, end, bits, seen);
      var a := start;
      ghost var done := seen;
      while a < end
        invariant start <= a <= end && Layout()
        invariant FreeInv(lists, bits, done) && TilesFitHeap(hs, a, end)
        invariant forall p: nat :: a - hs <= p < end - hs ==> p !in done
        invariant Tile(lists, hs, a, end) == Tile(old(lists), hs, start, end)
      {
        var size := end - a;
        var order := TileOrderAt(a, size);
        TileUnfolds(lists, hs, a, end);
        IndexAlignedIff(a, hs, order);
        ListNew(lists, order, a - hs, bits, done);
        NewIsUnlisted(lists, a - hs, bits, done);
        AddBlockToList(order, Addr(hs, a - hs), a - hs);
        done := done + Range(a - hs, a - hs + Pow2(order));
        a := a + Pow2(order);
      }
      NoTile(lists, hs, end);
    }

    /**
     `init_pmm` on an E820 map: the usable pages are those that an entry offers, and the heap reaches up to
     the highest end of an entry, in whole pages rounded up.
     */
    method InitPmm(entries: seq<Entry>)
      requires Layout() && lists == NoLists()
      requires HeapPages(entries, hs) <= link.Length && link.Length == bitmap.Length == orderMap.Length
      requires Bytes(link.Length) < 0x1_0000_0000
      requires Tileable(hs, HeapPages(entries, hs), Regions(entries, hs, DetectedTotal(entries)))
      modifies this`lists, this`live, this`usable, this`usedMemory, this`heapSize, this`maxBlocks,
               heads, link, bitmap, orderMap
      ensures Valid() && live == map[]
      ensures var regions := Regions(entries, hs, DetectedTotal(entries));
              && (forall r :: r in regions ==> hs <= r.start <= r.end)
              && Model() == Boot(hs, HeapPages(entries, hs), regions)
              && usable == Pages(hs, regions)
      ensures forall q: nat :: q in usable <==> exists i :: 0 <= i < |entries| && Offers(entries[i], hs + q)
      ensures ReachesTo(entries, hs, heapSize) && heapSize <= 4096 * maxBlocks < heapSize + 4096
    {
      hide Linked, Inv, Regions, HeapPages, DetectedTotal, Boot, PagesFor, Tileable, Pages, TileAll;
      ghost var n := HeapPages(entries, hs);
      ghost var regions := Regions(entries, hs, DetectedTotal(entries));
      BuildHeap(entries);
      live := map[];
      usable := Booted(hs, n, regions, Model());
      AllOffered(entries, hs, n);
    }

    method BuildHeap(entries: seq<Entry>)
      requires Layout() && lists == NoLists()
      requires HeapPages(entries, hs) <= link.Length && link.Length == bitmap.Length == orderMap.Length
      requires Tileable(hs, HeapPages(entries, hs), Regions(entries, hs, DetectedTotal(entries)))
      modifies this`lists, this`usedMemory, this`heapSize, this`maxBlocks, heads, link, bitmap, orderMap
      ensures Layout() && usedMemory == 0 && maxBlocks == PagesFor(heapSize) == HeapPages(entries, hs)
      ensures var regions := Regions(entries, hs, DetectedTotal(entries));
              (forall r :: r in regions ==> hs <= r.start) && lists == TileAll(NoLists(), hs, regions)
      ensures forall p :: 0 <= p < maxBlocks ==> !bitmap[p] && orderMap[p] == 0
      ensures ReachesTo(entries, hs, heapSize) && heapSize <= 4096 * maxBlocks < heapSize + 4096
    {
      ghost var bytes := HeapPagesIs(entries, hs);
      hide ReachesTo;
      assert bytes == MaxEnd(entries, hs, DetectedTotal(entries)) - Bytes(hs);
      hide Linked, Regions, HeapPages, DetectedTotal, Bytes, PagesFor, Tileable, TileAll, MaxEnd;
      var top := HighestEndOf(entries);
      var maxEnd := AddRegions(entries, top, HeapPages(entries, hs));
      heapSize := if maxEnd > Bytes(hs) then maxEnd - Bytes(hs) else 0;
      maxBlocks := PagesFor(heapSize);
      usedMemory := 0;
      ClearMaps();
    }

    /** The two `fast_memset` calls at the end of `init_pmm`. */
    method ClearMaps()
      requires maxBlocks <= bitmap.Length && maxBlocks <= orderMap.Length && orderMap != heads && orderMap != link
      modifies bitmap, orderMap
      ensures forall p :: 0 <= p < maxBlocks ==> !bitmap[p] && orderMap[p] == 0
    {
      var i := 0;
      while i < maxBlocks
        invariant i <= maxBlocks
        invariant forall p :: 0 <= p < i ==> !bitmap[p] && orderMap[p] == 0
      {
        bitmap[i], orderMap[i] := false, 0;
        i := i + 1;
      }
    }

    method HighestEndOf(entries: seq<Entry>) returns (top: nat)
      ensures top == DetectedTotal(entries)
    {
      top := 0;
      var i := 0;
      assert entries[0..] == entries;
      while i < |entries|
        invariant i <= |entries| && MaxOf(top, HighestEnd(entries[i..])) == HighestEnd(entries)
      {
        assert entries[i..][1..] == entries[i + 1..];
        if entries[i].kind == USABLE {
          var end := entries[i].base + entries[i].length;
          if end > top { top := end; }
        }
        i := i + 1;
      }
      if top > 0x1_0000_0000 { top := 0x1_0000_0000; }
    }

    /** The second loop of `init_pmm`: clip every entry, track `max_end`, tile what is left. */
    method AddRegions(entries: seq<Entry>, top: nat, ghost n: nat) returns (maxEnd: nat)
      requires Layout() && lists == NoLists() && n <= link.Length
      requires Tileable(hs, n, Regions(entries, hs, top))
      modifies this`lists, heads, link
      ensures Layout() && maxEnd == MaxEnd(entries, hs, top)
      ensures (forall r :: r in Regions(entries, hs, top) ==> hs <= r.start)
              && lists == TileAll(NoLists(), hs, Regions(entries, hs, top))
    {
      hide FreeInv, Linked, TilesFitHeap, Range, Tile, Clip, ToPages, Bytes, Disjoint, Fresh;
      ghost var bits := seq(n, _ => false);
      ghost var seen: set<nat> := {};
      ghost var rest := Regions(entries, hs, top);
      NoListsFree(bits);
      NothingSeen(hs, rest);
      maxEnd := Bytes(hs);
      MaxEndAtLeast(entries, hs, top);
      var i := 0;
      assert entries[0..] == entries;
      while i < |entries|
        invariant i <= |entries| && Layout()
        invariant rest == Regions(entries[i..], hs, top)
        invariant Tileable(hs, n, rest) && Fresh(hs, rest, seen) && FreeInv(lists, bits, seen)
        invariant TileAll(lists, hs, rest) == TileAll(NoLists(), hs, Regions(entries, hs, top))
        invariant maxEnd >= Bytes(hs) && MaxOf(maxEnd, MaxEnd(entries[i..], hs, top)) == MaxEnd(entries, hs, top)
      {
        assert entries[i..][1..] == entries[i + 1..];
        var c := Clip(entries[i], hs, top);
        if c.Some? {
          if c.value.1 > maxEnd { maxEnd := c.value.1; }
          var r := ToPages(c.value);
          if r.Some? {
            assert rest == [r.value] + Regions(entries[i + 1..], hs, top);
            NextRegion(hs, n, rest, seen);
            AddRegion(r.value.start, r.value.end, bits, seen);
            seen := seen + Range(r.value.start - hs, r.value.end - hs);
            rest := rest[1..];
          }
        }
        i := i + 1;
      }
    }

    // -------------------------------------------------------------- pmm_defragment

    /** The scan of one list for a block whose buddy is inside the heap and all clear. */
    method FindCandidate(order: nat) returns (found: bool, block: nat)
      requires Layout() && maxBlocks <= bitmap.Length && order < MAX_ORDER - 1
      ensures FirstCandidate(lists[order], order, bitmap[..maxBlocks]) == if found then Some(block) else None
    {
      hide Pow2, Buddy, AllClear;
      ghost var s, bits := lists[order], bitmap[..maxBlocks];
      var current := heads[order];
      ghost var i := 0;
      assert s[0..] == s;
      while current != 0
        invariant i <= |s| && current == AddrAt(hs, s, i)
        invariant FirstCandidate(s[i..], order, bits) == FirstCandidate(s, order, bits)
        decreases |s| - i
      {
        block := (current - Bytes(hs)) / 4096;
        assert block == s[i] == s[i..][0] && s[i..][1..] == s[i + 1..];
        var buddy := Buddy(block, order);
        if buddy < maxBlocks {
          var free := IsBuddyFree(buddy, order);
          if free { return true, block; }
        }
        current := link[block];
        i := i + 1;
      }
      found, block := false, 0;
    }

    /** One join: unlink the block and its buddy and list the pair one order up. */
    method JoinBuddies(order: nat, block: nat)
      requires Layout() && maxBlocks <= bitmap.Length && order < MAX_ORDER - 1
      requires FreeInv(lists, bitmap[..maxBlocks], usable)
      requires block in lists[order] && Buddy(block, order) in lists[order]
      modifies this`lists, heads, link
      ensures Layout() && FreeInv(lists, bitmap[..maxBlocks], usable)
      ensures lists == Join(old(lists), order, block)
    {
      ghost var lists0 := lists;
      var buddy := Buddy(block, order);
      RoundKeeps(lists, order, block, bitmap[..maxBlocks], usable);
      JoinIsReady(lists, order, block, bitmap[..maxBlocks], usable);
      hide FreeInv, Pow2, Linked, AllClear, Distinct, Buddy;
      var found := RemoveSpecificBlock(order, Addr(hs, block), block);
      found := RemoveSpecificBlock(order, Addr(hs, buddy), buddy);
      var merged := Min(block, buddy);
      AddBlockToList(order + 1, Addr(hs, merged), merged);
    }

    /** The passes over one order. */
    method DefragmentOrder(order: nat)
      requires Layout() && maxBlocks <= bitmap.Length && order < MAX_ORDER - 1
      requires FreeInv(lists, bitmap[..maxBlocks], usable) && OrderListed(lists, order, bitmap[..maxBlocks])
      modifies this`lists, heads, link
      ensures Layout() && FreeInv(lists, bitmap[..maxBlocks], usable)
      ensures lists == DefragOrder(old(lists), order, bitmap[..maxBlocks])
    {
      hide FreeInv, Pow2, Linked, AllClear, Buddy;
      ghost var bits := bitmap[..maxBlocks];
      var merged := true;
      while merged
        invariant Layout() && bits == bitmap[..maxBlocks] && FreeInv(lists, bits, usable)
        invariant OrderListed(lists, order, bits)
        invariant DefragOrder(lists, order, bits) == DefragOrder(old(lists), order, bits)
        invariant !merged ==> lists == DefragOrder(old(lists), order, bits)
        decreases |lists[order]|, merged
      {
        var block;
        merged, block := FindCandidate(order);
        if merged {
          NextRound(lists, order, block, bits);
          JoinBuddies(order, block);
        }
      }
    }

    /** `pmm_defragment`, on a heap where no free run has a clear buddy with a page of no region in it. */
    method Defragment()
      requires Valid() && HolesApart(bitmap[..maxBlocks], usable)
      modifies this`lists, heads, link
      ensures Valid() && Model() == BuddyHeap.Defragment(old(Model())) && Coalesced(lists)
    {
      ghost var h, bits := Model(), bitmap[..maxBlocks];
      assert FreeInv(lists, bits, usable);
      BuddiesListedIff(lists, bits, usable);
      DefragmentCoalesces(h, live, usable);
      hide Inv, FreeInv, Pow2, Buddy, Linked, OrderListed, DefragOrder, HolesApart, Coalesced;
      var order := 0;
      while order < MAX_ORDER - 1
        invariant order <= MAX_ORDER - 1 && Layout() && bits == bitmap[..maxBlocks]
        invariant FreeInv(lists, bits, usable) && BuddiesListed(lists, order, bits)
        invariant DefragFrom(lists, order, bits) == DefragFrom(old(lists), 0, bits)
      {
        DefragmentOrder(order);
        order := order + 1;
      }
      assert Model() == BuddyHeap.Defragment(h);
    }
  }

  lemma NextRound(free: FreeLists, o: nat, b: nat, bits: seq<bool>)
    requires o < MAX_ORDER - 1 && OrderListed(free, o, bits) && FirstCandidate(free[o], o, bits) == Some(b)
    ensures b in free[o] && Buddy(b, o) in free[o] && OrderListed(Join(free, o, b), o, bits)
    ensures DefragOrder(free, o, bits) == DefragOrder(Join(free, o, b), o, bits)
    ensures |Join(free, o, b)[o]| < |free[o]|
  {
    hide Pow2, Buddy, AllClear;
    CandidateIsListed(free[o], o, bits);
    RemoveShortens(free[o], b);
    RemoveShortens(RemoveFirst(free[o], b), Buddy(b, o));
  }

  lemma JoinIsReady(free: FreeLists, o: nat, b: nat, bits: seq<bool>, usable: set<nat>)
    requires o < MAX_ORDER - 1 && FreeInv(free, bits, usable) && b in free[o] && Buddy(b, o) in free[o]
    ensures var c, f := Buddy(b, o), Remove(free, o, b);
            && Distinct(free) && Distinct(f) && c in f[o] && Unlisted(Remove(f, o, c), Min(b, c))
            && Min(b, c) < |bits|
  {
    var c := Buddy(b, o);
    assert Listed(free, o, b) && Listed(free, o, c);
    ListedOk(free, o, b, bits, usable);
    AlignedBuddy(b, o);
    DistinctApart(free);
    hide FreeInv, Buddy, Aligned, AllClear;
    RemoveDistinct(free, o, b);
    RemoveDistinct(Remove(free, o, b), o, c);
  }

  lemma RemoveDistinct(free: FreeLists, o: nat, b: nat)
    requires o < MAX_ORDER && Distinct(free) && Listed(free, o, b)
    ensures Distinct(Remove(free, o, b)) && Unlisted(Remove(free, o, b), b)
    ensures forall i: nat, x: nat :: Listed(Remove(free, o, b), i, x) <==> Listed(free, i, x) && x != b
  {
    RemoveListed(free, o, b);
  }

  lemma NothingSeen(hs: nat, regions: seq<Region>)
    ensures Fresh(hs, regions, {})
  {
  }

  lemma NextRegion(hs: nat, n: nat, regions: seq<Region>, seen: set<nat>)
    requires regions != [] && Tileable(hs, n, regions) && Fresh(hs, regions, seen)
    ensures var r := regions[0];
            && hs <= r.start < r.end <= hs + n && TilesFitHeap(hs, r.start, r.end)
            && (forall p: nat :: r.start - hs <= p < r.end - hs ==> p !in seen)
            && Tileable(hs, n, regions[1..])
            && Fresh(hs, regions[1..], seen + Range(r.start - hs, r.end - hs))
  {
    FirstIsFresh(hs, regions, seen);
    FreshRest(hs, n, regions, seen);
    hide Range, Disjoint, Fresh, TilesFitHeap;
    assert forall r :: r in regions[1..] ==> r in regions;
  }

  lemma MaxEndAtLeast(entries: seq<Entry>, hs: nat, top: nat)
    ensures MaxEnd(entries, hs, top) >= Bytes(hs)
  {
  }

  lemma AllOffered(entries: seq<Entry>, hs: nat, n: nat)
    requires hs > 0 && Tileable(hs, n, Regions(entries, hs, DetectedTotal(entries)))
    ensures var regions := Regions(entries, hs, DetectedTotal(entries));
            && (forall r :: r in regions ==> hs <= r.start <= r.end)
            && forall q: nat ::
              q in Pages(hs, regions) <==> exists i :: 0 <= i < |entries| && Offers(entries[i], hs + q)
  {
    hide Regions, DetectedTotal, Capped, StartsLow, Pages, Offers, Disjoint, TilesFitHeap;
    DetectedIsCapped(entries);
    TileableStartsLow(entries, hs, DetectedTotal(entries));
    forall q: nat
      ensures q in Pages(hs, Regions(entries, hs, DetectedTotal(entries)))
              <==> exists i :: 0 <= i < |entries| && Offers(entries[i], hs + q)
    {
      UsableIffOffered(entries, hs, q);
    }
  }

  lemma NoListsFree(bits: seq<bool>)
    ensures FreeInv(NoLists(), bits, {})
  {
  }

  lemma Booted(hs: nat, n: nat, regions: seq<Region>, h: Heap) returns (usable: set<nat>)
    requires Tileable(hs, n, regions) && Bytes(n) < 0x1_0000_0000
    requires forall r :: r in regions ==> hs <= r.start
    requires h.free == TileAll(NoLists(), hs, regions) && h.used == 0 && |h.bits| == |h.orders| == n
    requires forall p :: 0 <= p < n ==> !h.bits[p] && h.orders[p] == 0
    ensures h == Boot(hs, n, regions) && forall r :: r in regions ==> hs <= r.start <= r.end
    ensures usable == Pages(hs, regions) && Inv(h, map[], usable)
  {
    assert h.bits == Boot(hs, n, regions).bits;
    assert h.orders == Boot(hs, n, regions).orders;
    BootIsCoherent(hs, n, regions);
    usable := Pages(hs, regions);
  }

  lemma NewIsUnlisted(free: FreeLists, b: nat, bits: seq<bool>, usable: set<nat>)
    requires FreeInv(free, bits, usable) && b !in usable
    ensures Unlisted(free, b)
  {
  }

  lemma FirstIsFresh(hs: nat, regions: seq<Region>, usable: set<nat>)
    requires regions != [] && Fresh(hs, regions, usable)
    ensures forall p: nat :: regions[0].start - hs <= p < regions[0].end - hs ==> p !in usable
  {
    forall p: nat | regions[0].start - hs <= p < regions[0].end - hs
      ensures p !in usable
    {
      assert InRegion(hs, regions[0], p);
    }
  }

  lemma NotLive(h: Heap, live: map<nat, nat>, usable: set<nat>, b: nat)
    requires Inv(h, live, usable) && b < |h.bits| && !h.bits[b]
    ensures live - {b} == live && FreeBlock(h, b) == h
  {
    if b in live {
      assert LiveAt(live, b, b);
      assert LiveCovers(live, b);
    }
    assert b !in live;
  }

  /** Every live block lies inside the bytes of the heap. */
  lemma LiveInHeap(h: Heap, live: map<nat, nat>, usable: set<nat>, bytes: nat)
    requires Inv(h, live, usable) && |h.bits| == PagesFor(bytes)
    ensures forall b: nat :: b in live ==> b < |h.bits| && 4096 * b < bytes
  {
    hide FreeInv, Accounted, BitsMatch, OrdersMatch, LiveApart;
    forall b: nat | b in live
      ensures b < |h.bits| && 4096 * b < bytes
    {
      assert b + Pow2(live[b]) <= |h.bits|;
    }
  }

  lemma TakenComesBack(h: Heap, live: map<nat, nat>, usable: set<nat>, size: nat)
    requires Inv(h, live, usable) && Coalesced(h.free)
    ensures match BuddyHeap.Malloc(h, size)
            case (h', None) => h' == h
            case (h', Some(b)) =>
              && Inv(h', live[b := GetOrder(size)], usable) && FreeBlock(h', b) == h
              && live[b := GetOrder(size)] - {b} == live
  {
    MallocKeepsInv(h, live, usable, size);
    hide BuddyHeap.Malloc, Inv, FreeBlock, Coalesced, GetOrder;
    if BuddyHeap.Malloc(h, size).1.Some? {
      MallocThenFree(h, live, usable, size);
    }
  }

  lemma LiveBlock(h: Heap, live: map<nat, nat>, usable: set<nat>, b: nat)
    requires Inv(h, live, usable) && b in live
    ensures live[b] < MAX_ORDER && Aligned(b, live[b]) && b + Pow2(live[b]) <= |h.bits|
    ensures b < |h.orders| && h.orders[b] == live[b]
    ensures forall p: nat :: Covers(b, live[b], p) ==> h.bits[p] && p in usable
    ensures FreeInv(h.free, h.bits, usable)
  {
    hide FreeInv, Accounted;
    ReleaseLive(live, h.bits, h.orders, b);
  }

  lemma Freed(h: Heap, h': Heap, live: map<nat, nat>, usable: set<nat>, b: nat)
    requires Inv(h, live, usable) && b in live && Released(h, h', b, live[b])
    ensures h' == FreeBlock(h, b) && Inv(h', live - {b}, usable)
  {
    FreeOutcome(h, live, usable, b);
    hide Inv, FreeBlock, Wrap, Bytes, SetRange, Merge, Pow2;
    FreeKeepsInv(h, live, usable, b);
  }

  lemma FloatingRest(free: FreeLists, o: nat, b: nat, bits: seq<bool>, usable: set<nat>)
    requires o < MAX_ORDER && FreeInv(Push(free, o, b), bits, usable)
    ensures Distinct(free) && Unlisted(free, b) && b < |bits|
  {
    HeadIsAlone(free, o, b, bits, usable);
    DistinctApart(free);
  }

  lemma RefusedIff(h: Heap, live: map<nat, nat>, usable: set<nat>, size: nat)
    requires Inv(h, live, usable)
    ensures size == 0 || FirstNonEmpty(h.free, GetOrder(size)) >= MAX_ORDER ==> BuddyHeap.Malloc(h, size) == (h, None)
  {
  }

  lemma Served(h: Heap, h': Heap, live: map<nat, nat>, usable: set<nat>, size: nat)
    requires Inv(h, live, usable) && size > 0 && FirstNonEmpty(h.free, GetOrder(size)) < MAX_ORDER
    requires Granted(h, h', FirstNonEmpty(h.free, GetOrder(size)), GetOrder(size))
    ensures var b := h.free[FirstNonEmpty(h.free, GetOrder(size))][0];
            BuddyHeap.Malloc(h, size) == (h', Some(b)) && Inv(h', live[b := GetOrder(size)], usable)
  {
    MallocOutcome(h, live, usable, size);
    hide Inv, GetOrder, FirstNonEmpty, BuddyHeap.Malloc, Split, Wrap, Bytes, SetRange, Pow2;
    MallocKeepsInv(h, live, usable, size);
  }

  lemma FloatingHalf(free: FreeLists, k: nat, b: nat, bits: seq<bool>, usable: set<nat>)
    requires 0 < k < MAX_ORDER && FreeInv(Push(free, k, b), bits, usable)
    ensures Unlisted(free, b + Pow2(k - 1)) && b + Pow2(k - 1) < |bits|
  {
    HeadIsAlone(free, k, b, bits, usable);
    Pow2Doubles(k - 1);
    hide FreeInv, Pow2;
  }

  lemma UnlistedPages(free: FreeLists, o: nat, b: nat, bits: seq<bool>, usable: set<nat>)
    requires o < MAX_ORDER && FreeInv(Push(free, o, b), bits, usable)
    ensures forall p: nat :: b <= p < b + Pow2(o) ==> Unlisted(free, p)
  {
    HeadIsAlone(free, o, b, bits, usable);
  }
}
