/** What every allocation, every free and so every run of them keeps. */
module BuddyRuns {
  import opened Powers
  import opened BuddyBlocks
  import opened BuddyHeap
  import opened BuddyInvariant
  import opened BuddySteps
  import opened Options

  // ---------------------------------------------------------------- splitting

  /** The lists gained the right halves of block `b`, from order `k - 1` down to order `j`. */
  ghost predicate Halved(free: FreeLists, free': FreeLists, b: nat, k: nat, j: nat) {
    forall i :: 0 <= i < MAX_ORDER ==> free'[i] == if j <= i < k then [b + Pow2(i)] + free[i] else free[i]
  }

  lemma HalvedOnce(free: FreeLists, free': FreeLists, b: nat, k: nat, j: nat)
    requires j < k < MAX_ORDER && Halved(Push(free, k - 1, b + Pow2(k - 1)), free', b, k - 1, j)
    ensures Halved(free, free', b, k, j)
  {
  }

  /** Splitting an aligned block keeps its left end and lists the right halves, smallest last. */
  lemma {:induction false} SplitLists(free: FreeLists, b: nat, k: nat, j: nat, n: nat)
    requires j <= k < MAX_ORDER && Aligned(b, k) && b + Pow2(k) <= n
    ensures var s := Split(free, b, k, j, n); s.ok && s.block == b && Halved(free, s.free, b, k, j)
    decreases k
  {
    hide Halved, Aligned, Buddy, Pow2;
    if j < k {
      AlignedHalves(b, k - 1);
      Pow2Doubles(k - 1);
      var half := Push(free, k - 1, b + Pow2(k - 1));
      assert Split(free, b, k, j, n) == Split(half, b, k - 1, j, n);
      SplitLists(half, b, k - 1, j, n);
      HalvedOnce(free, Split(half, b, k - 1, j, n).free, b, k, j);
    } else {
      NothingHalved(free, b, k, j);
    }
  }

  lemma NothingHalved(free: FreeLists, b: nat, k: nat, j: nat)
    requires k <= j
    ensures Halved(free, free, b, k, j)
  {
  }

  lemma {:induction false} SplitKeeps(free: FreeLists, b: nat, k: nat, j: nat, bits: seq<bool>, usable: set<nat>)
    requires j <= k < MAX_ORDER && FreeInv(Push(free, k, b), bits, usable)
    ensures FreeInv(Push(Split(free, b, k, j, |bits|).free, j, b), bits, usable)
    ensures ListedPages(Split(free, b, k, j, |bits|).free, MAX_ORDER) + Pow2(j)
         == ListedPages(free, MAX_ORDER) + Pow2(k)
    decreases k
  {
    if j < k {
      SplitStep(free, k, b, bits, usable);
      PushPages(free, k - 1, b + Pow2(k - 1));
      SplitKeeps(Push(free, k - 1, b + Pow2(k - 1)), b, k - 1, j, bits, usable);
    }
  }

  lemma PopPush(free: FreeLists, k: nat)
    requires k < MAX_ORDER && free[k] != []
    ensures Push(Pop(free, k), k, free[k][0]) == free
    ensures ListedPages(Pop(free, k), MAX_ORDER) + Pow2(k) == ListedPages(free, MAX_ORDER)
  {
    assert [free[k][0]] + free[k][1..] == free[k];
    assert Push(Pop(free, k), k, free[k][0]) == free;
    PushPages(Pop(free, k), k, free[k][0]);
  }

  lemma {:induction false} GetOrderBound(size: nat, blockSize: nat, order: nat)
    requires order < MAX_ORDER
    ensures OrderLoop(size, blockSize, order) < MAX_ORDER
    decreases MAX_ORDER - order
  {
    if blockSize < size && order < MAX_ORDER - 1 {
      GetOrderBound(size, 2 * blockSize, order + 1);
    }
  }

  lemma OrderInRange(size: nat)
    ensures GetOrder(size) < MAX_ORDER
  {
    GetOrderBound(size, Bytes(1), 0);
  }

  /** What the lists are after block `b` of order `k` was taken for a request of order `j`. */
  ghost predicate Taken(free: FreeLists, free': FreeLists, k: nat, j: nat, b: nat)
    requires k < MAX_ORDER && free[k] != []
  {
    forall i :: 0 <= i < MAX_ORDER ==>
      free'[i] == if j <= i < k then [b + Pow2(i)] + free[i] else if i == k then free[k][1..] else free[i]
  }

  lemma TakenLists(free: FreeLists, k: nat, j: nat, n: nat)
    requires j <= k < MAX_ORDER && free[k] != [] && Aligned(free[k][0], k) && free[k][0] + Pow2(k) <= n
    ensures var s := Split(Pop(free, k), free[k][0], k, j, n);
            s.ok && s.block == free[k][0] && Taken(free, s.free, k, j, free[k][0])
  {
    hide Split;
    SplitLists(Pop(free, k), free[k][0], k, j, n);
  }

  lemma TakeBlock(free: FreeLists, k: nat, j: nat, bits: seq<bool>, usable: set<nat>)
    requires j <= k < MAX_ORDER && free[k] != [] && FreeInv(free, bits, usable)
    ensures var b := free[k][0]; var s := Split(Pop(free, k), b, k, j, |bits|);
            && Aligned(b, k) && b + Pow2(j) <= |bits|
            && s.ok && s.block == b
            && FreeInv(Push(s.free, j, b), bits, usable)
            && ListedPages(s.free, MAX_ORDER) + Pow2(j) == ListedPages(free, MAX_ORDER)
            && Taken(free, s.free, k, j, b)
  {
    hide FreeInv, Split, Taken, ListedPages, Pow2, Push, Pop;
    var b := free[k][0];
    PopPush(free, k);
    assert Listed(free, k, b);
    ListedOk(free, k, b, bits, usable);
    TakenLists(free, k, j, |bits|);
    SplitKeeps(Pop(free, k), b, k, j, bits, usable);
    Pow2Monotone(j, k);
  }

  /** The heap after a request of order `j` was served from the list of order `k`. */
  ghost predicate Granted(h: Heap, h': Heap, k: nat, j: nat)
    requires h.WellFormed()
  {
    && j <= k < MAX_ORDER && h.free[k] != []
    && (forall i :: j <= i < k ==> h.free[i] == [])
    && var b := h.free[k][0];
    && b + Pow2(j) <= |h.bits|
    && h'.free == Split(Pop(h.free, k), b, k, j, |h.bits|).free
    && h'.bits == SetRange(h.bits, b, Pow2(j), true)
    && h'.orders == h.orders[b := j]
    && h'.used == Wrap(h.used + Bytes(Pow2(j)))
  }

  /** On a coherent heap a request fails only because every list from its order up is empty. */
  lemma MallocOutcome(h: Heap, live: map<nat, nat>, usable: set<nat>, size: nat)
    requires Inv(h, live, usable)
    ensures var j := GetOrder(size); var k := FirstNonEmpty(h.free, j);
            if size == 0 || k >= MAX_ORDER then Malloc(h, size) == (h, None)
            else Granted(h, Malloc(h, size).0, k, j) && Malloc(h, size).1 == Some(h.free[k][0])
  {
    hide FreeInv, Split, Taken, ListedPages, Pow2, Push, Pop, SetRange, FirstNonEmpty, GetOrder, Wrap, Bytes;
    OrderInRange(size);
    var j := GetOrder(size);
    var k := FirstNonEmpty(h.free, j);
    if size != 0 && k < MAX_ORDER {
      TakeBlock(h.free, k, j, h.bits, usable);
    }
  }

  lemma GrantedKeepsFree(h: Heap, h': Heap, usable: set<nat>, k: nat, j: nat)
    requires h.WellFormed() && FreeInv(h.free, h.bits, usable) && Granted(h, h', k, j)
    ensures var b := h.free[k][0];
            && FreeInv(h'.free, h'.bits, usable)
            && FreeBlockOk(b, j, h.bits, usable)
            && ListedPages(h'.free, MAX_ORDER) + Pow2(j) == ListedPages(h.free, MAX_ORDER)
            && forall p: nat :: p < |h'.bits| && h'.bits[p] ==> h.bits[p] || p in usable
  {
    hide FreeInv, Split, Pow2, ListedPages, Pop, Push, Aligned, Wrap, Bytes;
    var b := h.free[k][0];
    TakeBlock(h.free, k, j, h.bits, usable);
    HeadIsAlone(h'.free, j, b, h.bits, usable);
    OccupyFree(h'.free, j, b, h.bits, usable);
    assert forall p: nat :: p < |h'.bits| && h'.bits[p] ==> h.bits[p] || Covers(b, j, p);
  }

  lemma OccupyCounts(h: Heap, h': Heap, b: nat, j: nat, usable: set<nat>)
    requires Accounted(h, usable) && AllClear(h.bits, b, Pow2(j))
    requires h'.bits == SetRange(h.bits, b, Pow2(j), true)
    requires h'.used == Wrap(h.used + Bytes(Pow2(j)))
    requires ListedPages(h'.free, MAX_ORDER) + Pow2(j) == ListedPages(h.free, MAX_ORDER)
    ensures Accounted(h', usable)
  {
    hide CountTrue, ListedPages, Pow2, Bytes, Wrap;
    CountSetRange(h.bits, b, Pow2(j), true);
    CounterExact(CountTrue(h.bits), Pow2(j), |usable|);
  }

  lemma GrantedKeepsInv(h: Heap, h': Heap, live: map<nat, nat>, usable: set<nat>, k: nat, j: nat)
    requires Inv(h, live, usable) && Granted(h, h', k, j)
    ensures h.free[k][0] !in live && Inv(h', live[h.free[k][0] := j], usable)
  {
    hide FreeInv, Split, Pow2, ListedPages, CountTrue, Pop, Aligned, SetRange, Wrap, Bytes, LiveShape, LiveApart,
         BitsMatch, OrdersMatch, Accounted;
    var b := h.free[k][0];
    GrantedKeepsFree(h, h', usable, k, j);
    OccupyLive(live, h.bits, h.orders, j, b);
    OccupyCounts(h, h', b, j, usable);
  }

  /** A successful allocation keeps the heap coherent and adds one live block, of the order asked for. */
  lemma MallocKeepsInv(h: Heap, live: map<nat, nat>, usable: set<nat>, size: nat)
    requires Inv(h, live, usable)
    ensures match Malloc(h, size)
            case (h', None) => h' == h
            case (h', Some(b)) => b !in live && Inv(h', live[b := GetOrder(size)], usable)
  {
    MallocOutcome(h, live, usable, size);
    if Malloc(h, size).1.Some? {
      hide Malloc, Inv, GetOrder, FirstNonEmpty, Granted;
      GrantedKeepsInv(h, Malloc(h, size).0, live, usable, FirstNonEmpty(h.free, GetOrder(size)), GetOrder(size));
    }
  }

  lemma TakenCoalesced(free: FreeLists, free': FreeLists, k: nat, j: nat, b: nat)
    requires k < MAX_ORDER && free[k] != [] && Taken(free, free', k, j, b)
    requires Coalesced(free) && Aligned(b, k)
    requires forall i :: j <= i < k ==> free[i] == []
    ensures Coalesced(free')
  {
  }

  lemma MallocKeepsCoalesced(h: Heap, live: map<nat, nat>, usable: set<nat>, size: nat)
    requires Inv(h, live, usable) && Coalesced(h.free)
    ensures Coalesced(Malloc(h, size).0.free)
  {
    MallocOutcome(h, live, usable, size);
    var (h', r) := Malloc(h, size);
    if r.Some? {
      hide Malloc, GetOrder, FirstNonEmpty, Split, Coalesced, Taken, FreeInv, Aligned;
      var j := GetOrder(size);
      var k := FirstNonEmpty(h.free, j);
      TakeBlock(h.free, k, j, h.bits, usable);
      TakenCoalesced(h.free, h'.free, k, j, r.value);
    }
  }

  // ---------------------------------------------------------------- merging

  lemma ListUnbuddied(free: FreeLists, o: nat, b: nat, bits: seq<bool>, usable: set<nat>)
    requires o < MAX_ORDER && FreeInv(Push(free, o, b), bits, usable) && Coalesced(free)
    requires o == MAX_ORDER - 1 || Buddy(b, o) !in free[o]
    ensures Coalesced(Push(free, o, b))
  {
    HeadIsAlone(free, o, b, bits, usable);
    PushListed(free, o, b);
    var f := Push(free, o, b);
    forall o': nat, x: nat | o' < MAX_ORDER - 1 && Listed(f, o', x)
      ensures !Listed(f, o', Buddy(x, o'))
    {
      assert FreeBlockOk(x, o', bits, usable);
      AlignedBuddy(x, o');
    }
  }

  lemma {:induction false} MergeKeeps(free: FreeLists, bits: seq<bool>, b: nat, o: nat, usable: set<nat>)
    requires o < MAX_ORDER && FreeInv(Push(free, o, b), bits, usable)
    ensures var m := Merge(free, bits, b, o);
            && FreeInv(Push(m.free, m.order, m.block), bits, usable)
            && ListedPages(m.free, MAX_ORDER) + Pow2(m.order) == ListedPages(free, MAX_ORDER) + Pow2(o)
            && (Coalesced(free) ==> Coalesced(Push(m.free, m.order, m.block)))
    decreases MAX_ORDER - o
  {
    HeadIsAlone(free, o, b, bits, usable);
    var buddy := Buddy(b, o);
    if o < MAX_ORDER - 1 && buddy in free[o] {
      assert Listed(free, o, buddy) && FreeBlockOk(buddy, o, bits, usable);
      MergeStep(free, o, b, bits, usable);
      RemovePages(free, o, buddy);
      RemoveListed(free, o, buddy);
      MergeKeeps(Remove(free, o, buddy), bits, Min(b, buddy), o + 1, usable);
    } else if Coalesced(free) {
      ListUnbuddied(free, o, b, bits, usable);
    }
  }

  /** The heap after the live block `b` of order `o` was freed. */
  ghost predicate Released(h: Heap, h': Heap, b: nat, o: nat)
    requires h.WellFormed()
  {
    && o < MAX_ORDER && b + Pow2(o) <= |h.bits|
    && var bits := SetRange(h.bits, b, Pow2(o), false); var m := Merge(h.free, bits, b, o);
    && h'.free == Push(m.free, m.order, m.block)
    && h'.bits == bits
    && h'.orders == h.orders[b := 0]
    && h'.used == Wrap(h.used - Bytes(Pow2(o)))
  }

  /** Freeing a live block clears exactly its pages and lists the block it merges into. */
  lemma FreeOutcome(h: Heap, live: map<nat, nat>, usable: set<nat>, b: nat)
    requires Inv(h, live, usable) && b in live
    ensures Released(h, FreeBlock(h, b), b, live[b])
  {
    ReleaseLive(live, h.bits, h.orders, b);
    hide FreeInv, Merge, Pow2, SetRange, Wrap, Bytes, Accounted, BitsMatch, LiveApart;
    assert Covers(b, live[b], b);
  }

  lemma ReleaseCounts(h: Heap, h': Heap, b: nat, o: nat, usable: set<nat>)
    requires Accounted(h, usable) && b + Pow2(o) <= |h.bits|
    requires forall p: nat :: Covers(b, o, p) ==> h.bits[p]
    requires h'.bits == SetRange(h.bits, b, Pow2(o), false)
    requires h'.used == Wrap(h.used - Bytes(Pow2(o)))
    requires ListedPages(h'.free, MAX_ORDER) == ListedPages(h.free, MAX_ORDER) + Pow2(o)
    ensures Accounted(h', usable)
  {
    hide CountTrue, ListedPages, Pow2, Bytes, Wrap;
    CountSetRange(h.bits, b, Pow2(o), false);
    CounterExact(CountTrue(h.bits), Pow2(o), |usable|);
  }

  lemma ReleasedKeepsFree(h: Heap, h': Heap, usable: set<nat>, b: nat, o: nat)
    requires h.WellFormed() && FreeInv(h.free, h.bits, usable) && Released(h, h', b, o)
    requires Aligned(b, o) && forall p: nat :: Covers(b, o, p) ==> h.bits[p] && p in usable
    ensures FreeInv(h'.free, h'.bits, usable)
    ensures Coalesced(h.free) ==> Coalesced(h'.free)
    ensures ListedPages(h'.free, MAX_ORDER) == ListedPages(h.free, MAX_ORDER) + Pow2(o)
  {
    hide FreeInv, Merge, Pow2, ListedPages, Coalesced, Aligned, SetRange, Wrap, Bytes, Push;
    ReleaseFree(h.free, o, b, h.bits, usable);
    MergeKeeps(h.free, h'.bits, b, o, usable);
    var m := Merge(h.free, h'.bits, b, o);
    PushPages(m.free, m.order, m.block);
  }

  lemma ReleasedKeepsLists(h: Heap, h': Heap, live: map<nat, nat>, usable: set<nat>, b: nat)
    requires Inv(h, live, usable) && b in live && Released(h, h', b, live[b])
    ensures FreeInv(h'.free, h'.bits, usable)
    ensures Coalesced(h.free) ==> Coalesced(h'.free)
    ensures ListedPages(h'.free, MAX_ORDER) == ListedPages(h.free, MAX_ORDER) + Pow2(live[b])
  {
    ReleaseLive(live, h.bits, h.orders, b);
    hide FreeInv, Merge, Pow2, ListedPages, Coalesced, Aligned, Wrap, Bytes, BitsMatch, OrdersMatch, LiveApart,
         Accounted, SetRange, Push;
    ReleasedKeepsFree(h, h', usable, b, live[b]);
  }

  lemma ReleasedKeepsInv(h: Heap, h': Heap, live: map<nat, nat>, usable: set<nat>, b: nat)
    requires Inv(h, live, usable) && b in live && Released(h, h', b, live[b])
    ensures Inv(h', live - {b}, usable)
    ensures Coalesced(h.free) ==> Coalesced(h'.free)
  {
    hide LiveInv, FreeInv, Accounted, Coalesced, Merge, Push, Wrap, Bytes, Pow2;
    ReleasedKeepsLists(h, h', live, usable, b);
    ReleaseLive(live, h.bits, h.orders, b);
    ReleaseCounts(h, h', b, live[b], usable);
  }

  /** Freeing a live block keeps the heap coherent, and coalesced if it was. */
  lemma FreeKeepsInv(h: Heap, live: map<nat, nat>, usable: set<nat>, b: nat)
    requires Inv(h, live, usable) && b in live
    ensures Inv(FreeBlock(h, b), live - {b}, usable)
    ensures Coalesced(h.free) ==> Coalesced(FreeBlock(h, b).free)
  {
    FreeOutcome(h, live, usable, b);
    hide Inv, Released, FreeBlock, Coalesced;
    ReleasedKeepsInv(h, FreeBlock(h, b), live, usable, b);
  }
}
