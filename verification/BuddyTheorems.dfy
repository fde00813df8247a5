/** The theorems about the page allocator as a whole. */
module BuddyTheorems {
  import opened Powers
  import opened BuddyBlocks
  import opened BuddyHeap
  import opened BuddyInvariant
  import opened BuddyRuns
  import opened BuddyCanonical

  // ---------------------------------------------------------------- runs

  datatype Op = Alloc(size: nat) | Release(b: nat)

  /** The heap together with the history it answers to: which heads are live, and their orders. */
  datatype State = State(heap: Heap, live: map<nat, nat>)

  ghost predicate Coherent(s: State, usable: set<nat>) {
    Inv(s.heap, s.live, usable)
  }

  function Step(s: State, op: Op): State
    requires s.heap.WellFormed()
  {
    match op
    case Alloc(size) =>
      var (h, r) := Malloc(s.heap, size);
      State(h, if r.Some? then s.live[r.value := GetOrder(size)] else s.live)
    case Release(b) => State(FreeBlock(s.heap, b), s.live - {b})
  }

  /** A free is harmless unless it names a page inside a live block other than its first. */
  predicate Harmless(s: State, op: Op) {
    op.Release? ==> (op.b < |s.heap.bits| && s.heap.bits[op.b] ==> op.b in s.live)
  }

  function Run(s: State, ops: seq<Op>): State
    requires s.heap.WellFormed()
    decreases |ops|
  {
    if ops == [] then s else var t := Step(s, ops[0]); StepWellFormed(s, ops[0]); Run(t, ops[1..])
  }

  predicate AllHarmless(s: State, ops: seq<Op>)
    requires s.heap.WellFormed()
    decreases |ops|
  {
    ops == [] || (Harmless(s, ops[0]) && (StepWellFormed(s, ops[0]); AllHarmless(Step(s, ops[0]), ops[1..])))
  }

  lemma StepWellFormed(s: State, op: Op)
    requires s.heap.WellFormed()
    ensures Step(s, op).heap.WellFormed()
  {
  }

  /** A free keeps the heap coherent exactly when it is harmless. */
  lemma FreeKeepsInvIff(s: State, b: nat, usable: set<nat>)
    requires Coherent(s, usable)
    ensures Coherent(Step(s, Release(b)), usable) <==> Harmless(s, Release(b))
  {
    var t := Step(s, Release(b));
    if b in s.live {
      FreeKeepsInv(s.heap, s.live, usable, b);
    } else if b < |s.heap.bits| && s.heap.bits[b] {
      assert t.live == s.live;
      assert LiveCovers(t.live, b);
      assert !t.heap.bits[b];
    } else {
      assert t == s;
    }
  }

  lemma StepKeeps(s: State, op: Op, usable: set<nat>)
    requires Coherent(s, usable) && Harmless(s, op)
    ensures Coherent(Step(s, op), usable)
    ensures Coalesced(s.heap.free) ==> Coalesced(Step(s, op).heap.free)
  {
    match op
    case Alloc(size) =>
      MallocKeepsInv(s.heap, s.live, usable, size);
      if Coalesced(s.heap.free) {
        MallocKeepsCoalesced(s.heap, s.live, usable, size);
      }
    case Release(b) =>
      FreeKeepsInvIff(s, b, usable);
      if b in s.live {
        FreeKeepsInv(s.heap, s.live, usable, b);
      }
  }

  /** Every run without a harmful free keeps the heap coherent, and coalesced if it was. */
  lemma {:induction false} RunKeeps(s: State, ops: seq<Op>, usable: set<nat>)
    requires Coherent(s, usable) && AllHarmless(s, ops)
    ensures Coherent(Run(s, ops), usable)
    ensures Coalesced(s.heap.free) ==> Coalesced(Run(s, ops).heap.free)
    decreases |ops|
  {
    if ops != [] {
      hide Coherent, Coalesced, Step;
      assert s.heap.WellFormed() by { CoherentWellFormed(s, usable); }
      StepKeeps(s, ops[0], usable);
      RunKeeps(Step(s, ops[0]), ops[1..], usable);
    }
  }

  /** Every run without a harmful free keeps the views in agreement. */
  ghost predicate RunsCoherent(s: State, usable: set<nat>)
    requires s.heap.WellFormed()
  {
    forall ops :: AllHarmless(s, ops) ==> Coherent(Run(s, ops), usable)
  }

  lemma RunsCoherentIsStart(s: State, usable: set<nat>)
    requires s.heap.WellFormed()
    ensures RunsCoherent(s, usable) <==> Coherent(s, usable)
  {
    assert AllHarmless(s, []) && Run(s, []) == s;
    hide Coherent, AllHarmless, Run;
    if Coherent(s, usable) {
      forall ops | AllHarmless(s, ops)
        ensures Coherent(Run(s, ops), usable)
      {
        RunKeeps(s, ops, usable);
      }
    }
  }

  lemma CoherentWellFormed(s: State, usable: set<nat>)
    requires Coherent(s, usable)
    ensures s.heap.WellFormed()
  {
  }

  /** The live blocks alone determine bitmap, order map and counter. */
  lemma SameLiveSameMaps(s: State, t: State, usable: set<nat>)
    requires Coherent(s, usable) && Coherent(t, usable) && s.live == t.live && |s.heap.bits| == |t.heap.bits|
    ensures s.heap.bits == t.heap.bits && s.heap.orders == t.heap.orders && s.heap.used == t.heap.used
  {
    assert s.heap.bits == t.heap.bits;
    assert s.heap.orders == t.heap.orders;
  }

  /** Once coalesced, they determine the free blocks too. */
  lemma SameLiveSameHeap(s: State, t: State, usable: set<nat>)
    requires Coherent(s, usable) && Coalesced(s.heap.free)
    requires Coherent(t, usable) && Coalesced(t.heap.free)
    requires s.live == t.live && |s.heap.bits| == |t.heap.bits|
    ensures s.heap.bits == t.heap.bits && s.heap.orders == t.heap.orders && s.heap.used == t.heap.used
    ensures forall o :: 0 <= o < MAX_ORDER ==> multiset(s.heap.free[o]) == multiset(t.heap.free[o])
  {
    SameLiveSameMaps(s, t, usable);
    CanonicalForm(s.heap.free, t.heap.free, s.heap.bits, usable);
  }

  lemma {:induction false} RunKeepsSize(s: State, ops: seq<Op>)
    requires s.heap.WellFormed()
    ensures |Run(s, ops).heap.bits| == |s.heap.bits|
    decreases |ops|
  {
    if ops != [] {
      RunKeepsSize(Step(s, ops[0]), ops[1..]);
    }
  }

  /** A run that frees what it allocated, in whatever order, ends with the blocks it began with. */
  lemma RunReturnsToStart(s: State, ops: seq<Op>, usable: set<nat>)
    requires Coherent(s, usable) && Coalesced(s.heap.free) && AllHarmless(s, ops)
    requires Run(s, ops).live == s.live
    ensures var t := Run(s, ops);
            && t.heap.bits == s.heap.bits && t.heap.orders == s.heap.orders && t.heap.used == s.heap.used
            && forall o :: 0 <= o < MAX_ORDER ==> multiset(t.heap.free[o]) == multiset(s.heap.free[o])
  {
    RunKeeps(s, ops, usable);
    RunKeepsSize(s, ops);
    SameLiveSameHeap(Run(s, ops), s, usable);
  }

  // ---------------------------------------------------------------- one allocation undone

  /** The merge loop walks back up the very halves that the split loop listed. */
  lemma {:induction false} MergeUndoesSplit(free: FreeLists, bits: seq<bool>, b: nat, k: nat, j: nat)
    requires j <= k < MAX_ORDER && Aligned(b, k) && AllClear(bits, b, Pow2(k))
    ensures Merge(Split(free, b, k, j, |bits|).free, bits, b, j) == Merge(free, bits, b, k)
    decreases k
  {
    if j < k {
      hide Aligned, Buddy, Pow2, Merge, Split, AllClear, Push;
      SplitHead(free, bits, b, k, j);
      MergeUndoesSplit(Push(free, k - 1, b + Pow2(k - 1)), bits, b, k - 1, j);
      MergeHead(free, bits, b, k - 1);
    }
  }

  lemma SplitHead(free: FreeLists, bits: seq<bool>, b: nat, k: nat, j: nat)
    requires j < k < MAX_ORDER && Aligned(b, k) && AllClear(bits, b, Pow2(k))
    ensures Split(free, b, k, j, |bits|) == Split(Push(free, k - 1, b + Pow2(k - 1)), b, k - 1, j, |bits|)
    ensures Aligned(b, k - 1) && AllClear(bits, b, Pow2(k - 1))
  {
    AlignedHalves(b, k - 1);
    Pow2Doubles(k - 1);
    hide Aligned, Buddy, Pow2;
  }

  lemma MergeHead(free: FreeLists, bits: seq<bool>, b: nat, o: nat)
    requires o < MAX_ORDER - 1 && Aligned(b, o + 1) && AllClear(bits, b, Pow2(o + 1))
    ensures Merge(Push(free, o, b + Pow2(o)), bits, b, o) == Merge(free, bits, b, o + 1)
  {
    var r := b + Pow2(o);
    AlignedHalves(b, o);
    Pow2Doubles(o);
    hide Aligned, Buddy, Pow2;
    assert RemoveFirst([r] + free[o], r) == free[o];
    assert Remove(Push(free, o, r), o, r) == free;
  }

  lemma MergeStops(free: FreeLists, bits: seq<bool>, b: nat, k: nat)
    requires k < MAX_ORDER && (k == MAX_ORDER - 1 || Buddy(b, k) !in free[k])
    ensures Merge(free, bits, b, k) == MergeResult(free, b, k)
  {
  }

  lemma RestoreLists(free: FreeLists, k: nat, j: nat, bits: seq<bool>, usable: set<nat>)
    requires j <= k < MAX_ORDER && free[k] != [] && FreeInv(free, bits, usable) && Coalesced(free)
    ensures var b := free[k][0]; var m := Merge(Split(Pop(free, k), b, k, j, |bits|).free, bits, b, j);
            Push(m.free, m.order, m.block) == free
  {
    var b := free[k][0];
    assert Listed(free, k, b);
    ListedOk(free, k, b, bits, usable);
    MergeUndoesSplit(Pop(free, k), bits, b, k, j);
    MergeStops(Pop(free, k), bits, b, k);
    PopPush(free, k);
  }

  lemma RestoreCounter(used: nat, bytes: nat)
    requires used < 0x1_0000_0000
    ensures Wrap(Wrap(used + bytes) - bytes) == used
  {
  }

  lemma RestorePages(h: Heap, live: map<nat, nat>, usable: set<nat>, b: nat, j: nat)
    requires Inv(h, live, usable) && b !in live && AllClear(h.bits, b, Pow2(j))
    ensures b < |h.bits| && h.used < 0x1_0000_0000
    ensures h.orders[b := j][b := 0] == h.orders
    ensures SetRange(SetRange(h.bits, b, Pow2(j), true), b, Pow2(j), false) == h.bits
  {
    hide FreeInv, LiveShape, LiveApart, BitsMatch, ListedPages;
  }

  lemma GrantedThenReleased(h: Heap, h1: Heap, h2: Heap, live: map<nat, nat>, usable: set<nat>, k: nat, j: nat)
    requires Inv(h, live, usable) && Coalesced(h.free) && Granted(h, h1, k, j)
    requires h1.WellFormed() && Released(h1, h2, h.free[k][0], j)
    ensures h2 == h
  {
    var b := h.free[k][0];
    GrantedPages(h, h1, live, usable, k, j);
    RestorePages(h, live, usable, b, j);
    hide Inv, FreeInv, Split, Merge, Pow2, SetRange, Wrap, Bytes, Pop, Push, Coalesced, ListedPages, AllClear;
    RestoreCounter(h.used, Bytes(Pow2(j)));
    RestoreLists(h.free, k, j, h.bits, usable);
  }

  lemma GrantedPages(h: Heap, h1: Heap, live: map<nat, nat>, usable: set<nat>, k: nat, j: nat)
    requires Inv(h, live, usable) && Granted(h, h1, k, j)
    ensures h.free[k][0] !in live && AllClear(h.bits, h.free[k][0], Pow2(j)) && FreeInv(h.free, h.bits, usable)
  {
    GrantedKeepsFree(h, h1, usable, k, j);
    GrantedKeepsInv(h, h1, live, usable, k, j);
  }

  /** On a coalesced heap, freeing a fresh allocation restores every list, bit, order and the counter. */
  lemma MallocThenFree(h: Heap, live: map<nat, nat>, usable: set<nat>, size: nat)
    requires Inv(h, live, usable) && Coalesced(h.free) && Malloc(h, size).1.Some?
    ensures FreeBlock(Malloc(h, size).0, Malloc(h, size).1.value) == h
  {
    assert h.WellFormed();
    var (h', r) := Malloc(h, size);
    var j := GetOrder(size);
    MallocOutcome(h, live, usable, size);
    MallocKeepsInv(h, live, usable, size);
    hide *;
    FreeOutcome(h', live[r.value := j], usable, r.value);
    GrantedThenReleased(h, h', FreeBlock(h', r.value), live, usable, FirstNonEmpty(h.free, j), j);
  }

  // ---------------------------------------------------------------- the order of a request

  lemma {:induction false} OrderLoopLeast(size: nat, i: nat)
    requires i < MAX_ORDER && (i > 0 ==> Bytes(Pow2(i - 1)) < size)
    ensures var o := OrderLoop(size, Bytes(Pow2(i)), i);
            && i <= o < MAX_ORDER
            && (size <= Bytes(Pow2(o)) || o == MAX_ORDER - 1)
            && (o > 0 ==> Bytes(Pow2(o - 1)) < size)
    decreases MAX_ORDER - i
  {
    if Bytes(Pow2(i)) < size && i < MAX_ORDER - 1 {
      OrderLoopLeast(size, i + 1);
    }
  }

  /**
   `get_order` picks the least order that holds the request, exactly up to the largest block
   (2^31 bytes); above that the block it picks is too small.
   */
  lemma GetOrderLeast(size: nat)
    ensures size <= Bytes(Pow2(GetOrder(size))) <==> size <= Bytes(Pow2(MAX_ORDER - 1))
    ensures GetOrder(size) > 0 ==> Bytes(Pow2(GetOrder(size) - 1)) < size
  {
    OrderInRange(size);
    Pow2Monotone(GetOrder(size), MAX_ORDER - 1);
    if size > Bytes(1) {
      OrderLoopLeast(size, 0);
    }
  }
}
