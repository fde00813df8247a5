/**
 The page allocator of src/drivers/memory/pmm.c as functions on its state.

 Blocks are page numbers counted from HEAP_START, and every size below is in pages unless it is
 called bytes.  The functions keep all branches of the C code, including those that a coherent
 heap never takes, and so they also say what happens on heaps that are not coherent.
 */
module BuddyHeap {
  import opened Powers
  import opened BuddyBlocks
  import opened Options

  const MAX_ORDER: nat := 20
  /** The size in bytes of a number of pages. */
  function Bytes(pages: nat): nat {
    4096 * pages
  }

  /** 32-bit wrap-around, of sums above the range and of differences below it. */
  function Wrap(x: int): nat {
    x % 0x1_0000_0000
  }

  /** `free_lists`, each list from its head on. */
  type FreeLists = f: seq<seq<nat>> | |f| == MAX_ORDER witness seq(MAX_ORDER, _ => [])

  datatype Heap = Heap(free: FreeLists, bits: seq<bool>, orders: seq<nat>, used: nat)
  {
    predicate WellFormed() {
      |orders| == |bits|
    }
  }

  function Push(free: FreeLists, o: nat, b: nat): FreeLists
    requires o < MAX_ORDER
  {
    free[o := [b] + free[o]]
  }

  function Pop(free: FreeLists, o: nat): FreeLists
    requires o < MAX_ORDER && free[o] != []
  {
    free[o := free[o][1..]]
  }

  function RemoveFirst(s: seq<nat>, x: nat): seq<nat> {
    if s == [] then []
    else if s[0] == x then s[1..]
    else [s[0]] + RemoveFirst(s[1..], x)
  }

  function Remove(free: FreeLists, o: nat, b: nat): FreeLists
    requires o < MAX_ORDER
  {
    free[o := RemoveFirst(free[o], b)]
  }

  function SetRange(bits: seq<bool>, b: nat, n: nat, v: bool): (r: seq<bool>)
    requires b + n <= |bits|
    ensures |r| == |bits|
    ensures forall p :: 0 <= p < |bits| ==> r[p] == if b <= p < b + n then v else bits[p]
  {
    bits[..b] + seq(n, _ => v) + bits[b + n..]
  }

  /** `is_buddy_free`: the block is inside the heap and all its bits are clear. */
  predicate AllClear(bits: seq<bool>, b: nat, n: nat) {
    b + n <= |bits| && forall p :: b <= p < b + n ==> !bits[p]
  }

  // ---------------------------------------------------------------- pmm_malloc

  function OrderLoop(size: nat, blockSize: nat, order: nat): nat
    decreases MAX_ORDER - order
  {
    if blockSize < size && order < MAX_ORDER - 1
    then OrderLoop(size, 2 * blockSize, order + 1)
    else order
  }

  /** `get_order`: the order of block that serves a request of `size` bytes. */
  function GetOrder(size: nat): nat {
    if size <= Bytes(1) then 0 else OrderLoop(size, Bytes(1), 0)
  }

  function FirstNonEmpty(free: FreeLists, o: nat): (k: nat)
    ensures k >= o && (k < MAX_ORDER ==> free[k] != [])
    ensures forall i :: o <= i < k && i < MAX_ORDER ==> free[i] == []
    decreases MAX_ORDER - o
  {
    if o < MAX_ORDER && free[o] == [] then FirstNonEmpty(free, o + 1) else o
  }

  datatype SplitResult = SplitResult(free: FreeLists, block: nat, ok: bool)

  /** Halve block `b` from order `k` down to order `j`, listing the other half each time. */
  function Split(free: FreeLists, b: nat, k: nat, j: nat, n: nat): SplitResult
    requires k < MAX_ORDER
    decreases k
  {
    if k <= j then SplitResult(free, b, true)
    else
      var buddy := Buddy(b, k - 1);
      if buddy >= n then SplitResult(Push(free, k, b), b, false)
      else Split(Push(free, k - 1, buddy), Min(b, buddy), k - 1, j, n)
  }

  function Malloc(h: Heap, size: nat): (r: (Heap, Option<nat>))
    requires h.WellFormed()
    ensures r.0.WellFormed() && |r.0.bits| == |h.bits|
  {
    var n := |h.bits|;
    if size == 0 then (h, None)
    else
      var j := GetOrder(size);
      var k := FirstNonEmpty(h.free, j);
      if k >= MAX_ORDER then (h, None)
      else
        var b := h.free[k][0];
        var rest := Pop(h.free, k);
        if b >= n then (h.(free := Push(rest, k, b)), None)
        else
          var s := Split(rest, b, k, j, n);
          if !s.ok then (h.(free := s.free), None)
          else if s.block + Pow2(j) > n then (h.(free := Push(s.free, j, s.block)), None)
          else
            (Heap(s.free, SetRange(h.bits, s.block, Pow2(j), true), h.orders[s.block := j],
                  Wrap(h.used + Bytes(Pow2(j)))),
             Some(s.block))
  }

  // ---------------------------------------------------------------- pmm_free

  datatype MergeResult = MergeResult(free: FreeLists, block: nat, order: nat)

  /** Join the block `b` of order `o` with its buddy for as long as the buddy is free and listed. */
  function Merge(free: FreeLists, bits: seq<bool>, b: nat, o: nat): (m: MergeResult)
    requires o < MAX_ORDER
    ensures m.order < MAX_ORDER
    decreases MAX_ORDER - o
  {
    var buddy := Buddy(b, o);
    if o >= MAX_ORDER - 1 || buddy >= |bits| || !AllClear(bits, buddy, Pow2(o)) || buddy !in free[o]
    then MergeResult(free, b, o)
    else Merge(Remove(free, o, buddy), bits, Min(b, buddy), o + 1)
  }

  /** `pmm_free` from the point where the page number of the pointer is known. */
  function FreeBlock(h: Heap, b: nat): (r: Heap)
    requires h.WellFormed()
    ensures r.WellFormed() && |r.bits| == |h.bits|
  {
    var n := |h.bits|;
    if b >= n || !h.bits[b] || h.orders[b] >= MAX_ORDER then h
    else
      var o := h.orders[b];
      var count := if b + Pow2(o) > n then n - b else Pow2(o);
      var bits := SetRange(h.bits, b, count, false);
      var m := Merge(h.free, bits, b, o);
      Heap(Push(m.free, m.order, m.block), bits, h.orders[b := 0], Wrap(h.used - Bytes(Pow2(o))))
  }

  /** `pmm_free` on an address, for a heap of `bytes` bytes from page `hs` on. */
  function FreeAddress(h: Heap, hs: nat, bytes: nat, addr: nat): (r: Heap)
    requires h.WellFormed()
    ensures r.WellFormed() && |r.bits| == |h.bits|
  {
    if addr == 0 || !InHeap(hs, bytes, addr) then h else FreeBlock(h, PageOf(hs, addr))
  }

  /** A page-aligned address inside a heap of `bytes` bytes from page `hs` on. */
  predicate InHeap(hs: nat, bytes: nat, addr: nat) {
    Bytes(hs) <= addr < Bytes(hs) + bytes && addr % 4096 == 0
  }

  /** `addr_to_block`. */
  function PageOf(hs: nat, addr: nat): nat
    requires Bytes(hs) <= addr
  {
    (addr - Bytes(hs)) / 4096
  }

  /** `max_blocks` for a heap of that many bytes. */
  function PagesFor(bytes: nat): nat {
    (bytes + 4095) / 4096
  }

  lemma PageInHeap(hs: nat, bytes: nat, addr: nat)
    requires InHeap(hs, bytes, addr)
    ensures PageOf(hs, addr) < PagesFor(bytes) && addr == Bytes(hs + PageOf(hs, addr))
  {
  }

  /** The addresses accepted are those of the pages of the heap, the one at HEAP_START among them. */
  lemma InHeapIff(hs: nat, bytes: nat, addr: nat)
    ensures InHeap(hs, bytes, addr) <==> exists b: nat :: 4096 * b < bytes && addr == 4096 * (hs + b)
  {
    if InHeap(hs, bytes, addr) {
      var b := PageOf(hs, addr);
      assert 4096 * b < bytes && addr == 4096 * (hs + b);
    }
  }

  /** Freeing the address of a page frees the page. */
  lemma FreeAddressIs(h: Heap, hs: nat, bytes: nat, b: nat)
    requires h.WellFormed() && hs > 0 && 4096 * b < bytes
    ensures FreeAddress(h, hs, bytes, 4096 * (hs + b)) == FreeBlock(h, b)
  {
    assert InHeap(hs, bytes, 4096 * (hs + b)) && PageOf(hs, 4096 * (hs + b)) == b;
  }

  // ---------------------------------------------------------------- pmm_defragment

  /** The first list element with a buddy inside the heap whose bits are all clear. */
  function FirstCandidate(s: seq<nat>, o: nat, bits: seq<bool>): Option<nat> {
    if s == [] then None
    else
      var buddy := Buddy(s[0], o);
      if buddy < |bits| && AllClear(bits, buddy, Pow2(o)) then Some(s[0])
      else FirstCandidate(s[1..], o, bits)
  }

  /** Block and buddy leave the list of order `o`, and the block of twice the size is listed. */
  function Join(free: FreeLists, o: nat, b: nat): FreeLists
    requires o < MAX_ORDER - 1
  {
    var buddy := Buddy(b, o);
    Push(Remove(Remove(free, o, b), o, buddy), o + 1, Min(b, buddy))
  }

  /** The passes over one order: unlink the candidate and its buddy, list the join, start again. */
  function DefragOrder(free: FreeLists, o: nat, bits: seq<bool>): FreeLists
    requires o < MAX_ORDER - 1
    decreases |free[o]|
  {
    match FirstCandidate(free[o], o, bits)
    case None => free
    case Some(b) =>
      var buddy := Buddy(b, o);
      CandidateIsListed(free[o], o, bits);
      RemoveShortens(free[o], b);
      RemoveShortens(RemoveFirst(free[o], b), buddy);
      DefragOrder(Join(free, o, b), o, bits)
  }

  function DefragFrom(free: FreeLists, o: nat, bits: seq<bool>): FreeLists
    decreases MAX_ORDER - o
  {
    if o >= MAX_ORDER - 1 then free else DefragFrom(DefragOrder(free, o, bits), o + 1, bits)
  }

  /** `pmm_defragment`, which touches nothing but the free lists. */
  function Defragment(h: Heap): Heap {
    h.(free := DefragFrom(h.free, 0, h.bits))
  }

  lemma {:induction false} RemoveShortens(s: seq<nat>, x: nat)
    ensures |RemoveFirst(s, x)| == if x in s then |s| - 1 else |s|
    ensures forall y :: y in RemoveFirst(s, x) ==> y in s
    ensures forall y :: y in s && y != x ==> y in RemoveFirst(s, x)
  {
    if s != [] && s[0] != x {
      RemoveShortens(s[1..], x);
    }
  }

  lemma {:induction false} CandidateIsListed(s: seq<nat>, o: nat, bits: seq<bool>)
    ensures match FirstCandidate(s, o, bits)
            case Some(b) => b in s && Buddy(b, o) < |bits| && AllClear(bits, Buddy(b, o), Pow2(o))
            case None => forall b :: b in s ==> !(Buddy(b, o) < |bits| && AllClear(bits, Buddy(b, o), Pow2(o)))
  {
    if s != [] {
      CandidateIsListed(s[1..], o, bits);
    }
  }
}
