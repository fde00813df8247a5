/**
 What it means for the four views of the heap to agree: the free lists, the page bitmap, the
 order map and the byte counter, against the allocations that are live.
 */
module BuddyInvariant {
  import opened Powers
  import opened BuddyBlocks
  import opened BuddyHeap

  // ---------------------------------------------------------------- the free side

  predicate Listed(free: FreeLists, o: nat, b: nat) {
    o < MAX_ORDER && b in free[o]
  }

  ghost predicate FreeBlockOk(b: nat, o: nat, bits: seq<bool>, usable: set<nat>) {
    && Aligned(b, o)
    && AllClear(bits, b, Pow2(o))
    && forall p: nat :: Covers(b, o, p) ==> p in usable
  }

  ghost predicate Shape(free: FreeLists, bits: seq<bool>, usable: set<nat>) {
    forall o: nat, b: nat :: Listed(free, o, b) ==> FreeBlockOk(b, o, bits, usable)
  }

  ghost predicate PairwiseApart(free: FreeLists) {
    forall o1: nat, b1: nat, o2: nat, b2: nat ::
      Listed(free, o1, b1) && Listed(free, o2, b2) && (o1 != o2 || b1 != b2) ==> Apart(b1, o1, b2, o2)
  }

  ghost predicate NoDup(s: seq<nat>) {
    forall i, j :: 0 <= i < j < |s| ==> s[i] != s[j]
  }

  ghost predicate NoDuplicates(free: FreeLists) {
    forall o: nat :: o < MAX_ORDER ==> NoDup(free[o])
  }

  ghost predicate ListedCovers(free: FreeLists, p: nat) {
    exists o: nat, b: nat :: Listed(free, o, b) && Covers(b, o, p)
  }

  ghost predicate Tiled(free: FreeLists, bits: seq<bool>, usable: set<nat>) {
    forall p: nat :: p in usable ==> p < |bits| && (bits[p] || ListedCovers(free, p))
  }

  /** The listed blocks are aligned, free, apart, listed once, and leave out no free usable page. */
  ghost predicate FreeInv(free: FreeLists, bits: seq<bool>, usable: set<nat>) {
    && Shape(free, bits, usable)
    && PairwiseApart(free)
    && NoDuplicates(free)
    && Tiled(free, bits, usable)
  }

  /** No two buddies below the top order are both listed. */
  ghost predicate Coalesced(free: FreeLists) {
    forall o: nat, b: nat :: o < MAX_ORDER - 1 && Listed(free, o, b) ==> !Listed(free, o, Buddy(b, o))
  }

  /** No two buddies of an order below `n` are both listed. */
  ghost predicate CoalescedBelow(free: FreeLists, n: nat) {
    forall o: nat, b: nat :: o < n && o < MAX_ORDER - 1 && Listed(free, o, b) ==> !Listed(free, o, Buddy(b, o))
  }

  // ---------------------------------------------------------------- the live side

  /** Page `p` lies in the live block that starts at `b`; `live` gives each head its order. */
  predicate LiveAt(live: map<nat, nat>, b: nat, p: nat) {
    b in live && Covers(b, live[b], p)
  }

  ghost predicate LiveCovers(live: map<nat, nat>, p: nat) {
    exists b: nat :: LiveAt(live, b, p)
  }

  ghost predicate LiveShape(live: map<nat, nat>, n: nat) {
    forall b: nat :: b in live ==> live[b] < MAX_ORDER && Aligned(b, live[b]) && b + Pow2(live[b]) <= n
  }

  ghost predicate LiveApart(live: map<nat, nat>) {
    forall b1: nat, b2: nat :: b1 in live && b2 in live && b1 != b2 ==> Apart(b1, live[b1], b2, live[b2])
  }

  ghost predicate BitsMatch(live: map<nat, nat>, bits: seq<bool>) {
    forall p: nat :: p < |bits| ==> (bits[p] <==> LiveCovers(live, p))
  }

  ghost predicate OrdersMatch(live: map<nat, nat>, orders: seq<nat>) {
    forall p: nat :: p < |orders| ==> orders[p] == if p in live then live[p] else 0
  }

  /** Live blocks are aligned and apart; the bitmap marks their pages and the order map their heads. */
  ghost predicate LiveInv(live: map<nat, nat>, bits: seq<bool>, orders: seq<nat>) {
    && |orders| == |bits|
    && LiveShape(live, |bits|)
    && LiveApart(live)
    && BitsMatch(live, bits)
    && OrdersMatch(live, orders)
  }

  // ---------------------------------------------------------------- the counters

  function CountTrue(s: seq<bool>): nat {
    if s == [] then 0 else (if s[0] then 1 else 0) + CountTrue(s[1..])
  }

  /** Pages on the lists of order below `o`. */
  function ListedPages(free: FreeLists, o: nat): nat
    requires o <= MAX_ORDER
  {
    if o == 0 then 0 else ListedPages(free, o - 1) + |free[o - 1]| * Pow2(o - 1)
  }

  /** `used_memory` counts the live pages, and live and listed pages make up the usable memory. */
  ghost predicate Accounted(h: Heap, usable: set<nat>) {
    && h.used == Bytes(CountTrue(h.bits))
    && CountTrue(h.bits) + ListedPages(h.free, MAX_ORDER) == |usable|
    && Bytes(|usable|) < 0x1_0000_0000
  }

  ghost predicate Inv(h: Heap, live: map<nat, nat>, usable: set<nat>) {
    && FreeInv(h.free, h.bits, usable)
    && LiveInv(live, h.bits, h.orders)
    && (forall p: nat :: p < |h.bits| && h.bits[p] ==> p in usable)
    && Accounted(h, usable)
  }

  // ---------------------------------------------------------------- halving and joining a listed block

  lemma PushListed(free: FreeLists, o: nat, b: nat)
    requires o < MAX_ORDER
    ensures forall o': nat, x: nat ::
              Listed(Push(free, o, b), o', x) <==> Listed(free, o', x) || (o' == o && x == b)
  {
  }

  lemma RemoveListed(free: FreeLists, o: nat, b: nat)
    requires o < MAX_ORDER && NoDup(free[o])
    ensures forall o': nat, x: nat ::
              Listed(Remove(free, o, b), o', x) <==> Listed(free, o', x) && !(o' == o && x == b)
    ensures NoDup(Remove(free, o, b)[o])
  {
    RemoveNoDup(free[o], b);
  }

  lemma {:induction false} RemoveNoDup(s: seq<nat>, x: nat)
    requires NoDup(s)
    ensures NoDup(RemoveFirst(s, x))
    ensures forall y :: y in RemoveFirst(s, x) <==> y in s && y != x
  {
    if s != [] {
      RemoveNoDup(s[1..], x);
      assert s == [s[0]] + s[1..];
      assert s[0] !in s[1..];
      var r := RemoveFirst(s[1..], x);
      assert s[0] != x ==> NoDup([s[0]] + r);
    }
  }

  lemma ListedOk(free: FreeLists, o: nat, b: nat, bits: seq<bool>, usable: set<nat>)
    requires FreeInv(free, bits, usable) && Listed(free, o, b)
    ensures FreeBlockOk(b, o, bits, usable) && b + Pow2(o) <= |bits|
  {
  }

  /** The block at the head of a list overlaps nothing else that is listed. */
  lemma HeadIsAlone(free: FreeLists, o: nat, b: nat, bits: seq<bool>, usable: set<nat>)
    requires o < MAX_ORDER && FreeInv(Push(free, o, b), bits, usable)
    ensures forall o': nat, x: nat :: Listed(free, o', x) ==> Apart(b, o, x, o')
    ensures FreeBlockOk(b, o, bits, usable)
    ensures Shape(free, bits, usable) && PairwiseApart(free) && NoDuplicates(free)
  {
    var f := Push(free, o, b);
    PushListed(free, o, b);
    assert Listed(f, o, b);
    assert NoDup(f[o]);
    assert forall i :: 0 <= i < |free[o]| ==> f[o][0] != f[o][i + 1] == free[o][i];
    forall o': nat, x: nat | Listed(free, o', x)
      ensures Apart(b, o, x, o')
    {
      assert Listed(f, o', x);
    }
    assert forall o': nat, x: nat :: Listed(free, o', x) ==> Listed(f, o', x);
    forall o': nat | o' < MAX_ORDER
      ensures NoDup(free[o'])
    {
      assert NoDup(f[o']);
      if o' == o {
        assert forall i :: 0 <= i < |free[o]| ==> free[o][i] == f[o][i + 1];
      }
    }
  }

  /** A block apart from everything listed, with the rest tiled around it, can be listed. */
  lemma ListAlone(free: FreeLists, o: nat, b: nat, bits: seq<bool>, usable: set<nat>)
    requires o < MAX_ORDER && FreeBlockOk(b, o, bits, usable)
    requires Shape(free, bits, usable) && PairwiseApart(free) && NoDuplicates(free)
    requires forall o': nat, x: nat :: Listed(free, o', x) ==> Apart(b, o, x, o')
    requires forall p: nat :: p in usable ==>
               p < |bits| && (bits[p] || ListedCovers(free, p) || Covers(b, o, p))
    ensures FreeInv(Push(free, o, b), bits, usable)
  {
    var f := Push(free, o, b);
    PushListed(free, o, b);
    assert !Listed(free, o, b);
    forall p: nat | p in usable
      ensures p < |bits| && (bits[p] || ListedCovers(f, p))
    {
      if ListedCovers(free, p) {
        var o', x :| Listed(free, o', x) && Covers(x, o', p);
        assert Listed(f, o', x);
      } else if Covers(b, o, p) {
        assert Listed(f, o, b);
      }
    }
  }

  /** One round of the split loop keeps the free side coherent. */
  lemma SplitStep(free: FreeLists, k: nat, b: nat, bits: seq<bool>, usable: set<nat>)
    requires 0 < k < MAX_ORDER && FreeInv(Push(free, k, b), bits, usable)
    ensures Buddy(b, k - 1) == b + Pow2(k - 1) && b + Pow2(k) <= |bits|
    ensures FreeInv(Push(Push(free, k - 1, b + Pow2(k - 1)), k - 1, b), bits, usable)
  {
    var r := b + Pow2(k - 1);
    HeadIsAlone(free, k, b, bits, usable);
    AlignedHalves(b, k - 1);
    PushListed(free, k, b);
    forall p: nat | Covers(r, k - 1, p) || Covers(b, k - 1, p)
      ensures p in usable
    {
      assert Covers(b, k, p);
    }
    var mid := Push(free, k - 1, r);
    PushListed(free, k - 1, r);
    assert PairwiseApart(mid);
    assert Shape(mid, bits, usable);
    assert !Listed(free, k - 1, r);
    hide Aligned, Buddy, AllClear, NoDuplicates, PairwiseApart;
    forall p: nat | p in usable
      ensures p < |bits| && (bits[p] || ListedCovers(mid, p) || Covers(b, k - 1, p))
    {
      if !bits[p] {
        var o', x :| Listed(Push(free, k, b), o', x) && Covers(x, o', p);
        if Listed(free, o', x) {
          assert Listed(mid, o', x);
        } else if !Covers(b, k - 1, p) {
          assert Listed(mid, k - 1, r) && Covers(r, k - 1, p);
        }
      }
    }
    ListAlone(mid, k - 1, b, bits, usable);
  }

  /** One round of the merge loop keeps the free side coherent. */
  lemma MergeStep(free: FreeLists, o: nat, b: nat, bits: seq<bool>, usable: set<nat>)
    requires o < MAX_ORDER - 1 && FreeInv(Push(free, o, b), bits, usable)
    requires Buddy(b, o) in free[o]
    ensures FreeInv(Push(Remove(free, o, Buddy(b, o)), o + 1, Min(b, Buddy(b, o))), bits, usable)
  {
    var c := Buddy(b, o);
    var parent := Min(b, c);
    var rest := Remove(free, o, c);
    HeadIsAlone(free, o, b, bits, usable);
    AlignedBuddy(b, o);
    RemoveListed(free, o, c);
    PushListed(free, o, b);
    assert Listed(free, o, c) && FreeBlockOk(c, o, bits, usable);
    forall p: nat | Covers(parent, o + 1, p)
      ensures p in usable && p < |bits| && !bits[p]
    {
      assert Covers(b, o, p) || Covers(c, o, p);
    }
    forall p: nat | p in usable
      ensures p < |bits| && (bits[p] || ListedCovers(rest, p) || Covers(parent, o + 1, p))
    {
      if !bits[p] {
        var o', x :| Listed(Push(free, o, b), o', x) && Covers(x, o', p);
        if o' == o && (x == b || x == c) {
        } else {
          assert Listed(rest, o', x);
        }
      }
    }
    ListAlone(rest, o + 1, parent, bits, usable);
  }
}
