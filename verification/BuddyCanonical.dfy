/** On a coalesced heap the free lists are a function of the set of free pages. */
module BuddyCanonical {
  import opened Powers
  import opened BuddyBlocks
  import opened BuddyHeap
  import opened BuddyInvariant
  import opened BuddyRuns

  /** An aligned run of 2^o usable pages, none of them allocated. */
  ghost predicate AllFree(b: nat, o: nat, bits: seq<bool>, usable: set<nat>) {
    Aligned(b, o) && forall p: nat :: Covers(b, o, p) ==> p in usable && p < |bits| && !bits[p]
  }

  /** A free run that is not half of a larger free run. */
  ghost predicate MaximalFree(b: nat, o: nat, bits: seq<bool>, usable: set<nat>) {
    && AllFree(b, o, bits, usable)
    && (o < MAX_ORDER - 1 ==> !AllFree(Min(b, Buddy(b, o)), o + 1, bits, usable))
  }

  ghost predicate Contains(b: nat, o: nat, b': nat, o': nat) {
    b <= b' && b' + Pow2(o') <= b + Pow2(o)
  }

  lemma HalvesAreFree(b: nat, o: nat, bits: seq<bool>, usable: set<nat>)
    requires AllFree(b, o + 1, bits, usable)
    ensures AllFree(b, o, bits, usable) && AllFree(b + Pow2(o), o, bits, usable)
  {
    AlignedHalves(b, o);
    hide Aligned;
    forall p: nat | Covers(b, o, p) || Covers(b + Pow2(o), o, p)
      ensures p in usable && p < |bits| && !bits[p]
    {
      assert Covers(b, o + 1, p);
    }
  }

  /** Every aligned free run lies inside one listed block. */
  lemma {:induction false} FreeRunIsListed(free: FreeLists, bits: seq<bool>, usable: set<nat>, b: nat, o: nat)
    returns (b': nat, o': nat)
    requires FreeInv(free, bits, usable) && CoalescedBelow(free, o)
    requires o < MAX_ORDER && AllFree(b, o, bits, usable)
    ensures Listed(free, o', b') && o <= o' && Contains(b', o', b, o)
    decreases o
  {
    hide Aligned;
    if o == 0 {
      assert Covers(b, 0, b);
      o', b' :| Listed(free, o', b') && Covers(b', o', b);
    } else {
      var r := b + Pow2(o - 1);
      AlignedHalves(b, o - 1);
      HalvesAreFree(b, o - 1, bits, usable);
      var b1, o1 := FreeRunIsListed(free, bits, usable, b, o - 1);
      var b2, o2 := FreeRunIsListed(free, bits, usable, r, o - 1);
      HalvesAreJoined(free, bits, usable, b, o, b1, o1, b2, o2);
      if o1 >= o {
        b', o' := b1, o1;
        NestedOrApart(b, o, b1, o1);
      } else {
        b', o' := b2, o2;
        NestedOrApart(b, o, b2, o2);
      }
    }
  }

  /** On a coalesced heap the two halves of a run cannot both be listed as blocks of their own. */
  lemma HalvesAreJoined(free: FreeLists, bits: seq<bool>, usable: set<nat>,
                        b: nat, o: nat, b1: nat, o1: nat, b2: nat, o2: nat)
    requires FreeInv(free, bits, usable) && CoalescedBelow(free, o)
    requires 0 < o < MAX_ORDER && Aligned(b, o)
    requires Listed(free, o1, b1) && o - 1 <= o1 && Contains(b1, o1, b, o - 1)
    requires Listed(free, o2, b2) && o - 1 <= o2 && Contains(b2, o2, b + Pow2(o - 1), o - 1)
    ensures o1 >= o || o2 >= o
    ensures Aligned(b1, o1) && Aligned(b2, o2)
  {
    ListedOk(free, o1, b1, bits, usable);
    ListedOk(free, o2, b2, bits, usable);
    AlignedHalves(b, o - 1);
    hide Aligned;
    assert o1 == o - 1 ==> b1 == b;
    assert o2 == o - 1 ==> b2 == Buddy(b, o - 1);
  }

  lemma ListedIsMaximal(free: FreeLists, bits: seq<bool>, usable: set<nat>, b: nat, o: nat)
    requires FreeInv(free, bits, usable) && Coalesced(free) && Listed(free, o, b)
    ensures MaximalFree(b, o, bits, usable)
  {
    ListedOk(free, o, b, bits, usable);
    AlignedBuddy(b, o);
    hide Aligned, Buddy;
    var parent := Min(b, Buddy(b, o));
    if o < MAX_ORDER - 1 && AllFree(parent, o + 1, bits, usable) {
      var b', o' := FreeRunIsListed(free, bits, usable, parent, o + 1);
    }
  }

  lemma ParentInside(b: nat, o: nat, b': nat, o': nat, bits: seq<bool>, usable: set<nat>)
    requires o < o' && Aligned(b, o) && Contains(b', o', b, o) && FreeBlockOk(b', o', bits, usable)
    ensures AllFree(Min(b, Buddy(b, o)), o + 1, bits, usable)
  {
    AlignedBuddy(b, o);
    hide Aligned, Buddy;
    var parent := Min(b, Buddy(b, o));
    NestedOrApart(parent, o + 1, b', o');
    assert forall p: nat :: Covers(parent, o + 1, p) ==> Covers(b', o', p);
  }

  lemma MaximalIsListed(free: FreeLists, bits: seq<bool>, usable: set<nat>, b: nat, o: nat)
    requires FreeInv(free, bits, usable) && Coalesced(free)
    requires o < MAX_ORDER && MaximalFree(b, o, bits, usable)
    ensures Listed(free, o, b)
  {
    var b', o' := FreeRunIsListed(free, bits, usable, b, o);
    ListedOk(free, o', b', bits, usable);
    if o' > o {
      ParentInside(b, o, b', o', bits, usable);
    }
  }

  /** A block is listed exactly when it is a maximal aligned run of free pages. */
  lemma ListedIffMaximal(free: FreeLists, bits: seq<bool>, usable: set<nat>, b: nat, o: nat)
    requires FreeInv(free, bits, usable) && Coalesced(free) && o < MAX_ORDER
    ensures Listed(free, o, b) <==> MaximalFree(b, o, bits, usable)
  {
    if Listed(free, o, b) {
      ListedIsMaximal(free, bits, usable, b, o);
    }
    if MaximalFree(b, o, bits, usable) {
      MaximalIsListed(free, bits, usable, b, o);
    }
  }

  lemma {:induction false} NoDupMultiset(s: seq<nat>, x: nat)
    requires NoDup(s)
    ensures multiset(s)[x] == if x in s then 1 else 0
  {
    if s != [] {
      NoDupMultiset(s[1..], x);
      assert s == [s[0]] + s[1..];
      assert s[0] !in s[1..];
    }
  }

  /** Two coalesced heaps with the same free pages list the same blocks, each as often. */
  lemma CanonicalForm(f: FreeLists, g: FreeLists, bits: seq<bool>, usable: set<nat>)
    requires FreeInv(f, bits, usable) && Coalesced(f)
    requires FreeInv(g, bits, usable) && Coalesced(g)
    ensures forall o :: 0 <= o < MAX_ORDER ==> multiset(f[o]) == multiset(g[o])
  {
    forall o: nat | o < MAX_ORDER
      ensures multiset(f[o]) == multiset(g[o])
    {
      forall x: nat
        ensures multiset(f[o])[x] == multiset(g[o])[x]
      {
        ListedIffMaximal(f, bits, usable, x, o);
        ListedIffMaximal(g, bits, usable, x, o);
        NoDupMultiset(f[o], x);
        NoDupMultiset(g[o], x);
      }
    }
  }

  /** The allocator is complete: it refuses a request only when no aligned run of pages could serve it. */
  lemma MallocFailsIff(h: Heap, live: map<nat, nat>, usable: set<nat>, size: nat)
    requires Inv(h, live, usable) && Coalesced(h.free)
    ensures Malloc(h, size).1.None? <==> size == 0 || !exists b: nat :: AllFree(b, GetOrder(size), h.bits, usable)
  {
    var j := GetOrder(size);
    OrderInRange(size);
    MallocOutcome(h, live, usable, size);
    hide GetOrder, Malloc;
    if size > 0 {
      var k := FirstNonEmpty(h.free, j);
      if k < MAX_ORDER {
        TakeBlock(h.free, k, j, h.bits, usable);
        assert Listed(h.free, k, h.free[k][0]);
        ListedOk(h.free, k, h.free[k][0], h.bits, usable);
        FreeBlockIsFree(h.free[k][0], k, j, h.bits, usable);
      } else if exists b: nat :: AllFree(b, j, h.bits, usable) {
        assert forall i :: j <= i < MAX_ORDER ==> h.free[i] == [];
        var b: nat :| AllFree(b, j, h.bits, usable);
        var b', o' := FreeRunIsListed(h.free, h.bits, usable, b, j);
      }
    }
  }

  lemma FreeBlockIsFree(b: nat, k: nat, j: nat, bits: seq<bool>, usable: set<nat>)
    requires j <= k && FreeBlockOk(b, k, bits, usable)
    ensures AllFree(b, j, bits, usable)
  {
    Pow2Monotone(j, k);
    AlignedDown(b, k, j);
    assert forall p: nat :: Covers(b, j, p) ==> Covers(b, k, p);
  }
}
