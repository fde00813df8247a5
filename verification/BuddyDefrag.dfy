/**
 What `pmm_defragment` does: when it changes nothing, when it joins buddies, and when it lists pages that
 are not free.
 */
module BuddyDefrag {
  import opened Powers
  import opened BuddyBlocks
  import opened BuddyHeap
  import opened BuddyInvariant
  import opened BuddySteps
  import opened BuddyCanonical
  import opened Options
  import opened Ranges

  /** The guard of the merging branch: the buddy is inside the heap and none of its bits is set. */
  predicate Candidate(free: FreeLists, bits: seq<bool>, o: nat, b: nat) {
    && o < MAX_ORDER - 1 && Listed(free, o, b)
    && Buddy(b, o) < |bits| && AllClear(bits, Buddy(b, o), Pow2(o))
  }

  ghost predicate NoCandidate(free: FreeLists, bits: seq<bool>) {
    forall o: nat, b: nat :: !Candidate(free, bits, o, b)
  }

  lemma {:induction false} IdleWithoutCandidate(free: FreeLists, o: nat, bits: seq<bool>)
    requires NoCandidate(free, bits)
    ensures DefragFrom(free, o, bits) == free
    decreases MAX_ORDER - o
  {
    if o < MAX_ORDER - 1 {
      CandidateIsListed(free[o], o, bits);
      assert forall b: nat :: FirstCandidate(free[o], o, bits) == Some(b) ==> Candidate(free, bits, o, b);
      IdleWithoutCandidate(free, o + 1, bits);
    }
  }

  /** The pages listed by one round: block and buddy leave, the join of twice the size is listed. */
  lemma RoundPages(free: FreeLists, o: nat, b: nat)
    requires o < MAX_ORDER - 1 && b in free[o]
    ensures var c := Buddy(b, o);
            var f := Join(free, o, b);
            ListedPages(f, MAX_ORDER)
              == ListedPages(free, MAX_ORDER) + if c in RemoveFirst(free[o], b) then 0 else Pow2(o)
  {
    var c := Buddy(b, o);
    var f1 := Remove(free, o, b);
    RemovePages(free, o, b);
    RemoveShortens(f1[o], c);
    if c in f1[o] {
      RemovePages(f1, o, c);
    } else {
      RemoveAbsent(f1[o], c);
      assert Remove(f1, o, c) == f1;
    }
    PushPages(Remove(f1, o, c), o + 1, Min(b, c));
  }

  lemma {:induction false} RemoveAbsent(s: seq<nat>, x: nat)
    requires x !in s
    ensures RemoveFirst(s, x) == s
  {
    if s != [] {
      RemoveAbsent(s[1..], x);
    }
  }

  lemma {:induction false} OrderNeverLosesPages(free: FreeLists, o: nat, bits: seq<bool>)
    requires o < MAX_ORDER - 1
    ensures ListedPages(DefragOrder(free, o, bits), MAX_ORDER) >= ListedPages(free, MAX_ORDER)
    decreases |free[o]|
  {
    match FirstCandidate(free[o], o, bits)
    case None =>
    case Some(b) =>
      var c := Buddy(b, o);
      CandidateIsListed(free[o], o, bits);
      RemoveShortens(free[o], b);
      RemoveShortens(RemoveFirst(free[o], b), c);
      RoundPages(free, o, b);
      OrderNeverLosesPages(Join(free, o, b), o, bits);
  }

  lemma {:induction false} NeverLosesPages(free: FreeLists, o: nat, bits: seq<bool>)
    ensures ListedPages(DefragFrom(free, o, bits), MAX_ORDER) >= ListedPages(free, MAX_ORDER)
    decreases MAX_ORDER - o
  {
    if o < MAX_ORDER - 1 {
      OrderNeverLosesPages(free, o, bits);
      NeverLosesPages(DefragOrder(free, o, bits), o + 1, bits);
    }
  }

  // ---------------------------------------------------------------- joins of listed buddies

  /** Every buddy that the passes over order `o` find free is on the list. */
  predicate OrderListed(free: FreeLists, o: nat, bits: seq<bool>)
    requires o < MAX_ORDER - 1
    decreases |free[o]|
  {
    match FirstCandidate(free[o], o, bits)
    case None => true
    case Some(b) =>
      var c := Buddy(b, o);
      CandidateIsListed(free[o], o, bits);
      RemoveShortens(free[o], b);
      RemoveShortens(RemoveFirst(free[o], b), c);
      c in free[o] && OrderListed(Join(free, o, b), o, bits)
  }

  /** Every buddy that `pmm_defragment` finds free, from order `o` on, is on the list. */
  predicate BuddiesListed(free: FreeLists, o: nat, bits: seq<bool>)
    decreases MAX_ORDER - o
  {
    o >= MAX_ORDER - 1 || (OrderListed(free, o, bits) && BuddiesListed(DefragOrder(free, o, bits), o + 1, bits))
  }

  /** A listed block may as well stand at the head of its list. */
  lemma MovedToFront(free: FreeLists, o: nat, b: nat, bits: seq<bool>, usable: set<nat>)
    requires o < MAX_ORDER && FreeInv(free, bits, usable) && b in free[o]
    ensures FreeInv(Push(Remove(free, o, b), o, b), bits, usable)
  {
    var f := Push(Remove(free, o, b), o, b);
    RemoveListed(free, o, b);
    PushListed(Remove(free, o, b), o, b);
    assert forall o': nat, x: nat :: Listed(f, o', x) <==> Listed(free, o', x);
    forall o': nat | o' < MAX_ORDER
      ensures NoDup(f[o'])
    {
      assert NoDup(free[o']);
      if o' == o {
        var r := RemoveFirst(free[o], b);
        assert f[o] == [b] + r && !Listed(Remove(free, o, b), o, b) && NoDup(r);
      }
    }
    hide Aligned, Pow2, AllClear;
    forall p: nat | p in usable
      ensures p < |bits| && (bits[p] || ListedCovers(f, p))
    {
      if !bits[p] {
        var o', x :| Listed(free, o', x) && Covers(x, o', p);
        assert Listed(f, o', x);
      }
    }
  }

  /** One round that joins two listed buddies keeps the free side coherent. */
  lemma RoundKeeps(free: FreeLists, o: nat, b: nat, bits: seq<bool>, usable: set<nat>)
    requires o < MAX_ORDER - 1 && FreeInv(free, bits, usable) && b in free[o] && Buddy(b, o) in free[o]
    ensures var c := Buddy(b, o); var f := Join(free, o, b);
            && FreeInv(f, bits, usable) && ListedPages(f, MAX_ORDER) == ListedPages(free, MAX_ORDER)
            && c in RemoveFirst(free[o], b) && b != c
  {
    var c := Buddy(b, o);
    assert Listed(free, o, b);
    ListedOk(free, o, b, bits, usable);
    AlignedBuddy(b, o);
    assert c != b;
    hide Buddy, Aligned, Pow2;
    RemoveListed(free, o, b);
    assert Listed(Remove(free, o, b), o, c);
    MovedToFront(free, o, b, bits, usable);
    MergeStep(Remove(free, o, b), o, b, bits, usable);
    RoundPages(free, o, b);
  }

  lemma {:induction false} OrderKeeps(free: FreeLists, o: nat, bits: seq<bool>, usable: set<nat>)
    requires o < MAX_ORDER - 1 && FreeInv(free, bits, usable) && OrderListed(free, o, bits)
    ensures FreeInv(DefragOrder(free, o, bits), bits, usable)
    ensures ListedPages(DefragOrder(free, o, bits), MAX_ORDER) == ListedPages(free, MAX_ORDER)
    decreases |free[o]|
  {
    hide FreeInv, ListedPages, Pow2, Buddy, AllClear;
    match FirstCandidate(free[o], o, bits)
    case None =>
    case Some(b) =>
      var c := Buddy(b, o);
      CandidateIsListed(free[o], o, bits);
      RemoveShortens(free[o], b);
      RemoveShortens(RemoveFirst(free[o], b), c);
      RoundKeeps(free, o, b, bits, usable);
      OrderKeeps(Join(free, o, b), o, bits, usable);
  }

  lemma {:induction false} ListedKeeps(free: FreeLists, o: nat, bits: seq<bool>, usable: set<nat>)
    requires FreeInv(free, bits, usable) && BuddiesListed(free, o, bits)
    ensures FreeInv(DefragFrom(free, o, bits), bits, usable)
    ensures ListedPages(DefragFrom(free, o, bits), MAX_ORDER) == ListedPages(free, MAX_ORDER)
    decreases MAX_ORDER - o
  {
    hide FreeInv, ListedPages;
    if o < MAX_ORDER - 1 {
      OrderKeeps(free, o, bits, usable);
      ListedKeeps(DefragOrder(free, o, bits), o + 1, bits, usable);
    }
  }

  // ---------------------------------------------------------------- joins with a block that is not listed

  lemma {:induction false} OrderGrows(free: FreeLists, o: nat, bits: seq<bool>)
    requires o < MAX_ORDER - 1 && !OrderListed(free, o, bits)
    ensures ListedPages(DefragOrder(free, o, bits), MAX_ORDER) > ListedPages(free, MAX_ORDER)
    decreases |free[o]|
  {
    CandidateIsListed(free[o], o, bits);
    var b := FirstCandidate(free[o], o, bits).value;
    var c := Buddy(b, o);
    RemoveShortens(free[o], b);
    RemoveShortens(RemoveFirst(free[o], b), c);
    RoundPages(free, o, b);
    var next := Join(free, o, b);
    hide ListedPages, AllClear;
    if c in free[o] {
      OrderGrows(next, o, bits);
    } else {
      OrderNeverLosesPages(next, o, bits);
    }
  }

  lemma {:induction false} UnlistedGrows(free: FreeLists, o: nat, bits: seq<bool>)
    requires !BuddiesListed(free, o, bits)
    ensures ListedPages(DefragFrom(free, o, bits), MAX_ORDER) > ListedPages(free, MAX_ORDER)
    decreases MAX_ORDER - o
  {
    hide ListedPages;
    if OrderListed(free, o, bits) {
      OrderNeverLosesPages(free, o, bits);
      UnlistedGrows(DefragOrder(free, o, bits), o + 1, bits);
    } else {
      OrderGrows(free, o, bits);
      NeverLosesPages(DefragOrder(free, o, bits), o + 1, bits);
    }
  }

  // ---------------------------------------------------------------- counting the listed pages

  function BlockPages(s: seq<nat>, o: nat): set<nat> {
    if s == [] then {} else Range(s[0], s[0] + Pow2(o)) + BlockPages(s[1..], o)
  }

  function PagesListed(free: FreeLists, o: nat): set<nat>
    requires o <= MAX_ORDER
  {
    if o == 0 then {} else PagesListed(free, o - 1) + BlockPages(free[o - 1], o - 1)
  }

  lemma {:induction false} BlockPagesMember(s: seq<nat>, o: nat, p: nat)
    ensures p in BlockPages(s, o) <==> exists i :: 0 <= i < |s| && Covers(s[i], o, p)
  {
    if s != [] {
      BlockPagesMember(s[1..], o, p);
      hide Pow2;
      if p in BlockPages(s[1..], o) {
        var i :| 0 <= i < |s[1..]| && Covers(s[1..][i], o, p);
        assert Covers(s[i + 1], o, p);
      }
      if exists i :: 0 <= i < |s| && Covers(s[i], o, p) {
        var i :| 0 <= i < |s| && Covers(s[i], o, p);
        assert i > 0 ==> s[1..][i - 1] == s[i];
      }
    }
  }

  lemma {:induction false} PagesListedMember(free: FreeLists, o: nat, p: nat)
    requires o <= MAX_ORDER
    ensures p in PagesListed(free, o) <==> exists i: nat, b: nat :: i < o && Listed(free, i, b) && Covers(b, i, p)
  {
    if o > 0 {
      PagesListedMember(free, o - 1, p);
      BlockPagesMember(free[o - 1], o - 1, p);
      hide Pow2;
      if p in BlockPages(free[o - 1], o - 1) {
        var j :| 0 <= j < |free[o - 1]| && Covers(free[o - 1][j], o - 1, p);
        assert Listed(free, o - 1, free[o - 1][j]);
      }
    }
  }

  /** The pages of the first block are not those of the others. */
  lemma FirstBlockApart(s: seq<nat>, o: nat)
    requires s != [] && forall i, j :: 0 <= i < j < |s| ==> Apart(s[i], o, s[j], o)
    ensures Range(s[0], s[0] + Pow2(o)) !! BlockPages(s[1..], o)
  {
    hide Pow2;
    forall p: nat | p in BlockPages(s[1..], o)
      ensures p !in Range(s[0], s[0] + Pow2(o))
    {
      BlockPagesMember(s[1..], o, p);
      var i :| 0 <= i < |s[1..]| && Covers(s[1..][i], o, p);
      assert Apart(s[0], o, s[i + 1], o);
    }
  }

  lemma {:induction false} BlockPagesCount(s: seq<nat>, o: nat)
    requires forall i, j :: 0 <= i < j < |s| ==> Apart(s[i], o, s[j], o)
    ensures |BlockPages(s, o)| == |s| * Pow2(o)
  {
    hide Apart, Pow2, Range;
    if s != [] {
      FirstBlockApart(s, o);
      var head, tail := Range(s[0], s[0] + Pow2(o)), BlockPages(s[1..], o);
      assert BlockPages(s, o) == head + tail;
      TailApart(s, o);
      hide BlockPages;
      BlockPagesCount(s[1..], o);
      RangeSize(s[0], s[0] + Pow2(o));
      AddSizes(head, tail, |s|, Pow2(o));
    }
  }

  lemma TailApart(s: seq<nat>, o: nat)
    requires s != [] && forall i, j :: 0 <= i < j < |s| ==> Apart(s[i], o, s[j], o)
    ensures forall i, j :: 0 <= i < j < |s[1..]| ==> Apart(s[1..][i], o, s[1..][j], o)
  {
    forall i, j | 0 <= i < j < |s[1..]|
      ensures Apart(s[1..][i], o, s[1..][j], o)
    {
      assert s[1..][i] == s[i + 1] && s[1..][j] == s[j + 1];
    }
  }

  lemma AddSizes(a: set<nat>, b: set<nat>, n: nat, m: nat)
    requires n > 0 && a !! b && |a| == m && |b| == (n - 1) * m
    ensures |a + b| == n * m
  {
    MulDistributes(n, 1, m);
    DisjointSum(a, b);
  }

  /** The pages listed at order `o` are not those listed at lower orders, and each block has its own. */
  lemma OrderApart(free: FreeLists, o: nat)
    requires o < MAX_ORDER && PairwiseApart(free) && NoDuplicates(free)
    ensures PagesListed(free, o) !! BlockPages(free[o], o)
    ensures forall i, j :: 0 <= i < j < |free[o]| ==> Apart(free[o][i], o, free[o][j], o)
  {
    hide Pow2;
    var s := free[o];
    assert NoDup(s);
    forall i, j | 0 <= i < j < |s|
      ensures Apart(s[i], o, s[j], o)
    {
      assert Listed(free, o, s[i]) && Listed(free, o, s[j]) && s[i] != s[j];
    }
    forall p: nat | p in BlockPages(s, o)
      ensures p !in PagesListed(free, o)
    {
      BlockPagesMember(s, o, p);
      PagesListedMember(free, o, p);
      var j :| 0 <= j < |s| && Covers(s[j], o, p);
      assert Listed(free, o, s[j]);
      forall i: nat, b: nat | i < o && Listed(free, i, b)
        ensures !Covers(b, i, p)
      {
        assert Apart(b, i, s[j], o);
      }
    }
  }

  lemma {:induction false} PagesListedCount(free: FreeLists, o: nat)
    requires o <= MAX_ORDER && PairwiseApart(free) && NoDuplicates(free)
    ensures |PagesListed(free, o)| == ListedPages(free, o)
  {
    hide PairwiseApart, NoDuplicates, Apart, Pow2, BlockPages;
    if o > 0 {
      OrderApart(free, o - 1);
      BlockPagesCount(free[o - 1], o - 1);
      PagesListedCount(free, o - 1);
      PagesListedNext(free, o);
    }
  }

  lemma PagesListedNext(free: FreeLists, o: nat)
    requires 0 < o <= MAX_ORDER && PagesListed(free, o - 1) !! BlockPages(free[o - 1], o - 1)
    ensures |PagesListed(free, o)| == |PagesListed(free, o - 1)| + |BlockPages(free[o - 1], o - 1)|
  {
    DisjointSum(PagesListed(free, o - 1), BlockPages(free[o - 1], o - 1));
  }

  /** Two coherent free sides over the same free pages list equally many pages. */
  lemma SamePages(f: FreeLists, g: FreeLists, bits: seq<bool>, usable: set<nat>)
    requires FreeInv(f, bits, usable) && FreeInv(g, bits, usable)
    ensures ListedPages(f, MAX_ORDER) == ListedPages(g, MAX_ORDER)
  {
    PagesListedCount(f, MAX_ORDER);
    PagesListedCount(g, MAX_ORDER);
    forall p: nat
      ensures p in PagesListed(f, MAX_ORDER) <==> p in PagesListed(g, MAX_ORDER)
    {
      CoveredIff(f, bits, usable, p);
      CoveredIff(g, bits, usable, p);
    }
    assert PagesListed(f, MAX_ORDER) == PagesListed(g, MAX_ORDER);
  }

  lemma CoveredIff(f: FreeLists, bits: seq<bool>, usable: set<nat>, p: nat)
    requires FreeInv(f, bits, usable)
    ensures p in PagesListed(f, MAX_ORDER) <==> p in usable && p < |bits| && !bits[p]
  {
    PagesListedMember(f, MAX_ORDER, p);
    hide Aligned, Pow2;
    if i: nat, b: nat :| i < MAX_ORDER && Listed(f, i, b) && Covers(b, i, p) {
      ListedOk(f, i, b, bits, usable);
    }
    if p in usable && p < |bits| && !bits[p] {
      var o, b :| Listed(f, o, b) && Covers(b, o, p);
    }
  }

  // ---------------------------------------------------------------- heaps whose holes are out of reach

  ghost predicate AllUsable(b: nat, o: nat, usable: set<nat>) {
    forall p: nat :: Covers(b, o, p) ==> p in usable
  }

  /** A free run whose buddy is clear, though a page of no region lies in it. */
  ghost predicate HalfHole(bits: seq<bool>, usable: set<nat>, o: nat, b: nat) {
    && o < MAX_ORDER - 1 && AllFree(b, o, bits, usable)
    && AllClear(bits, Buddy(b, o), Pow2(o)) && !AllUsable(Buddy(b, o), o, usable)
  }

  /** The clear buddy of a free run has usable pages only. */
  ghost predicate HolesApart(bits: seq<bool>, usable: set<nat>) {
    forall o: nat, b: nat :: !HalfHole(bits, usable, o, b)
  }

  /**
   Where the lower orders are coalesced, a free buddy that is not listed has a page in it that is not
   usable memory.
   */
  lemma CandidateHasHole(free: FreeLists, bits: seq<bool>, usable: set<nat>, o: nat, b: nat)
    requires FreeInv(free, bits, usable) && CoalescedBelow(free, o) && Candidate(free, bits, o, b)
    requires Buddy(b, o) !in free[o]
    ensures exists p: nat :: Covers(Buddy(b, o), o, p) && p !in usable
  {
    ListedOk(free, o, b, bits, usable);
    var c := Buddy(b, o);
    AlignedBuddy(b, o);
    if forall p: nat :: Covers(c, o, p) ==> p in usable {
      hide Aligned, Buddy;
      assert AllFree(c, o, bits, usable);
      var c', o' := FreeRunIsListed(free, bits, usable, c, o);
      ListedOk(free, o', c', bits, usable);
      if o' > o {
        ParentMeets(c, o, c', o');
      }
    }
  }

  lemma ParentMeets(c: nat, o: nat, c': nat, o': nat)
    requires o < o' && Aligned(c, o) && Aligned(c', o') && Contains(c', o', c, o)
    ensures !Apart(Buddy(c, o), o, c', o')
  {
    AlignedBuddy(c, o);
    NestedOrApart(Min(c, Buddy(c, o)), o + 1, c', o');
  }

  lemma ListedIsFree(free: FreeLists, o: nat, b: nat, bits: seq<bool>, usable: set<nat>)
    requires FreeInv(free, bits, usable) && Listed(free, o, b)
    ensures AllFree(b, o, bits, usable)
  {
    ListedOk(free, o, b, bits, usable);
    hide Aligned;
  }

  /** With the holes out of reach every buddy found free is listed. */
  lemma {:induction false} OrderIsListed(free: FreeLists, o: nat, bits: seq<bool>, usable: set<nat>)
    requires o < MAX_ORDER - 1 && FreeInv(free, bits, usable) && CoalescedBelow(free, o) && HolesApart(bits, usable)
    ensures OrderListed(free, o, bits)
    decreases |free[o]|
  {
    CandidateIsListed(free[o], o, bits);
    match FirstCandidate(free[o], o, bits)
    case None =>
    case Some(b) =>
      var c := Buddy(b, o);
      assert Listed(free, o, b) && Candidate(free, bits, o, b) && !HalfHole(bits, usable, o, b);
      if c !in free[o] {
        CandidateHasHole(free, bits, usable, o, b);
        ListedIsFree(free, o, b, bits, usable);
      }
      RemoveShortens(free[o], b);
      RemoveShortens(RemoveFirst(free[o], b), c);
      RoundKeeps(free, o, b, bits, usable);
      hide FreeInv, Pow2, Buddy, AllClear, HolesApart;
      var next := Join(free, o, b);
      assert forall i: nat :: i < o ==> next[i] == free[i];
      OrderIsListed(next, o, bits, usable);
  }

  /** The passes over one order join every pair of buddies and touch no lower order. */
  lemma {:induction false} OrderCoalesces(free: FreeLists, o: nat, bits: seq<bool>, usable: set<nat>)
    requires o < MAX_ORDER - 1 && FreeInv(free, bits, usable) && CoalescedBelow(free, o) && OrderListed(free, o, bits)
    ensures CoalescedBelow(DefragOrder(free, o, bits), o + 1)
    decreases |free[o]|
  {
    CandidateIsListed(free[o], o, bits);
    match FirstCandidate(free[o], o, bits)
    case None => NoneLeft(free, o, bits, usable);
    case Some(b) =>
      var c := Buddy(b, o);
      RemoveShortens(free[o], b);
      RemoveShortens(RemoveFirst(free[o], b), c);
      RoundKeeps(free, o, b, bits, usable);
      hide FreeInv, Pow2, Buddy, AllClear;
      var next := Join(free, o, b);
      assert forall i: nat :: i < o ==> next[i] == free[i];
      OrderCoalesces(next, o, bits, usable);
  }

  lemma NoneLeft(free: FreeLists, o: nat, bits: seq<bool>, usable: set<nat>)
    requires o < MAX_ORDER - 1 && FreeInv(free, bits, usable) && CoalescedBelow(free, o)
    requires FirstCandidate(free[o], o, bits) == None
    ensures CoalescedBelow(free, o + 1)
  {
    CandidateIsListed(free[o], o, bits);
    hide FirstCandidate, Aligned, Pow2;
    forall b: nat | Listed(free, o, b)
      ensures !Listed(free, o, Buddy(b, o))
    {
      if Listed(free, o, Buddy(b, o)) {
        ListedOk(free, o, Buddy(b, o), bits, usable);
      }
    }
  }

  lemma {:induction false} FromCoalesces(free: FreeLists, o: nat, bits: seq<bool>, usable: set<nat>)
    requires o <= MAX_ORDER - 1 && FreeInv(free, bits, usable) && CoalescedBelow(free, o) && HolesApart(bits, usable)
    ensures BuddiesListed(free, o, bits) && Coalesced(DefragFrom(free, o, bits))
    decreases MAX_ORDER - o
  {
    hide FreeInv, OrderListed, DefragOrder, HolesApart;
    if o < MAX_ORDER - 1 {
      OrderIsListed(free, o, bits, usable);
      OrderCoalesces(free, o, bits, usable);
      OrderKeeps(free, o, bits, usable);
      hide CoalescedBelow;
      FromCoalesces(DefragOrder(free, o, bits), o + 1, bits, usable);
    }
  }

  // ---------------------------------------------------------------- holes within reach

  /** A candidate whose buddy has a hole in it stays one until a pass joins the two. */
  lemma {:induction false} OrderMeetsHole(free: FreeLists, o: nat, bits: seq<bool>, usable: set<nat>, b: nat)
    requires o < MAX_ORDER - 1 && FreeInv(free, bits, usable)
    requires Candidate(free, bits, o, b) && !AllUsable(Buddy(b, o), o, usable)
    ensures !OrderListed(free, o, bits)
    decreases |free[o]|
  {
    CandidateIsListed(free[o], o, bits);
    HoleUnlisted(free, o, bits, usable, b);
    var b1 := FirstCandidate(free[o], o, bits).value;
    if Buddy(b1, o) in free[o] {
      BuddyOfListed(free, o, bits, usable, b1);
      RemoveShortens(free[o], b1);
      RemoveShortens(RemoveFirst(free[o], b1), Buddy(b1, o));
      RoundKeeps(free, o, b1, bits, usable);
      hide FreeInv, Pow2, Buddy, AllClear, AllUsable;
      OrderMeetsHole(Join(free, o, b1), o, bits, usable, b);
    }
  }

  lemma HoleUnlisted(free: FreeLists, o: nat, bits: seq<bool>, usable: set<nat>, b: nat)
    requires FreeInv(free, bits, usable) && o < MAX_ORDER && !AllUsable(Buddy(b, o), o, usable)
    ensures Buddy(b, o) !in free[o]
  {
    if Listed(free, o, Buddy(b, o)) {
      ListedOk(free, o, Buddy(b, o), bits, usable);
    }
  }

  lemma BuddyOfListed(free: FreeLists, o: nat, bits: seq<bool>, usable: set<nat>, b: nat)
    requires FreeInv(free, bits, usable) && Listed(free, o, b)
    ensures Buddy(Buddy(b, o), o) == b
  {
    ListedOk(free, o, b, bits, usable);
    AlignedBuddy(b, o);
  }

  /** The free run of a half hole is a listed block once the lower orders are coalesced. */
  lemma HalfHoleIsListed(free: FreeLists, bits: seq<bool>, usable: set<nat>, o: nat, b: nat)
    requires FreeInv(free, bits, usable) && CoalescedBelow(free, o) && HalfHole(bits, usable, o, b)
    ensures Candidate(free, bits, o, b)
  {
    var b', o' := FreeRunIsListed(free, bits, usable, b, o);
    ListedOk(free, o', b', bits, usable);
    AlignedBuddy(b, o);
    var c := Buddy(b, o);
    hide Aligned, Buddy;
    if o' > o {
      ParentInside(b, o, b', o', bits, usable);
    }
  }

  lemma {:induction false} MeetsHole(free: FreeLists, o: nat, bits: seq<bool>, usable: set<nat>, oc: nat, b: nat)
    requires o <= oc && FreeInv(free, bits, usable) && CoalescedBelow(free, o) && HalfHole(bits, usable, oc, b)
    ensures !BuddiesListed(free, o, bits)
    decreases MAX_ORDER - o
  {
    hide FreeInv, AllFree, AllClear, AllUsable, OrderListed, CoalescedBelow, Candidate;
    if o == oc {
      HalfHoleIsListed(free, bits, usable, o, b);
      OrderMeetsHole(free, o, bits, usable, b);
    } else if OrderListed(free, o, bits) {
      OrderKeeps(free, o, bits, usable);
      OrderCoalesces(free, o, bits, usable);
      MeetsHole(DefragOrder(free, o, bits), o + 1, bits, usable, oc, b);
    }
  }

  /** Every buddy that the routine finds free is listed exactly when the holes are out of reach. */
  lemma BuddiesListedIff(free: FreeLists, bits: seq<bool>, usable: set<nat>)
    requires FreeInv(free, bits, usable)
    ensures BuddiesListed(free, 0, bits) <==> HolesApart(bits, usable)
  {
    assert CoalescedBelow(free, 0);
    hide FreeInv, HalfHole, CoalescedBelow;
    if HolesApart(bits, usable) {
      FromCoalesces(free, 0, bits, usable);
    } else {
      var o: nat, b: nat :| HalfHole(bits, usable, o, b);
      MeetsHole(free, 0, bits, usable, o, b);
    }
  }

  // ---------------------------------------------------------------- the theorems

  /**
   `pmm_defragment` keeps the free side of a coherent heap coherent exactly when no free run has a clear
   buddy with a page of no region in it.
   */
  lemma DefragmentKeepsIff(h: Heap, usable: set<nat>)
    requires FreeInv(h.free, h.bits, usable)
    ensures FreeInv(Defragment(h).free, h.bits, usable) <==> HolesApart(h.bits, usable)
  {
    BuddiesListedIff(h.free, h.bits, usable);
    hide FreeInv, ListedPages, HolesApart;
    if BuddiesListed(h.free, 0, h.bits) {
      ListedKeeps(h.free, 0, h.bits, usable);
    } else {
      UnlistedGrows(h.free, 0, h.bits);
      if FreeInv(Defragment(h).free, h.bits, usable) {
        SamePages(h.free, Defragment(h).free, h.bits, usable);
      }
    }
  }

  /** Then the four views stay in agreement, and no two buddies are left listed. */
  lemma DefragmentCoalesces(h: Heap, live: map<nat, nat>, usable: set<nat>)
    requires Inv(h, live, usable) && HolesApart(h.bits, usable)
    ensures Inv(Defragment(h), live, usable) && Coalesced(Defragment(h).free)
  {
    assert CoalescedBelow(h.free, 0);
    hide FreeInv, LiveInv, ListedPages, HolesApart, CoalescedBelow, Coalesced;
    FromCoalesces(h.free, 0, h.bits, usable);
    ListedKeeps(h.free, 0, h.bits, usable);
  }

  /** Without pages of no region there is no such run. */
  lemma NoHolesApart(bits: seq<bool>, usable: set<nat>)
    requires forall p: nat :: p < |bits| ==> p in usable
    ensures HolesApart(bits, usable)
  {
  }

  /** Two such heaps with the same free pages are left with the same blocks on every list. */
  lemma DefragmentIsCanonical(g: Heap, h: Heap, live: map<nat, nat>, usable: set<nat>)
    requires Inv(g, live, usable) && Inv(h, live, usable) && g.bits == h.bits && HolesApart(h.bits, usable)
    ensures forall o :: 0 <= o < MAX_ORDER ==> multiset(Defragment(g).free[o]) == multiset(Defragment(h).free[o])
  {
    DefragmentCoalesces(g, live, usable);
    DefragmentCoalesces(h, live, usable);
    hide FreeInv, LiveInv, Coalesced, HolesApart;
    CanonicalForm(Defragment(g).free, Defragment(h).free, h.bits, usable);
  }

  // ---------------------------------------------------------------- coalesced heaps

  /** On a coalesced heap the buddy of a candidate is not listed, so the first join lists extra pages. */
  lemma {:induction false} CandidateGrowsLists(free: FreeLists, o: nat, bits: seq<bool>, oc: nat, bc: nat)
    requires Coalesced(free) && o <= oc && Candidate(free, bits, oc, bc)
    ensures ListedPages(DefragFrom(free, o, bits), MAX_ORDER) > ListedPages(free, MAX_ORDER)
    decreases MAX_ORDER - o
  {
    CandidateIsListed(free[o], o, bits);
    match FirstCandidate(free[o], o, bits)
    case None =>
      CandidateGrowsLists(free, o + 1, bits, oc, bc);
    case Some(b) =>
      var c := Buddy(b, o);
      assert Listed(free, o, b);
      RemoveShortens(free[o], b);
      RemoveShortens(RemoveFirst(free[o], b), c);
      RoundPages(free, o, b);
      OrderNeverLosesPages(Join(free, o, b), o, bits);
      NeverLosesPages(DefragOrder(free, o, bits), o + 1, bits);
  }

  /** On a coalesced heap `pmm_defragment` changes nothing exactly when its merge guard never holds. */
  lemma DefragmentIdleIff(h: Heap)
    requires Coalesced(h.free)
    ensures Defragment(h) == h <==> NoCandidate(h.free, h.bits)
  {
    if NoCandidate(h.free, h.bits) {
      IdleWithoutCandidate(h.free, 0, h.bits);
    } else {
      var o: nat, b: nat :| Candidate(h.free, h.bits, o, b);
      CandidateGrowsLists(h.free, 0, h.bits, o, b);
    }
  }

  /** On a coherent coalesced heap the merge guard never holds exactly when the holes are out of reach. */
  lemma NoCandidateIff(free: FreeLists, bits: seq<bool>, usable: set<nat>)
    requires FreeInv(free, bits, usable) && Coalesced(free)
    ensures NoCandidate(free, bits) <==> HolesApart(bits, usable)
  {
    if o: nat, b: nat :| Candidate(free, bits, o, b) {
      assert Listed(free, o, b);
      CandidateHasHole(free, bits, usable, o, b);
      ListedIsFree(free, o, b, bits, usable);
      assert HalfHole(bits, usable, o, b);
    }
    if o: nat, b: nat :| HalfHole(bits, usable, o, b) {
      HalfHoleIsListed(free, bits, usable, o, b);
    }
  }

  /** So there the free side stays coherent exactly when the merge guard never holds. */
  lemma CoalescedKeepsIff(h: Heap, usable: set<nat>)
    requires FreeInv(h.free, h.bits, usable) && Coalesced(h.free)
    ensures FreeInv(Defragment(h).free, h.bits, usable) <==> NoCandidate(h.free, h.bits)
  {
    NoCandidateIff(h.free, h.bits, usable);
    DefragmentKeepsIff(h, usable);
  }

  /** When every page up to the end of the heap is usable, `pmm_defragment` changes nothing. */
  lemma DefragmentIdleOnWholeHeap(h: Heap, live: map<nat, nat>, usable: set<nat>)
    requires Inv(h, live, usable) && Coalesced(h.free)
    requires forall p: nat :: p < |h.bits| ==> p in usable
    ensures Defragment(h) == h
  {
    NoHolesApart(h.bits, usable);
    NoCandidateIff(h.free, h.bits, usable);
    DefragmentIdleIff(h);
  }
}
