/** What mapping one page, and page after page, does to the flat page map. */
module PageRanges {
  import opened Paging
  import opened Options

  /** Frame `f` is the directory or one of its tables. */
  ghost predicate PartOf(m: Memory, dir: nat, f: nat)
    requires Walkable(m, dir)
  {
    f == dir || exists i :: 0 <= i < 1024 && Tabled(m, dir, i) && TableFrame(m, dir, i) == f
  }

  /** Frames that were neither free nor part of the directory are as they were. */
  ghost predicate Untouched(m0: Memory, free0: set<nat>, m: Memory, dir: nat)
    requires Walkable(m0, dir)
  {
    forall f :: f in m0 && f !in free0 && !PartOf(m0, dir, f) ==> f in m && m[f] == m0[f]
  }

  /** Slots keep their tables, and new tables come from free frames. */
  ghost predicate TablesGrow(m0: Memory, free0: set<nat>, m: Memory, dir: nat)
    requires Walkable(m0, dir) && Walkable(m, dir)
  {
    forall i :: 0 <= i < 1024 ==>
      if Tabled(m0, dir, i) then Tabled(m, dir, i) && TableFrame(m, dir, i) == TableFrame(m0, dir, i)
      else Tabled(m, dir, i) ==> TableFrame(m, dir, i) in free0
  }

  /** What every operation on a directory keeps. */
  ghost predicate Evolved(m0: Memory, free0: set<nat>, m: Memory, free: set<nat>, dir: nat) {
    && Sane(m0, free0, dir) && Sane(m, free, dir) && free <= free0
    && Untouched(m0, free0, m, dir) && TablesGrow(m0, free0, m, dir)
  }

  lemma EvolvedThen(m0: Memory, free0: set<nat>, m1: Memory, free1: set<nat>, m2: Memory, free2: set<nat>, dir: nat)
    requires Evolved(m0, free0, m1, free1, dir) && Evolved(m1, free1, m2, free2, dir)
    ensures Evolved(m0, free0, m2, free2, dir)
  {
  }

  lemma TakeEvolves(m: Memory, free: set<nat>, dir: nat, f: nat)
    requires Sane(m, free, dir) && f in free
    ensures Evolved(m, free, Zeroed(m, f), free - {f}, dir)
  {
    TakeKeeps(m, free, dir, f);
    var m' := Zeroed(m, f);
    assert forall i :: 0 <= i < 1024 ==> Tabled(m', dir, i) == Tabled(m, dir, i);
  }

  // ---------------------------------------------------------------- one page

  /** The flat map after `vmm_map_page_in`: its own page, and the rest of a 4 MB entry that had to go. */
  ghost predicate MapsPage(m0: Memory, m: Memory, dir: nat, p: Page, g: nat, flags: nat)
    requires Walkable(m0, dir) && Walkable(m, dir)
  {
    && Paged(m, dir, p)
    && forall q: Page ::
         Lookup(m, dir, q) ==
           if q == p then Some(Mapping(g, flags))
           else if q / 1024 == p / 1024 && !Tabled(m0, dir, p / 1024) then None
           else Lookup(m0, dir, q)
  }

  /** `vmm_map_page_in` either maps the page or, for want of a frame for a table, does nothing. */
  ghost predicate MappedOne(m0: Memory, free0: set<nat>, m: Memory, free: set<nat>, dir: nat, p: Page, g: nat,
                            flags: nat) {
    && Evolved(m0, free0, m, free, dir)
    && (forall i :: 0 <= i < 1024 && i != p / 1024 ==> Pde(m, dir, i) == Pde(m0, dir, i))
    && if !Tabled(m0, dir, p / 1024) && free0 == {} then m == m0 && free == free0
       else
         && MapsPage(m0, m, dir, p, g, flags) && (forall f :: f in free0 && f !in free ==> PartOf(m, dir, f))
         && |free0| == |free| + (if Tabled(m0, dir, p / 1024) then 0 else 1)
  }

  lemma TableEvolves(m: Memory, free: set<nat>, dir: nat, i: nat, f: nat)
    requires Sane(m, free, dir) && i < 1024 && f in free && !Tabled(m, dir, i)
    ensures Evolved(m, free, WithTable(m, dir, i, f), free - {f}, dir)
  {
    TableKeeps(m, free, dir, i, f);
    var m' := WithTable(m, dir, i, f);
    assert forall j :: 0 <= j < 1024 && j != i ==> Tabled(m', dir, j) == Tabled(m, dir, j);
    EntryIsSmall(f);
    assert TableFrame(m', dir, i) == f;
  }

  lemma SetEvolves(m: Memory, free: set<nat>, dir: nat, p: Page, g: nat, flags: nat)
    requires Sane(m, free, dir) && Tabled(m, dir, p / 1024) && Loose(m, free, dir, g) && flags % 2 == 1 && flags < 4096
    ensures Evolved(m, free, WithPte(m, dir, p, Entry(g * 4096, flags)), free, dir)
  {
    var w := Entry(g * 4096, flags);
    SetKeeps(m, free, dir, p, g, flags);
    PteAlone(m, dir, p, w);
    var m' := WithPte(m, dir, p, w);
    assert forall j :: 0 <= j < 1024 ==> Tabled(m', dir, j) == Tabled(m, dir, j);
    assert forall f :: f in m && !PartOf(m, dir, f) ==> f in m' && m'[f] == m[f];
  }

  // ---------------------------------------------------------------- ranges of pages

  /** The page `k` behind `first`; page numbers wrap around. */
  function Nth(first: Page, k: nat): Page {
    (first + k) % 0x10_0000
  }

  predicate InRange(first: Page, n: nat, q: Page) {
    (q - first) % 0x10_0000 < n
  }

  ghost predicate SlotTouched(first: Page, n: nat, i: nat) {
    exists q: Page :: InRange(first, n, q) && q / 1024 == i
  }

  lemma RangeStep(first: Page, k: nat, q: Page)
    requires k < 0x10_0000
    ensures InRange(first, k + 1, q) <==> InRange(first, k, q) || q == Nth(first, k)
    ensures !InRange(first, k, Nth(first, k))
  {
  }

  lemma TouchedStep(first: Page, k: nat, i: nat)
    requires k < 0x10_0000
    ensures SlotTouched(first, k + 1, i) <==> SlotTouched(first, k, i) || i == Nth(first, k) / 1024
  {
    RangeStep(first, k, Nth(first, k));
    if SlotTouched(first, k, i) {
      var q: Page :| InRange(first, k, q) && q / 1024 == i;
      RangeStep(first, k, q);
    }
    if SlotTouched(first, k + 1, i) {
      var q: Page :| InRange(first, k + 1, q) && q / 1024 == i;
      RangeStep(first, k, q);
    }
  }

  /** Page `q` is mapped by a table entry to a frame of its own that was free and reads zero. */
  ghost predicate FreshAt(m: Memory, free0: set<nat>, dir: nat, q: Page, flags: nat)
    requires Walkable(m, dir)
  {
    && Paged(m, dir, q) && Lookup(m, dir, q) == Some(Mapping(DataFrame(m, dir, q), flags))
    && DataFrame(m, dir, q) in free0
    && DataFrame(m, dir, q) in m && m[DataFrame(m, dir, q)] == Bytes(ZeroBytes())
  }

  /** The slots of the range that have no table yet. */
  ghost function NewSlots(m: Memory, dir: nat, first: Page, n: nat): set<nat>
    requires TableAt(m, dir)
  {
    set i: nat | i < 1024 && !Tabled(m, dir, i) && SlotTouched(first, n, i)
  }

  /** The last page of the range lies in a slot without a table that no page before it touches. */
  ghost predicate LastIsNew(m: Memory, dir: nat, first: Page, n: nat)
    requires TableAt(m, dir)
  {
    n > 0 && var i := Nth(first, n - 1) / 1024; !Tabled(m, dir, i) && !SlotTouched(first, n - 1, i)
  }

  /** The frames that mapping the range takes: one a page, and one a new table. */
  ghost function FramesNeeded(m: Memory, dir: nat, first: Page, n: nat): nat
    requires TableAt(m, dir)
  {
    n + |NewSlots(m, dir, first, n)|
  }

  lemma NewSlotsStep(m: Memory, dir: nat, first: Page, k: nat)
    requires TableAt(m, dir) && k < 0x10_0000
    ensures FramesNeeded(m, dir, first, k + 1) ==
            FramesNeeded(m, dir, first, k) + (if LastIsNew(m, dir, first, k + 1) then 2 else 1)
  {
    var i: nat := Nth(first, k) / 1024;
    var now, next := NewSlots(m, dir, first, k), NewSlots(m, dir, first, k + 1);
    forall j: nat | j < 1024
      ensures SlotTouched(first, k + 1, j) <==> SlotTouched(first, k, j) || j == i
    {
      TouchedStep(first, k, j);
    }
    if LastIsNew(m, dir, first, k + 1) {
      assert next == now + {i} && i !in now;
    } else {
      assert next == now;
    }
  }

  lemma {:induction false} FramesNeededBounds(m: Memory, dir: nat, first: Page, k: nat, n: nat)
    requires TableAt(m, dir) && k <= n <= 0x10_0000
    ensures FramesNeeded(m, dir, first, k) + (n - k) <= FramesNeeded(m, dir, first, n)
    ensures FramesNeeded(m, dir, first, n) <= FramesNeeded(m, dir, first, k) + 2 * (n - k)
    decreases n - k
  {
    if k < n {
      NewSlotsStep(m, dir, first, k);
      FramesNeededBounds(m, dir, first, k + 1, n);
    }
  }

  /** Frame `f` is mapped at some page of the range. */
  ghost predicate InUse(m: Memory, dir: nat, first: Page, n: nat, f: nat)
    requires Walkable(m, dir)
  {
    exists q: Page :: InRange(first, n, q) && Paged(m, dir, q) && DataFrame(m, dir, q) == f
  }

  /** Every frame that was free is still free, a table now, or mapped in the range. */
  ghost predicate Accounted(free0: set<nat>, m: Memory, free: set<nat>, dir: nat, first: Page, n: nat)
    requires Walkable(m, dir)
  {
    forall f :: f in free0 ==> f in free || PartOf(m, dir, f) || InUse(m, dir, first, n, f)
  }

  /** The mapping of a page outside the range: kept, unless a 4 MB entry had to make room. */
  ghost function Spared(m0: Memory, dir: nat, first: Page, n: nat, q: Page): Option<Mapping>
    requires Walkable(m0, dir)
  {
    if SlotTouched(first, n, q / 1024) && !Tabled(m0, dir, q / 1024) then None else Lookup(m0, dir, q)
  }

  /**
   What mapping `n` pages from `first` on does: every page of the range gets a fresh zero frame, every
   other page keeps its mapping, but for the 4 MB entries that had to make room, no frame that was free
   gets lost, and exactly the frames needed are taken.
   */
  ghost predicate RangeMapped(m0: Memory, free0: set<nat>, m: Memory, free: set<nat>, dir: nat,
                              first: Page, n: nat, flags: nat) {
    && Evolved(m0, free0, m, free, dir)
    && (forall i :: 0 <= i < 1024 ==>
          if SlotTouched(first, n, i) then Tabled(m, dir, i) else Pde(m, dir, i) == Pde(m0, dir, i))
    && (forall q: Page :: InRange(first, n, q) ==> FreshAt(m, free0, dir, q, flags))
    && (forall q: Page :: !InRange(first, n, q) ==> Lookup(m, dir, q) == Spared(m0, dir, first, n, q))
    && Accounted(free0, m, free, dir, first, n)
    && |free0| == |free| + FramesNeeded(m0, dir, first, n)
  }

  /**
   What it does when the frames run out exactly at the table for the last page: the pages before it are
   mapped, and the last frame was handed out for the last page and is in no entry and in no free list.
   */
  ghost predicate RangeShort(m0: Memory, free0: set<nat>, m: Memory, free: set<nat>, dir: nat,
                             first: Page, n: nat, flags: nat) {
    n > 0 && free == {} && exists m1: Memory, lost: nat ::
      && RangeMapped(m0, free0, m1, {lost}, dir, first, n - 1, flags)
      && m == Zeroed(m1, lost) && !Tabled(m1, dir, Nth(first, n - 1) / 1024)
  }

  lemma NoneMapped(m: Memory, free: set<nat>, dir: nat, first: Page, flags: nat)
    requires Sane(m, free, dir)
    ensures RangeMapped(m, free, m, free, dir, first, 0, flags)
  {
  }

  lemma NoneUnmapped(m: Memory, free: set<nat>, dir: nat, first: Page)
    requires Sane(m, free, dir)
    ensures RangeUnmapped(m, free, m, free, dir, first, 0)
  {
  }

  /** Mapping one more page takes nothing away from a page that has a fresh frame. */
  lemma FreshStays(m1: Memory, free1: set<nat>, m: Memory, free: set<nat>, dir: nat, q: Page, free0: set<nat>,
                   flags: nat)
    requires Evolved(m1, free1, m, free, dir) && FreshAt(m1, free0, dir, q, flags)
    requires Lookup(m, dir, q) == Lookup(m1, dir, q)
    ensures FreshAt(m, free0, dir, q, flags)
  {
  }

  /** What the lemmas about one more page share: `pmm_malloc` handed out `f`, and it was mapped. */
  ghost predicate NextPage(m1: Memory, free1: set<nat>, f: nat, m: Memory, free: set<nat>,
                           dir: nat, p: Page, flags: nat) {
    && Sane(m1, free1, dir) && f in free1
    && MappedOne(Zeroed(m1, f), free1 - {f}, m, free, dir, p, f, flags)
    && (Tabled(m1, dir, p / 1024) || free1 != {f})
  }

  /** Seen from before the frame was taken: the page is mapped, and the rest of its slot goes with a new table. */
  lemma NextMaps(m1: Memory, free1: set<nat>, f: nat, m: Memory, free: set<nat>, dir: nat, p: Page, flags: nat)
    requires NextPage(m1, free1, f, m, free, dir, p, flags)
    ensures Evolved(m1, free1, m, free, dir) && MapsPage(m1, m, dir, p, f, flags)
    ensures forall i :: 0 <= i < 1024 && i != p / 1024 ==> Pde(m, dir, i) == Pde(m1, dir, i)
    ensures forall x :: x in free1 && x != f && x !in free ==> PartOf(m, dir, x)
    ensures |free1| == |free| + (if Tabled(m1, dir, p / 1024) then 1 else 2)
    ensures f in m && m[f] == Bytes(ZeroBytes()) && DataFrame(m, dir, p) == f
  {
    TakeKeeps(m1, free1, dir, f);
    TakeEvolves(m1, free1, dir, f);
    EvolvedThen(m1, free1, Zeroed(m1, f), free1 - {f}, m, free, dir);
    assert Tabled(Zeroed(m1, f), dir, p / 1024) == Tabled(m1, dir, p / 1024);
    assert free1 - {f} == {} ==> free1 == {f};
    FreshNow(Zeroed(m1, f), free1 - {f}, m, free, dir, p, f, flags);
  }

  lemma FreshNow(m2: Memory, free2: set<nat>, m: Memory, free: set<nat>, dir: nat, p: Page, f: nat, flags: nat)
    requires Evolved(m2, free2, m, free, dir) && Loose(m2, free2, dir, f) && m2[f] == Bytes(ZeroBytes())
    requires MapsPage(m2, m, dir, p, f, flags)
    ensures f in m && m[f] == Bytes(ZeroBytes()) && DataFrame(m, dir, p) == f
  {
    assert Lookup(m, dir, p) == Some(Mapping(f, flags));
    assert BytesAt(m2, f) && !PartOf(m2, dir, f);
  }

  /** One more page. */
  lemma RangeNext(m0: Memory, free0: set<nat>, m1: Memory, free1: set<nat>, f: nat, m: Memory, free: set<nat>,
                  dir: nat, first: Page, k: nat, flags: nat)
    requires k < 0x10_0000 && RangeMapped(m0, free0, m1, free1, dir, first, k, flags)
    requires NextPage(m1, free1, f, m, free, dir, Nth(first, k), flags)
    ensures RangeMapped(m0, free0, m, free, dir, first, k + 1, flags)
  {
    NextMaps(m1, free1, f, m, free, dir, Nth(first, k), flags);
    EvolvedThen(m0, free0, m1, free1, m, free, dir);
    var n := k + 1;
    forall i | 0 <= i < 1024
      ensures if SlotTouched(first, n, i) then Tabled(m, dir, i) else Pde(m, dir, i) == Pde(m0, dir, i)
    {
      TouchedStep(first, k, i);
    }
    forall q: Page | InRange(first, n, q)
      ensures FreshAt(m, free0, dir, q, flags)
    {
      RangeStep(first, k, q);
      NextInside(m0, free0, m1, free1, f, m, free, dir, first, k, flags, q);
    }
    forall q: Page | !InRange(first, n, q)
      ensures Lookup(m, dir, q) == Spared(m0, dir, first, n, q)
    {
      RangeStep(first, k, q);
      NextOutside(m0, free0, m1, free1, f, m, free, dir, first, k, flags, q);
    }
    NextAccounted(m0, free0, m1, free1, f, m, free, dir, first, k, flags);
    NewSlotsStep(m0, dir, first, k);
    SlotTabled(m0, free0, m1, free1, dir, first, k, flags);
  }

  /** The slot of the next page has a table unless it is new. */
  lemma SlotTabled(m0: Memory, free0: set<nat>, m1: Memory, free1: set<nat>, dir: nat, first: Page, k: nat, flags: nat)
    requires k < 0x10_0000 && RangeMapped(m0, free0, m1, free1, dir, first, k, flags)
    ensures Tabled(m1, dir, Nth(first, k) / 1024) <==> !LastIsNew(m0, dir, first, k + 1)
  {
    var i := Nth(first, k) / 1024;
    assert !SlotTouched(first, k, i) ==> Pde(m1, dir, i) == Pde(m0, dir, i);
  }

  lemma NextInside(m0: Memory, free0: set<nat>, m1: Memory, free1: set<nat>, f: nat, m: Memory, free: set<nat>,
                   dir: nat, first: Page, k: nat, flags: nat, q: Page)
    requires k < 0x10_0000 && RangeMapped(m0, free0, m1, free1, dir, first, k, flags)
    requires Evolved(m1, free1, m, free, dir) && f in free1 && MapsPage(m1, m, dir, Nth(first, k), f, flags)
    requires f in m && m[f] == Bytes(ZeroBytes()) && DataFrame(m, dir, Nth(first, k)) == f
    requires InRange(first, k, q) || q == Nth(first, k)
    ensures FreshAt(m, free0, dir, q, flags)
  {
    if q != Nth(first, k) {
      assert FreshAt(m1, free0, dir, q, flags);
      FreshStays(m1, free1, m, free, dir, q, free0, flags);
    }
  }

  lemma NextOutside(m0: Memory, free0: set<nat>, m1: Memory, free1: set<nat>, f: nat, m: Memory, free: set<nat>,
                    dir: nat, first: Page, k: nat, flags: nat, q: Page)
    requires k < 0x10_0000 && RangeMapped(m0, free0, m1, free1, dir, first, k, flags)
    requires Evolved(m1, free1, m, free, dir) && MapsPage(m1, m, dir, Nth(first, k), f, flags)
    requires !InRange(first, k, q) && q != Nth(first, k)
    ensures Lookup(m, dir, q) == Spared(m0, dir, first, k + 1, q)
  {
    assert Lookup(m1, dir, q) == Spared(m0, dir, first, k, q);
    TouchedStep(first, k, q / 1024);
    var i := q / 1024;
    assert !SlotTouched(first, k, i) ==> Pde(m1, dir, i) == Pde(m0, dir, i);
  }

  lemma NextAccounted(m0: Memory, free0: set<nat>, m1: Memory, free1: set<nat>, f: nat, m: Memory, free: set<nat>,
                      dir: nat, first: Page, k: nat, flags: nat)
    requires k < 0x10_0000 && RangeMapped(m0, free0, m1, free1, dir, first, k, flags)
    requires Evolved(m1, free1, m, free, dir) && MapsPage(m1, m, dir, Nth(first, k), f, flags)
    requires DataFrame(m, dir, Nth(first, k)) == f
    requires forall x :: x in free1 && x != f && x !in free ==> PartOf(m, dir, x)
    ensures Accounted(free0, m, free, dir, first, k + 1)
  {
    RangeStep(first, k, Nth(first, k));
    assert InUse(m, dir, first, k + 1, f);
    forall x | x in free0
      ensures x in free || PartOf(m, dir, x) || InUse(m, dir, first, k + 1, x)
    {
      if PartOf(m1, dir, x) {
        PartStays(m1, free1, m, free, dir, x);
      } else if InUse(m1, dir, first, k, x) {
        var q: Page :| InRange(first, k, q) && Paged(m1, dir, q) && DataFrame(m1, dir, q) == x;
        RangeStep(first, k, q);
        assert Lookup(m, dir, q) == Lookup(m1, dir, q) && Tabled(m, dir, q / 1024);
        assert Paged(m, dir, q) && DataFrame(m, dir, q) == x;
      }
    }
  }

  lemma PartStays(m1: Memory, free1: set<nat>, m: Memory, free: set<nat>, dir: nat, f: nat)
    requires Evolved(m1, free1, m, free, dir) && PartOf(m1, dir, f)
    ensures PartOf(m, dir, f)
  {
  }

  // ---------------------------------------------------------------- lost frames

  /** Frame `f` is in no free list, in no table entry, and no table. */
  ghost predicate IsLost(m: Memory, free: set<nat>, dir: nat, f: nat)
    requires Walkable(m, dir)
  {
    f !in free && !PartOf(m, dir, f) && forall q: Page :: Paged(m, dir, q) ==> DataFrame(m, dir, q) != f
  }

  /** The frames that are lost afterwards: those lost before, those that the range held, and those in `spare`. */
  ghost predicate Loses(m0: Memory, free0: set<nat>, m: Memory, free: set<nat>, dir: nat, first: Page, n: nat,
                        spare: set<nat>)
    requires Walkable(m0, dir) && Walkable(m, dir)
  {
    && spare <= free0
    && forall f: nat ::
         IsLost(m, free, dir, f) <==> IsLost(m0, free0, dir, f) || InUse(m0, dir, first, n, f) || f in spare
  }

  /** A page outside the range keeps its table entry. */
  lemma EntryOutside(m0: Memory, free0: set<nat>, m: Memory, free: set<nat>, dir: nat, first: Page, n: nat, flags: nat,
                    q: Page)
    requires RangeMapped(m0, free0, m, free, dir, first, n, flags) && !InRange(first, n, q)
    ensures Paged(m, dir, q) <==> Paged(m0, dir, q)
    ensures Paged(m, dir, q) ==> DataFrame(m, dir, q) == DataFrame(m0, dir, q)
  {
    var i := q / 1024;
    assert Lookup(m, dir, q) == Spared(m0, dir, first, n, q);
    assert !SlotTouched(first, n, i) ==> Pde(m, dir, i) == Pde(m0, dir, i);
  }

  lemma NewlyLost(m0: Memory, free0: set<nat>, m: Memory, free: set<nat>, dir: nat, first: Page, n: nat, flags: nat,
                  f: nat)
    requires RangeMapped(m0, free0, m, free, dir, first, n, flags) && IsLost(m, free, dir, f)
    ensures IsLost(m0, free0, dir, f) || InUse(m0, dir, first, n, f)
  {
    forall q: Page | Paged(m0, dir, q) && !InRange(first, n, q)
      ensures DataFrame(m0, dir, q) != f
    {
      EntryOutside(m0, free0, m, free, dir, first, n, flags, q);
    }
    if PartOf(m0, dir, f) {
      PartStays(m0, free0, m, free, dir, f);
    }
    assert f in free0 ==> InUse(m, dir, first, n, f);
  }

  lemma StaysLost(m0: Memory, free0: set<nat>, m: Memory, free: set<nat>, dir: nat, first: Page, n: nat, flags: nat,
                  f: nat)
    requires RangeMapped(m0, free0, m, free, dir, first, n, flags)
    requires IsLost(m0, free0, dir, f) || InUse(m0, dir, first, n, f)
    ensures IsLost(m, free, dir, f)
  {
    assert f !in free0 && !PartOf(m0, dir, f);
    forall q: Page | Paged(m, dir, q)
      ensures DataFrame(m, dir, q) != f
    {
      if InRange(first, n, q) {
        assert FreshAt(m, free0, dir, q, flags);
      } else {
        EntryOutside(m0, free0, m, free, dir, first, n, flags, q);
      }
    }
  }

  /** Mapping a range loses exactly the frames that table entries of the range held. */
  lemma RangeLoses(m0: Memory, free0: set<nat>, m: Memory, free: set<nat>, dir: nat, first: Page, n: nat, flags: nat)
    requires RangeMapped(m0, free0, m, free, dir, first, n, flags)
    ensures Loses(m0, free0, m, free, dir, first, n, {})
  {
    forall f: nat
      ensures IsLost(m, free, dir, f) <==> IsLost(m0, free0, dir, f) || InUse(m0, dir, first, n, f)
    {
      if IsLost(m, free, dir, f) {
        NewlyLost(m0, free0, m, free, dir, first, n, flags, f);
      }
      if IsLost(m0, free0, dir, f) || InUse(m0, dir, first, n, f) {
        StaysLost(m0, free0, m, free, dir, first, n, flags, f);
      }
    }
  }

  /** When the frames run out at the last table, one more is lost. */
  lemma ShortLoses(m0: Memory, free0: set<nat>, m1: Memory, lost: nat, dir: nat, first: Page, n: nat, flags: nat)
    requires 0 < n <= 0x10_0000 && RangeMapped(m0, free0, m1, {lost}, dir, first, n - 1, flags)
    requires !Tabled(m1, dir, Nth(first, n - 1) / 1024)
    ensures Walkable(m0, dir) && Walkable(Zeroed(m1, lost), dir)
    ensures Loses(m0, free0, Zeroed(m1, lost), {}, dir, first, n, {lost})
  {
    MappedWalks(m0, free0, m1, {lost}, dir, first, n - 1, flags);
    hide RangeMapped, Zeroed, Walkable, Loses;
    RangeLoses(m0, free0, m1, {lost}, dir, first, n - 1, flags);
    SpareLost(m0, free0, m1, lost, dir, first, n, flags);
    LastEntry(m0, free0, m1, lost, dir, first, n, flags);
    AddLost(m0, free0, m1, lost, Zeroed(m1, lost), dir, first, n);
  }

  lemma ShortWitness(m0: Memory, free0: set<nat>, m: Memory, free: set<nat>, dir: nat, first: Page, n: nat, flags: nat)
    returns (m1: Memory, lost: nat)
    requires RangeShort(m0, free0, m, free, dir, first, n, flags)
    ensures n > 0 && free == {} && RangeMapped(m0, free0, m1, {lost}, dir, first, n - 1, flags)
    ensures m == Zeroed(m1, lost) && !Tabled(m1, dir, Nth(first, n - 1) / 1024)
  {
    m1, lost :|
      && RangeMapped(m0, free0, m1, {lost}, dir, first, n - 1, flags)
      && m == Zeroed(m1, lost) && !Tabled(m1, dir, Nth(first, n - 1) / 1024);
  }

  lemma SpareLost(m0: Memory, free0: set<nat>, m1: Memory, lost: nat, dir: nat, first: Page, n: nat, flags: nat)
    requires 0 < n <= 0x10_0000 && RangeMapped(m0, free0, m1, {lost}, dir, first, n - 1, flags)
    ensures lost in free0 && Walkable(m1, dir) && Walkable(Zeroed(m1, lost), dir)
    ensures forall f: nat :: IsLost(Zeroed(m1, lost), {}, dir, f) <==> IsLost(m1, {lost}, dir, f) || f == lost
  {
    ShortTaken(m0, free0, m1, lost, dir);
    OneMoreLost(m1, lost, Zeroed(m1, lost), dir);
  }

  lemma AddLost(m0: Memory, free0: set<nat>, m1: Memory, lost: nat, m: Memory, dir: nat, first: Page, n: nat)
    requires n > 0 && lost in free0 && Walkable(m0, dir) && Walkable(m1, dir) && Walkable(m, dir)
    requires Loses(m0, free0, m1, {lost}, dir, first, n - 1, {})
    requires forall f: nat :: IsLost(m, {}, dir, f) <==> IsLost(m1, {lost}, dir, f) || f == lost
    requires forall f: nat :: InUse(m0, dir, first, n, f) <==> InUse(m0, dir, first, n - 1, f)
    ensures Loses(m0, free0, m, {}, dir, first, n, {lost})
  {
    hide IsLost, InUse, Walkable;
  }

  /** The last page, whose slot has no table, held no frame. */
  lemma LastEntry(m0: Memory, free0: set<nat>, m1: Memory, lost: nat, dir: nat, first: Page, n: nat, flags: nat)
    requires 0 < n <= 0x10_0000 && RangeMapped(m0, free0, m1, {lost}, dir, first, n - 1, flags)
    requires !Tabled(m1, dir, Nth(first, n - 1) / 1024)
    ensures Walkable(m0, dir) && forall f: nat :: InUse(m0, dir, first, n, f) <==> InUse(m0, dir, first, n - 1, f)
  {
    SlotTabled(m0, free0, m1, {lost}, dir, first, n - 1, flags);
    hide RangeMapped;
    LastUnused(m0, dir, first, n);
  }

  lemma OneMoreLost(m1: Memory, lost: nat, m: Memory, dir: nat)
    requires Evolved(m1, {lost}, m, {}, dir) && SameMap(m1, m, dir) && IsLost(m, {}, dir, lost)
    requires forall i :: 0 <= i < 1024 ==> Pde(m, dir, i) == Pde(m1, dir, i)
    ensures forall f: nat :: IsLost(m, {}, dir, f) <==> IsLost(m1, {lost}, dir, f) || f == lost
  {
    forall q: Page
      ensures Paged(m, dir, q) <==> Paged(m1, dir, q)
      ensures Paged(m, dir, q) ==> DataFrame(m, dir, q) == DataFrame(m1, dir, q)
    {
      SamePages(m1, m, dir, q);
    }
  }

  /** A page whose slot has no table holds no frame. */
  lemma LastUnused(m0: Memory, dir: nat, first: Page, n: nat)
    requires Walkable(m0, dir) && 0 < n <= 0x10_0000 && !Paged(m0, dir, Nth(first, n - 1))
    ensures forall f: nat :: InUse(m0, dir, first, n, f) <==> InUse(m0, dir, first, n - 1, f)
  {
    forall q: Page
      ensures InRange(first, n, q) <==> InRange(first, n - 1, q) || q == Nth(first, n - 1)
    {
      RangeStep(first, n - 1, q);
    }
  }

  /**
   What mapping `n` pages loses: the frames that table entries of the range held, and one that was free when
   the frames needed are not there.
   */
  ghost predicate LossIs(m0: Memory, free0: set<nat>, m: Memory, free: set<nat>, dir: nat, first: Page, n: nat) {
    && Walkable(m0, dir) && Walkable(m, dir)
    && exists spare: set<nat> ::
         && Loses(m0, free0, m, free, dir, first, n, spare)
         && |spare| == if FramesNeeded(m0, dir, first, n) <= |free0| then 0 else 1
  }

  lemma MappedLoss(m0: Memory, free0: set<nat>, m: Memory, free: set<nat>, dir: nat, first: Page, n: nat, flags: nat)
    requires n <= 0x10_0000
    requires RangeMapped(m0, free0, m, free, dir, first, n, flags) ||
             RangeShort(m0, free0, m, free, dir, first, n, flags)
    ensures LossIs(m0, free0, m, free, dir, first, n)
  {
    hide FramesNeeded, Loses, RangeMapped, RangeShort;
    Budget(m0, free0, m, free, dir, first, n, flags);
    if RangeMapped(m0, free0, m, free, dir, first, n, flags) {
      MappedWalks(m0, free0, m, free, dir, first, n, flags);
      RangeLoses(m0, free0, m, free, dir, first, n, flags);
      var none: set<nat> := {};
      assert |none| == 0 && Loses(m0, free0, m, free, dir, first, n, none);
    } else {
      var m1, lost := ShortWitness(m0, free0, m, free, dir, first, n, flags);
      ShortLoses(m0, free0, m1, lost, dir, first, n, flags);
      assert |{lost}| == 1;
    }
  }

  lemma MappedWalks(m0: Memory, free0: set<nat>, m: Memory, free: set<nat>, dir: nat, first: Page, n: nat, flags: nat)
    requires RangeMapped(m0, free0, m, free, dir, first, n, flags)
    ensures Walkable(m0, dir) && Walkable(m, dir)
  {
  }

  /** Nothing more is lost exactly when no page of the range had a table entry and the frames needed are there. */
  lemma NothingLostIff(m0: Memory, free0: set<nat>, m: Memory, free: set<nat>, dir: nat, first: Page, n: nat)
    requires LossIs(m0, free0, m, free, dir, first, n)
    ensures (forall f: nat :: IsLost(m, free, dir, f) ==> IsLost(m0, free0, dir, f)) <==>
            && FramesNeeded(m0, dir, first, n) <= |free0|
            && forall q: Page :: InRange(first, n, q) ==> !Paged(m0, dir, q)
  {
    var spare: set<nat> :|
      && Loses(m0, free0, m, free, dir, first, n, spare)
      && |spare| == if FramesNeeded(m0, dir, first, n) <= |free0| then 0 else 1;
    hide FramesNeeded;
    if q: Page :| InRange(first, n, q) && Paged(m0, dir, q) {
      assert InUse(m0, dir, first, n, DataFrame(m0, dir, q));
    }
    if f :| f in spare {
      assert IsLost(m, free, dir, f) && !IsLost(m0, free0, dir, f);
    }
  }

  /** Mapping a page again, as a second call after one that failed half way does, loses the frame it had. */
  lemma RemapLoses(m0: Memory, free0: set<nat>, m: Memory, free: set<nat>, dir: nat, first: Page, n: nat, p: Page)
    requires LossIs(m0, free0, m, free, dir, first, n) && InRange(first, n, p) && Paged(m0, dir, p)
    ensures IsLost(m, free, dir, DataFrame(m0, dir, p))
  {
    assert InUse(m0, dir, first, n, DataFrame(m0, dir, p));
  }

  /** A range mapped in full loses nothing exactly when no page of it was mapped by a table entry before. */
  lemma RangeLosesNothingIff(m0: Memory, free0: set<nat>, m: Memory, free: set<nat>, dir: nat, first: Page, n: nat,
                             flags: nat)
    requires RangeMapped(m0, free0, m, free, dir, first, n, flags)
    ensures (forall f: nat :: IsLost(m, free, dir, f) ==> IsLost(m0, free0, dir, f)) <==>
            forall q: Page :: InRange(first, n, q) ==> !Paged(m0, dir, q)
  {
    RangeLoses(m0, free0, m, free, dir, first, n, flags);
    if q: Page :| InRange(first, n, q) && Paged(m0, dir, q) {
      assert InUse(m0, dir, first, n, DataFrame(m0, dir, q));
    }
  }

  // ---------------------------------------------------------------- running out of frames

  /** The frames that a range took, when all of it was mapped and when the last table was missing. */
  lemma Budget(m0: Memory, free0: set<nat>, m: Memory, free: set<nat>, dir: nat, first: Page, n: nat, flags: nat)
    requires n <= 0x10_0000
    ensures RangeMapped(m0, free0, m, free, dir, first, n, flags) ==>
              TableAt(m0, dir) && |free0| == |free| + FramesNeeded(m0, dir, first, n)
    ensures RangeShort(m0, free0, m, free, dir, first, n, flags) ==>
              TableAt(m0, dir) && |free0| + 1 == FramesNeeded(m0, dir, first, n) && LastIsNew(m0, dir, first, n)
  {
    if RangeShort(m0, free0, m, free, dir, first, n, flags) {
      var m1: Memory, lost: nat :|
        && RangeMapped(m0, free0, m1, {lost}, dir, first, n - 1, flags)
        && m == Zeroed(m1, lost) && !Tabled(m1, dir, Nth(first, n - 1) / 1024);
      NewSlotsStep(m0, dir, first, n - 1);
      SlotTabled(m0, free0, m1, {lost}, dir, first, n - 1, flags);
    }
  }

  /** When the frames ran out at the last table the last page maps to what it did before, and its frame is lost. */
  lemma ShortMeans(m0: Memory, free0: set<nat>, m: Memory, free: set<nat>, dir: nat, first: Page, n: nat, flags: nat)
    requires RangeShort(m0, free0, m, free, dir, first, n, flags) && n <= 0x10_0000
    ensures Evolved(m0, free0, m, free, dir)
    ensures forall q: Page :: InRange(first, n - 1, q) ==> FreshAt(m, free0, dir, q, flags)
    ensures forall q: Page :: !InRange(first, n - 1, q) ==> Lookup(m, dir, q) == Spared(m0, dir, first, n - 1, q)
    ensures var p := Nth(first, n - 1); Lookup(m, dir, p) == Lookup(m0, dir, p) && !Paged(m, dir, p)
    ensures exists f :: f in free0 && IsLost(m, free, dir, f)
  {
    var m1: Memory, lost: nat :|
      && RangeMapped(m0, free0, m1, {lost}, dir, first, n - 1, flags)
      && m == Zeroed(m1, lost) && !Tabled(m1, dir, Nth(first, n - 1) / 1024);
    ShortTaken(m0, free0, m1, lost, dir);
    var p := Nth(first, n - 1);
    SlotTabled(m0, free0, m1, {lost}, dir, first, n - 1, flags);
    RangeStep(first, n - 1, p);
    assert Lookup(m1, dir, p) == Spared(m0, dir, first, n - 1, p);
    assert !Tabled(m, dir, p / 1024);
    forall q: Page | InRange(first, n - 1, q)
      ensures FreshAt(m, free0, dir, q, flags)
    {
      assert FreshAt(m1, free0, dir, q, flags);
      FreshStays(m1, {lost}, m, free, dir, q, free0, flags);
    }
  }

  /** Taking the last free frame for nothing. */
  lemma ShortTaken(m0: Memory, free0: set<nat>, m1: Memory, lost: nat, dir: nat)
    requires Evolved(m0, free0, m1, {lost}, dir)
    ensures Evolved(m0, free0, Zeroed(m1, lost), {}, dir) && Evolved(m1, {lost}, Zeroed(m1, lost), {}, dir)
    ensures SameMap(m1, Zeroed(m1, lost), dir) && lost in free0 && IsLost(Zeroed(m1, lost), {}, dir, lost)
    ensures forall i :: 0 <= i < 1024 ==> Pde(Zeroed(m1, lost), dir, i) == Pde(m1, dir, i)
  {
    TakeKeeps(m1, {lost}, dir, lost);
    TakeEvolves(m1, {lost}, dir, lost);
    assert {lost} - {lost} == {};
    EvolvedThen(m0, free0, m1, {lost}, Zeroed(m1, lost), {}, dir);
    assert !PartOf(Zeroed(m1, lost), dir, lost);
  }

  // ---------------------------------------------------------------- unmapping a range

  /** What `sys_munmap` does: the table entries of the range go, and exactly their frames become free. */
  ghost predicate RangeUnmapped(m0: Memory, free0: set<nat>, m: Memory, free: set<nat>, dir: nat, first: Page, n: nat) {
    && Sane(m0, free0, dir) && Sane(m, free, dir)
    && (forall i :: 0 <= i < 1024 ==> Pde(m, dir, i) == Pde(m0, dir, i))
    && (forall f :: f in m0 && !PartOf(m0, dir, f) ==> f in m && m[f] == m0[f])
    && (forall q: Page ::
          Lookup(m, dir, q) == if InRange(first, n, q) && Tabled(m0, dir, q / 1024) then None else Lookup(m0, dir, q))
    && (forall f :: f in free <==> f in free0 || InUse(m0, dir, first, n, f))
  }

  lemma SamePages(m0: Memory, m: Memory, dir: nat, q: Page)
    requires Walkable(m0, dir) && Walkable(m, dir) && Lookup(m, dir, q) == Lookup(m0, dir, q)
    requires Pde(m, dir, q / 1024) == Pde(m0, dir, q / 1024)
    ensures Paged(m, dir, q) == Paged(m0, dir, q)
    ensures Paged(m0, dir, q) ==> DataFrame(m, dir, q) == DataFrame(m0, dir, q)
  {
  }

  /** One more page of the range, that a table entry maps. */
  lemma UnmapNext(m0: Memory, free0: set<nat>, m1: Memory, free1: set<nat>, dir: nat, first: Page, k: nat)
    requires k < 0x10_0000 && RangeUnmapped(m0, free0, m1, free1, dir, first, k) && Paged(m1, dir, Nth(first, k))
    ensures var p := Nth(first, k);
            RangeUnmapped(m0, free0, WithPte(m1, dir, p, 0), free1 + {DataFrame(m1, dir, p)}, dir, first, k + 1)
  {
    var p := Nth(first, k);
    var m, free := WithPte(m1, dir, p, 0), free1 + {DataFrame(m1, dir, p)};
    ClearKeeps(m1, free1, dir, p);
    PteAlone(m1, dir, p, 0);
    RangeStep(first, k, p);
    SamePages(m0, m1, dir, p);
    assert forall f :: f in m1 && f != TableFrame(m1, dir, p / 1024) ==> f in m && m[f] == m1[f];
    assert Tabled(m0, dir, p / 1024) && PartOf(m0, dir, TableFrame(m1, dir, p / 1024));
    hide WithPte, Sane;
    var n := k + 1;
    forall q: Page
      ensures Lookup(m, dir, q)
              == if InRange(first, n, q) && Tabled(m0, dir, q / 1024) then None else Lookup(m0, dir, q)
    {
      RangeStep(first, k, q);
    }
    UseGrows(m0, m1, dir, first, k);
  }

  lemma UseGrows(m0: Memory, m1: Memory, dir: nat, first: Page, k: nat)
    requires k < 0x10_0000 && Walkable(m0, dir) && Walkable(m1, dir) && Paged(m0, dir, Nth(first, k))
    requires Paged(m1, dir, Nth(first, k)) && DataFrame(m1, dir, Nth(first, k)) == DataFrame(m0, dir, Nth(first, k))
    ensures forall f ::
              InUse(m0, dir, first, k + 1, f) <==>
              InUse(m0, dir, first, k, f) || f == DataFrame(m1, dir, Nth(first, k))
  {
    var p, n := Nth(first, k), k + 1;
    forall f
      ensures InUse(m0, dir, first, n, f) <==> InUse(m0, dir, first, k, f) || f == DataFrame(m1, dir, p)
    {
      RangeStep(first, k, p);
      if InUse(m0, dir, first, n, f) {
        var q: Page :| InRange(first, n, q) && Paged(m0, dir, q) && DataFrame(m0, dir, q) == f;
        RangeStep(first, k, q);
      }
      if InUse(m0, dir, first, k, f) {
        var q: Page :| InRange(first, k, q) && Paged(m0, dir, q) && DataFrame(m0, dir, q) == f;
        RangeStep(first, k, q);
      }
    }
  }

  /** One more page of the range, that no table entry maps: nothing to do. */
  lemma UnmapSkip(m0: Memory, free0: set<nat>, m1: Memory, free1: set<nat>, dir: nat, first: Page, k: nat)
    requires k < 0x10_0000 && RangeUnmapped(m0, free0, m1, free1, dir, first, k) && !Paged(m1, dir, Nth(first, k))
    ensures RangeUnmapped(m0, free0, m1, free1, dir, first, k + 1)
  {
    var p := Nth(first, k);
    RangeStep(first, k, p);
    SamePages(m0, m1, dir, p);
    var n := k + 1;
    forall q: Page
      ensures Lookup(m1, dir, q)
              == if InRange(first, n, q) && Tabled(m0, dir, q / 1024) then None else Lookup(m0, dir, q)
    {
      RangeStep(first, k, q);
    }
    forall f
      ensures InUse(m0, dir, first, n, f) <==> InUse(m0, dir, first, k, f)
    {
      if InUse(m0, dir, first, n, f) {
        var q: Page :| InRange(first, n, q) && Paged(m0, dir, q) && DataFrame(m0, dir, q) == f;
        RangeStep(first, k, q);
      }
      if InUse(m0, dir, first, k, f) {
        var q: Page :| InRange(first, k, q) && Paged(m0, dir, q) && DataFrame(m0, dir, q) == f;
        RangeStep(first, k, q);
      }
    }
  }

  /** Unmapping loses no frame and finds none. */
  lemma UnmapLosesNothing(m0: Memory, free0: set<nat>, m: Memory, free: set<nat>, dir: nat, first: Page, n: nat)
    requires RangeUnmapped(m0, free0, m, free, dir, first, n)
    ensures forall f: nat :: IsLost(m, free, dir, f) <==> IsLost(m0, free0, dir, f)
  {
    forall q: Page
      ensures Paged(m, dir, q) <==> Paged(m0, dir, q) && !InRange(first, n, q)
      ensures Paged(m, dir, q) ==> DataFrame(m, dir, q) == DataFrame(m0, dir, q)
    {
      assert Pde(m, dir, q / 1024) == Pde(m0, dir, q / 1024);
    }
    assert forall i :: 0 <= i < 1024 ==> Tabled(m, dir, i) == Tabled(m0, dir, i);
    assert forall f :: PartOf(m, dir, f) <==> PartOf(m0, dir, f);
  }

  /**
   Unmapping what was just mapped: the pages of the range are unmapped, and every frame that was free is
   free again or has become a table; lost are the frames that the range held before.
   */
  lemma MapThenUnmap(m0: Memory, free0: set<nat>, m1: Memory, free1: set<nat>, m2: Memory, free2: set<nat>,
                     dir: nat, first: Page, n: nat, flags: nat)
    requires RangeMapped(m0, free0, m1, free1, dir, first, n, flags)
    requires RangeUnmapped(m1, free1, m2, free2, dir, first, n)
    ensures forall q: Page :: Lookup(m2, dir, q) == if InRange(first, n, q) then None else Spared(m0, dir, first, n, q)
    ensures forall f :: f in free0 ==> f in free2 || PartOf(m2, dir, f)
    ensures free2 <= free0
    ensures forall f: nat :: IsLost(m2, free2, dir, f) <==> IsLost(m0, free0, dir, f) || InUse(m0, dir, first, n, f)
  {
    RangeLoses(m0, free0, m1, free1, dir, first, n, flags);
    UnmapLosesNothing(m1, free1, m2, free2, dir, first, n);
    forall q: Page
      ensures Lookup(m2, dir, q) == if InRange(first, n, q) then None else Spared(m0, dir, first, n, q)
    {
      assert InRange(first, n, q) ==> FreshAt(m1, free0, dir, q, flags);
    }
  }
}
