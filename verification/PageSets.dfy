/** Ranges of pages told by their bytes: which pages a call on a byte range maps, and how many frames it takes. */
module PageSets {
  import opened Paging
  import opened PageRanges
  import opened Options

  /** The pages that start at or behind byte `lo` and in front of byte `hi`. */
  ghost function PagesFrom(lo: nat, hi: nat): set<Page> {
    set q: Page | 0 <= q < 0x10_0000 && lo <= 4096 * q < hi
  }

  /** The pages that start in the `len` bytes from `base` on; addresses wrap around. */
  ghost function PagesIn(base: Word, len: nat): set<Page> {
    set q: Page | 0 <= q < 0x10_0000 && (4096 * q - base) % 0x1_0000_0000 < len
  }

  /** The slots of these pages that have no table. */
  ghost function NewTables(m: Memory, dir: nat, pages: set<Page>): set<nat>
    requires TableAt(m, dir)
  {
    set i: nat | i < 1024 && !Tabled(m, dir, i) && exists q: Page :: q in pages && q / 1024 == i
  }

  /** One frame for each page, and one for each table that is missing. */
  ghost function FramesFor(m: Memory, dir: nat, pages: set<Page>): nat
    requires TableAt(m, dir)
  {
    |pages| + |NewTables(m, dir, pages)|
  }

  /**
   Each of these pages has a fresh zero frame, every other page maps to what it did before, but for the rest of
   a slot that got a table, and what table entries map stays.
   */
  ghost predicate Grown(m0: Memory, free0: set<nat>, m: Memory, dir: nat, pages: set<Page>, flags: nat) {
    && Walkable(m0, dir) && Walkable(m, dir)
    && (forall q: Page :: q in pages ==> FreshAt(m, free0, dir, q, flags))
    && (forall q: Page :: q !in pages ==>
      Lookup(m, dir, q) == if q / 1024 in NewTables(m0, dir, pages) then None else Lookup(m0, dir, q))
    && (forall q: Page :: q !in pages && Paged(m0, dir, q) ==>
      Paged(m, dir, q) && DataFrame(m, dir, q) == DataFrame(m0, dir, q))
  }

  /** The table entries of these pages are gone, and exactly the frames they mapped became free. */
  ghost predicate Emptied(m0: Memory, free0: set<nat>, m: Memory, free: set<nat>, dir: nat, pages: set<Page>) {
    && Walkable(m0, dir) && Walkable(m, dir)
    && (forall q: Page ::
      Lookup(m, dir, q) == if q in pages && Tabled(m0, dir, q / 1024) then None else Lookup(m0, dir, q))
    && (forall f ::
      f in free <==> f in free0 || exists q: Page :: q in pages && Paged(m0, dir, q) && DataFrame(m0, dir, q) == f)
  }

  /** The last of these pages alone needs a table in its slot. */
  ghost predicate LastAlone(m: Memory, dir: nat, pages: set<Page>)
    requires TableAt(m, dir)
  {
    exists q: Page :: q in pages && !Tabled(m, dir, q / 1024)
                      && forall p: Page :: p in pages && p != q ==> p < q && p / 1024 != q / 1024
  }

  // ---------------------------------------------------------------- from page numbers

  ghost predicate Spans(first: Page, n: nat, pages: set<Page>) {
    forall q: Page :: q in pages <==> InRange(first, n, q)
  }

  lemma {:induction false} SpansSize(first: Page, n: nat, pages: set<Page>)
    requires Spans(first, n, pages) && n <= 0x10_0000
    ensures |pages| == n
    decreases n
  {
    if n == 0 {
      assert pages == {};
    } else {
      var p := Nth(first, n - 1);
      RangeStep(first, n - 1, p);
      SpansLess(first, n, pages);
      SpansSize(first, n - 1, pages - {p});
      assert p in pages;
    }
  }

  lemma SpansLess(first: Page, n: nat, pages: set<Page>)
    requires Spans(first, n, pages) && 0 < n <= 0x10_0000
    ensures Spans(first, n - 1, pages - {Nth(first, n - 1)}) && Nth(first, n - 1) in pages
  {
    hide InRange, Nth;
    RangeStep(first, n - 1, Nth(first, n - 1));
    forall q: Page | InRange(first, n, q) || InRange(first, n - 1, q)
      ensures InRange(first, n, q) && (InRange(first, n - 1, q) <==> q != Nth(first, n - 1))
    {
      RangeStep(first, n - 1, q);
    }
  }

  lemma TouchedIff(first: Page, n: nat, pages: set<Page>, i: nat)
    requires Spans(first, n, pages)
    ensures SlotTouched(first, n, i) <==> exists q: Page :: q in pages && q / 1024 == i
  {
    hide InRange;
  }

  lemma SpansFrames(m: Memory, dir: nat, first: Page, n: nat, pages: set<Page>)
    requires TableAt(m, dir) && Spans(first, n, pages) && n <= 0x10_0000
    ensures FramesNeeded(m, dir, first, n) == FramesFor(m, dir, pages)
    ensures NewSlots(m, dir, first, n) == NewTables(m, dir, pages)
  {
    SpansSize(first, n, pages);
    hide Spans;
    forall i: nat
      ensures SlotTouched(first, n, i) <==> exists q: Page :: q in pages && q / 1024 == i
    {
      TouchedIff(first, n, pages, i);
    }
    assert NewSlots(m, dir, first, n) == NewTables(m, dir, pages);
  }

  lemma MappedIsGrown(m0: Memory, free0: set<nat>, m: Memory, free: set<nat>, dir: nat, first: Page, n: nat,
                      flags: nat, pages: set<Page>)
    requires RangeMapped(m0, free0, m, free, dir, first, n, flags) && Spans(first, n, pages) && n <= 0x10_0000
    ensures Grown(m0, free0, m, dir, pages, flags)
  {
    SpansFrames(m0, dir, first, n, pages);
    forall q: Page | q !in pages
      ensures Lookup(m, dir, q) == if q / 1024 in NewTables(m0, dir, pages) then None else Lookup(m0, dir, q)
      ensures Paged(m0, dir, q) ==> Paged(m, dir, q) && DataFrame(m, dir, q) == DataFrame(m0, dir, q)
    {
      assert Lookup(m, dir, q) == Spared(m0, dir, first, n, q);
      EntryStays(m0, free0, m, free, dir, q);
    }
  }

  lemma EntryStays(m0: Memory, free0: set<nat>, m: Memory, free: set<nat>, dir: nat, q: Page)
    requires Evolved(m0, free0, m, free, dir)
    ensures Paged(m0, dir, q) && Lookup(m, dir, q) == Lookup(m0, dir, q) ==>
              Paged(m, dir, q) && DataFrame(m, dir, q) == DataFrame(m0, dir, q)
  {
  }

  /** When one frame is missing all pages but the last are mapped. */
  lemma ShortIsGrown(m0: Memory, free0: set<nat>, m: Memory, free: set<nat>, dir: nat, first: Page, n: nat,
                     flags: nat, pages: set<Page>)
    requires RangeShort(m0, free0, m, free, dir, first, n, flags) && Spans(first, n, pages) && n <= 0x10_0000
    ensures Grown(m0, free0, m, dir, pages - {Nth(first, n - 1)}, flags)
    ensures Nth(first, n - 1) in pages && !Paged(m, dir, Nth(first, n - 1))
  {
    ShortMeans(m0, free0, m, free, dir, first, n, flags);
    SpansLess(first, n, pages);
    var rest := pages - {Nth(first, n - 1)};
    SpansFrames(m0, dir, first, n - 1, rest);
    hide RangeShort;
    forall q: Page | q !in rest
      ensures Lookup(m, dir, q) == if q / 1024 in NewTables(m0, dir, rest) then None else Lookup(m0, dir, q)
      ensures Paged(m0, dir, q) ==> Paged(m, dir, q) && DataFrame(m, dir, q) == DataFrame(m0, dir, q)
    {
      assert Lookup(m, dir, q) == Spared(m0, dir, first, n - 1, q);
      EntryStays(m0, free0, m, free, dir, q);
    }
  }

  lemma UnmappedIsEmptied(m0: Memory, free0: set<nat>, m: Memory, free: set<nat>, dir: nat, first: Page, n: nat,
                          pages: set<Page>)
    requires RangeUnmapped(m0, free0, m, free, dir, first, n) && Spans(first, n, pages)
    ensures Emptied(m0, free0, m, free, dir, pages)
  {
    hide InRange;
    forall f
      ensures f in free
              <==> f in free0 || exists q: Page :: q in pages && Paged(m0, dir, q) && DataFrame(m0, dir, q) == f
    {
      assert f in free <==> f in free0 || InUse(m0, dir, first, n, f);
    }
  }

  lemma LastAloneIff(m: Memory, dir: nat, first: Page, n: nat, pages: set<Page>)
    requires TableAt(m, dir) && Spans(first, n, pages) && first + n <= 0x10_0000
    ensures LastIsNew(m, dir, first, n) <==> LastAlone(m, dir, pages)
  {
    assert forall q: Page :: q in pages <==> first <= q < first + n;
    hide Spans, InRange;
    if n > 0 {
      var last: Page := first + n - 1;
      assert last == Nth(first, n - 1) && last in pages;
      LastTouched(m, dir, first, n, pages);
      if q: Page :| q in pages && !Tabled(m, dir, q / 1024)
                    && forall p: Page :: p in pages && p != q ==> p < q && p / 1024 != q / 1024 {
        assert q == last;
      }
      assert forall p: Page :: p in pages && p != last ==> p < last;
    }
  }

  lemma LastTouched(m: Memory, dir: nat, first: Page, n: nat, pages: set<Page>)
    requires n > 0 && first + n <= 0x10_0000 && forall q: Page :: q in pages <==> first <= q < first + n
    ensures SlotTouched(first, n - 1, Nth(first, n - 1) / 1024)
            <==> exists p: Page :: p in pages && p != first + n - 1 && p / 1024 == (first + n - 1) / 1024
  {
    var i: nat := (first + n - 1) / 1024;
    assert Nth(first, n - 1) == first + n - 1;
    if SlotTouched(first, n - 1, i) {
      var q: Page :| InRange(first, n - 1, q) && q / 1024 == i;
      assert q in pages && q != first + n - 1;
    }
    if p: Page :| p in pages && p != first + n - 1 && p / 1024 == i {
      assert InRange(first, n - 1, p);
    }
  }

  // ---------------------------------------------------------------- from bytes

  /** `len` bytes from a page boundary on are as many pages, rounded up. */
  lemma BytesSpan(base: Word, len: nat, n: nat)
    requires base % 4096 == 0 && n <= 0x10_0000 && 4096 * n < len + 4096 && len <= 4096 * n
    ensures Spans(base / 4096, n, PagesIn(base, len))
  {
    var first := base / 4096;
    forall q: Page
      ensures q in PagesIn(base, len) <==> InRange(first, n, q)
    {
      WrapsAlike(q - first);
    }
  }

  lemma WrapsAlike(d: int)
    ensures (4096 * d) % 0x1_0000_0000 == 4096 * (d % 0x10_0000)
  {
  }

  lemma FromSpan(lo: nat, hi: nat, first: Page, n: nat)
    requires first + n <= 0x10_0000 && lo <= 4096 * first < lo + 4096
    requires n > 0 ==> hi <= 4096 * (first + n) < hi + 4096
    requires n == 0 ==> hi <= 4096 * first
    ensures Spans(first, n, PagesFrom(lo, hi))
  {
  }
}
