/** `elf_load` of src/kernel/elf.c: mapping the segments and copying their bytes through the page tables. */
module ElfLoader {
  import opened Paging
  import opened PageRanges
  import opened Mmu
  import opened ElfImage
  import opened Options

  const STACK_PAGE: Page := 0xB_FFFD

  // ---------------------------------------------------------------- memory as the program sees it

  /** The byte at a virtual address that a table entry maps. */
  ghost function ByteAt(m: Memory, dir: nat, v: Word): Option<Byte>
    requires Walkable(m, dir)
  {
    var p := PageOf(v);
    if Paged(m, dir, p) && Paging.BytesAt(m, DataFrame(m, dir, p)) then Some(m[DataFrame(m, dir, p)].bytes[v % 4096])
    else None
  }

  /** Frame `f` with byte `o` set. */
  function Poked(m: Memory, f: nat, o: nat, b: Byte): Memory
    requires BytesAt(m, f) && o < 4096
  {
    m[f := Bytes(m[f].bytes[o := b])]
  }

  ghost predicate SamePaging(m: Memory, m': Memory, dir: nat)
    requires Walkable(m, dir) && Walkable(m', dir)
  {
    && SameMap(m, m', dir)
    && forall p: Page ::
         && (Paged(m', dir, p) <==> Paged(m, dir, p))
         && (Paged(m, dir, p) ==> DataFrame(m', dir, p) == DataFrame(m, dir, p))
  }

  /** Writing one byte through the tables changes that byte of the address space and no other. */
  lemma PokeAlone(m: Memory, free: set<nat>, dir: nat, v: Word, b: Byte)
    requires Sane(m, free, dir) && Paged(m, dir, PageOf(v))
    ensures var m' := Poked(m, DataFrame(m, dir, PageOf(v)), v % 4096, b);
            && Sane(m', free, dir) && SamePaging(m, m', dir)
            && (forall w: Word :: ByteAt(m', dir, w) == if w == v then Some(b) else ByteAt(m, dir, w))
  {
    var f := DataFrame(m, dir, PageOf(v));
    var m' := Poked(m, f, v % 4096, b);
    assert forall i :: 0 <= i < 1024 ==> Pde(m', dir, i) == Pde(m, dir, i);
    assert forall i :: 0 <= i < 1024 ==> Tabled(m', dir, i) == Tabled(m, dir, i);
    assert Walkable(m', dir);
    assert forall p: Page :: Tabled(m, dir, p / 1024) ==> Pte(m', dir, p) == Pte(m, dir, p);
    assert forall p: Page :: Paged(m', dir, p) == Paged(m, dir, p);
    forall w: Word
      ensures ByteAt(m', dir, w) == if w == v then Some(b) else ByteAt(m, dir, w)
    {
      if PageOf(w) == PageOf(v) && w != v {
        assert w % 4096 != v % 4096;
      }
    }
  }

  /** The first `k` bytes at `va` are those of the image at `off`; every other byte is as it was. */
  ghost predicate Copied(m0: Memory, m: Memory, free: set<nat>, dir: nat, img: seq<Byte>, va: nat, off: nat, k: nat)
    requires Walkable(m0, dir) && off + k <= |img|
  {
    && Sane(m, free, dir) && SamePaging(m0, m, dir)
    && forall w: Word :: ByteAt(m, dir, w) == if va <= w < va + k then Some(img[off + (w - va)]) else ByteAt(m0, dir, w)
  }

  // ---------------------------------------------------------------- a loaded segment

  /** Every byte of the segment reads as it should, through pages with its flags. */
  ghost predicate SegmentLoaded(m: Memory, dir: nat, img: seq<Byte>, s: Segment)
    requires Walkable(m, dir) && SegmentOk(img, s)
  {
    && (forall w: Word :: s.vaddr <= w < s.vaddr + s.memsz ==> ByteAt(m, dir, w) == Some(ByteOf(img, s, w - s.vaddr)))
    && forall p: Page :: FirstPage(s) <= p < EndPage(s) ==>
         Paged(m, dir, p) && Lookup(m, dir, p) == Some(Mapping(DataFrame(m, dir, p), PageFlags(s)))
  }

  lemma PlainRange(first: Page, n: nat, q: Page)
    requires first + n <= 0x10_0000
    ensures InRange(first, n, q) <==> first <= q < first + n
  {
  }

  /** Mapping a range leaves the bytes and mappings of the pages outside it that table entries map. */
  lemma OutsideKept(m0: Memory, free0: set<nat>, m: Memory, free: set<nat>, dir: nat, first: Page, n: nat, flags: nat,
                    p: Page)
    requires RangeMapped(m0, free0, m, free, dir, first, n, flags) && !InRange(first, n, p) && Paged(m0, dir, p)
    ensures Paged(m, dir, p) && DataFrame(m, dir, p) == DataFrame(m0, dir, p) && Lookup(m, dir, p) == Lookup(m0, dir, p)
    ensures DataFrame(m, dir, p) in m && DataFrame(m, dir, p) in m0
            && m[DataFrame(m, dir, p)] == m0[DataFrame(m, dir, p)]
  {
  }

  /** A segment that shares no page with the next one stays loaded while that one is mapped and copied. */
  lemma LoadedStays(m0: Memory, free0: set<nat>, m1: Memory, free: set<nat>, m2: Memory, dir: nat, img: seq<Byte>,
                    s: Segment, t: Segment, n: nat)
    requires SegmentOk(img, s) && SegmentOk(img, t) && ApartPages(s, t) && Walkable(m0, dir)
             && SegmentLoaded(m0, dir, img, s)
    requires RangeMapped(m0, free0, m1, free, dir, FirstPage(t), PagesOf(t), PageFlags(t))
    requires n <= FileBytes(t) && (n > 0 ==> t.filesz > 0) && t.offset + n <= |img|
             && Copied(m1, m2, free, dir, img, t.vaddr, t.offset, n)
    ensures SegmentLoaded(m2, dir, img, s)
  {
    forall p: Page | FirstPage(s) <= p < EndPage(s)
      ensures !InRange(FirstPage(t), PagesOf(t), p) && Paged(m2, dir, p) && Lookup(m2, dir, p) == Lookup(m0, dir, p)
      ensures DataFrame(m2, dir, p) == DataFrame(m0, dir, p)
    {
      PlainRange(FirstPage(t), PagesOf(t), p);
      OutsideKept(m0, free0, m1, free, dir, FirstPage(t), PagesOf(t), PageFlags(t), p);
    }
    forall w: Word | s.vaddr <= w < s.vaddr + s.memsz
      ensures ByteAt(m2, dir, w) == ByteAt(m0, dir, w)
    {
      var p := PageOf(w);
      PlainRange(FirstPage(t), PagesOf(t), p);
      OutsideKept(m0, free0, m1, free, dir, FirstPage(t), PagesOf(t), PageFlags(t), p);
      assert !(t.vaddr <= w < t.vaddr + n);
    }
  }

  /** Mapping and copying load the segment. */
  lemma NowLoaded(m0: Memory, free0: set<nat>, m1: Memory, free: set<nat>, m2: Memory, dir: nat, img: seq<Byte>,
                  t: Segment)
    requires SegmentOk(img, t)
    requires RangeMapped(m0, free0, m1, free, dir, FirstPage(t), PagesOf(t), PageFlags(t))
    requires t.filesz == 0 ==> m2 == m1
    requires t.filesz > 0 ==>
               t.offset + FileBytes(t) <= |img| && Copied(m1, m2, free, dir, img, t.vaddr, t.offset, FileBytes(t))
    ensures Walkable(m2, dir) && SegmentLoaded(m2, dir, img, t)
  {
    forall p: Page | FirstPage(t) <= p < EndPage(t)
      ensures Paged(m2, dir, p) && Lookup(m2, dir, p) == Some(Mapping(DataFrame(m2, dir, p), PageFlags(t)))
    {
      PlainRange(FirstPage(t), PagesOf(t), p);
      assert FreshAt(m1, free0, dir, p, PageFlags(t));
    }
    forall w: Word | t.vaddr <= w < t.vaddr + t.memsz
      ensures ByteAt(m2, dir, w) == Some(ByteOf(img, t, w - t.vaddr))
    {
      LoadedByte(m0, free0, m1, free, m2, dir, img, t, w);
    }
  }

  lemma LoadedByte(m0: Memory, free0: set<nat>, m1: Memory, free: set<nat>, m2: Memory, dir: nat, img: seq<Byte>,
                   t: Segment, w: Word)
    requires SegmentOk(img, t) && t.vaddr <= w < t.vaddr + t.memsz && Walkable(m2, dir)
    requires RangeMapped(m0, free0, m1, free, dir, FirstPage(t), PagesOf(t), PageFlags(t))
    requires t.filesz == 0 ==> m2 == m1
    requires t.filesz > 0 ==>
               t.offset + FileBytes(t) <= |img| && Copied(m1, m2, free, dir, img, t.vaddr, t.offset, FileBytes(t))
    ensures ByteAt(m2, dir, w) == Some(ByteOf(img, t, w - t.vaddr))
  {
    hide RangeMapped, FreshAt, ByteAt, Copied, PageFlags, Sane;
    PageInside(t, w);
    hide PagesOf, FirstPage, PageOf, InRange;
    MappedFresh(m0, free0, m1, free, dir, FirstPage(t), PagesOf(t), PageFlags(t), PageOf(w));
    FreshByte(m1, free0, dir, w, PageFlags(t));
    if t.filesz > 0 {
      CopiedByte(m1, m2, free, dir, img, t.vaddr, t.offset, FileBytes(t), w);
    }
  }

  lemma PageInside(t: Segment, w: Word)
    requires t.vaddr <= w < t.vaddr + t.memsz < 0x1_0000_0000
    ensures FirstPage(t) <= PageOf(w) < EndPage(t) && FirstPage(t) < 0x10_0000
    ensures InRange(FirstPage(t), PagesOf(t), PageOf(w))
  {
  }

  lemma MappedFresh(m0: Memory, free0: set<nat>, m: Memory, free: set<nat>, dir: nat, first: Page, n: nat, flags: nat,
                    q: Page)
    requires RangeMapped(m0, free0, m, free, dir, first, n, flags) && InRange(first, n, q)
    ensures Walkable(m, dir) && FreshAt(m, free0, dir, q, flags)
  {
  }

  lemma CopiedByte(m1: Memory, m2: Memory, free: set<nat>, dir: nat, img: seq<Byte>, va: nat, off: nat, n: nat, w: Word)
    requires Walkable(m1, dir) && Walkable(m2, dir) && off + n <= |img| && Copied(m1, m2, free, dir, img, va, off, n)
    ensures ByteAt(m2, dir, w) == if va <= w < va + n then Some(img[off + (w - va)]) else ByteAt(m1, dir, w)
  {
  }

  /** A byte on a fresh page reads as zero. */
  lemma FreshByte(m: Memory, free0: set<nat>, dir: nat, w: Word, flags: nat)
    requires Walkable(m, dir) && FreshAt(m, free0, dir, PageOf(w), flags)
    ensures ByteAt(m, dir, w) == Some(0)
  {
  }

  /** The segments of the headers in front of `n` passed the checks, and are loaded if none share a page. */
  ghost predicate LoadedUpTo(m: Memory, dir: nat, img: seq<Byte>, n: nat)
    requires Walkable(m, dir) && |img| >= 52 && Tame(img) && n <= HeaderCount(img)
  {
    forall i :: 0 <= i < n && Loadable(SegmentAt(img, i)) ==>
      SegmentOk(img, SegmentAt(img, i)) && (SegmentsApart(img) ==> SegmentLoaded(m, dir, img, SegmentAt(img, i)))
  }

  /** Segments that share no page with `t` and were loaded are still loaded. */
  ghost predicate KeepsLoaded(m0: Memory, m: Memory, dir: nat, img: seq<Byte>, t: Segment)
    requires Walkable(m0, dir) && Walkable(m, dir)
  {
    forall s: Segment :: SegmentOk(img, s) && ApartPages(s, t) && SegmentLoaded(m0, dir, img, s) ==>
      SegmentLoaded(m, dir, img, s)
  }

  // ---------------------------------------------------------------- elf_load

  /** The copy loop: every byte goes through directory and table. */
  method CopyBytes(space: AddressSpace, img: seq<Byte>, va: nat, off: nat, n: nat)
    requires space.Valid() && va + n <= 0x1_0000_0000 && off + n <= |img|
    requires forall w: Word :: va <= w < va + n ==> Paged(space.mem, space.dir, PageOf(w))
    modifies space`mem
    ensures Walkable(old(space.mem), space.dir)
    ensures Copied(old(space.mem), space.mem, space.free, space.dir, img, va, off, n)
  {
    ghost var m0 := space.mem;
    var k := 0;
    while k < n
      invariant k <= n && Copied(m0, space.mem, space.free, space.dir, img, va, off, k)
    {
      CopyByte(space, m0, img, va, off, k);
      k := k + 1;
    }
  }

  /** The body of the copy loop. */
  method CopyByte(space: AddressSpace, ghost m0: Memory, img: seq<Byte>, va: nat, off: nat, k: nat)
    requires space.Valid() && va + k < 0x1_0000_0000 && off + k < |img| && Walkable(m0, space.dir)
    requires Paged(m0, space.dir, PageOf(va + k)) && Copied(m0, space.mem, space.free, space.dir, img, va, off, k)
    modifies space`mem
    ensures Copied(m0, space.mem, space.free, space.dir, img, va, off, k + 1)
  {
    ghost var m1 := space.mem;
    var tv: Word := va + k;
    var p := PageOf(tv);
    assert Paged(m1, space.dir, p);
    var pde := space.mem[space.dir].words[p / 1024];
    assert pde == Pde(m1, space.dir, p / 1024);
    var table := FrameOf(pde);
    assert table == TableFrame(m1, space.dir, p / 1024);
    var pte := space.mem[table].words[p % 1024];
    assert pte == Pte(m1, space.dir, p);
    var frame := FrameOf(pte);
    PokeAlone(m1, space.free, space.dir, tv, img[off + k]);
    space.mem := space.mem[frame := Bytes(space.mem[frame].bytes[tv % 4096 := img[off + k]])];
    assert space.mem == Poked(m1, DataFrame(m1, space.dir, p), tv % 4096, img[off + k]);
    CopiedNext(m0, m1, space.mem, space.free, space.dir, img, va, off, k);
  }

  lemma CopiedNext(m0: Memory, m1: Memory, m: Memory, free: set<nat>, dir: nat, img: seq<Byte>, va: nat, off: nat,
                   k: nat)
    requires Walkable(m0, dir) && off + k < |img| && va + k < 0x1_0000_0000
    requires Copied(m0, m1, free, dir, img, va, off, k) && Sane(m, free, dir) && SamePaging(m1, m, dir)
    requires forall w: Word :: ByteAt(m, dir, w) == if w == va + k then Some(img[off + k]) else ByteAt(m1, dir, w)
    ensures Copied(m0, m, free, dir, img, va, off, k + 1)
  {
  }

  /** One PT_LOAD segment: range check, fresh pages, bounds check, copy. */
  method LoadSegment(space: AddressSpace, img: seq<Byte>, s: Segment) returns (ok: bool)
    requires space.Valid() && s.memsz > 0 && NoWrap(s) && |img| < 0x1_0000_0000
    requires |space.free| >= 2 * PagesOf(s)
    modifies space`mem, space`free
    ensures ok <==> SegmentOk(img, s)
    ensures space.Valid() && |old(space.free)| <= |space.free| + 2 * PagesOf(s)
    ensures Walkable(old(space.mem), space.dir)
    ensures ok ==>
              && SegmentLoaded(space.mem, space.dir, img, s)
              && KeepsLoaded(old(space.mem), space.mem, space.dir, img, s)
  {
    hide RangeMapped, Copied, SegmentLoaded, KeepsLoaded, Sane, FramesNeeded, MappedOrShort, LossIs, Walkable, Paged,
         PageFlags;
    ghost var m0, free0 := space.mem, space.free;
    SaneWalks(m0, free0, space.dir);
    if s.vaddr < 0x1000 || (s.vaddr + s.memsz) % 0x1_0000_0000 > USER_MAX { return false; }
    var n := PagesOf(s);
    var mapped, done := space.MapFresh(FirstPage(s), n, PageFlags(s));
    EnoughMapped(m0, free0, space.mem, space.free, space.dir, FirstPage(s), n, PageFlags(s), mapped, done);
    ghost var m1 := space.mem;
    if s.filesz > 0 {
      if (s.offset + FileBytes(s)) % 0x1_0000_0000 > |img| { return false; }
      SegmentPaged(m0, free0, m1, space.free, space.dir, s);
      CopyBytes(space, img, s.vaddr, s.offset, FileBytes(s));
      CopiedIsSane(m1, space.mem, space.free, space.dir, img, s.vaddr, s.offset, FileBytes(s));
    }
    SegmentIsLoaded(m0, free0, m1, space.free, space.mem, space.dir, img, s);
    ok := true;
  }

  lemma NeedAtMost(m: Memory, dir: nat, first: Page, n: nat)
    requires TableAt(m, dir) && n <= 0x10_0000
    ensures FramesNeeded(m, dir, first, n) <= 2 * n
  {
    assert NewSlots(m, dir, first, 0) == {};
    FramesNeededBounds(m, dir, first, 0, n);
  }

  /** With two frames a page the whole range is mapped. */
  lemma EnoughMapped(m0: Memory, free0: set<nat>, m: Memory, free: set<nat>, dir: nat, first: Page, n: nat, flags: nat,
                     ok: bool, done: nat)
    requires n <= 0x10_0000 && |free0| >= 2 * n && MappedOrShort(m0, free0, m, free, dir, first, n, flags, ok, done)
    ensures ok && RangeMapped(m0, free0, m, free, dir, first, n, flags) && |free0| <= |free| + 2 * n
  {
    hide RangeMapped, RangeShort, FramesNeeded;
    NeedAtMost(m0, dir, first, n);
    Budget(m0, free0, m, free, dir, first, n, flags);
  }

  lemma SegmentPaged(m0: Memory, free0: set<nat>, m1: Memory, free: set<nat>, dir: nat, s: Segment)
    requires s.vaddr + s.memsz <= USER_MAX
    requires RangeMapped(m0, free0, m1, free, dir, FirstPage(s), PagesOf(s), PageFlags(s))
    ensures forall w: Word :: s.vaddr <= w < s.vaddr + FileBytes(s) ==> Paged(m1, dir, PageOf(w))
  {
    forall w: Word | s.vaddr <= w < s.vaddr + FileBytes(s)
      ensures Paged(m1, dir, PageOf(w))
    {
      PlainRange(FirstPage(s), PagesOf(s), PageOf(w));
      assert FreshAt(m1, free0, dir, PageOf(w), PageFlags(s));
    }
  }

  lemma CopiedIsSane(m0: Memory, m: Memory, free: set<nat>, dir: nat, img: seq<Byte>, va: nat, off: nat, k: nat)
    requires Walkable(m0, dir) && off + k <= |img| && Copied(m0, m, free, dir, img, va, off, k)
    ensures Sane(m, free, dir)
  {
  }

  lemma SegmentIsLoaded(m0: Memory, free0: set<nat>, m1: Memory, free: set<nat>, m2: Memory, dir: nat, img: seq<Byte>,
                        t: Segment)
    requires SegmentOk(img, t) && Walkable(m0, dir) && Sane(m1, free, dir)
    requires RangeMapped(m0, free0, m1, free, dir, FirstPage(t), PagesOf(t), PageFlags(t))
    requires t.filesz == 0 ==> m2 == m1
    requires t.filesz > 0 ==>
               t.offset + FileBytes(t) <= |img| && Copied(m1, m2, free, dir, img, t.vaddr, t.offset, FileBytes(t))
    ensures Walkable(m2, dir) && SegmentLoaded(m2, dir, img, t) && KeepsLoaded(m0, m2, dir, img, t)
  {
    NowLoaded(m0, free0, m1, free, m2, dir, img, t);
    forall s: Segment | SegmentOk(img, s) && ApartPages(s, t) && SegmentLoaded(m0, dir, img, s)
      ensures SegmentLoaded(m2, dir, img, s)
    {
      if t.filesz > 0 {
        LoadedStays(m0, free0, m1, free, m2, dir, img, s, t, FileBytes(t));
      } else {
        LoadedStaysBare(m0, free0, m1, free, dir, img, s, t);
      }
    }
  }

  /** The same for a segment without file bytes. */
  lemma LoadedStaysBare(m0: Memory, free0: set<nat>, m1: Memory, free: set<nat>, dir: nat, img: seq<Byte>, s: Segment,
                        t: Segment)
    requires SegmentOk(img, s) && SegmentOk(img, t) && ApartPages(s, t) && Walkable(m0, dir)
             && SegmentLoaded(m0, dir, img, s)
    requires RangeMapped(m0, free0, m1, free, dir, FirstPage(t), PagesOf(t), PageFlags(t))
    ensures Walkable(m1, dir) && SegmentLoaded(m1, dir, img, s)
  {
    forall p: Page | FirstPage(s) <= p < EndPage(s)
      ensures !InRange(FirstPage(t), PagesOf(t), p) && Paged(m1, dir, p) && Lookup(m1, dir, p) == Lookup(m0, dir, p)
      ensures DataFrame(m1, dir, p) == DataFrame(m0, dir, p)
      ensures DataFrame(m1, dir, p) in m1 && DataFrame(m1, dir, p) in m0
              && m1[DataFrame(m1, dir, p)] == m0[DataFrame(m1, dir, p)]
    {
      PlainRange(FirstPage(t), PagesOf(t), p);
      OutsideKept(m0, free0, m1, free, dir, FirstPage(t), PagesOf(t), PageFlags(t), p);
    }
    forall w: Word | s.vaddr <= w < s.vaddr + s.memsz
      ensures ByteAt(m1, dir, w) == ByteAt(m0, dir, w)
    {
      var p := PageOf(w);
      assert FirstPage(s) <= p < EndPage(s);
    }
  }

  lemma LoadedNext(m0: Memory, m: Memory, dir: nat, img: seq<Byte>, i: nat)
    requires |img| >= 52 && Tame(img) && i < HeaderCount(img) && Walkable(m0, dir) && Walkable(m, dir)
    requires LoadedUpTo(m0, dir, img, i) && Loadable(SegmentAt(img, i)) && SegmentOk(img, SegmentAt(img, i))
    requires SegmentLoaded(m, dir, img, SegmentAt(img, i)) && KeepsLoaded(m0, m, dir, img, SegmentAt(img, i))
    ensures LoadedUpTo(m, dir, img, i + 1)
  {
    hide SegmentLoaded, Walkable, SegmentAt;
    forall j | 0 <= j < i + 1 && Loadable(SegmentAt(img, j))
      ensures SegmentOk(img, SegmentAt(img, j))
              && (SegmentsApart(img) ==> SegmentLoaded(m, dir, img, SegmentAt(img, j)))
    {
      if j < i && SegmentsApart(img) {
        assert ApartPages(SegmentAt(img, j), SegmentAt(img, i));
      }
    }
  }

  /**
   `elf_load`, with the memory part of `proc_create_user`: succeeds exactly for the images that pass
   every check, and then the new address space reads, at every byte of every loadable segment, the byte
   of the file or zero.
   */
  method ElfLoad(space: AddressSpace, kernel: seq<Word>, img: seq<Byte>) returns (entry: Option<Word>)
    requires OnlyLarge(kernel) && forall f :: f in space.free ==> f in space.mem && f < 0x10_0000
    requires Accepted(img) ==> Tame(img) && |space.free| >= 6 + FramesFrom(img, 0)
    modifies space
    ensures entry.Some? <==> LoadsOk(img)
    ensures entry.Some? ==> entry.value == Le32(img, 24) && space.Valid()
    ensures entry.Some? && SegmentsApart(img) ==>
              forall i :: 0 <= i < HeaderCount(img) && Loadable(SegmentAt(img, i)) ==>
                && SegmentOk(img, SegmentAt(img, i))
                && SegmentLoaded(space.mem, space.dir, img, SegmentAt(img, i))
  {
    if !Accepted(img) { return None; }
    if (HeaderOffset(img) + HeaderCount(img) * HeaderSize(img)) % 0x1_0000_0000 > |img| { return None; }
    assert HeadersFit(img);
    hide Sane, SegmentLoaded, SegmentAt, HeaderInside, NoWrap, MappedOrShort, LossIs, HeadersFit, Accepted, OnlyLarge;
    var created := space.CreateSpace(kernel);
    ghost var m1, free1 := space.mem, space.free;
    var stacked, done := space.MapFresh(STACK_PAGE, 2, USER_RW);
    EnoughMapped(m1, free1, space.mem, space.free, space.dir, STACK_PAGE, 2, USER_RW, stacked, done);
    var ok := LoadSegments(space, img);
    entry := if ok then Some(Le32(img, 24)) else None;
  }

  /** The loop over the program headers. */
  method LoadSegments(space: AddressSpace, img: seq<Byte>) returns (ok: bool)
    requires space.Valid() && |img| >= 52 && Tame(img) && |space.free| >= FramesFrom(img, 0)
    modifies space`mem, space`free
    ensures space.Valid() && Walkable(space.mem, space.dir)
    ensures ok <==> forall i :: 0 <= i < HeaderCount(img) && HeaderInside(img, i) && Loadable(SegmentAt(img, i)) ==>
                      SegmentOk(img, SegmentAt(img, i))
    ensures ok ==> LoadedUpTo(space.mem, space.dir, img, HeaderCount(img))
  {
    SaneWalks(space.mem, space.free, space.dir);
    hide Sane, SegmentLoaded, SegmentAt, HeaderInside, NoWrap, SegmentOk;
    var i := 0;
    while i < HeaderCount(img)
      invariant i <= HeaderCount(img) && space.Valid() && |space.free| >= FramesFrom(img, i)
      invariant Walkable(space.mem, space.dir) && LoadedUpTo(space.mem, space.dir, img, i)
    {
      var s := SegmentAt(img, i);
      if Loadable(s) {
        ghost var m0 := space.mem;
        ok := LoadSegment(space, img, s);
        SaneWalks(space.mem, space.free, space.dir);
        if !ok { return; }
        LoadedNext(m0, space.mem, space.dir, img, i);
      }
      i := i + 1;
    }
    ok := true;
  }
}
