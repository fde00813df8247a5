/** src/drivers/memory/vmm.c and the memory calls of src/kernel/syscall/syscall.c, for one address space. */
module Mmu {
  import opened Paging
  import opened PageRanges
  import opened PageSets
  import opened UserHeap
  import opened Options

  const MINUS_ONE: Word := 0xFFFF_FFFF
  const MMAP_BASE: Word := 0x2000_0000

  function PageOf(virt: Word): Page {
    virt / 4096
  }

  /** `(len + 0xFFF) >> 12` in 32 bits. */
  function PageCount(len: Word): (n: nat)
    ensures n < 0x10_0000
  {
    (len + 4095) % 0x1_0000_0000 / 4096
  }

  /** The pages counted hold the length exactly up to 0xFFFFF000 bytes; above that none is counted. */
  lemma PageCountIff(len: Word)
    requires len > 0
    ensures len <= 4096 * PageCount(len) <==> len <= 0xFFFF_F000
    ensures PageCount(len) == 0 <==> len > 0xFFFF_F000
  {
  }

  /** The physical address that `vmm_get_physical` reports for a mapping. */
  function Address(m: Option<Mapping>, virt: Word): nat {
    match m
    case None => 0
    case Some(x) => x.frame * 4096 + virt % 4096
  }

  /** A kernel directory that maps by 4 MB entries only. */
  ghost predicate OnlyLarge(kernel: seq<Word>) {
    |kernel| == 1024 && forall i :: 0 <= i < 1024 && Present(kernel[i]) ==> Large(kernel[i])
  }

  /** `pde | PAGE_USER` for a present entry. */
  function ForUser(w: Word): (r: Word)
    ensures Present(r) == Present(w) && Large(r) == Large(w) && r / 0x40_0000 == w / 0x40_0000
    ensures Present(w) ==> r % 4 == w % 4 && r / 4 % 2 == 1 && r / 8 == w / 8
    ensures !Present(w) ==> r == w
  {
    if Present(w) && w / 4 % 2 == 0 then
      UserBit(w);
      w + 4
    else w
  }

  /** Setting a clear bit 2 sets that bit and changes no other. */
  lemma UserBit(w: Word)
    requires w / 4 % 2 == 0
    ensures w + 4 < 0x1_0000_0000 && (w + 4) % 2 == w % 2 && (w + 4) / 128 == w / 128
    ensures (w + 4) / 0x40_0000 == w / 0x40_0000
    ensures (w + 4) % 4 == w % 4 && (w + 4) / 4 % 2 == 1 && (w + 4) / 8 == w / 8
  {
    LowBits(w);
    HighBits(w);
  }

  lemma LowBits(w: Word)
    requires w / 4 % 2 == 0
    ensures (w + 4) % 2 == w % 2 && (w + 4) % 4 == w % 4 && (w + 4) / 4 % 2 == 1 && (w + 4) / 8 == w / 8
  {
    var a, b, c := ThreeBits(w % 8);
    LowBitsOf(w, w / 8, a, b, c);
    LowBitsOf(w + 4, w / 8, 1, b, c);
  }

  lemma HighBits(w: Word)
    requires (w + 4) / 8 == w / 8
    ensures w + 4 < 0x1_0000_0000 && (w + 4) / 128 == w / 128 && (w + 4) / 0x40_0000 == w / 0x40_0000
  {
    assert w / 128 == w / 8 / 16 && (w + 4) / 128 == (w + 4) / 8 / 16;
    assert w / 0x40_0000 == w / 8 / 0x8_0000 && (w + 4) / 0x40_0000 == (w + 4) / 8 / 0x8_0000;
  }

  /** The flat map of a fresh space: the 4 MB entries of the kernel, open to the user. */
  function KernelView(kernel: seq<Word>, p: Page): Option<Mapping>
    requires |kernel| == 1024
  {
    var w := kernel[p / 1024];
    if Present(w) then Some(Mapping(w / 0x40_0000 * 1024 + p % 1024, ForUser(w) % 4096)) else None
  }

  class AddressSpace {
    var mem: Memory
    var free: set<nat>
    var dir: nat
    var heapBrk: Word

    ghost predicate Valid()
      reads this
    {
      Sane(mem, free, dir)
    }

    // -------------------------------------------------------------- frames

    /** `pmm_malloc(PAGE_SIZE)`: a zeroed frame that was free, or nothing when none is left. */
    method AllocFrame() returns (r: Option<nat>)
      modifies this`mem, this`free
      ensures r.None? <==> old(free) == {}
      ensures r.None? ==> mem == old(mem) && free == old(free)
      ensures r.Some? ==> r.value in old(free) && free == old(free) - {r.value} && mem == Zeroed(old(mem), r.value)
    {
      if free == {} { return None; }
      var f :| f in free;
      free := free - {f};
      mem := mem[f := Bytes(ZeroBytes())];
      r := Some(f);
    }

    // -------------------------------------------------------------- vmm.c

    /** `vmm_create_space`: a record and a directory that shares the kernel's 4 MB entries. */
    method CreateSpace(kernel: seq<Word>) returns (ok: bool)
      requires OnlyLarge(kernel) && forall f :: f in free ==> f in mem && f < 0x10_0000
      modifies this
      ensures ok <==> |old(free)| >= 2
      ensures ok ==> Valid() && heapBrk == USER_HEAP
      ensures ok ==> dir in old(free) && free <= old(free) && dir !in free && |free| == |old(free)| - 2
      ensures ok ==> forall p: Page :: !Paged(mem, dir, p) && Lookup(mem, dir, p) == KernelView(kernel, p)
      ensures !ok ==> free == old(free)
    {
      ghost var free0 := free;
      var record := AllocFrame();
      if record.None? { return false; }
      assert free0 == free + {record.value};
      var d := AllocFrame();
      if d.None? {
        free := free + {record.value};
        return false;
      }
      assert |free0| >= 2 by { TwoInside(free0, record.value, d.value); }
      mem := mem[d.value := Table(seq(1024, i requires 0 <= i < 1024 => ForUser(kernel[i])))];
      dir := d.value;
      heapBrk := USER_HEAP;
      CreatedIsSane(mem, free, dir, kernel);
      ok := true;
    }

    /** `vmm_get_page_table`: no table for a slot whose entry has bit 7 set, and none made in its place. */
    method GetPageTable(virt: Word, create: bool) returns (r: Option<nat>)
      requires Valid()
      modifies this`mem, this`free
      ensures var i := PageOf(virt) / 1024; var had := Tabled(old(mem), old(dir), i);
              && (r.Some? <==>
                  had || (create && old(free) != {}
                          && !Present(Pde(old(mem), dir, i)) && !Large(Pde(old(mem), dir, i))))
              && (r.None? || had ==> mem == old(mem) && free == old(free))
              && Valid() && Evolved(old(mem), old(free), mem, free, dir)
      ensures r.Some? ==> Tabled(mem, dir, PageOf(virt) / 1024) && r.value == TableFrame(mem, dir, PageOf(virt) / 1024)
      ensures r.Some? ==> forall q: Page :: Lookup(mem, dir, q) == Lookup(old(mem), dir, q)
    {
      var i := PageOf(virt) / 1024;
      var pde := mem[dir].words[i];
      assert pde == Pde(mem, dir, i);
      if Large(pde) { return None; }
      if !Present(pde) {
        if !create { return None; }
        r := NewTable(i);
        return;
      }
      r := Some(FrameOf(pde));
    }

    /** A zeroed table for slot `i`: the slot's 4 MB entry, if it had one, is gone. */
    method NewTable(i: nat) returns (r: Option<nat>)
      requires Valid() && i < 1024 && !Tabled(mem, dir, i)
      modifies this`mem, this`free
      ensures Valid() && Evolved(old(mem), old(free), mem, free, dir)
      ensures r.None? <==> old(free) == {}
      ensures r.None? ==> mem == old(mem) && free == old(free)
      ensures r.Some? ==> r.value in old(free) && free == old(free) - {r.value}
      ensures r.Some? ==> Tabled(mem, dir, i) && r.value == TableFrame(mem, dir, i)
      ensures r.Some? ==> forall q: Page ::
        Lookup(mem, dir, q) == if q / 1024 == i then None else Lookup(old(mem), dir, q)
      ensures forall j :: 0 <= j < 1024 && j != i ==> Pde(mem, dir, j) == Pde(old(mem), dir, j)
      ensures r.Some? ==> forall p: Page :: Paged(mem, dir, p) ==>
        Paged(old(mem), dir, p) && DataFrame(mem, dir, p) == DataFrame(old(mem), dir, p)
    {
      ghost var m0, free0 := mem, free;
      r := AllocFrame();
      if r.None? { return; }
      TableEvolves(m0, free0, dir, i, r.value);
      TableKeeps(m0, free0, dir, i, r.value);
      EntryIsSmall(r.value);
      assert r.value != dir;
      mem := mem[r.value := Table(ZeroWords())];
      mem := mem[dir := Table(mem[dir].words[i := Entry(r.value * 4096, USER_RW)])];
      assert mem == WithTable(m0, dir, i, r.value);
    }

    /** `vmm_map_page_in`: gives up silently when there is no frame for a table. */
    method MapPageIn(virt: Word, phys: Word, flags: nat)
      requires Valid() && Loose(mem, free, dir, phys / 4096) && flags % 2 == 1 && flags < 4096
      modifies this`mem, this`free
      ensures MappedOne(old(mem), old(free), mem, free, dir, PageOf(virt), phys / 4096, flags)
    {
      var p := PageOf(virt);
      ghost var m0, free0 := mem, free;
      var pde := mem[dir].words[p / 1024];
      assert pde == Pde(mem, dir, p / 1024);
      var table: nat;
      if !Present(pde) || Large(pde) {
        var t := NewTable(p / 1024);
        if t.None? { return; }
        table := t.value;
        TableIsMade(m0, free0, mem, free, dir, p, table);
      } else {
        table := FrameOf(pde);
        TrivialEvolved(m0, free0, dir);
      }
      ghost var m1 := mem;
      assert TableReady(m0, free0, m1, free, dir, p) && table == TableFrame(m1, dir, p / 1024);
      mem := mem[table := Table(mem[table].words[p % 1024 := Entry(phys, flags)])];
      assert mem == WithPte(m1, dir, p, Entry(phys / 4096 * 4096, flags));
      hide Sane, Evolved, WithPte, Entry, MappedOne, TableReady, Loose;
      SetMapsOne(m0, free0, m1, free, dir, p, phys / 4096, flags);
    }

    /** `vmm_unmap_page`: the frame stays allocated. */
    method UnmapPage(virt: Word)
      requires Valid()
      modifies this`mem, this`free
      ensures Valid() && free == old(free)
      ensures forall q: Page ::
        Lookup(mem, dir, q)
          == if q == PageOf(virt) && Tabled(old(mem), dir, q / 1024) then None else Lookup(old(mem), dir, q)
    {
      var p := PageOf(virt);
      ghost var m0, free0 := mem, free;
      var table := GetPageTable(virt, false);
      if table.None? { return; }
      var pte := mem[table.value].words[p % 1024];
      assert pte == Pte(mem, dir, p);
      if Present(pte) {
        ClearKeeps(m0, free, dir, p);
        mem := mem[table.value := Table(mem[table.value].words[p % 1024 := 0])];
        assert mem == WithPte(m0, dir, p, 0);
        LessFree(mem, free + {DataFrame(m0, dir, p)}, free, dir);
      }
    }

    /** `vmm_get_physical`: the flat map, as an address. */
    method GetPhysical(virt: Word) returns (phys: nat)
      requires Valid()
      modifies this`mem, this`free
      ensures mem == old(mem) && free == old(free) && phys == Address(Lookup(mem, dir, PageOf(virt)), virt)
    {
      var p := PageOf(virt);
      var pde := mem[dir].words[p / 1024];
      assert pde == Pde(mem, dir, p / 1024);
      if !Present(pde) { return 0; }
      if Large(pde) {
        LargeAddress(pde, virt);
        return pde / 0x40_0000 * 0x40_0000 + virt % 0x40_0000;
      }
      var table := GetPageTable(virt, false);
      var pte := mem[table.value].words[p % 1024];
      assert pte == Pte(mem, dir, p);
      if !Present(pte) { return 0; }
      phys := pte / 4096 * 4096 + virt % 4096;
    }

    // -------------------------------------------------------------- page after page

    /**
     A zeroed frame and a mapping for each of `n` pages from `first` on, as every loop over pages does it.
     Three outcomes: enough frames, one too few when the last page needs a new table, and too few.
     */
    method MapFresh(first: Page, n: nat, flags: nat) returns (ok: bool, ghost done: nat)
      requires Valid() && n <= 0x10_0000 && flags % 2 == 1 && flags < 4096
      modifies this`mem, this`free
      ensures done <= n && (ok <==> done == n)
      ensures MappedOrShort(old(mem), old(free), mem, free, dir, first, n, flags, ok, done)
      ensures LossIs(old(mem), old(free), mem, free, dir, first, done)
      ensures n == 0 ==> mem == old(mem) && free == old(free)
      ensures Valid()
    {
      ghost var m0, free0 := mem, free;
      NoneMapped(m0, free0, dir, first, flags);
      var k := 0;
      done := 0;
      ok := true;
      hide RangeMapped, RangeShort, Sane;
      while k < n && ok
        invariant k <= n && done <= n && Sane(mem, free, dir) && (ok ==> done == k)
        invariant RangeMapped(m0, free0, mem, free, dir, first, done, flags) ||
                  RangeShort(m0, free0, mem, free, dir, first, done, flags)
        invariant !ok ==> done < n && free == {}
        invariant n == 0 ==> mem == m0 && free == free0
        decreases n - k, ok
      {
        ok := MapNext(Nth(first, k), flags, m0, free0, first, k);
        if ok {
          k := k + 1;
          done := k;
        }
      }
      WhichOutcome(m0, free0, mem, free, dir, first, n, flags, ok, done);
      MappedLoss(m0, free0, mem, free, dir, first, done, flags);
    }

    /** The body of those loops. */
    method MapNext(p: Page, flags: nat, ghost m0: Memory, ghost free0: set<nat>, ghost first: Page, ghost k: nat)
      returns (ok: bool)
      requires Valid() && k < 0x10_0000 && p == Nth(first, k) && flags % 2 == 1 && flags < 4096
      requires RangeMapped(m0, free0, mem, free, dir, first, k, flags) ||
               RangeShort(m0, free0, mem, free, dir, first, k, flags)
      modifies this`mem, this`free
      ensures ok ==> RangeMapped(m0, free0, mem, free, dir, first, k + 1, flags) ||
                     RangeShort(m0, free0, mem, free, dir, first, k + 1, flags)
      ensures !ok ==> free == {} && mem == old(mem) && free == old(free)
      ensures Valid()
    {
      hide RangeMapped, RangeShort, Zeroed, Loose, Sane, SameMap, Evolved, MapsPage, MappedOne;
      ghost var m1, free1 := mem, free;
      SaneWalks(m1, free1, dir);
      ShortIsEmpty(m0, free0, m1, free1, dir, first, k, flags);
      var f := AllocFrame();
      if f.None? { return false; }
      TakeKeeps(m1, free1, dir, f.value);
      LooseIsSmall(mem, free, dir, f.value);
      assert p * 4096 / 4096 == p;
      MapPageIn(p * 4096, f.value * 4096, flags);
      if Tabled(m1, dir, p / 1024) || free1 != {f.value} {
        RangeNext(m0, free0, m1, free1, f.value, mem, free, dir, first, k, flags);
        MappedIsSane(m0, free0, mem, free, dir, first, k + 1, flags);
      } else {
        NowShort(m0, free0, m1, f.value, mem, free, dir, first, k, flags);
      }
      ok := true;
    }

    // -------------------------------------------------------------- system calls

    /**
     `sys_mmap`: the base exactly when the frames needed are there, or all but the last and that one for
     a table of the last page, which then stays as it was.
     */
    method SysMmap(addr: Word, len: Word) returns (r: Word, ghost done: nat)
      requires Valid()
      modifies this`mem, this`free
      ensures Valid()
      ensures len == 0 ==> r == MINUS_ONE && mem == old(mem) && free == old(free)
      ensures len > 0 ==>
        && done <= PageCount(len) && r == (if done == PageCount(len) then MmapBase(addr) else MINUS_ONE)
        && MappedOrShort(old(mem), old(free), mem, free, dir, PageOf(MmapBase(addr)), PageCount(len), USER_RW,
                         done == PageCount(len), done)
        && LossIs(old(mem), old(free), mem, free, dir, PageOf(MmapBase(addr)), done)
      ensures len > 0xFFFF_F000 ==> r == MmapBase(addr) && mem == old(mem) && free == old(free)
      ensures TableAt(old(mem), dir)
      ensures 0 < len <= 0xFFFF_F000 && |old(free)| >= FramesFor(old(mem), dir, PagesIn(MmapBase(addr), len)) ==>
        r == MmapBase(addr) && Grown(old(mem), old(free), mem, dir, PagesIn(MmapBase(addr), len), USER_RW)
    {
      hide MappedOrShort, LossIs, Sane, PageCount, MmapBase, Grown, FramesFor, Walkable, PagesIn;
      ghost var m0, free0 := mem, free;
      SaneIsTable(m0, free0, dir);
      PageCountIff(if len == 0 then 1 else len);
      done := 0;
      if len == 0 { return MINUS_ONE, 0; }
      var ok;
      ok, done := MapFresh(PageOf(MmapBase(addr)), PageCount(len), USER_RW);
      MmapGrows(m0, free0, mem, free, dir, addr, len, ok, done);
      r := if ok then MmapBase(addr) else MINUS_ONE;
    }

    /** `sys_munmap`. */
    method SysMunmap(addr: Word, len: Word) returns (r: Word)
      requires Valid()
      modifies this`mem, this`free
      ensures len == 0 || addr == 0 ==> r == MINUS_ONE && mem == old(mem) && free == old(free)
      ensures len != 0 && addr != 0 ==>
        r == 0 && RangeUnmapped(old(mem), old(free), mem, free, dir, PageOf(addr), PageCount(len))
      ensures 0 < len <= 0xFFFF_F000 && addr != 0 ==>
        Emptied(old(mem), old(free), mem, free, dir, PagesIn(addr / 4096 * 4096, len))
    {
      if len == 0 || addr == 0 { return MINUS_ONE; }
      ghost var m0, free0 := mem, free;
      var first, n := PageOf(addr), PageCount(len);
      NoneUnmapped(m0, free0, dir, first);
      var i := 0;
      while i < n
        invariant i <= n && RangeUnmapped(m0, free0, mem, free, dir, first, i) && Sane(mem, free, dir)
      {
        UnmapOne(Nth(first, i), m0, free0, first, i);
        i := i + 1;
      }
      MunmapEmpties(m0, free0, mem, free, dir, addr, len);
      r := 0;
    }

    /** The body of the loop in `sys_munmap`. */
    method UnmapOne(p: Page, ghost m0: Memory, ghost free0: set<nat>, ghost first: Page, ghost i: nat)
      requires i < 0x10_0000 && p == Nth(first, i)
      requires Valid() && RangeUnmapped(m0, free0, mem, free, dir, first, i)
      modifies this`mem, this`free
      ensures RangeUnmapped(m0, free0, mem, free, dir, first, i + 1) && Valid()
    {
      ghost var m1, free1 := mem, free;
      var pde := mem[dir].words[p / 1024];
      assert pde == Pde(mem, dir, p / 1024);
      if !Present(pde) || Large(pde) {
        UnmapSkip(m0, free0, m1, free1, dir, first, i);
        return;
      }
      var table := FrameOf(pde);
      assert Tabled(mem, dir, p / 1024) && table == TableFrame(mem, dir, p / 1024);
      var pte := mem[table].words[p % 1024];
      assert pte == Pte(mem, dir, p);
      if !Present(pte) {
        UnmapSkip(m0, free0, m1, free1, dir, first, i);
        return;
      }
      UnmapNext(m0, free0, m1, free1, dir, first, i);
      mem := mem[table := Table(mem[table].words[p % 1024 := 0])];
      free := free + {FrameOf(pte)};
      assert mem == WithPte(m1, dir, p, 0) && free == free1 + {DataFrame(m1, dir, p)};
    }

    /** `sys_brk`: moves the break in the same two cases, and else leaves it. */
    method SysBrk(addr: Word) returns (r: Word, ghost done: nat)
      requires Valid()
      modifies this`mem, this`free, this`heapBrk
      ensures Valid()
      ensures addr == 0 ==> r == heapBrk
      ensures addr == 0 || addr < old(heapBrk) || addr >= USER_END ==>
        mem == old(mem) && free == old(free) && heapBrk == old(heapBrk)
      ensures addr != 0 && (addr < old(heapBrk) || addr >= USER_END) ==> r == MINUS_ONE
      ensures addr != 0 && old(heapBrk) <= addr < USER_END ==>
        BrkRange(Space(old(mem), old(free), old(heapBrk)), Space(mem, free, heapBrk), dir, addr, r, done)
      ensures BrkDone(Space(old(mem), old(free), old(heapBrk)), Space(mem, free, heapBrk), dir, addr, r)
    {
      SaneWalks(mem, free, dir);
      hide Sane, BrkMoved, BrkRange, Walkable, TablesOpen;
      done := 0;
      if addr == 0 { return heapBrk, 0; }
      if addr < heapBrk { return MINUS_ONE, 0; }
      if addr >= USER_END { return MINUS_ONE, 0; }
      r, done := MoveBreak(addr);
      SaneWalks(mem, free, dir);
    }

    /** The page loop of `sys_brk`, and the break behind it. */
    method MoveBreak(addr: Word) returns (r: Word, ghost done: nat)
      requires Valid() && InReach(Space(mem, free, heapBrk), addr)
      modifies this`mem, this`free, this`heapBrk
      ensures Valid()
      ensures BrkRange(Space(old(mem), old(free), old(heapBrk)), Space(mem, free, heapBrk), dir, addr, r, done)
      ensures BrkMoved(Space(old(mem), old(free), old(heapBrk)), Space(mem, free, heapBrk), dir, addr, r)
    {
      hide MappedOrShort, LossIs, Sane, BrkPage, BrkMoved, InReach, BrkRange;
      ghost var s := Space(mem, free, heapBrk);
      Reached(s, addr);
      var ok;
      ok, done := MapFresh(BrkPage(heapBrk), BrkPage(addr) - BrkPage(heapBrk), USER_RW);
      BrkMoves(s, mem, free, dir, addr, ok, done);
      BrkRanged(s, mem, free, dir, addr, ok, done);
      if !ok { return MINUS_ONE, done; }
      heapBrk := addr;
      r := addr;
    }
  }

  /** The page loop of `sys_brk` on the pages between the old break and the new one, both rounded up. */
  ghost predicate BrkRange(s: Space, t: Space, dir: nat, addr: Word, r: Word, done: nat)
    requires s.brk <= addr < USER_END
  {
    BrkPages(s.brk, addr);
    var first, n := BrkPage(s.brk), BrkPage(addr) - BrkPage(s.brk);
    && done <= n && MappedOrShort(s.mem, s.free, t.mem, t.free, dir, first, n, USER_RW, done == n, done)
    && LossIs(s.mem, s.free, t.mem, t.free, dir, first, done)
    && if done == n then r == addr && t.brk == addr else r == MINUS_ONE && t.brk == s.brk
  }

  /** Where `sys_mmap` maps. */
  function MmapBase(addr: Word): (base: Word)
    ensures base % 4096 == 0
    ensures if addr == 0 then base == 0x2000_0000 else base <= addr < base + 4096
  {
    if addr != 0 then addr / 4096 * 4096 else MMAP_BASE
  }

  lemma SaneIsTable(m: Memory, free: set<nat>, dir: nat)
    requires Sane(m, free, dir)
    ensures TableAt(m, dir)
  {
  }

  /** The pages counted are those that start in the bytes asked for. */
  lemma CountSpans(base: Word, len: Word)
    requires base % 4096 == 0 && 0 < len <= 0xFFFF_F000
    ensures Spans(PageOf(base), PageCount(len), PagesIn(base, len))
  {
    BytesSpan(base, len, PageCount(len));
  }

  /** With frames enough `sys_mmap` maps the pages of the bytes asked for. */
  lemma MmapGrows(m0: Memory, free0: set<nat>, m: Memory, free: set<nat>, dir: nat, addr: Word, len: Word,
                  ok: bool, done: nat)
    requires len > 0
    requires MappedOrShort(m0, free0, m, free, dir, PageOf(MmapBase(addr)), PageCount(len), USER_RW, ok, done)
    ensures TableAt(m0, dir)
    ensures len <= 0xFFFF_F000 && |free0| >= FramesFor(m0, dir, PagesIn(MmapBase(addr), len)) ==>
              ok && Grown(m0, free0, m, dir, PagesIn(MmapBase(addr), len), USER_RW)
  {
    hide Grown, FramesFor, FramesNeeded, PagesIn, PageCount, PageOf, MmapBase, Spans, RangeMapped, RangeShort,
         LastIsNew;
    if len <= 0xFFFF_F000 {
      var first, n, pages := PageOf(MmapBase(addr)), PageCount(len), PagesIn(MmapBase(addr), len);
      CountSpans(MmapBase(addr), len);
      SpansFrames(m0, dir, first, n, pages);
      if |free0| >= FramesFor(m0, dir, pages) {
        MappedIsGrown(m0, free0, m, free, dir, first, n, USER_RW, pages);
      }
    }
  }

  lemma MunmapEmpties(m0: Memory, free0: set<nat>, m: Memory, free: set<nat>, dir: nat, addr: Word, len: Word)
    requires RangeUnmapped(m0, free0, m, free, dir, PageOf(addr), PageCount(len))
    ensures 0 < len <= 0xFFFF_F000 ==> Emptied(m0, free0, m, free, dir, PagesIn(addr / 4096 * 4096, len))
  {
    hide RangeUnmapped, Emptied, PagesIn, PageCount, Spans;
    if 0 < len <= 0xFFFF_F000 {
      assert PageOf(addr / 4096 * 4096) == PageOf(addr);
      CountSpans(addr / 4096 * 4096, len);
      UnmappedIsEmptied(m0, free0, m, free, dir, PageOf(addr), PageCount(len), PagesIn(addr / 4096 * 4096, len));
    }
  }

  /** The first page at or behind a break below USER_END. */
  function BrkPage(brk: Word): nat {
    (brk + 4095) / 4096
  }

  lemma Reached(s: Space, addr: Word)
    requires InReach(s, addr)
    ensures s.brk <= addr < USER_END && BrkPage(s.brk) <= BrkPage(addr) < 0x10_0000
  {
    BrkPages(s.brk, addr);
  }

  lemma BrkPages(brk: Word, addr: Word)
    requires brk <= addr < USER_END
    ensures BrkPage(brk) <= BrkPage(addr) < 0x10_0000
  {
  }

  /** The pages behind the old break and in front of the new one. */
  lemma BrkSpans(brk: Word, addr: Word, k: nat)
    requires brk <= addr < USER_END && k <= BrkPage(addr) - BrkPage(brk)
    ensures Spans(BrkPage(brk), k, PagesFrom(brk, 4096 * (BrkPage(brk) + k)))
    ensures k == BrkPage(addr) - BrkPage(brk) ==> Spans(BrkPage(brk), k, PagesFrom(brk, addr))
    ensures brk <= 4096 * (BrkPage(brk) + k)
    ensures k < BrkPage(addr) - BrkPage(brk) ==>
              4096 * (BrkPage(brk) + k) < addr && BrkPage(brk) + k in PagesFrom(4096 * (BrkPage(brk) + k), addr)
  {
    FromSpan(brk, 4096 * (BrkPage(brk) + k), BrkPage(brk), k);
    if k == BrkPage(addr) - BrkPage(brk) {
      FromSpan(brk, addr, BrkPage(brk), k);
    }
  }

  /** The outcomes of a page loop, told by the set of its pages. */
  lemma OutcomeOnPages(m0: Memory, free0: set<nat>, m: Memory, free: set<nat>, dir: nat, first: Page, n: nat,
                       flags: nat, ok: bool, done: nat, pages: set<Page>)
    requires MappedOrShort(m0, free0, m, free, dir, first, n, flags, ok, done)
    requires Spans(first, n, pages) && first + n <= 0x10_0000
    ensures TableAt(m0, dir)
    ensures |free0| >= FramesFor(m0, dir, pages) ==> ok && Grown(m0, free0, m, dir, pages, flags)
    ensures var need := FramesFor(m0, dir, pages);
            |free0| < need ==>
              if |free0| + 1 == need && LastAlone(m0, dir, pages) then
                && ok && Walkable(m, dir)
                && exists q: Page :: q in pages && Grown(m0, free0, m, dir, pages - {q}, flags) && !Paged(m, dir, q)
              else
                && !ok && done < n
                && (RangeMapped(m0, free0, m, free, dir, first, done, flags)
                  || RangeShort(m0, free0, m, free, dir, first, done, flags))
  {
    SpansFrames(m0, dir, first, n, pages);
    LastAloneIff(m0, dir, first, n, pages);
    hide Grown, Spans, RangeMapped, RangeShort, FramesNeeded, FramesFor, LastIsNew, LastAlone, Nth, Paged;
    if |free0| >= FramesFor(m0, dir, pages) {
      MappedIsGrown(m0, free0, m, free, dir, first, n, flags, pages);
    } else if |free0| + 1 == FramesFor(m0, dir, pages) && LastAlone(m0, dir, pages) {
      ShortIsGrown(m0, free0, m, free, dir, first, n, flags, pages);
      GrownWalks(m0, free0, m, dir, pages - {Nth(first, n - 1)}, flags);
    }
  }

  lemma GrownWalks(m0: Memory, free0: set<nat>, m: Memory, dir: nat, pages: set<Page>, flags: nat)
    requires Grown(m0, free0, m, dir, pages, flags)
    ensures Walkable(m0, dir) && Walkable(m, dir)
  {
  }

  lemma MovedEnough(s: Space, t: Space, dir: nat, addr: Word)
    requires TableAt(s.mem, dir) && t.brk == addr && |s.free| >= FramesFor(s.mem, dir, PagesFrom(s.brk, addr))
    requires Grown(s.mem, s.free, t.mem, dir, PagesFrom(s.brk, addr), USER_RW)
    ensures BrkMoved(s, t, dir, addr, addr)
  {
    hide Grown, PagesFrom, FramesFor, StopsAt;
  }

  lemma MovedStarved(s: Space, t: Space, dir: nat, addr: Word)
    requires Starved(s, dir, addr) && t.brk == addr && Walkable(t.mem, dir)
    requires exists q: Page ::
               && q in PagesFrom(s.brk, addr) && !Paged(t.mem, dir, q)
               && Grown(s.mem, s.free, t.mem, dir, PagesFrom(s.brk, addr) - {q}, USER_RW)
    ensures BrkMoved(s, t, dir, addr, addr)
  {
    hide Grown, PagesFrom, FramesFor, StopsAt, LastAlone, Paged, Walkable;
  }

  lemma NotMoved(s: Space, t: Space, dir: nat, addr: Word, stop: nat)
    requires TableAt(s.mem, dir) && t.brk == s.brk && !Starved(s, dir, addr)
    requires |s.free| < FramesFor(s.mem, dir, PagesFrom(s.brk, addr))
    requires s.brk <= stop && StopsAt(s, t, dir, addr, stop)
    ensures BrkMoved(s, t, dir, addr, MINUS_ONE)
  {
    hide PagesFrom, FramesFor, StopsAt, Starved, Grown;
  }

  /** The page loop of `sys_brk` does what the call should do, said on bytes. */
  lemma BrkMoves(s: Space, m: Memory, free: set<nat>, dir: nat, addr: Word, ok: bool, done: nat)
    requires InReach(s, addr) && done <= BrkPage(addr) - BrkPage(s.brk)
    requires ok <==> done == BrkPage(addr) - BrkPage(s.brk)
    requires MappedOrShort(s.mem, s.free, m, free, dir, BrkPage(s.brk), BrkPage(addr) - BrkPage(s.brk), USER_RW,
                           ok, done)
    ensures if ok then BrkMoved(s, Space(m, free, addr), dir, addr, addr)
            else BrkMoved(s, Space(m, free, s.brk), dir, addr, MINUS_ONE)
  {
    hide BrkPage, PagesFrom, Grown, Spans, RangeMapped, RangeShort, FramesFor, LastAlone, MappedOrShort, Walkable,
         StopsAt, TableAt, Paged, BrkMoved, InReach;
    Reached(s, addr);
    var first, n, pages := BrkPage(s.brk), BrkPage(addr) - BrkPage(s.brk), PagesFrom(s.brk, addr);
    BrkSpans(s.brk, addr, n);
    OutcomeOnPages(s.mem, s.free, m, free, dir, first, n, USER_RW, ok, done, pages);
    if |s.free| >= FramesFor(s.mem, dir, pages) {
      MovedEnough(s, Space(m, free, addr), dir, addr);
    } else if Starved(s, dir, addr) {
      MovedStarved(s, Space(m, free, addr), dir, addr);
    } else {
      var stop := BrkStops(s, m, free, dir, addr, done);
      NotMoved(s, Space(m, free, s.brk), dir, addr, stop);
    }
  }

  lemma BrkRanged(s: Space, m: Memory, free: set<nat>, dir: nat, addr: Word, ok: bool, done: nat)
    requires s.brk <= addr < USER_END && done <= BrkPage(addr) - BrkPage(s.brk) && BrkPage(s.brk) < 0x10_0000
    requires ok <==> done == BrkPage(addr) - BrkPage(s.brk)
    requires MappedOrShort(s.mem, s.free, m, free, dir, BrkPage(s.brk), BrkPage(addr) - BrkPage(s.brk), USER_RW,
                           ok, done)
    requires LossIs(s.mem, s.free, m, free, dir, BrkPage(s.brk), done)
    ensures if ok then BrkRange(s, Space(m, free, addr), dir, addr, addr, done)
            else BrkRange(s, Space(m, free, s.brk), dir, addr, MINUS_ONE, done)
  {
    hide BrkPage, MappedOrShort, LossIs;
  }

  lemma BrkStopsShort(brk: Word, addr: Word, done: nat)
    requires brk <= addr < USER_END && 0 < done < BrkPage(addr) - BrkPage(brk)
    ensures BrkPage(brk) < 0x10_0000
    ensures PagesFrom(brk, 4096 * (BrkPage(brk) + done)) - {Nth(BrkPage(brk), done - 1)}
         == PagesFrom(brk, 4096 * (BrkPage(brk) + done - 1))
  {
    BrkPages(brk, addr);
    assert Nth(BrkPage(brk), done - 1) == BrkPage(brk) + done - 1;
  }

  lemma StopsMapped(s: Space, m: Memory, free: set<nat>, dir: nat, addr: Word, done: nat)
    requires InReach(s, addr) && done < BrkPage(addr) - BrkPage(s.brk) && BrkPage(s.brk) < 0x10_0000
    requires RangeMapped(s.mem, s.free, m, free, dir, BrkPage(s.brk), done, USER_RW)
    ensures var stop := 4096 * (BrkPage(s.brk) + done);
            s.brk <= stop && StopsAt(s, Space(m, free, s.brk), dir, addr, stop)
  {
    hide BrkPage, PagesFrom, Grown, Spans, RangeMapped, InReach;
    Reached(s, addr);
    BrkSpans(s.brk, addr, done);
    var stop := 4096 * (BrkPage(s.brk) + done);
    MappedIsGrown(s.mem, s.free, m, free, dir, BrkPage(s.brk), done, USER_RW, PagesFrom(s.brk, stop));
  }

  lemma StopsShort(s: Space, m: Memory, free: set<nat>, dir: nat, addr: Word, done: nat)
    requires InReach(s, addr) && 0 < done < BrkPage(addr) - BrkPage(s.brk) && BrkPage(s.brk) < 0x10_0000
    requires RangeShort(s.mem, s.free, m, free, dir, BrkPage(s.brk), done, USER_RW)
    ensures var stop := 4096 * (BrkPage(s.brk) + done - 1);
            s.brk <= stop && StopsAt(s, Space(m, free, s.brk), dir, addr, stop)
  {
    hide BrkPage, PagesFrom, Grown, Spans, RangeShort, Nth, Paged, InReach;
    Reached(s, addr);
    BrkSpans(s.brk, addr, done);
    BrkSpans(s.brk, addr, done - 1);
    BrkStopsShort(s.brk, addr, done);
    ShortIsGrown(s.mem, s.free, m, free, dir, BrkPage(s.brk), done, USER_RW,
                 PagesFrom(s.brk, 4096 * (BrkPage(s.brk) + done)));
  }

  /** A call that ran out of frames stopped somewhere in between. */
  lemma BrkStops(s: Space, m: Memory, free: set<nat>, dir: nat, addr: Word, done: nat) returns (stop: nat)
    requires InReach(s, addr) && done < BrkPage(addr) - BrkPage(s.brk) && BrkPage(s.brk) < 0x10_0000
    requires RangeMapped(s.mem, s.free, m, free, dir, BrkPage(s.brk), done, USER_RW)
             || RangeShort(s.mem, s.free, m, free, dir, BrkPage(s.brk), done, USER_RW)
    ensures s.brk <= stop && StopsAt(s, Space(m, free, s.brk), dir, addr, stop)
  {
    assert RangeShort(s.mem, s.free, m, free, dir, BrkPage(s.brk), done, USER_RW) ==> done > 0;
    hide BrkPage, StopsAt, RangeMapped, RangeShort;
    if RangeMapped(s.mem, s.free, m, free, dir, BrkPage(s.brk), done, USER_RW) {
      StopsMapped(s, m, free, dir, addr, done);
      stop := 4096 * (BrkPage(s.brk) + done);
    } else {
      StopsShort(s, m, free, dir, addr, done);
      stop := 4096 * (BrkPage(s.brk) + done - 1);
    }
  }

  // ---------------------------------------------------------------- enough frames, one too few, too few

  ghost predicate AllFresh(m: Memory, free0: set<nat>, dir: nat, first: Page, n: nat, flags: nat)
    requires Walkable(m, dir)
  {
    forall q: Page :: InRange(first, n, q) ==> FreshAt(m, free0, dir, q, flags)
  }

  /** What a loop over `n` pages does, by the number of free frames it finds. */
  ghost predicate MappedOrShort(m0: Memory, free0: set<nat>, m: Memory, free: set<nat>, dir: nat,
                                first: Page, n: nat, flags: nat, ok: bool, done: nat) {
    TableAt(m0, dir) &&
    var need := FramesNeeded(m0, dir, first, n);
    if |free0| >= need then ok && RangeMapped(m0, free0, m, free, dir, first, n, flags)
    else if |free0| + 1 == need && LastIsNew(m0, dir, first, n)
    then ok && RangeShort(m0, free0, m, free, dir, first, n, flags)
    else
      && !ok && done < n && free == {}
      && (RangeMapped(m0, free0, m, free, dir, first, done, flags)
        || RangeShort(m0, free0, m, free, dir, first, done, flags))
  }

  lemma WhichOutcome(m0: Memory, free0: set<nat>, m: Memory, free: set<nat>, dir: nat, first: Page, n: nat,
                     flags: nat, ok: bool, done: nat)
    requires done <= n <= 0x10_0000 && (ok ==> done == n) && (!ok ==> done < n && free == {})
    requires RangeMapped(m0, free0, m, free, dir, first, done, flags) ||
             RangeShort(m0, free0, m, free, dir, first, done, flags)
    ensures MappedOrShort(m0, free0, m, free, dir, first, n, flags, ok, done)
  {
    hide RangeMapped, RangeShort, FramesNeeded, LastIsNew;
    Budget(m0, free0, m, free, dir, first, done, flags);
    FramesNeededBounds(m0, dir, first, done, n);
    if n > 0 {
      NewSlotsStep(m0, dir, first, n - 1);
      if done < n {
        FramesNeededBounds(m0, dir, first, done, n - 1);
      }
    }
  }

  /**
   The outcomes apart: every page of the range is fresh and the loop succeeds exactly when the frames
   needed are free; it succeeds with the last page left as it was exactly when one frame is missing and
   the last page alone needs its table; it fails otherwise.
   */
  lemma OutcomesApart(m0: Memory, free0: set<nat>, m: Memory, free: set<nat>, dir: nat, first: Page, n: nat,
                      flags: nat, ok: bool, done: nat)
    requires Sane(m0, free0, dir) && Sane(m, free, dir) && n <= 0x10_0000
    requires MappedOrShort(m0, free0, m, free, dir, first, n, flags, ok, done)
    ensures var need := FramesNeeded(m0, dir, first, n);
            && (ok && AllFresh(m, free0, dir, first, n, flags) <==> |free0| >= need)
            && (ok && !AllFresh(m, free0, dir, first, n, flags) <==>
                |free0| + 1 == need && LastIsNew(m0, dir, first, n))
    ensures ok && !AllFresh(m, free0, dir, first, n, flags) ==>
              n > 0 && Lookup(m, dir, Nth(first, n - 1)) == Lookup(m0, dir, Nth(first, n - 1))
    ensures ok && !AllFresh(m, free0, dir, first, n, flags) ==>
              exists f :: f in free0 && IsLost(m, free, dir, f)
  {
    hide FramesNeeded, LastIsNew;
    if ok && |free0| < FramesNeeded(m0, dir, first, n) {
      ShortMeans(m0, free0, m, free, dir, first, n, flags);
      var p := Nth(first, n - 1);
      RangeStep(first, n - 1, p);
      assert !FreshAt(m, free0, dir, p, flags);
    }
  }

  /** How far a call gets is decided beforehand: page after page while a frame is left for the next one. */
  lemma StopsWhere(m0: Memory, free0: set<nat>, m: Memory, free: set<nat>, dir: nat, first: Page, n: nat,
                   flags: nat, ok: bool, done: nat)
    requires done <= n <= 0x10_0000 && (ok <==> done == n)
    requires MappedOrShort(m0, free0, m, free, dir, first, n, flags, ok, done)
    ensures forall k: nat :: k < n ==> (k < done <==> FramesNeeded(m0, dir, first, k) < |free0|)
  {
    hide RangeMapped, RangeShort, FramesNeeded, LastIsNew;
    Budget(m0, free0, m, free, dir, first, done, flags);
    if done > 0 {
      NewSlotsStep(m0, dir, first, done - 1);
    }
    forall k: nat | k < n
      ensures k < done <==> FramesNeeded(m0, dir, first, k) < |free0|
    {
      if k < done {
        FramesNeededBounds(m0, dir, first, k, done - 1);
      } else {
        FramesNeededBounds(m0, dir, first, done, k);
      }
    }
  }

  lemma OnePageCall()
    ensures PageCount(4096) == 1 && MmapBase(0) == MMAP_BASE
  {
  }

  /** A space with one free frame and no table. */
  function OneFrame(): Memory {
    map[0 := Table(ZeroWords()), 1 := Bytes(ZeroBytes())]
  }

  lemma OneFrameIsShort(first: Page)
    ensures Sane(OneFrame(), {1}, 0) && LastIsNew(OneFrame(), 0, first, 1) && FramesNeeded(OneFrame(), 0, first, 1) == 2
    ensures forall q: Page :: Lookup(OneFrame(), 0, q) == None
  {
    var m := OneFrame();
    assert forall i :: 0 <= i < 1024 ==> Pde(m, 0, i) == 0;
    assert forall i :: 0 <= i < 1024 ==> !Tabled(m, 0, i);
    NewSlotsStep(m, 0, first, 0);
    assert NewSlots(m, 0, first, 0) == {};
  }

  lemma OneFrameAfter(m: Memory, free: set<nat>, first: Page, ok: bool, done: nat)
    requires Sane(m, free, 0) && MappedOrShort(OneFrame(), {1}, m, free, 0, first, 1, USER_RW, ok, done)
    ensures ok && Lookup(m, 0, first) == None && free == {} && IsLost(m, free, 0, 1)
  {
    OneFrameIsShort(first);
    assert Nth(first, 0) == first;
    hide Sane, FramesNeeded, LastIsNew, OneFrame;
    ShortMeans(OneFrame(), {1}, m, free, 0, first, 1, USER_RW);
  }

  /** There `sys_mmap` of one page returns its base, the page is not mapped, and the frame is gone. */
  method MmapOneFrame() returns (space: AddressSpace, r: Word)
    ensures fresh(space) && space.Valid() && r == MMAP_BASE
    ensures Lookup(space.mem, space.dir, PageOf(MMAP_BASE)) == None && IsLost(space.mem, space.free, space.dir, 1)
  {
    space := new AddressSpace;
    space.mem, space.free, space.dir := OneFrame(), {1}, 0;
    OneFrameIsShort(PageOf(MMAP_BASE));
    OnePageCall();
    hide Sane, OneFrame, MappedOrShort, LossIs, PageOf, PageCount, MmapBase, IsLost, Lookup;
    ghost var done;
    r, done := space.SysMmap(0, 4096);
    OneFrameAfter(space.mem, space.free, PageOf(MMAP_BASE), done == 1, done);
  }

  /** A space with three free frames and no table. */
  function ThreeFrames(): Memory {
    map[0 := Table(ZeroWords()), 1 := Bytes(ZeroBytes()), 2 := Bytes(ZeroBytes()), 3 := Bytes(ZeroBytes())]
  }

  lemma ThreeFramesSuffice(first: Page)
    ensures Sane(ThreeFrames(), {1, 2, 3}, 0) && FramesNeeded(ThreeFrames(), 0, first, 1) == 2
  {
    var m := ThreeFrames();
    assert forall i :: 0 <= i < 1024 ==> Pde(m, 0, i) == 0;
    assert forall i :: 0 <= i < 1024 ==> !Tabled(m, 0, i);
    NewSlotsStep(m, 0, first, 0);
    assert NewSlots(m, 0, first, 0) == {};
  }

  /** After the first call the page is mapped, and the slot has its table. */
  lemma OnceMapped(m: Memory, free: set<nat>, first: Page, ok: bool, done: nat)
    requires Sane(m, free, 0)
    requires MappedOrShort(ThreeFrames(), {1, 2, 3}, m, free, 0, first, 1, USER_RW, ok, done)
    ensures ok && Walkable(m, 0) && Paged(m, 0, first) && |free| == 1 && FramesNeeded(m, 0, first, 1) == 1
    ensures Lookup(m, 0, first) == Some(Mapping(DataFrame(m, 0, first), USER_RW))
  {
    ThreeFramesSuffice(first);
    assert |{1, 2, 3}| == 3;
    RangeStep(first, 0, first);
    assert InRange(first, 1, first);
    NewSlotsStep(m, 0, first, 0);
    assert NewSlots(m, 0, first, 0) == {};
  }

  /** After the second call the frame of the first is in no free list, entry or table. */
  lemma TwiceMapped(m1: Memory, free1: set<nat>, m: Memory, free: set<nat>, first: Page, ok: bool, done: nat)
    requires Sane(m1, free1, 0) && Sane(m, free, 0) && Paged(m1, 0, first)
    requires |free1| == 1 && FramesNeeded(m1, 0, first, 1) == 1 && (ok <==> done == 1)
    requires MappedOrShort(m1, free1, m, free, 0, first, 1, USER_RW, ok, done)
    requires LossIs(m1, free1, m, free, 0, first, done)
    ensures ok && IsLost(m, free, 0, DataFrame(m1, 0, first))
  {
    hide FramesNeeded, RangeMapped, RangeShort, IsLost;
    RangeStep(first, 0, first);
    assert InRange(first, 1, first) && InUse(m1, 0, first, 1, DataFrame(m1, 0, first));
  }

  /** Two calls of `sys_mmap` for the same page: both return their base, and the frame of the first is gone. */
  method MmapTwice() returns (space: AddressSpace, r: Word, s: Word, ghost m1: Memory, ghost f: nat)
    ensures fresh(space) && space.Valid() && r == MMAP_BASE && s == MMAP_BASE
    ensures Walkable(m1, space.dir) && Lookup(m1, space.dir, PageOf(MMAP_BASE)) == Some(Mapping(f, USER_RW))
    ensures IsLost(space.mem, space.free, space.dir, f)
  {
    space := new AddressSpace;
    space.mem, space.free, space.dir := ThreeFrames(), {1, 2, 3}, 0;
    ghost var p := PageOf(MMAP_BASE);
    ThreeFramesSuffice(p);
    OnePageCall();
    hide Sane, ThreeFrames, MappedOrShort, LossIs, Walkable, FramesNeeded, IsLost, Lookup, Paged;
    hide PageOf, PageCount, MmapBase, DataFrame;
    ghost var done;
    r, done := space.SysMmap(0, 4096);
    m1 := space.mem;
    ghost var free1 := space.free;
    OnceMapped(m1, free1, p, done == 1, done);
    f := DataFrame(m1, 0, p);
    s, done := space.SysMmap(0, 4096);
    TwiceMapped(m1, free1, space.mem, space.free, p, done == 1, done);
  }

  lemma TwoInside(s: set<nat>, a: nat, b: nat)
    requires a in s && b in s && a != b
    ensures |s| >= 2
  {
    assert {a, b} <= s;
    assert |s| == |s - {a, b}| + |{a, b}|;
  }

  lemma CreatedIsSane(m: Memory, free: set<nat>, dir: nat, kernel: seq<Word>)
    requires OnlyLarge(kernel) && dir in m && dir !in free && forall f :: f in free ==> f in m && f < 0x10_0000
    requires m[dir] == Table(seq(1024, i requires 0 <= i < 1024 => ForUser(kernel[i])))
    ensures Sane(m, free, dir)
    ensures forall p: Page :: !Paged(m, dir, p) && Lookup(m, dir, p) == KernelView(kernel, p)
  {
  }

  lemma TrivialEvolved(m: Memory, free: set<nat>, dir: nat)
    requires Sane(m, free, dir)
    ensures Evolved(m, free, m, free, dir)
  {
  }

  /** The table for page `p` is there, made for it or not. */
  ghost predicate TableReady(m0: Memory, free0: set<nat>, m: Memory, free: set<nat>, dir: nat, p: Page) {
    && Evolved(m0, free0, m, free, dir) && Tabled(m, dir, p / 1024)
    && (forall j :: 0 <= j < 1024 && j != p / 1024 ==> Pde(m, dir, j) == Pde(m0, dir, j))
    && (forall q: Page ::
          Lookup(m, dir, q) == if q / 1024 == p / 1024 && !Tabled(m0, dir, p / 1024) then None else Lookup(m0, dir, q))
    && (forall q: Page :: Paged(m, dir, q) ==> Paged(m0, dir, q) && DataFrame(m, dir, q) == DataFrame(m0, dir, q))
    && |free0| == |free| + (if Tabled(m0, dir, p / 1024) then 0 else 1)
    && (forall f :: f in free0 && f !in free ==> f == TableFrame(m, dir, p / 1024))
  }

  lemma TableIsMade(m0: Memory, free0: set<nat>, m: Memory, free: set<nat>, dir: nat, p: Page, t: nat)
    requires Evolved(m0, free0, m, free, dir) && !Tabled(m0, dir, p / 1024) && Tabled(m, dir, p / 1024)
    requires t in free0 && free == free0 - {t} && t == TableFrame(m, dir, p / 1024)
    requires forall q: Page :: Lookup(m, dir, q) == if q / 1024 == p / 1024 then None else Lookup(m0, dir, q)
    requires forall j :: 0 <= j < 1024 && j != p / 1024 ==> Pde(m, dir, j) == Pde(m0, dir, j)
    requires forall q: Page :: Paged(m, dir, q) ==> Paged(m0, dir, q) && DataFrame(m, dir, q) == DataFrame(m0, dir, q)
    ensures TableReady(m0, free0, m, free, dir, p)
  {
  }

  /** Once the table is there, setting its entry maps the page and no other. */
  lemma SetMapsOne(m0: Memory, free0: set<nat>, m1: Memory, free: set<nat>, dir: nat, p: Page, g: nat, flags: nat)
    requires TableReady(m0, free0, m1, free, dir, p) && Loose(m0, free0, dir, g) && flags % 2 == 1 && flags < 4096
    ensures MappedOne(m0, free0, WithPte(m1, dir, p, Entry(g * 4096, flags)), free, dir, p, g, flags)
  {
    LooseStays(m0, free0, m1, free, dir, p, g);
    SetKeeps(m1, free, dir, p, g, flags);
    SetEvolves(m1, free, dir, p, g, flags);
    PteAlone(m1, dir, p, Entry(g * 4096, flags));
    EvolvedThen(m0, free0, m1, free, WithPte(m1, dir, p, Entry(g * 4096, flags)), free, dir);
  }

  lemma LooseStays(m0: Memory, free0: set<nat>, m: Memory, free: set<nat>, dir: nat, p: Page, g: nat)
    requires Evolved(m0, free0, m, free, dir) && Loose(m0, free0, dir, g)
    requires forall q: Page :: Paged(m, dir, q) ==> Paged(m0, dir, q) && DataFrame(m, dir, q) == DataFrame(m0, dir, q)
    ensures Loose(m, free, dir, g)
  {
  }

  lemma LessFree(m: Memory, free: set<nat>, free': set<nat>, dir: nat)
    requires Sane(m, free, dir) && free' <= free
    ensures Sane(m, free', dir)
  {
  }

  lemma LargeAddress(pde: Word, virt: Word)
    ensures pde / 0x40_0000 * 0x40_0000 + virt % 0x40_0000
            == (pde / 0x40_0000 * 1024 + PageOf(virt) % 1024) * 4096 + virt % 4096
  {
  }

  lemma LooseIsSmall(m: Memory, free: set<nat>, dir: nat, f: nat)
    requires Walkable(m, dir) && Loose(m, free, dir, f)
    ensures f < 0x10_0000 && f * 4096 / 4096 == f
  {
  }

  lemma SaneWalks(m: Memory, free: set<nat>, dir: nat)
    requires Sane(m, free, dir)
    ensures Walkable(m, dir) && TablesOpen(m, dir)
  {
  }

  lemma ShortIsEmpty(m0: Memory, free0: set<nat>, m: Memory, free: set<nat>, dir: nat, first: Page, k: nat, flags: nat)
    ensures RangeShort(m0, free0, m, free, dir, first, k, flags) ==> free == {}
  {
  }

  lemma NowShort(m0: Memory, free0: set<nat>, m1: Memory, f: nat, m: Memory, free: set<nat>,
                 dir: nat, first: Page, k: nat, flags: nat)
    requires k < 0x10_0000 && RangeMapped(m0, free0, m1, {f}, dir, first, k, flags)
    requires !Tabled(m1, dir, Nth(first, k) / 1024)
    requires MappedOne(Zeroed(m1, f), {f} - {f}, m, free, dir, Nth(first, k), f, flags)
    ensures RangeShort(m0, free0, m, free, dir, first, k + 1, flags) && Sane(m, free, dir)
  {
    TakeKeeps(m1, {f}, dir, f);
    assert {f} - {f} == {};
    assert !Tabled(Zeroed(m1, f), dir, Nth(first, k) / 1024);
  }

  lemma MappedIsSane(m0: Memory, free0: set<nat>, m: Memory, free: set<nat>, dir: nat, first: Page, n: nat, flags: nat)
    requires RangeMapped(m0, free0, m, free, dir, first, n, flags)
    ensures Sane(m, free, dir)
  {
  }
}
