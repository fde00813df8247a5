/** The heap of a program under `sys_brk`: what each call does to the bytes below the break, and what runs keep. */
module UserHeap {
  import opened Paging
  import opened PageRanges
  import opened PageSets
  import opened Options

  const USER_HEAP: Word := 0x4000_0000
  const USER_END: Word := 0xC000_0000

  /** An address space without its directory, which stays where it is. */
  datatype Space = Space(mem: Memory, free: set<nat>, brk: Word)

  /** The call asks for a break that can be had. */
  predicate InReach(s: Space, addr: Word) {
    addr != 0 && s.brk <= addr < USER_END
  }

  /** One frame is missing, and it is the one for the table of the last page. */
  ghost predicate Starved(s: Space, dir: nat, addr: Word) {
    && InReach(s, addr) && TableAt(s.mem, dir)
    && |s.free| + 1 == FramesFor(s.mem, dir, PagesFrom(s.brk, addr))
    && LastAlone(s.mem, dir, PagesFrom(s.brk, addr))
  }

  /**
   A call in reach: with frames enough the pages that start between the old break and the new one are fresh and
   the break moves; starved the break moves and one of them is not mapped; else it stays, and the call stops
   in front of the last page.
   */
  ghost predicate BrkMoved(s: Space, t: Space, dir: nat, addr: Word, r: Word) {
    TableAt(s.mem, dir) &&
    var pages := PagesFrom(s.brk, addr);
    if |s.free| >= FramesFor(s.mem, dir, pages)
    then r == addr && t.brk == addr && Grown(s.mem, s.free, t.mem, dir, pages, USER_RW)
    else if Starved(s, dir, addr)
    then
      && r == addr && t.brk == addr
      && exists q: Page :: q in pages && Grown(s.mem, s.free, t.mem, dir, pages - {q}, USER_RW) && !Paged(t.mem, dir, q)
    else
      && r == 0xFFFF_FFFF && t.brk == s.brk
      && exists stop: nat :: s.brk <= stop && StopsAt(s, t, dir, addr, stop)
  }

  /** The pages that start in front of `stop` are fresh, and there is one behind it that was asked for. */
  ghost predicate StopsAt(s: Space, t: Space, dir: nat, addr: Word, stop: nat) {
    PagesFrom(stop, addr) != {} && Grown(s.mem, s.free, t.mem, dir, PagesFrom(s.brk, stop), USER_RW)
  }

  /** What `sys_brk` does. */
  ghost predicate BrkDone(s: Space, t: Space, dir: nat, addr: Word, r: Word) {
    && Walkable(s.mem, dir) && Walkable(t.mem, dir) && TablesOpen(s.mem, dir) && TablesOpen(t.mem, dir)
    && if InReach(s, addr) then BrkMoved(s, t, dir, addr, r)
       else t == s && r == if addr == 0 then s.brk else 0xFFFF_FFFF
  }

  // ---------------------------------------------------------------- every byte below the break

  /** The byte lies on a page that a table entry maps, present, writable and open to the program. */
  ghost predicate Backed(m: Memory, dir: nat, v: Word)
    requires Walkable(m, dir)
  {
    Paged(m, dir, v / 4096) && Lookup(m, dir, v / 4096) == Some(Mapping(DataFrame(m, dir, v / 4096), 7))
  }

  ghost predicate HeapMapped(m: Memory, dir: nat, brk: Word) {
    Walkable(m, dir) && forall v: Word :: USER_HEAP <= v < brk ==> Backed(m, dir, v)
  }

  lemma BackedStays(m0: Memory, free0: set<nat>, m: Memory, dir: nat, pages: set<Page>, v: Word)
    requires Grown(m0, free0, m, dir, pages, USER_RW)
    requires v / 4096 in pages || Backed(m0, dir, v)
    ensures Backed(m, dir, v)
  {
    var q: Page := v / 4096;
    if q in pages {
      assert FreshAt(m, free0, dir, q, USER_RW);
    }
  }

  /** A byte below the new break lies on a new page or on the page of a byte below the old one. */
  lemma OldOrNew(lo: Word, hi: Word, v: Word)
    requires USER_HEAP <= lo && USER_HEAP <= v < hi
    ensures var w: Word := if v < lo then v else lo - 1;
            v / 4096 in PagesFrom(lo, hi) || (USER_HEAP <= w < lo && w / 4096 == v / 4096)
  {
  }

  lemma BackedAlike(m: Memory, dir: nat, v: Word, w: Word)
    requires Walkable(m, dir) && v / 4096 == w / 4096 && Backed(m, dir, v)
    ensures Backed(m, dir, w)
  {
  }

  lemma GrownKeepsHeap(m0: Memory, free0: set<nat>, m: Memory, dir: nat, lo: Word, hi: Word)
    requires USER_HEAP <= lo && HeapMapped(m0, dir, lo) && Grown(m0, free0, m, dir, PagesFrom(lo, hi), USER_RW)
    ensures HeapMapped(m, dir, hi)
  {
    forall v: Word | USER_HEAP <= v < hi
      ensures Backed(m, dir, v)
    {
      OldOrNew(lo, hi, v);
      var w: Word := if v < lo then v else lo - 1;
      hide Grown, PagesFrom, Backed;
      if v / 4096 !in PagesFrom(lo, hi) {
        BackedAlike(m0, dir, w, v);
      }
      BackedStays(m0, free0, m, dir, PagesFrom(lo, hi), v);
    }
  }

  lemma PartKeepsHeap(m0: Memory, free0: set<nat>, m: Memory, dir: nat, pages: set<Page>, lo: Word)
    requires HeapMapped(m0, dir, lo) && Grown(m0, free0, m, dir, pages, USER_RW)
    ensures HeapMapped(m, dir, lo)
  {
    forall v: Word | USER_HEAP <= v < lo
      ensures Backed(m, dir, v)
    {
      hide Grown;
      BackedStays(m0, free0, m, dir, pages, v);
    }
  }

  /** A call keeps every byte of the heap on a mapped page exactly when it is not starved. */
  lemma BrkKeepsHeapIff(s: Space, t: Space, dir: nat, addr: Word, r: Word)
    requires USER_HEAP <= s.brk && HeapMapped(s.mem, dir, s.brk) && BrkDone(s, t, dir, addr, r)
    ensures USER_HEAP <= t.brk && (HeapMapped(t.mem, dir, t.brk) <==> !Starved(s, dir, addr))
  {
    if InReach(s, addr) {
      var pages := PagesFrom(s.brk, addr);
      hide HeapMapped, Grown, PagesFrom;
      if |s.free| >= FramesFor(s.mem, dir, pages) {
        GrownKeepsHeap(s.mem, s.free, t.mem, dir, s.brk, addr);
      } else if Starved(s, dir, addr) {
        var q: Page :| q in pages && !Paged(t.mem, dir, q);
        Unmapped(t.mem, dir, s.brk, addr, q);
      } else {
        var stop: nat :| s.brk <= stop && StopsAt(s, t, dir, addr, stop);
        PartKeepsHeap(s.mem, s.free, t.mem, dir, PagesFrom(s.brk, stop), s.brk);
      }
    }
  }

  lemma Unmapped(m: Memory, dir: nat, lo: Word, hi: Word, q: Page)
    requires USER_HEAP <= lo && Walkable(m, dir) && q in PagesFrom(lo, hi) && !Paged(m, dir, q)
    ensures !HeapMapped(m, dir, hi)
  {
    var v: Word := 4096 * q;
    assert USER_HEAP <= v < hi && v / 4096 == q && !Backed(m, dir, v);
  }

  /** The program can write the byte at that address. */
  ghost predicate CanWrite(m: Memory, dir: nat, v: Word) {
    Walkable(m, dir) && UserWrites(m, dir, v / 4096)
  }

  lemma {:induction false} HeapRun(ss: seq<Space>, calls: seq<Word>, rs: seq<Word>, dir: nat)
    requires |calls| == |rs| && |ss| == |calls| + 1
    requires ss[0].brk == USER_HEAP && Walkable(ss[0].mem, dir)
    requires forall k :: 0 <= k < |calls| ==> BrkDone(ss[k], ss[k + 1], dir, calls[k], rs[k])
    requires forall k :: 0 <= k < |calls| ==> !Starved(ss[k], dir, calls[k])
    ensures USER_HEAP <= ss[|calls|].brk && HeapMapped(ss[|calls|].mem, dir, ss[|calls|].brk)
    decreases |calls|
  {
    var n := |calls| - 1;
    if n >= 0 {
      hide HeapMapped, BrkDone, Starved;
      HeapRun(ss[..n + 1], calls[..n], rs[..n], dir);
      BrkKeepsHeapIff(ss[n], ss[n + 1], dir, calls[n], rs[n]);
    }
  }

  /**
   In every run of `sys_brk` on a fresh space without a starved call every byte of the heap is on a mapped page,
   and the program can write it.
   */
  lemma HeapStaysMapped(ss: seq<Space>, calls: seq<Word>, rs: seq<Word>, dir: nat)
    requires |calls| == |rs| && |ss| == |calls| + 1
    requires ss[0].brk == USER_HEAP && Walkable(ss[0].mem, dir) && TablesOpen(ss[0].mem, dir)
    requires forall k :: 0 <= k < |calls| ==> BrkDone(ss[k], ss[k + 1], dir, calls[k], rs[k])
    requires forall k :: 0 <= k < |calls| ==> !Starved(ss[k], dir, calls[k])
    ensures USER_HEAP <= ss[|calls|].brk && HeapMapped(ss[|calls|].mem, dir, ss[|calls|].brk)
    ensures forall v: Word :: USER_HEAP <= v < ss[|calls|].brk ==> CanWrite(ss[|calls|].mem, dir, v)
  {
    HeapRun(ss, calls, rs, dir);
    var last := ss[|calls|];
    assert TablesOpen(last.mem, dir) by {
      if |calls| > 0 {
        assert BrkDone(ss[|calls| - 1], last, dir, calls[|calls| - 1], rs[|calls| - 1]);
      }
    }
    forall v: Word | USER_HEAP <= v < last.brk
      ensures CanWrite(last.mem, dir, v)
    {
      assert Backed(last.mem, dir, v);
      PageRights(last.mem, dir, v / 4096);
    }
  }
}
