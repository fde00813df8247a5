/** `elf_load` on an assembled executable, from the fields that went into it to the bytes that the program reads. */
module ElfProgram {
  import opened Paging
  import opened Mmu
  import opened ElfImage
  import opened ElfEncode
  import opened ElfLoader
  import opened Options

  /** A segment that the loader puts into memory. */
  predicate Loads(p: ProgramHeader) {
    p.kind == 1 && p.memsz > 0
  }

  /** The segment has a byte on page `q`. */
  predicate Touches(p: ProgramHeader, q: Page) {
    4096 * q < p.vaddr + p.memsz && p.vaddr < 4096 * (q + 1)
  }

  function CopiedBytes(p: ProgramHeader): nat {
    if p.filesz < p.memsz then p.filesz else p.memsz
  }

  /** No sum wraps around in 32 bits. */
  predicate FitsWords(p: ProgramHeader) {
    p.vaddr + p.memsz < 0x1_0000_0000 && p.offset + CopiedBytes(p) < 0x1_0000_0000
  }

  /** The segment lies between 4 KB and 3 GB, and its file bytes in a file of that size. */
  predicate Admitted(p: ProgramHeader, size: nat) {
    && p.vaddr >= 0x1000 && p.vaddr + p.memsz <= 0xC000_0000
    && (p.filesz > 0 ==> p.offset + CopiedBytes(p) <= size)
  }

  /** No two segments have bytes on the same page. */
  ghost predicate NoSharedPage(segs: seq<ProgramHeader>) {
    forall i, j, q: Page :: 0 <= i < j < |segs| && Loads(segs[i]) && Loads(segs[j]) && Touches(segs[i], q) ==>
      !Touches(segs[j], q)
  }

  /** Two frames for every page of every segment. */
  function Frames(segs: seq<ProgramHeader>): int {
    if segs == [] then 0
    else
      var p := segs[0];
      Frames(segs[1..]) + if Loads(p) then 2 * ((p.vaddr + p.memsz + 4095) / 4096 - p.vaddr / 4096) else 0
  }

  /**
   Every byte of the segment reads as the byte of the file or, behind those, as zero; the program may read its
   pages, and write them exactly when the segment is flagged writable.
   */
  ghost predicate InMemory(m: Memory, dir: nat, img: seq<Byte>, p: ProgramHeader)
    requires Walkable(m, dir)
  {
    && (forall w: Word :: p.vaddr <= w < p.vaddr + p.memsz ==>
      var k := w - p.vaddr;
      && (k < p.filesz ==> p.offset + k < |img|)
      && ByteAt(m, dir, w) == Some(if k < p.filesz then img[p.offset + k] else 0))
    && forall q: Page :: Touches(p, q) ==>
      && UserReads(m, dir, q) && (UserWrites(m, dir, q) <==> p.flags / 2 % 2 == 1)
      && Lookup(m, dir, q).Some? && Lookup(m, dir, q).value.flags / 2 % 2 == p.flags / 2 % 2
  }

  function SegmentOf(p: ProgramHeader): Segment {
    Segment(p.kind, p.offset, p.vaddr, p.filesz, p.memsz, p.flags)
  }

  lemma TouchesIff(p: ProgramHeader, q: Page)
    requires p.memsz > 0
    ensures Touches(p, q) <==> FirstPage(SegmentOf(p)) <= q < EndPage(SegmentOf(p))
  {
  }

  lemma ApartIs(p: ProgramHeader, r: ProgramHeader)
    requires p.memsz > 0 && r.memsz > 0 && p.vaddr + p.memsz < 0x1_0000_0000 && r.vaddr + r.memsz < 0x1_0000_0000
    requires forall q: Page :: Touches(p, q) ==> !Touches(r, q)
    ensures ApartPages(SegmentOf(p), SegmentOf(r))
  {
    var q: Page := if p.vaddr <= r.vaddr then r.vaddr / 4096 else p.vaddr / 4096;
    TouchesIff(p, q);
    TouchesIff(r, q);
  }

  lemma FramesStep(img: seq<Byte>, segs: seq<ProgramHeader>, i: nat)
    requires |img| >= 52 && Tame(img) && i < HeaderCount(img) == |segs|
    requires HeaderInside(img, i) && SegmentAt(img, i) == SegmentOf(segs[i])
    requires FramesFrom(img, i + 1) == Frames(segs[i + 1..])
    ensures FramesFrom(img, i) == Frames(segs[i..])
  {
    hide SegmentAt, HeaderCount, Tame, HeaderInside;
    assert segs[i..][1..] == segs[i + 1..] && segs[i..][0] == segs[i];
  }

  lemma {:induction false} FramesAre(start: Word, segs: seq<ProgramHeader>, payload: seq<Byte>, i: nat)
    requires i <= |segs| < 0x1_0000
    requires var img := Assemble(start, segs, payload); Tame(img) && HeaderCount(img) == |segs|
    ensures FramesFrom(Assemble(start, segs, payload), i) == Frames(segs[i..])
    decreases |segs| - i
  {
    hide Assemble, SegmentAt, HeaderCount, Tame, HeaderInside, Loadable, PagesOf, Loads;
    if i < |segs| {
      AssembledSegment(start, segs, payload, i);
      FramesAre(start, segs, payload, i + 1);
      FramesStep(Assemble(start, segs, payload), segs, i);
    }
  }

  lemma AssembledIsTame(start: Word, segs: seq<ProgramHeader>, payload: seq<Byte>)
    requires |segs| < 0x1_0000 && |Assemble(start, segs, payload)| < 0x1_0000_0000
    requires forall p :: p in segs && Loads(p) ==> FitsWords(p)
    ensures var img := Assemble(start, segs, payload);
            Tame(img) && HeaderCount(img) == |segs| && FramesFrom(img, 0) == Frames(segs)
  {
    var img := Assemble(start, segs, payload);
    AssembledReads(start, segs, payload);
    assert Tame(img) by {
      hide Assemble, HeaderCount, HeaderInside, SegmentAt;
      forall i | 0 <= i < HeaderCount(img) && Loadable(SegmentAt(img, i))
        ensures NoWrap(SegmentAt(img, i))
      {
        assert segs[i] in segs;
      }
    }
    FramesAre(start, segs, payload, 0);
    assert segs[0..] == segs;
  }

  lemma LoadsOkIff(start: Word, segs: seq<ProgramHeader>, payload: seq<Byte>)
    requires |segs| < 0x1_0000
    ensures var img := Assemble(start, segs, payload);
            LoadsOk(img) <==> start != 0 && forall p :: p in segs && Loads(p) ==> Admitted(p, |img|)
  {
    var img := Assemble(start, segs, payload);
    AssembledReads(start, segs, payload);
    hide Assemble, HeaderCount, HeaderInside, SegmentAt, Accepted, HeadersFit;
    forall i | 0 <= i < |segs|
      ensures Loads(segs[i]) <==> Loadable(SegmentAt(img, i))
      ensures Admitted(segs[i], |img|) <==> SegmentOk(img, SegmentAt(img, i))
    {
    }
    hide Loads, Loadable, Admitted, SegmentOk;
    assert (forall p :: p in segs && Loads(p) ==> Admitted(p, |img|))
      <==> forall i :: 0 <= i < |segs| && Loads(segs[i]) ==> Admitted(segs[i], |img|);
  }

  lemma AssembledApart(start: Word, segs: seq<ProgramHeader>, payload: seq<Byte>)
    requires |segs| < 0x1_0000 && Tame(Assemble(start, segs, payload)) && NoSharedPage(segs)
    requires forall p :: p in segs && Loads(p) ==> FitsWords(p)
    ensures SegmentsApart(Assemble(start, segs, payload))
  {
    var img := Assemble(start, segs, payload);
    AssembledReads(start, segs, payload);
    hide Assemble, HeaderCount, HeaderInside, SegmentAt, Accepted, HeadersFit, Tame, Touches, ApartPages;
    forall i, j | 0 <= i < j < HeaderCount(img) && Loadable(SegmentAt(img, i)) && Loadable(SegmentAt(img, j))
      ensures ApartPages(SegmentAt(img, i), SegmentAt(img, j))
    {
      assert Loads(segs[i]) && Loads(segs[j]) && segs[i] in segs && segs[j] in segs;
      ApartIs(segs[i], segs[j]);
    }
  }

  lemma LoadedIsInMemory(m: Memory, dir: nat, img: seq<Byte>, p: ProgramHeader)
    requires Walkable(m, dir) && TablesOpen(m, dir) && p.memsz > 0 && FitsWords(p) && SegmentOk(img, SegmentOf(p))
    requires SegmentLoaded(m, dir, img, SegmentOf(p))
    ensures InMemory(m, dir, img, p)
  {
    var s := SegmentOf(p);
    hide ByteAt, Lookup, Walkable, TablesOpen, UserReads, UserWrites;
    forall w: Word | p.vaddr <= w < p.vaddr + p.memsz
      ensures var k := w - p.vaddr;
              && (k < p.filesz ==> p.offset + k < |img|)
              && ByteAt(m, dir, w) == Some(if k < p.filesz then img[p.offset + k] else 0)
    {
      assert ByteAt(m, dir, w) == Some(ByteOf(img, s, w - s.vaddr));
    }
    forall q: Page | Touches(p, q)
      ensures UserReads(m, dir, q) && (UserWrites(m, dir, q) <==> p.flags / 2 % 2 == 1)
      ensures Lookup(m, dir, q).Some? && Lookup(m, dir, q).value.flags / 2 % 2 == p.flags / 2 % 2
    {
      TouchesIff(p, q);
      PageRights(m, dir, q);
    }
  }

  /**
   An assembled executable loads exactly when it has an entry point and all its segments pass the checks;
   then the program starts at that entry point and, if no two segments share a page, finds every segment in memory.
   */
  method LoadAssembled(space: AddressSpace, kernel: seq<Word>, start: Word, segs: seq<ProgramHeader>,
                       payload: seq<Byte>)
    returns (entry: Option<Word>)
    requires |segs| < 0x1_0000 && 52 + 32 * |segs| + |payload| < 0x1_0000_0000
    requires forall p :: p in segs && Loads(p) ==> FitsWords(p)
    requires OnlyLarge(kernel) && forall f :: f in space.free ==> f in space.mem && f < 0x10_0000
    requires |space.free| >= 6 + Frames(segs)
    modifies space
    ensures entry == if start != 0 && forall p :: p in segs && Loads(p) ==> Admitted(p, 52 + 32 * |segs| + |payload|)
                     then Some(start) else None
    ensures entry.Some? ==> space.Valid() && Walkable(space.mem, space.dir)
    ensures entry.Some? && NoSharedPage(segs) ==>
              forall p :: p in segs && Loads(p) ==>
                InMemory(space.mem, space.dir, Assemble(start, segs, payload), p)
  {
    var img := Assemble(start, segs, payload);
    AssembledReads(start, segs, payload);
    AssembledIsTame(start, segs, payload);
    LoadsOkIff(start, segs, payload);
    hide Sane, Assemble, HeaderCount, HeaderInside, SegmentAt, Accepted, HeadersFit, Tame, LoadsOk, FramesFrom,
         InMemory, TablesOpen, SegmentLoaded, NoSharedPage, OnlyLarge;
    entry := ElfLoad(space, kernel, img);
    if entry.Some? {
      SaneWalks(space.mem, space.free, space.dir);
      if NoSharedPage(segs) {
        AssembledApart(start, segs, payload);
        forall p | p in segs && Loads(p)
          ensures InMemory(space.mem, space.dir, img, p)
        {
          var i :| 0 <= i < |segs| && segs[i] == p;
          assert SegmentAt(img, i) == SegmentOf(p);
          LoadedIsInMemory(space.mem, space.dir, img, p);
        }
      }
    }
  }
}
