/** The parts of an executable that src/kernel/elf.c reads: System V gABI, chapters 4 and 5, 32-bit little-endian. */
module ElfImage {
  import opened Paging

  const PT_LOAD: nat := 1
  const USER_MAX: nat := 0xC000_0000

  function Le16(img: seq<Byte>, o: nat): (n: nat)
    requires o + 2 <= |img|
    ensures n < 0x1_0000
  {
    img[o] as int + 0x100 * (img[o + 1] as int)
  }

  function Le32(img: seq<Byte>, o: nat): (w: Word)
    requires o + 4 <= |img|
  {
    Le16(img, o) + 0x1_0000 * Le16(img, o + 2)
  }

  /** `elf_validate`: a 32-bit executable for the 386 with an entry point. */
  predicate Accepted(img: seq<Byte>) {
    && |img| >= 52
    && Le32(img, 0) == 0x464C_457F && img[4] == 1
    && Le16(img, 16) == 2 && Le16(img, 18) == 3 && Le32(img, 24) != 0
  }

  function HeaderOffset(img: seq<Byte>): nat
    requires |img| >= 52
  {
    Le32(img, 28)
  }

  function HeaderSize(img: seq<Byte>): nat
    requires |img| >= 52
  {
    Le16(img, 42)
  }

  function HeaderCount(img: seq<Byte>): nat
    requires |img| >= 52
  {
    Le16(img, 44)
  }

  datatype Segment = Segment(kind: nat, offset: nat, vaddr: nat, filesz: nat, memsz: nat, flags: nat)

  /** Where program header `i` starts. */
  function HeaderPlace(img: seq<Byte>, i: nat): nat
    requires |img| >= 52
  {
    HeaderOffset(img) + i * HeaderSize(img)
  }

  predicate HeaderInside(img: seq<Byte>, i: nat)
    requires |img| >= 52
  {
    HeaderPlace(img, i) + 32 <= |img|
  }

  /** Program header `i`. */
  function SegmentAt(img: seq<Byte>, i: nat): Segment
    requires |img| >= 52 && HeaderInside(img, i)
  {
    var o := HeaderPlace(img, i);
    Segment(Le32(img, o), Le32(img, o + 4), Le32(img, o + 8), Le32(img, o + 16), Le32(img, o + 20), Le32(img, o + 24))
  }

  predicate Loadable(s: Segment) {
    s.kind == PT_LOAD && s.memsz > 0
  }

  /** How many bytes come from the file. */
  function FileBytes(s: Segment): (n: nat)
    ensures n <= s.memsz
  {
    if s.filesz < s.memsz then s.filesz else s.memsz
  }

  /** No sum that the loader forms for the segment wraps around. */
  predicate NoWrap(s: Segment) {
    s.vaddr + s.memsz < 0x1_0000_0000 && s.offset + FileBytes(s) < 0x1_0000_0000
  }

  function FirstPage(s: Segment): nat {
    s.vaddr / 4096
  }

  function EndPage(s: Segment): nat {
    (s.vaddr + s.memsz + 4095) / 4096
  }

  function PagesOf(s: Segment): nat {
    EndPage(s) - FirstPage(s)
  }

  /** The checks of the loader on one segment. */
  predicate SegmentOk(img: seq<Byte>, s: Segment) {
    s.vaddr >= 0x1000 && s.vaddr + s.memsz <= USER_MAX && (s.filesz > 0 ==> s.offset + FileBytes(s) <= |img|)
  }

  /** What the loaded program finds at byte `k` of the segment. */
  function ByteOf(img: seq<Byte>, s: Segment, k: nat): Byte
    requires SegmentOk(img, s)
  {
    if k < FileBytes(s) then img[s.offset + k] else 0
  }

  /** PAGE_PRESENT, PAGE_USER, and PAGE_WRITE for a writable segment. */
  function PageFlags(s: Segment): (f: nat)
    ensures f == 5 || f == 7
  {
    if s.flags / 2 % 2 == 1 then 7 else 5
  }

  /** Every program header lies inside the image, and no sum wraps around. */
  predicate Tame(img: seq<Byte>)
    requires |img| >= 52
  {
    && |img| < 0x1_0000_0000
    && (forall i :: 0 <= i < HeaderCount(img) ==> HeaderInside(img, i))
    && forall i :: 0 <= i < HeaderCount(img) && Loadable(SegmentAt(img, i)) ==> NoWrap(SegmentAt(img, i))
  }

  predicate HeadersFit(img: seq<Byte>)
    requires |img| >= 52
  {
    (HeaderOffset(img) + HeaderCount(img) * HeaderSize(img)) % 0x1_0000_0000 <= |img|
  }

  predicate ApartPages(s: Segment, t: Segment) {
    EndPage(s) <= FirstPage(t) || EndPage(t) <= FirstPage(s)
  }

  /** No two loadable segments share a page. */
  predicate SegmentsApart(img: seq<Byte>)
    requires |img| >= 52 && Tame(img)
  {
    forall i, j :: 0 <= i < j < HeaderCount(img) && Loadable(SegmentAt(img, i)) && Loadable(SegmentAt(img, j)) ==>
      ApartPages(SegmentAt(img, i), SegmentAt(img, j))
  }

  /** Everything that `elf_load` checks. */
  predicate LoadsOk(img: seq<Byte>) {
    && Accepted(img)
    && HeadersFit(img)
    && forall i :: 0 <= i < HeaderCount(img) && HeaderInside(img, i) && Loadable(SegmentAt(img, i)) ==>
         SegmentOk(img, SegmentAt(img, i))
  }

  /** Frames for the pages of the segments from header `n` on, and as many for tables. */
  function FramesFrom(img: seq<Byte>, n: nat): nat
    requires |img| >= 52 && Tame(img) && n <= HeaderCount(img)
    decreases HeaderCount(img) - n
  {
    if n == HeaderCount(img) then 0
    else FramesFrom(img, n + 1) + (if Loadable(SegmentAt(img, n)) then 2 * PagesOf(SegmentAt(img, n)) else 0)
  }
}
