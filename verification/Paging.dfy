/**
 Two-level page tables in physical memory, src/drivers/memory/vmm.c, and the flat page map they stand
 for: 32-bit paging of the Intel SDM Vol. 3A, section 4.3, with 4 MB entries.
 */
module Paging {
  import opened Options
  import opened Powers

  type Byte = b: int | 0 <= b < 256

  /** An entry of a directory or a table. */
  type Word = w: int | 0 <= w < 0x1_0000_0000

  /** A virtual page number, `virt >> 12`. */
  type Page = p: int | 0 <= p < 0x10_0000

  /** A physical page frame, typed by its use. */
  datatype Frame = Table(words: seq<Word>) | Bytes(bytes: seq<Byte>)

  type Memory = map<nat, Frame>

  /** Where a page is and the low 12 bits of the entry that maps it. */
  datatype Mapping = Mapping(frame: nat, flags: nat)

  const USER_RW: nat := 7

  predicate Present(w: Word) {
    w % 2 == 1
  }

  /** Bit 7 of a directory entry: it maps 4 MB by itself. */
  predicate Large(w: Word) {
    w / 128 % 2 == 1
  }

  function FrameOf(w: Word): (f: nat)
    ensures f < 0x10_0000
  {
    w / 4096
  }

  /** The fields of an entry: bits 31 to 12, 11 to 8, 7, 6 to 1, and 0. */
  lemma EntryFields(frame: nat, high: nat, large: nat, low: nat, present: nat)
    requires frame < 0x10_0000 && high < 16 && large < 2 && low < 64 && present < 2
    ensures var w: Word := 4096 * frame + 256 * high + 128 * large + 2 * low + present;
            && FrameOf(w) == frame && (Large(w) <==> large == 1) && (Present(w) <==> present == 1)
            && w % 4096 == 256 * high + 128 * large + 2 * low + present
  {
    var w: Word := 4096 * frame + 256 * high + 128 * large + 2 * low + present;
    var rest := 256 * high + 128 * large + 2 * low + present;
    QuotientRemainder(w, 4096, frame, rest);
    QuotientRemainder(w, 128, 32 * frame + 2 * high + large, 2 * low + present);
    QuotientRemainder(32 * frame + 2 * high + large, 2, 16 * frame + high, large);
    QuotientRemainder(w, 2, 2048 * frame + 128 * high + 64 * large + low, present);
  }

  /** `(phys & 0xFFFFF000) | (flags & 0xFFF) | PAGE_PRESENT`. */
  function Entry(phys: Word, flags: nat): (w: Word)
    ensures Present(w) && FrameOf(w) == phys / 4096
    ensures w % 4096 == flags % 4096 + (if flags % 2 == 0 then 1 else 0)
  {
    phys / 4096 * 4096 + flags % 4096 + (if flags % 2 == 0 then 1 else 0)
  }

  predicate TableAt(m: Memory, f: nat) {
    f in m && m[f].Table? && |m[f].words| == 1024
  }

  predicate BytesAt(m: Memory, f: nat) {
    f in m && m[f].Bytes? && |m[f].bytes| == 4096
  }

  /** The directory entry for slot `i`, that is, for the pages `1024 * i` and following. */
  function Pde(m: Memory, dir: nat, i: nat): Word
    requires TableAt(m, dir) && i < 1024
  {
    m[dir].words[i]
  }

  predicate Tabled(m: Memory, dir: nat, i: nat)
    requires TableAt(m, dir) && i < 1024
  {
    Present(Pde(m, dir, i)) && !Large(Pde(m, dir, i))
  }

  /** The frame of the table that slot `i` points to. */
  function TableFrame(m: Memory, dir: nat, i: nat): nat
    requires TableAt(m, dir) && i < 1024
  {
    FrameOf(Pde(m, dir, i))
  }

  ghost predicate Walkable(m: Memory, dir: nat) {
    TableAt(m, dir) && forall i :: 0 <= i < 1024 && Tabled(m, dir, i) ==> TableAt(m, TableFrame(m, dir, i))
  }

  function Pte(m: Memory, dir: nat, p: Page): Word
    requires TableAt(m, dir) && TableAt(m, TableFrame(m, dir, p / 1024))
  {
    m[TableFrame(m, dir, p / 1024)].words[p % 1024]
  }

  /** Page `p` is mapped by a table entry. */
  ghost predicate Paged(m: Memory, dir: nat, p: Page)
    requires Walkable(m, dir)
  {
    Tabled(m, dir, p / 1024) && Present(Pte(m, dir, p))
  }

  /** The frame that the table entry of page `p` maps. */
  ghost function DataFrame(m: Memory, dir: nat, p: Page): nat
    requires Walkable(m, dir) && Tabled(m, dir, p / 1024)
  {
    FrameOf(Pte(m, dir, p))
  }

  /** The flat page map that the hardware sees. */
  ghost function Lookup(m: Memory, dir: nat, p: Page): Option<Mapping>
    requires Walkable(m, dir)
  {
    var pde := Pde(m, dir, p / 1024);
    if !Present(pde) then None
    else if Large(pde) then Some(Mapping(pde / 0x40_0000 * 1024 + p % 1024, pde % 4096))
    else
      var pte := Pte(m, dir, p);
      if Present(pte) then Some(Mapping(FrameOf(pte), pte % 4096)) else None
  }

  // ---------------------------------------------------------------- what every operation keeps

  /** No two slots share a table, and no table is the directory. */
  ghost predicate TablesApart(m: Memory, dir: nat)
    requires TableAt(m, dir)
  {
    && (forall i :: 0 <= i < 1024 && Tabled(m, dir, i) ==> TableFrame(m, dir, i) != dir)
    && forall i, j :: 0 <= i < j < 1024 && Tabled(m, dir, i) && Tabled(m, dir, j) ==>
         TableFrame(m, dir, i) != TableFrame(m, dir, j)
  }

  /** No two table entries share a frame. */
  ghost predicate FramesApart(m: Memory, dir: nat)
    requires Walkable(m, dir)
  {
    forall p: Page, q: Page :: Paged(m, dir, p) && Paged(m, dir, q) && p != q ==>
        DataFrame(m, dir, p) != DataFrame(m, dir, q)
  }

  /** Tables and mapped frames are not free. */
  ghost predicate Held(m: Memory, free: set<nat>, dir: nat)
    requires Walkable(m, dir)
  {
    && dir !in free
    && (forall i :: 0 <= i < 1024 && Tabled(m, dir, i) ==> TableFrame(m, dir, i) !in free)
    && (forall p: Page :: Paged(m, dir, p) ==> DataFrame(m, dir, p) !in free && BytesAt(m, DataFrame(m, dir, p)))
  }

  /** The directory entries of tables are present, writable and open to the program. */
  ghost predicate TablesOpen(m: Memory, dir: nat)
    requires TableAt(m, dir)
  {
    forall i :: 0 <= i < 1024 && Tabled(m, dir, i) ==> Pde(m, dir, i) % 8 == 7
  }

  ghost predicate Sane(m: Memory, free: set<nat>, dir: nat) {
    && Walkable(m, dir) && TablesApart(m, dir) && FramesApart(m, dir) && Held(m, free, dir) && TablesOpen(m, dir)
    && forall f :: f in free ==> f in m && f < 0x10_0000
  }

  /** The program may read page `p`: bit 2 is set in every entry on the way to it (section 4.6 of the SDM). */
  ghost predicate UserReads(m: Memory, dir: nat, p: Page)
    requires Walkable(m, dir)
  {
    var pde := Pde(m, dir, p / 1024);
    && Present(pde) && pde / 4 % 2 == 1
    && (Large(pde) || (Present(Pte(m, dir, p)) && Pte(m, dir, p) / 4 % 2 == 1))
  }

  /** It may write it: so is bit 1. */
  ghost predicate UserWrites(m: Memory, dir: nat, p: Page)
    requires Walkable(m, dir)
  {
    var pde := Pde(m, dir, p / 1024);
    UserReads(m, dir, p) && pde / 2 % 2 == 1 && (Large(pde) || Pte(m, dir, p) / 2 % 2 == 1)
  }

  /** For a page of a table the flags of its own entry decide. */
  lemma PageRights(m: Memory, dir: nat, p: Page)
    requires Walkable(m, dir) && TablesOpen(m, dir) && Paged(m, dir, p)
    ensures Lookup(m, dir, p).Some?
    ensures var flags := Lookup(m, dir, p).value.flags;
            && flags % 2 == 1
            && (UserReads(m, dir, p) <==> flags / 4 % 2 == 1)
            && (UserWrites(m, dir, p) <==> flags / 4 % 2 == 1 && flags / 2 % 2 == 1)
  {
    OpenBits(Pde(m, dir, p / 1024));
    LowFlags(Pte(m, dir, p));
  }

  lemma OpenBits(w: Word)
    ensures w % 8 == 7 ==> w / 4 % 2 == 1 && w / 2 % 2 == 1
  {
    if w % 8 == 7 {
      LowBitsOf(w, w / 8, 1, 1, 1);
    }
  }

  /** The three lowest bits of a number. */
  lemma LowBitsOf(w: nat, q: nat, a: nat, b: nat, c: nat)
    requires w == 8 * q + 4 * a + 2 * b + c && a < 2 && b < 2 && c < 2
    ensures w / 8 == q && w % 8 == 4 * a + 2 * b + c && w % 4 == 2 * b + c
    ensures w / 4 % 2 == a && w / 2 % 2 == b && w % 2 == c
  {
    QuotientRemainder(w, 8, q, 4 * a + 2 * b + c);
    QuotientRemainder(w, 4, 2 * q + a, 2 * b + c);
    QuotientRemainder(w, 2, 4 * q + 2 * a + b, c);
    QuotientRemainder(2 * q + a, 2, q, a);
    QuotientRemainder(4 * q + 2 * a + b, 2, 2 * q + a, b);
  }

  /** Every number below 8 has three bits. */
  lemma ThreeBits(r: nat) returns (a: nat, b: nat, c: nat)
    requires r < 8
    ensures a < 2 && b < 2 && c < 2 && r == 4 * a + 2 * b + c
  {
    a := if r < 4 then 0 else 1;
    b := if r - 4 * a < 2 then 0 else 1;
    c := r - 4 * a - 2 * b;
  }

  lemma LowFlags(w: Word)
    ensures w % 4096 % 2 == w % 2 && w % 4096 / 2 % 2 == w / 2 % 2 && w % 4096 / 4 % 2 == w / 4 % 2
  {
    var q, x := w / 4096, w % 4096;
    var a, b, c := ThreeBits(x % 8);
    DivisionForm(x, 8);
    DivisionForm(w, 4096);
    LowBitsOf(x, x / 8, a, b, c);
    LowBitsOf(w, 512 * q + x / 8, a, b, c);
  }

  /** Frame `g` holds bytes, is not free, and no table entry maps it. */
  ghost predicate Loose(m: Memory, free: set<nat>, dir: nat, g: nat)
    requires Walkable(m, dir)
  {
    BytesAt(m, g) && g !in free && g < 0x10_0000 && forall p: Page :: Paged(m, dir, p) ==> DataFrame(m, dir, p) != g
  }

  ghost predicate SameMap(m: Memory, m': Memory, dir: nat)
    requires Walkable(m, dir) && Walkable(m', dir)
  {
    forall p: Page :: Lookup(m', dir, p) == Lookup(m, dir, p)
  }

  function ZeroBytes(): (z: seq<Byte>)
    ensures |z| == 4096 && forall i :: 0 <= i < 4096 ==> z[i] == 0
  {
    seq(4096, _ => 0)
  }

  function ZeroWords(): (z: seq<Word>)
    ensures |z| == 1024 && forall i :: 0 <= i < 1024 ==> z[i] == 0
  {
    seq(1024, _ => 0)
  }

  // ---------------------------------------------------------------- taking a frame

  /** Memory after `pmm_malloc` of one page handed out frame `f`, zeroed. */
  function Zeroed(m: Memory, f: nat): Memory {
    m[f := Bytes(ZeroBytes())]
  }

  lemma TakeKeeps(m: Memory, free: set<nat>, dir: nat, f: nat)
    requires Sane(m, free, dir) && f in free
    ensures Sane(Zeroed(m, f), free - {f}, dir) && Loose(Zeroed(m, f), free - {f}, dir, f)
    ensures SameMap(m, Zeroed(m, f), dir)
    ensures forall i :: 0 <= i < 1024 ==> Pde(Zeroed(m, f), dir, i) == Pde(m, dir, i)
  {
    var m' := Zeroed(m, f);
    assert forall i :: 0 <= i < 1024 ==> Pde(m', dir, i) == Pde(m, dir, i);
    assert forall i :: 0 <= i < 1024 ==> Tabled(m', dir, i) == Tabled(m, dir, i);
    assert Walkable(m', dir);
    assert forall p: Page :: Tabled(m, dir, p / 1024) ==> Pte(m', dir, p) == Pte(m, dir, p);
    assert forall p: Page :: Paged(m', dir, p) <==> Paged(m, dir, p);
  }

  // ---------------------------------------------------------------- a new table

  /** Slot `i` of the directory now points to the empty table in frame `f`. */
  function WithTable(m: Memory, dir: nat, i: nat, f: nat): Memory
    requires TableAt(m, dir) && i < 1024 && f < 0x10_0000
  {
    m[f := Table(ZeroWords())][dir := Table(m[dir].words[i := Entry(f * 4096, USER_RW)])]
  }

  /** A new table unmaps exactly the pages that the slot mapped before as a 4 MB entry. */
  lemma TableKeeps(m: Memory, free: set<nat>, dir: nat, i: nat, f: nat)
    requires Sane(m, free, dir) && i < 1024 && f in free && !Tabled(m, dir, i)
    ensures var m' := WithTable(m, dir, i, f);
            && Sane(m', free - {f}, dir) && Tabled(m', dir, i)
            && forall p: Page :: Lookup(m', dir, p) == if p / 1024 == i then None else Lookup(m, dir, p)
    ensures var m' := WithTable(m, dir, i, f);
            && (forall p: Page :: Paged(m', dir, p) ==>
                Paged(m, dir, p) && DataFrame(m', dir, p) == DataFrame(m, dir, p))
            && (forall j :: 0 <= j < 1024 && j != i ==> Pde(m', dir, j) == Pde(m, dir, j))
  {
    hide Entry, Large, FrameOf, Present;
    var m' := WithTable(m, dir, i, f);
    EntryIsSmall(f);
    assert Pde(m', dir, i) == Entry(f * 4096, USER_RW);
    assert forall j :: 0 <= j < 1024 && j != i ==> Pde(m', dir, j) == Pde(m, dir, j);
    assert forall j :: 0 <= j < 1024 && j != i ==> Tabled(m', dir, j) == Tabled(m, dir, j);
    assert Walkable(m', dir);
    assert forall p: Page :: p / 1024 != i && Tabled(m, dir, p / 1024) ==> Pte(m', dir, p) == Pte(m, dir, p);
    assert forall p: Page :: p / 1024 == i ==> Pte(m', dir, p) == 0;
    ZeroIsAbsent();
    assert forall p: Page :: Paged(m', dir, p) ==> p / 1024 != i && Paged(m, dir, p);
  }

  lemma ZeroIsAbsent()
    ensures !Present(0)
  {
  }

  lemma EntryIsSmall(f: nat)
    requires f < 0x10_0000
    ensures Entry(f * 4096, USER_RW) % 8 == 7
    ensures !Large(Entry(f * 4096, USER_RW)) && FrameOf(Entry(f * 4096, USER_RW)) == f
  {
    EntryOfFrame(f);
    hide Entry, Large, FrameOf;
    EntryFields(f, 0, 0, 3, 1);
    LowBitsOf(4096 * f + 7, 512 * f, 1, 1, 1);
  }

  lemma EntryOfFrame(f: nat)
    requires f < 0x10_0000
    ensures Entry(f * 4096, USER_RW) == 4096 * f + 7
  {
    assert f * 4096 / 4096 == f;
  }

  // ---------------------------------------------------------------- a table entry

  /** The table entry of page `p` is now `w`. */
  function WithPte(m: Memory, dir: nat, p: Page, w: Word): Memory
    requires TableAt(m, dir) && TableAt(m, TableFrame(m, dir, p / 1024))
  {
    var t := TableFrame(m, dir, p / 1024);
    m[t := Table(m[t].words[p % 1024 := w])]
  }

  lemma OnePte(p: Page, q: Page)
    requires p / 1024 == q / 1024 && p % 1024 == q % 1024
    ensures p == q
  {
  }

  /** Setting one table entry changes the flat map at its own page and nowhere else. */
  lemma PteAlone(m: Memory, dir: nat, p: Page, w: Word)
    requires Walkable(m, dir) && TablesApart(m, dir) && Tabled(m, dir, p / 1024)
    ensures var m' := WithPte(m, dir, p, w);
            && Walkable(m', dir) && TablesApart(m', dir)
            && (forall i :: 0 <= i < 1024 ==> Pde(m', dir, i) == Pde(m, dir, i))
            && Pte(m', dir, p) == w
            && (forall q: Page :: q != p && Tabled(m, dir, q / 1024) ==> Pte(m', dir, q) == Pte(m, dir, q))
  {
    var m' := WithPte(m, dir, p, w);
    assert forall i :: 0 <= i < 1024 ==> Pde(m', dir, i) == Pde(m, dir, i);
    assert forall i :: 0 <= i < 1024 ==> Tabled(m', dir, i) == Tabled(m, dir, i);
    forall q: Page | q != p && Tabled(m, dir, q / 1024)
      ensures Pte(m', dir, q) == Pte(m, dir, q)
    {
      if q / 1024 == p / 1024 {
        assert q % 1024 != p % 1024 by { if q % 1024 == p % 1024 { OnePte(p, q); } }
      } else {
        var a, b := p / 1024, q / 1024;
        assert if a < b then TableFrame(m, dir, a) != TableFrame(m, dir, b)
               else TableFrame(m, dir, b) != TableFrame(m, dir, a);
      }
    }
  }

  /** Mapping a loose frame keeps the tables sane and changes only its own page. */
  lemma SetKeeps(m: Memory, free: set<nat>, dir: nat, p: Page, g: nat, flags: nat)
    requires Sane(m, free, dir) && Tabled(m, dir, p / 1024) && Loose(m, free, dir, g) && flags % 2 == 1 && flags < 4096
    ensures var m' := WithPte(m, dir, p, Entry(g * 4096, flags));
            && Sane(m', free, dir) && Paged(m', dir, p) && DataFrame(m', dir, p) == g
            && forall q: Page :: Lookup(m', dir, q) == if q == p then Some(Mapping(g, flags)) else Lookup(m, dir, q)
  {
    var w := Entry(g * 4096, flags);
    var m' := WithPte(m, dir, p, w);
    PteAlone(m, dir, p, w);
    assert FrameOf(w) == g && w % 4096 == flags;
    hide WithPte, Entry, Large, FrameOf;
    assert forall i :: 0 <= i < 1024 ==> Tabled(m', dir, i) == Tabled(m, dir, i);
    assert forall q: Page :: q != p ==> Paged(m', dir, q) == Paged(m, dir, q);
    assert forall q: Page :: q != p && Paged(m, dir, q) ==> DataFrame(m', dir, q) == DataFrame(m, dir, q);
    assert forall f :: BytesAt(m, f) ==> BytesAt(m', f) by { BytesStay(m, dir, p, w); }
    assert forall f :: f in m ==> f in m' by { BytesStay(m, dir, p, w); }
  }

  lemma BytesStay(m: Memory, dir: nat, p: Page, w: Word)
    requires TableAt(m, dir) && TableAt(m, TableFrame(m, dir, p / 1024))
    ensures var m' := WithPte(m, dir, p, w);
            && (forall f :: f in m ==> f in m') && (forall f :: BytesAt(m, f) ==> BytesAt(m', f) && m'[f] == m[f])
  {
  }

  /** Clearing a table entry and freeing its frame keeps the tables sane and unmaps only that page. */
  lemma ClearKeeps(m: Memory, free: set<nat>, dir: nat, p: Page)
    requires Sane(m, free, dir) && Paged(m, dir, p)
    ensures var m' := WithPte(m, dir, p, 0); var free' := free + {DataFrame(m, dir, p)};
            && Sane(m', free', dir)
            && forall q: Page :: Lookup(m', dir, q) == if q == p then None else Lookup(m, dir, q)
  {
    var m' := WithPte(m, dir, p, 0);
    var free' := free + {DataFrame(m, dir, p)};
    PteAlone(m, dir, p, 0);
    BytesStay(m, dir, p, 0);
    hide WithPte, Large, FrameOf;
    assert forall i :: 0 <= i < 1024 ==> Tabled(m', dir, i) == Tabled(m, dir, i);
    assert !Paged(m', dir, p);
    assert forall q: Page :: q != p ==> Paged(m', dir, q) == Paged(m, dir, q);
    assert forall q: Page :: q != p && Paged(m, dir, q) ==> DataFrame(m', dir, q) == DataFrame(m, dir, q);
    assert forall i :: 0 <= i < 1024 && Tabled(m, dir, i) ==> TableFrame(m, dir, i) != DataFrame(m, dir, p);
  }
}
