/**
 Executables put together byte by byte, fields in the order of the System V gABI, chapters 4 and 5 (ELF header,
 program header), each with its lowest byte first.
 */
module ElfEncode {
  import opened Paging
  import opened ElfImage

  type Half = n: int | 0 <= n < 0x1_0000

  function Bytes16(n: Half): (b: seq<Byte>)
    ensures |b| == 2
  {
    [n % 256, n / 256]
  }

  function Bytes32(w: Word): (b: seq<Byte>)
    ensures |b| == 4
  {
    [w % 256, w / 256 % 256, w / 0x1_0000 % 256, w / 0x100_0000]
  }

  /** The fields of the ELF header behind its magic number; `pad` stands for the 8 bytes of padding. */
  datatype FileHeader = FileHeader(
    class': Byte, data: Byte, version: Byte, abi: Byte, pad: (Word, Word),
    kind: Half, machine: Half, ver: Word, entry: Word, phoff: Word, shoff: Word, flags: Word,
    ehsize: Half, phentsize: Half, phnum: Half, shentsize: Half, shnum: Half, shstrndx: Half)

  datatype ProgramHeader = ProgramHeader(
    kind: Word, offset: Word, vaddr: Word, paddr: Word, filesz: Word, memsz: Word, flags: Word, align: Word)

  function Ident(h: FileHeader): (b: seq<Byte>)
    ensures |b| == 16
  {
    [0x7F, 69, 76, 70] + [h.class', h.data, h.version, h.abi] + Bytes32(h.pad.0) + Bytes32(h.pad.1)
  }

  function HeaderBytes(h: FileHeader): (b: seq<Byte>)
    ensures |b| == 52
  {
    Ident(h)
    + (Bytes16(h.kind) + Bytes16(h.machine) + Bytes32(h.ver) + Bytes32(h.entry)
       + Bytes32(h.phoff) + Bytes32(h.shoff) + Bytes32(h.flags))
    + (Bytes16(h.ehsize) + Bytes16(h.phentsize) + Bytes16(h.phnum)
       + Bytes16(h.shentsize) + Bytes16(h.shnum) + Bytes16(h.shstrndx))
  }

  function ProgramBytes(p: ProgramHeader): (b: seq<Byte>)
    ensures |b| == 32
  {
    (Bytes32(p.kind) + Bytes32(p.offset) + Bytes32(p.vaddr) + Bytes32(p.paddr))
    + (Bytes32(p.filesz) + Bytes32(p.memsz) + Bytes32(p.flags) + Bytes32(p.align))
  }

  // ---------------------------------------------------------------- reading the fields back

  lemma Read16(img: seq<Byte>, o: nat, n: Half)
    requires o + 2 <= |img| && img[o] == Bytes16(n)[0] && img[o + 1] == Bytes16(n)[1]
    ensures Le16(img, o) == n
  {
  }

  /** The bytes of `w` stand at `o`. */
  predicate Spells(b: seq<Byte>, o: nat, w: Word) {
    && o + 4 <= |b| && b[o] == w % 256 && b[o + 1] == w / 256 % 256
    && b[o + 2] == w / 0x1_0000 % 256 && b[o + 3] == w / 0x100_0000
  }

  lemma Read32(img: seq<Byte>, o: nat, w: Word)
    requires Spells(img, o, w)
    ensures Le32(img, o) == w
  {
    HalvesOf(w);
    assert Le16(img, o) == w % 0x1_0000;
    assert Le16(img, o + 2) == w / 0x1_0000;
  }

  lemma HalvesOf(w: Word)
    ensures w % 256 + 0x100 * (w / 256 % 256) == w % 0x1_0000
    ensures w / 0x1_0000 % 256 + 0x100 * (w / 0x100_0000) == w / 0x1_0000
    ensures w % 0x1_0000 + 0x1_0000 * (w / 0x1_0000) == w
  {
  }

  lemma ProgramSpells(p: ProgramHeader)
    ensures var b := ProgramBytes(p);
            && Spells(b, 0, p.kind) && Spells(b, 4, p.offset) && Spells(b, 8, p.vaddr)
            && Spells(b, 16, p.filesz) && Spells(b, 20, p.memsz) && Spells(b, 24, p.flags)
  {
  }

  lemma SpelledInside(img: seq<Byte>, o: nat, b: seq<Byte>, k: nat, w: Word)
    requires o + |b| <= |img| && img[o..o + |b|] == b && Spells(b, k, w)
    ensures Spells(img, o + k, w)
  {
    assert forall j :: 0 <= j < |b| ==> img[o + j] == img[o..o + |b|][j] == b[j];
    assert b[k + 0] == b[k];
  }

  lemma HeaderSpells(h: FileHeader, rest: seq<Byte>)
    ensures var b := HeaderBytes(h) + rest;
            && Spells(b, 0, 0x464C_457F) && b[4] == h.class' && Spells(b, 24, h.entry) && Spells(b, 28, h.phoff)
  {
  }

  /** Whatever stands behind it, an ELF header is read back field by field. */
  lemma HeaderReads(h: FileHeader, rest: seq<Byte>)
    ensures var img := HeaderBytes(h) + rest;
            && Le32(img, 0) == 0x464C_457F && img[4] == h.class'
            && Le16(img, 16) == h.kind && Le16(img, 18) == h.machine && Le32(img, 24) == h.entry
            && HeaderOffset(img) == h.phoff && HeaderSize(img) == h.phentsize && HeaderCount(img) == h.phnum
  {
    var img := HeaderBytes(h) + rest;
    HeaderSpells(h, rest);
    Read16(img, 16, h.kind);
    Read16(img, 18, h.machine);
    Read16(img, 42, h.phentsize);
    Read16(img, 44, h.phnum);
    hide HeaderBytes, Spells, Le16, Le32;
    Read32(img, 0, 0x464C_457F);
    Read32(img, 24, h.entry);
    Read32(img, 28, h.phoff);
  }

  /** A file is accepted exactly when it is a 32-bit executable for the 386 with an entry point. */
  lemma AcceptedIff(h: FileHeader, rest: seq<Byte>)
    ensures Accepted(HeaderBytes(h) + rest) <==> h.class' == 1 && h.kind == 2 && h.machine == 3 && h.entry != 0
  {
    HeaderReads(h, rest);
  }

  /** The program headers pass their check exactly when they end inside the file, by a sum of 32 bits. */
  lemma HeadersFitIff(h: FileHeader, rest: seq<Byte>)
    ensures HeadersFit(HeaderBytes(h) + rest) <==> (h.phoff + h.phnum * h.phentsize) % 0x1_0000_0000 <= 52 + |rest|
  {
    HeaderReads(h, rest);
    hide HeaderBytes, HeaderOffset, HeaderSize, HeaderCount;
  }

  lemma FieldsRead(img: seq<Byte>, o: nat, p: ProgramHeader)
    requires o + 32 <= |img| && img[o..o + 32] == ProgramBytes(p)
    ensures Le32(img, o) == p.kind && Le32(img, o + 4) == p.offset && Le32(img, o + 8) == p.vaddr
    ensures Le32(img, o + 16) == p.filesz && Le32(img, o + 20) == p.memsz && Le32(img, o + 24) == p.flags
  {
    var b := ProgramBytes(p);
    ProgramSpells(p);
    hide Spells, ProgramBytes, Le32;
    SpelledInside(img, o, b, 0, p.kind);
    SpelledInside(img, o, b, 4, p.offset);
    SpelledInside(img, o, b, 8, p.vaddr);
    SpelledInside(img, o, b, 16, p.filesz);
    SpelledInside(img, o, b, 20, p.memsz);
    SpelledInside(img, o, b, 24, p.flags);
    Read32(img, o, p.kind);
    Read32(img, o + 4, p.offset);
    Read32(img, o + 8, p.vaddr);
    Read32(img, o + 16, p.filesz);
    Read32(img, o + 20, p.memsz);
    Read32(img, o + 24, p.flags);
  }

  /** A program header that stands where the ELF header says is read back field by field. */
  lemma SegmentReads(img: seq<Byte>, i: nat, p: ProgramHeader)
    requires |img| >= 52 && HeaderInside(img, i)
    requires var o := HeaderPlace(img, i); img[o..o + 32] == ProgramBytes(p)
    ensures SegmentAt(img, i) == Segment(p.kind, p.offset, p.vaddr, p.filesz, p.memsz, p.flags)
  {
    hide Le32, ProgramBytes, HeaderPlace;
    FieldsRead(img, HeaderPlace(img, i), p);
  }

  // ---------------------------------------------------------------- an assembled executable

  function TableBytes(segs: seq<ProgramHeader>): (b: seq<Byte>)
    ensures |b| == 32 * |segs|
  {
    if segs == [] then [] else ProgramBytes(segs[0]) + TableBytes(segs[1..])
  }

  lemma {:induction false} TableAtIs(segs: seq<ProgramHeader>, i: nat)
    requires i < |segs|
    ensures TableBytes(segs)[32 * i..32 * i + 32] == ProgramBytes(segs[i])
  {
    if i > 0 {
      TableAtIs(segs[1..], i - 1);
      assert TableBytes(segs)[32 * i..32 * i + 32] == TableBytes(segs[1..])[32 * (i - 1)..32 * (i - 1) + 32];
    }
  }

  /** The header of a 32-bit executable for the 386 whose program headers follow it. */
  function ExecHeader(entry: Word, n: Half): FileHeader {
    FileHeader(1, 1, 1, 0, (0, 0), 2, 3, 1, entry, 52, 0, 0, 52, 32, n, 40, 0, 0)
  }

  /** Header, program headers and payload, one after the other. */
  function Assemble(entry: Word, segs: seq<ProgramHeader>, payload: seq<Byte>): (img: seq<Byte>)
    requires |segs| < 0x1_0000
    ensures |img| == 52 + 32 * |segs| + |payload|
  {
    HeaderBytes(ExecHeader(entry, |segs|)) + (TableBytes(segs) + payload)
  }

  lemma AssembledHeader(entry: Word, segs: seq<ProgramHeader>, payload: seq<Byte>)
    requires |segs| < 0x1_0000
    ensures var img := Assemble(entry, segs, payload);
            && (Accepted(img) <==> entry != 0) && Le32(img, 24) == entry && HeadersFit(img)
            && HeaderOffset(img) == 52 && HeaderSize(img) == 32 && HeaderCount(img) == |segs|
  {
    var h := ExecHeader(entry, |segs|);
    HeaderReads(h, TableBytes(segs) + payload);
    AcceptedIff(h, TableBytes(segs) + payload);
    hide HeaderBytes, TableBytes, HeaderOffset, HeaderSize, HeaderCount, Accepted, Le32, Le16;
  }

  lemma AssembledSegment(entry: Word, segs: seq<ProgramHeader>, payload: seq<Byte>, i: nat)
    requires i < |segs| < 0x1_0000
    ensures var img := Assemble(entry, segs, payload);
            && HeaderInside(img, i)
            && SegmentAt(img, i) == Segment(segs[i].kind, segs[i].offset, segs[i].vaddr, segs[i].filesz,
                                            segs[i].memsz, segs[i].flags)
  {
    var img := Assemble(entry, segs, payload);
    AssembledHeader(entry, segs, payload);
    TableAtIs(segs, i);
    hide HeaderBytes, TableBytes, ProgramBytes, SegmentAt, HeaderOffset, HeaderSize, Accepted, Le32, Le16, HeadersFit;
    var o := 52 + i * 32;
    assert HeaderInside(img, i);
    assert img[o..o + 32] == TableBytes(segs)[32 * i..32 * i + 32];
    SegmentReads(img, i, segs[i]);
  }

  /** What the loader finds in an assembled executable is what went into it. */
  lemma AssembledReads(entry: Word, segs: seq<ProgramHeader>, payload: seq<Byte>)
    requires |segs| < 0x1_0000
    ensures var img := Assemble(entry, segs, payload);
            && (Accepted(img) <==> entry != 0) && Le32(img, 24) == entry
            && HeaderCount(img) == |segs| && HeadersFit(img)
            && forall i :: 0 <= i < |segs| ==>
              && HeaderInside(img, i)
              && SegmentAt(img, i) == Segment(segs[i].kind, segs[i].offset, segs[i].vaddr, segs[i].filesz,
                                              segs[i].memsz, segs[i].flags)
  {
    var img := Assemble(entry, segs, payload);
    AssembledHeader(entry, segs, payload);
    hide Assemble, SegmentAt, HeaderInside, HeaderOffset, HeaderSize, Accepted, Le32, HeadersFit;
    forall i | 0 <= i < |segs|
      ensures HeaderInside(img, i)
      ensures SegmentAt(img, i)
           == Segment(segs[i].kind, segs[i].offset, segs[i].vaddr, segs[i].filesz, segs[i].memsz, segs[i].flags)
    {
      AssembledSegment(entry, segs, payload, i);
    }
  }
}
