/** The on-disk and in-memory state of XCFS, src/drivers/fs/xcfs.c and src/include/fs/xcfs.h. */
module XcfsTypes {

  type Byte = b: int | 0 <= b < 256

  const FILE: nat := 1
  const DIR: nat := 2
  const PROTECTED: nat := 4
  const READONLY: nat := 0x10

  datatype Entry = Entry(path: string, start: nat, size: nat, parent: nat, kind: nat, flags: nat)

  /** A zeroed table slot. */
  const BLANK: Entry := Entry("", 0, 0, 0, 0, 0)

  datatype Header = Header(magic: nat, version: nat, total: nat, count: nat)

  /** One sector, typed by what the file system keeps in it. */
  datatype Sector =
    | Data(bytes: seq<Byte>)
    | HeaderSector(h: Header)
    | EntrySector(e: Entry)
    | BitmapSector(bits: seq<bool>)

  /** The three constants of the configuration: header sector, table slots, first data sector. */
  datatype Layout = Layout(meta: nat, maxFiles: nat, dataStart: nat)

  /** `(size + 511) / 512` in 32-bit arithmetic, and at least one. */
  function SectorsOf(size: nat): (n: nat)
    ensures n > 0
  {
    var n := (size + 511) % 0x1_0000_0000 / 512;
    if n == 0 then 1 else n
  }

  predicate IsFile(e: Entry) {
    e.kind == FILE
  }

  /** Sector `x` belongs to the extent of `e`. */
  predicate InExtent(e: Entry, x: nat) {
    e.start <= x < e.start + SectorsOf(e.size)
  }

  predicate ExtentsApart(a: Entry, b: Entry) {
    a.start + SectorsOf(a.size) <= b.start || b.start + SectorsOf(b.size) <= a.start
  }

  /** A file's sectors. */
  function Content(e: Entry, disk: seq<Sector>): (c: seq<Sector>)
    requires e.start + SectorsOf(e.size) <= |disk|
    ensures |c| == SectorsOf(e.size)
  {
    disk[e.start..e.start + SectorsOf(e.size)]
  }

  /** Some file other than table slot `skip` owns sector `x`. */
  ghost predicate OwnedBut(ents: seq<Entry>, skip: int, x: nat) {
    exists i :: 0 <= i < |ents| && i != skip && IsFile(ents[i]) && InExtent(ents[i], x)
  }

  /** The extents of the files are apart. */
  ghost predicate AllApart(ents: seq<Entry>, skip: int) {
    forall i, j :: 0 <= i < j < |ents| && i != skip && j != skip && IsFile(ents[i]) && IsFile(ents[j]) ==>
      ExtentsApart(ents[i], ents[j])
  }

  /** The extents of the files lie between sectors `lo` and `hi`. */
  ghost predicate AllWithin(ents: seq<Entry>, lo: nat, hi: nat) {
    forall i :: 0 <= i < |ents| && IsFile(ents[i]) ==>
        lo <= ents[i].start && ents[i].start + SectorsOf(ents[i].size) <= hi
  }

  /** The bitmap has exactly the sectors of files set; its first bit stands for sector `lo`. */
  ghost predicate BitsExact(bits: seq<bool>, ents: seq<Entry>, skip: int, lo: nat) {
    forall k :: 0 <= k < |bits| ==> (bits[k] <==> OwnedBut(ents, skip, lo + k))
  }

  /** `bmp_mark`: sectors outside the bitmap are ignored. */
  function Mark(bits: seq<bool>, lo: nat, s: nat, n: nat, v: bool): (r: seq<bool>)
    ensures |r| == |bits|
    ensures forall k :: 0 <= k < |bits| ==> r[k] == if s <= lo + k < s + n then v else bits[k]
  {
    seq(|bits|, k requires 0 <= k < |bits| => if s <= lo + k < s + n then v else bits[k])
  }

  /** Copying `n` sectors from `old` down to `new`. */
  function CopyDown(disk: seq<Sector>, old': nat, new': nat, n: nat): (r: seq<Sector>)
    requires old' + n <= |disk| && new' <= old'
    ensures |r| == |disk|
    ensures forall x :: 0 <= x < |disk| ==> r[x] == if new' <= x < new' + n then disk[old' + (x - new')] else disk[x]
  {
    seq(|disk|, x requires 0 <= x < |disk| => if new' <= x < new' + n then disk[old' + (x - new')] else disk[x])
  }
}
