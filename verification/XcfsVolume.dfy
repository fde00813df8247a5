/** The operations of src/drivers/fs/xcfs.c as functions on the whole state of a volume. */
module XcfsVolume {
  import opened XcfsTypes
  import opened XcfsCompact
  import opened XcfsContent
  import opened XcfsTree
  import opened Options

  const MAGIC: nat := 0x58434653
  const VERSION: nat := 2

  /** The cached header, table and bitmap, and the disk underneath. */
  datatype Vol = Vol(lay: Layout, hdr: Header, ents: seq<Entry>, bits: seq<bool>, disk: seq<Sector>)

  function BitmapSectors(total: nat): nat {
    (total + 4095) / 4096
  }

  /** The bitmap of a volume fits the megabyte that the driver keeps for it exactly up to 8388608 sectors. */
  lemma BitmapFitsIff(total: nat)
    ensures 512 * BitmapSectors(total) <= 1024 * 1024 <==> total <= 8388608
  {
  }

  /** The header, table and bitmap sectors lie in front of the data area. */
  predicate Fits(lay: Layout, total: nat) {
    lay.meta + 1 + lay.maxFiles + BitmapSectors(total) <= lay.dataStart <= total
  }

  function TableOf(v: Vol): Table
    requires v.hdr.count <= |v.ents|
  {
    v.ents[..v.hdr.count]
  }

  /** Sizes, bounds and kinds of everything a mounted volume holds. */
  ghost predicate Shape(v: Vol) {
    && v.hdr.magic == MAGIC && v.hdr.version == VERSION
    && Fits(v.lay, v.hdr.total) && v.hdr.total <= |v.disk| && v.hdr.total < 0x1_0000_0000
    && 0 < v.hdr.count <= v.lay.maxFiles == |v.ents|
    && |v.bits| == 4096 * BitmapSectors(v.hdr.total)
    && (forall i :: v.hdr.count <= i < |v.ents| ==> v.ents[i] == BLANK)
    && (forall i :: 0 <= i < v.hdr.count ==> v.ents[i].kind == FILE || v.ents[i].kind == DIR)
    && (forall i :: 0 <= i < v.hdr.count ==> Honest(v.ents[i]))
    && (forall x :: v.lay.dataStart <= x < v.hdr.total ==> v.disk[x].Data? && |v.disk[x].bytes| == 512)
  }

  /** The extent of an entry has room for its size: the 32-bit rounding did not wrap around. */
  predicate Honest(e: Entry) {
    e.size <= 512 * SectorsOf(e.size)
  }

  lemma HonestIff(size: nat)
    ensures size <= 512 * SectorsOf(size) <==> size <= 0xFFFF_FE00
  {
  }

  /** No smaller number of sectors would do, and a size that wraps around counts as one sector. */
  lemma SectorsLeast(size: nat)
    requires size < 0x1_0000_0000
    ensures size <= 0xFFFF_FE00 ==> SectorsOf(size) == 1 || 512 * (SectorsOf(size) - 1) < size
    ensures size > 0xFFFF_FE00 ==> SectorsOf(size) == 1
  {
  }

  ghost predicate Extents(v: Vol)
    requires v.hdr.count <= |v.ents|
  {
    AllApart(TableOf(v), -1) && AllWithin(TableOf(v), v.lay.dataStart, v.hdr.total)
  }

  ghost predicate Exact(v: Vol)
    requires v.hdr.count <= |v.ents|
  {
    BitsExact(v.bits, TableOf(v), -1, v.lay.dataStart)
  }

  ghost predicate VolOk(v: Vol) {
    Shape(v) && Extents(v)
  }

  /** What the operations need to stay inside their tables, whatever the extents are. */
  ghost predicate Framed(v: Vol) {
    && 0 < v.hdr.count <= |v.ents| == v.lay.maxFiles
    && v.lay.dataStart <= v.hdr.total <= |v.disk| && v.hdr.total - v.lay.dataStart <= |v.bits|
    && (forall i :: v.hdr.count <= i < |v.ents| ==> v.ents[i] == BLANK)
    && (forall i :: 0 <= i < v.hdr.count ==> v.ents[i].kind == FILE || v.ents[i].kind == DIR)
    && OnDisk(TableOf(v), |v.disk|)
  }

  /** The table has room for what the header counts, and the bitmap for the data area. */
  predicate Roomy(v: Vol) {
    && v.hdr.count <= |v.ents| == v.lay.maxFiles
    && v.lay.dataStart <= v.hdr.total && v.hdr.total - v.lay.dataStart <= |v.bits|
  }

  // ---------------------------------------------------------------- saving and loading

  function SaveHeader(v: Vol): Vol {
    if v.lay.meta < |v.disk| then v.(disk := v.disk[v.lay.meta := HeaderSector(v.hdr)]) else v
  }

  /** `sv_ent_range`: slots `from` up to, not including, `to`. */
  function SaveEntries(v: Vol, from: nat, to: nat): Vol
    requires to <= |v.ents|
  {
    var base := v.lay.meta + 1;
    v.(disk := seq(|v.disk|, x requires 0 <= x < |v.disk| =>
      if base + from <= x < base + to then EntrySector(v.ents[x - base]) else v.disk[x]))
  }

  function BitmapStart(lay: Layout): nat {
    lay.meta + 1 + lay.maxFiles
  }

  function BitmapSlice(bits: seq<bool>, i: nat): Sector
    requires 4096 * (i + 1) <= |bits|
  {
    BitmapSector(bits[4096 * i..4096 * (i + 1)])
  }

  function SaveBitmap(v: Vol): Vol {
    var base := BitmapStart(v.lay);
    v.(disk := seq(|v.disk|, x requires 0 <= x < |v.disk| =>
      if base <= x < base + |v.bits| / 4096 then BitmapSlice(v.bits, x - base) else v.disk[x]))
  }

  /** The sector of table slot `i`. */
  function SlotSector(v: Vol, i: nat): Sector
    requires v.lay.meta + 1 + i < |v.disk|
  {
    v.disk[v.lay.meta + 1 + i]
  }

  predicate SlotSynced(v: Vol, i: nat)
    requires i < |v.ents| && v.lay.meta + 1 + i < |v.disk|
  {
    SlotSector(v, i) == EntrySector(v.ents[i])
  }

  /** The table slots in front of `n` are on the disk as they are cached. */
  ghost predicate SlotsSynced(v: Vol, n: nat)
    requires n <= |v.ents| && v.lay.meta + 1 + n <= |v.disk|
  {
    forall i :: 0 <= i < n ==> SlotSynced(v, i)
  }

  predicate BitmapSynced(v: Vol, i: nat)
    requires 4096 * (i + 1) <= |v.bits| && BitmapStart(v.lay) + i < |v.disk|
  {
    v.disk[BitmapStart(v.lay) + i] == BitmapSlice(v.bits, i)
  }

  ghost predicate BitsSynced(v: Vol)
    requires |v.bits| == 4096 * BitmapSectors(v.hdr.total)
    requires BitmapStart(v.lay) + BitmapSectors(v.hdr.total) <= |v.disk|
  {
    forall i :: 0 <= i < BitmapSectors(v.hdr.total) ==> BitmapSynced(v, i)
  }

  /** The disk holds the header, the used table slots and the bitmap as they are cached. */
  ghost predicate Synced(v: Vol)
    requires Shape(v)
  {
    v.disk[v.lay.meta] == HeaderSector(v.hdr) && SlotsSynced(v, v.hdr.count) && BitsSynced(v)
  }

  /** The bits of bitmap sectors `i` up to `n`, in a row. */
  function LoadBits(disk: seq<Sector>, base: nat, i: nat, n: nat): seq<bool>
    requires base + n <= |disk| && i <= n
    decreases n - i
  {
    if i == n then []
    else (if disk[base + i].BitmapSector? then disk[base + i].bits else []) + LoadBits(disk, base, i + 1, n)
  }

  /** The loading part of `xcfs_init`, for a disk whose header sector holds a header. */
  function Load(lay: Layout, disk: seq<Sector>): Vol
    requires lay.meta < |disk| && disk[lay.meta].HeaderSector?
    requires lay.meta + 1 + lay.maxFiles + BitmapSectors(disk[lay.meta].h.total) <= |disk|
  {
    var hdr := disk[lay.meta].h;
    var n := if hdr.count > lay.maxFiles then lay.maxFiles else hdr.count;
    var ents := seq(lay.maxFiles, i requires 0 <= i < lay.maxFiles =>
      if i < n && disk[lay.meta + 1 + i].EntrySector? then disk[lay.meta + 1 + i].e else BLANK);
    Vol(lay, hdr, ents, LoadBits(disk, BitmapStart(lay), 0, BitmapSectors(hdr.total)), disk)
  }

  lemma {:induction false} LoadBitsIs(v: Vol, i: nat)
    requires |v.bits| == 4096 * BitmapSectors(v.hdr.total)
    requires BitmapStart(v.lay) + BitmapSectors(v.hdr.total) <= |v.disk|
    requires BitsSynced(v) && i <= BitmapSectors(v.hdr.total)
    ensures LoadBits(v.disk, BitmapStart(v.lay), i, BitmapSectors(v.hdr.total)) == v.bits[4096 * i..]
    decreases BitmapSectors(v.hdr.total) - i
  {
    if i < BitmapSectors(v.hdr.total) {
      LoadBitsIs(v, i + 1);
      assert BitmapSynced(v, i);
      assert v.bits[4096 * i..] == v.bits[4096 * i..4096 * (i + 1)] + v.bits[4096 * (i + 1)..];
    } else {
      assert 4096 * i == |v.bits|;
    }
  }

  /** When cache and disk agree, loading the disk again rebuilds the same volume. */
  lemma LoadRebuilds(v: Vol)
    requires Shape(v) && Synced(v)
    ensures Load(v.lay, v.disk) == v
  {
    LoadBitsIs(v, 0);
    assert v.bits[0..] == v.bits;
    forall i | 0 <= i < |v.ents|
      ensures Load(v.lay, v.disk).ents[i] == v.ents[i]
    {
      if i < v.hdr.count {
        assert SlotSynced(v, i);
      }
    }
    assert Load(v.lay, v.disk).ents == v.ents;
  }

  /** With header and bitmap saved, loading rebuilds the volume exactly when the used slots are saved too. */
  lemma LoadRebuildsIff(v: Vol)
    requires Shape(v) && v.disk[v.lay.meta] == HeaderSector(v.hdr) && BitsSynced(v)
    ensures Load(v.lay, v.disk) == v <==> SlotsSynced(v, v.hdr.count)
  {
    if SlotsSynced(v, v.hdr.count) {
      LoadRebuilds(v);
    } else {
      var i :| 0 <= i < v.hdr.count && !SlotSynced(v, i);
      UnsavedSlot(v, i);
    }
  }

  lemma UnsavedSlot(v: Vol, i: nat)
    requires Shape(v) && v.disk[v.lay.meta] == HeaderSector(v.hdr) && i < v.hdr.count && !SlotSynced(v, i)
    ensures i < |Load(v.lay, v.disk).ents| && Load(v.lay, v.disk).ents[i] != v.ents[i]
  {
    hide LoadBits, Honest;
    assert v.ents[i].kind == FILE || v.ents[i].kind == DIR;
  }

  // ---------------------------------------------------------------- xcfs_format

  function FormatOn(lay: Layout, disk: seq<Sector>, total: nat): Vol
    requires lay.maxFiles > 0
  {
    var ents := seq(lay.maxFiles, i => if i == 0 then Entry("/", 0, 0, 0, DIR, PROTECTED) else BLANK);
    var v := Vol(lay, Header(MAGIC, VERSION, total, 1), ents, seq(4096 * BitmapSectors(total), _ => false), disk);
    SaveBitmap(SaveEntries(SaveHeader(v), 0, 1))
  }

  // ---------------------------------------------------------------- xcfs_mkdir and xcfs_create

  /** The table with one more entry, in the cache. */
  function AddEntry(v: Vol, e: Entry): Vol
    requires v.hdr.count < |v.ents|
  {
    v.(ents := v.ents[v.hdr.count := e], hdr := v.hdr.(count := v.hdr.count + 1))
  }

  /** The checks that `xcfs_mkdir` and `xcfs_create` share: the slot of the parent, or nothing. */
  function Admit(v: Vol, norm: string): (r: Option<nat>)
    requires v.hdr.count <= |v.ents|
    ensures r.Some? ==> v.hdr.count < v.lay.maxFiles && Find(TableOf(v), norm).None?
                        && FindParent(TableOf(v), norm) == r
  {
    if v.hdr.count >= v.lay.maxFiles || Find(TableOf(v), norm).Some? then None else FindParent(TableOf(v), norm)
  }

  function MkdirOn(v: Vol, norm: string): (Vol, bool)
    requires Roomy(v)
  {
    match Admit(v, norm)
    case None => (v, false)
    case Some(par) =>
      var v' := AddEntry(v, Entry(norm, 0, 0, par, DIR, 0));
      (SaveEntries(SaveHeader(v'), v.hdr.count, v.hdr.count + 1), true)
  }

  predicate ClearRun(bits: seq<bool>, i: nat, n: nat) {
    i + n <= |bits| && forall k :: i <= k < i + n ==> !bits[k]
  }

  /** `bmp_find` over the first `limit` bits: the first place, from `i` on, with `n` clear bits in a row. */
  function FirstRun(bits: seq<bool>, limit: nat, n: nat, i: nat): (r: Option<nat>)
    requires limit <= |bits|
    ensures r.Some? ==> i <= r.value && r.value + n <= limit && ClearRun(bits, r.value, n)
    ensures r.Some? ==> forall s :: i <= s < r.value ==> !ClearRun(bits, s, n)
    ensures r.None? ==> forall s :: i <= s && s + n <= limit ==> !ClearRun(bits, s, n)
    decreases limit - i
  {
    if i + n > limit then None
    else if ClearRun(bits, i, n) then Some(i)
    else FirstRun(bits, limit, n, i + 1)
  }

  /** A data sector of zeros. */
  function Zeros(): Sector {
    Data(seq(512, _ => 0))
  }

  function ZeroFill(disk: seq<Sector>, start: nat, n: nat): (r: seq<Sector>)
    ensures |r| == |disk|
    ensures forall x :: 0 <= x < |disk| ==> r[x] == if start <= x < start + n then Zeros() else disk[x]
  {
    seq(|disk|, x requires 0 <= x < |disk| => if start <= x < start + n then Zeros() else disk[x])
  }

  /** The place for a new file of that size, as a sector number. */
  function Place(v: Vol, size: nat): Option<nat>
    requires Roomy(v)
  {
    match FirstRun(v.bits, v.hdr.total - v.lay.dataStart, SectorsOf(size), 0)
    case None => None
    case Some(k) => Some(v.lay.dataStart + k)
  }

  /** The volume with a new file of that size at sector `start`, full of zeros. */
  function CreateAt(v: Vol, norm: string, par: nat, start: nat, size: nat): Vol
    requires v.hdr.count < |v.ents|
  {
    var n := SectorsOf(size);
    var v1 := AddEntry(v, Entry(norm, start, size, par, FILE, 0));
    var v2 := v1.(bits := Mark(v.bits, v.lay.dataStart, start, n, true));
    var v3 := SaveBitmap(SaveEntries(SaveHeader(v2), v.hdr.count, v.hdr.count + 1));
    v3.(disk := ZeroFill(v3.disk, start, n))
  }

  function CreateOn(v: Vol, norm: string, size: nat): (Vol, bool)
    requires Roomy(v)
  {
    match Admit(v, norm)
    case None => (v, false)
    case Some(par) =>
      match Place(v, size)
      case None => (v, false)
      case Some(start) => (CreateAt(v, norm, par, start, size), true)
  }

  // ---------------------------------------------------------------- xcfs_delete

  predicate HasFlag(flags: nat, flag: nat)
    requires flag > 0
  {
    flags / flag % 2 == 1
  }

  /** The slot that `xcfs_delete` removes, or nothing when it refuses. */
  ghost function Doomed(v: Vol, norm: string): (r: Option<nat>)
    requires v.hdr.count <= |v.ents|
    ensures r.Some? ==> r.value < v.hdr.count && v.ents[r.value].path == norm
  {
    if norm == "/" then None
    else
      match Find(TableOf(v), norm)
      case None => None
      case Some(u) =>
        if HasFlag(v.ents[u].flags, PROTECTED) then None
        else if v.ents[u].kind == DIR && HasChild(TableOf(v), u) then None
        else Some(u)
  }

  function GapAt(t: Table, u: nat): Gap
    requires u < |t|
  {
    Gap(u, t[u].start, SectorsOf(t[u].size))
  }

  /** The cache and disk after the compaction for slot `u`. */
  function Compacted(v: Vol, u: nat): Vol
    requires v.hdr.count <= |v.ents| && u < v.hdr.count && OnDisk(TableOf(v), |v.disk|)
  {
    var t := TableOf(v);
    var g := GapAt(t, u);
    v.(ents := Stage(t, g, |t|) + v.ents[|t|..],
       bits := StageBits(v.bits, v.lay.dataStart, t, g, |t|),
       disk := StageDisk(v.disk, t, g, |t|))
  }

  /** The cache after slot `u` left the table. */
  function DropSlot(v: Vol, u: nat): Vol
    requires u < v.hdr.count <= |v.ents|
  {
    v.(ents := Removed(TableOf(v), u) + [BLANK] + v.ents[v.hdr.count..], hdr := v.hdr.(count := v.hdr.count - 1))
  }

  function DeleteSlot(v: Vol, u: nat): Vol
    requires u < v.hdr.count <= |v.ents| && OnDisk(TableOf(v), |v.disk|)
  {
    var file := v.ents[u].kind != DIR;
    var v1 := if file then Compacted(v, u) else v;
    var v2 := SaveEntries(SaveHeader(DropSlot(v1, u)), u, v.hdr.count);
    if v.ents[u].kind == FILE then SaveBitmap(v2) else v2
  }

  ghost function DeleteOn(v: Vol, norm: string): (Vol, bool)
    requires VolOk(v)
  {
    ExtentsOnDisk(v);
    match Doomed(v, norm)
    case None => (v, false)
    case Some(u) => (DeleteSlot(v, u), true)
  }

  lemma ExtentsOnDisk(v: Vol)
    requires VolOk(v)
    ensures OnDisk(TableOf(v), |v.disk|)
  {
  }

  // ---------------------------------------------------------------- xcfs_read and xcfs_write

  function BytesOf(s: Sector): seq<Byte> {
    if s.Data? then s.bytes else []
  }

  /** The bytes of sectors in a row. */
  function Flat(c: seq<Sector>): seq<Byte> {
    if c == [] then [] else BytesOf(c[0]) + Flat(c[1..])
  }

  /** `xcfs_read`: the first bytes of the file, at most `size` and at most its size. */
  function ReadOn(v: Vol, norm: string, size: nat): Option<seq<Byte>>
    requires v.hdr.count <= |v.ents| && OnDisk(TableOf(v), |v.disk|)
  {
    match Find(TableOf(v), norm)
    case None => None
    case Some(u) =>
      var e := TableOf(v)[u];
      if e.kind != FILE then None
      else
        var bytes := Flat(Content(e, v.disk));
        var rd := if size < e.size then size else e.size;
        Some(if rd <= |bytes| then bytes[..rd] else bytes)
  }

  /** Sector `s` of a file that holds `data`: its 512 bytes, padded with zeros. */
  function Chunk(data: seq<Byte>, s: nat): (c: Sector)
    ensures c.Data? && |c.bytes| == 512
  {
    var from := if 512 * s <= |data| then 512 * s else |data|;
    var to := if 512 * (s + 1) <= |data| then 512 * (s + 1) else |data|;
    Data(data[from..to] + seq(512 - (to - from), _ => 0))
  }

  function WriteSectors(disk: seq<Sector>, start: nat, data: seq<Byte>, n: nat): (r: seq<Sector>)
    ensures |r| == |disk|
    ensures forall x :: 0 <= x < |disk| ==> r[x] == if start <= x < start + n then Chunk(data, x - start) else disk[x]
  {
    seq(|disk|, x requires 0 <= x < |disk| => if start <= x < start + n then Chunk(data, x - start) else disk[x])
  }

  function WriteOn(v: Vol, norm: string, data: seq<Byte>): (Vol, bool)
    requires Roomy(v)
  {
    match Find(TableOf(v), norm)
    case None => (v, false)
    case Some(u) =>
      var e := v.ents[u];
      if e.kind != FILE || HasFlag(e.flags, READONLY) || |data| > e.size then (v, false)
      else
        var v1 := v.(disk := WriteSectors(v.disk, e.start, data, SectorsOf(|data|)));
        (SaveEntries(v1, u, u + 1), true)
  }
}
